/** The extension's own test cases, replayed on the model: the setters are called on a fresh
    builder as the tests call them, and the statement comes out as the tests expect. The base
    grammar's clause lists and the fragments it renders for its own clauses are given here as
    plain values. */
module Scenarios {
  import opened Wrappers
  import opened Text
  import opened Assembler
  import opened Clauses
  import opened Registry
  import opened Builder

  /** A SELECT clause list of the base grammar, with ORDER BY as its last clause. */
  const SelectBase: seq<string> := ["select", "from", "where", "groupBy", "having", "orderBy"]

  /** An INSERT clause list of the base grammar. */
  const InsertBase: seq<string> := ["insert", "into", "values"]

  /** Reserved words the quoting function wraps in backticks; the tests use these two. */
  const Reserved: set<string> := {"user", "order"}

  /** `select().from('main.some_table')` as the base grammar renders its own clauses. */
  const SelectFrom: map<string, string> := map["select" := "SELECT *", "from" := "FROM main.some_table"]

  /** `insert(table, ...columns).values(rows)` as the base grammar renders its own clauses:
      the INSERT keyword, the INTO part and the VALUES part (for the tests' table and rows,
      `INTO main.some_table (id, name, age, grade)` and `VALUES (123, 'Moshe', 41, 92), ...`). */
  function InsertInto(into: string, values: string): map<string, string>
  {
    map["insert" := "INSERT", "into" := into, "values" := values]
  }

  /** Registering a new clause after the last one appends it. */
  lemma RegisterLast(xs: seq<string>, name: string)
    requires xs != [] && xs[|xs| - 1] !in xs[..|xs| - 1] && name !in xs
    ensures Register(xs, name, xs[|xs| - 1]).1 == xs + [name]
  {
    IndexOfAt(xs, xs[|xs| - 1], |xs| - 1);
    assert xs[..|xs|] == xs;
  }

  /** Registering a new clause after the first one puts it second. */
  lemma RegisterFirst(xs: seq<string>, name: string)
    requires xs != [] && name !in xs
    ensures Register(xs, name, xs[0]).1 == [xs[0], name] + xs[1..]
  {
    IndexOfAt(xs, xs[0], 0);
  }

  /** The SELECT list once the extension is installed: LIMIT after ORDER BY, OFFSET after LIMIT. */
  lemma SelectInstalled(xs: seq<string>)
    requires xs == SelectBase
    ensures InstalledList(Select, xs) == xs + [LimitName, OffsetName]
  {
    assert xs[5] == "orderBy" && "orderBy" !in xs[..5] && LimitName !in xs;
    RegisterLast(xs, LimitName);
    var once := xs + [LimitName];
    assert once[..6] == xs && OffsetName !in once;
    RegisterLast(once, OffsetName);
    assert once + [OffsetName] == xs + [LimitName, OffsetName];
  }

  /** The INSERT list once the extension is installed: ON DUPLICATE KEY UPDATE after VALUES,
      then IGNORE after INSERT. */
  lemma InsertInstalled(xs: seq<string>)
    requires xs == InsertBase
    ensures InstalledList(Insert, xs) == ["insert", IgnoreName, "into", "values", OnDuplicateName]
  {
    assert xs[2] == "values" && "values" !in xs[..2] && OnDuplicateName !in xs;
    RegisterLast(xs, OnDuplicateName);
    var once := xs + [OnDuplicateName];
    assert once[0] == "insert" && IgnoreName !in once;
    RegisterFirst(once, IgnoreName);
    assert ["insert", IgnoreName] + once[1..] == ["insert", IgnoreName, "into", "values", OnDuplicateName];
  }

  lemma DecimalCases()
    ensures Decimal(100) == "100" && Decimal(50) == "50"
  {
    assert Digit(0) == '0' && Digit(1) == '1' && Digit(5) == '5';
    assert Decimal(1) == "1" && Decimal(5) == "5";
    assert Decimal(10) == Decimal(1) + [Digit(0)];
    assert Decimal(100) == Decimal(10) + [Digit(0)];
    assert Decimal(50) == Decimal(5) + [Digit(0)];
  }

  /** The base grammar's own SELECT clauses render `SELECT *` and `FROM main.some_table`. */
  lemma SelectBaseFragments(b: StatementBuilder)
    requires b.kind == Select && b.Renderable()
    ensures b.Fragments({}, SelectFrom, SelectBase) == [Some("SELECT *"), Some("FROM main.some_table"), None, None, None, None]
  {
    var frags := b.Fragments({}, SelectFrom, SelectBase);
    assert |frags| == 6;
    assert SelectBase[0] == "select";
    assert frags[0] == b.Fragment({}, SelectFrom, "select");
  }

  /** The fragments of the installed SELECT list: the base text, then LIMIT and OFFSET as the
      builder's state renders them. */
  lemma SelectFragments(b: StatementBuilder, xs: seq<string>)
    requires xs == SelectBase && b.kind == Select && b.Renderable()
    ensures b.Fragments({}, SelectFrom, InstalledList(Select, xs))
         == [Some("SELECT *"), Some("FROM main.some_table"), None, None, None, None, RenderLimit(b.limit), RenderOffset(b.offset)]
  {
    SelectInstalled(xs);
    FragmentsConcat(b, {}, SelectFrom, xs, [LimitName, OffsetName]);
    SelectBaseFragments(b);
    var tail := b.Fragments({}, SelectFrom, [LimitName, OffsetName]);
    assert tail[0] == RenderLimit(b.limit) && tail[1] == RenderOffset(b.offset);
  }

  /** The fragments of the installed INSERT list: INSERT, IGNORE as the builder's state renders
      it, INTO and VALUES, then ON DUPLICATE KEY UPDATE as the builder's state renders it. */
  lemma InsertFragments(b: StatementBuilder, reserved: set<string>, xs: seq<string>, into: string, values: string)
    requires xs == InsertBase && b.kind == Insert && b.Renderable()
    ensures b.Fragments(reserved, InsertInto(into, values), InstalledList(Insert, xs))
         == [Some("INSERT"), RenderIgnore(b.insertIgnore), Some(into), Some(values), RenderOnDuplicate(reserved, b.onDuplicateColumns)]
  {
    InsertInstalled(xs);
    var frags := b.Fragments(reserved, InsertInto(into, values), InstalledList(Insert, xs));
    assert |frags| == 5;
    assert frags[0] == b.Fragment(reserved, InsertInto(into, values), "insert");
  }

  /** The statement the base grammar alone renders for `select().from('main.some_table')`. */
  lemma SelectFromText()
    ensures Present([Some("SELECT *"), Some("FROM main.some_table"), None, None, None, None]) != []
    ensures Assemble([Some("SELECT *"), Some("FROM main.some_table"), None, None, None, None]) == "SELECT * FROM main.some_table"
  {
    assert "SELECT *" + " " + "FROM main.some_table" == "SELECT * FROM main.some_table";
    var e: seq<Option<string>> := [Some("SELECT *"), Some("FROM main.some_table"), None, None, None, None];
    var pa: seq<Option<string>> := [Some("SELECT *")];
    var pb: seq<Option<string>> := [Some("FROM main.some_table")];
    var tail: seq<Option<string>> := [None, None, None, None];
    assert e == pa + pb + tail;
    AllAbsent(tail);
    assert Present(pa) == ["SELECT *"] by { assert pa[1..] == []; }
    assert Present(pb) == ["FROM main.some_table"] by { assert pb[1..] == []; }
    PresentConcat(pa, pb);
    PresentConcat(pa + pb, tail);
    var items := ["SELECT *", "FROM main.some_table"];
    assert Present(e) == items;
    assert items[1..] == ["FROM main.some_table"];
    assert Join(items, " ") == "SELECT *" + " " + "FROM main.some_table";
  }

  /** The LIMIT and OFFSET fragments the tests expect. */
  lemma NumericTexts()
    ensures RenderLimit(Some(100)) == Some("LIMIT 100") && RenderOffset(Some(50)) == Some("OFFSET 50")
  {
    DecimalCases();
    assert RenderLimit(Some(100)) == Some("LIMIT" + " " + Decimal(100));
    assert RenderOffset(Some(50)) == Some("OFFSET" + " " + Decimal(50));
    assert "LIMIT" + " " + "100" == "LIMIT 100" && "OFFSET" + " " + "50" == "OFFSET 50";
  }

  lemma SelectLimitOffsetAssembled()
    ensures Assemble([Some("SELECT *"), Some("FROM main.some_table"), None, None, None, None, Some("LIMIT 100"), Some("OFFSET 50")])
         == "SELECT * FROM main.some_table LIMIT 100 OFFSET 50"
  {
    assert "SELECT * FROM main.some_table" + " " + "LIMIT 100" + " " + "OFFSET 50" == "SELECT * FROM main.some_table LIMIT 100 OFFSET 50";
    var head: seq<Option<string>> := [Some("SELECT *"), Some("FROM main.some_table"), None, None, None, None];
    var tail: seq<Option<string>> := [Some("LIMIT 100"), Some("OFFSET 50")];
    assert head + tail == [Some("SELECT *"), Some("FROM main.some_table"), None, None, None, None, Some("LIMIT 100"), Some("OFFSET 50")];
    SelectFromText();
    AssembleAdjacent(head, "LIMIT 100", "OFFSET 50", []);
    assert head + tail + [] == head + tail;
    var empty: seq<Option<string>> := [];
    assert Trail(empty) == "";
  }

  /** The present INSERT fragments: INSERT, IGNORE when set, INTO and VALUES, then ON
      DUPLICATE KEY UPDATE when set. */
  lemma InsertPresent(ignore: Option<string>, into: string, values: string, onDuplicate: Option<string>)
    requires into != "" && values != ""
    requires ignore == None || ignore == Some("IGNORE")
    requires onDuplicate.None? || onDuplicate.value != ""
    ensures Present([Some("INSERT"), ignore, Some(into), Some(values), onDuplicate])
         == (if ignore.Some? then ["INSERT", "IGNORE"] else ["INSERT"]) + [into, values]
            + (if onDuplicate.Some? then [onDuplicate.value] else [])
  {
    var lead: seq<Option<string>> := [Some("INSERT"), ignore];
    var body: seq<Option<string>> := [Some(into), Some(values)];
    var last: seq<Option<string>> := [onDuplicate];
    assert [Some("INSERT"), ignore, Some(into), Some(values), onDuplicate] == lead + body + last;
    LeadPresent(ignore);
    PresentOne(Some(into));
    PresentOne(Some(values));
    assert body == [Some(into)] + [Some(values)];
    PresentConcat([Some(into)], [Some(values)]);
    PresentOne(onDuplicate);
    PresentConcat(lead, body);
    PresentConcat(lead + body, last);
  }

  lemma LeadPresent(ignore: Option<string>)
    requires ignore == None || ignore == Some("IGNORE")
    ensures Present([Some("INSERT"), ignore]) == if ignore.Some? then ["INSERT", "IGNORE"] else ["INSERT"]
  {
    PresentOne(Some("INSERT"));
    PresentOne(ignore);
    assert [Some("INSERT"), ignore] == [Some("INSERT")] + [ignore];
    PresentConcat([Some("INSERT")], [ignore]);
  }

  /** The INSERT statement around the two optional extension fragments: IGNORE between INSERT
      and INTO, ON DUPLICATE KEY UPDATE after VALUES, each set off by one space when present. */
  lemma InsertAssembled(ignore: Option<string>, into: string, values: string, onDuplicate: Option<string>)
    requires into != "" && values != ""
    requires ignore == None || ignore == Some("IGNORE")
    requires onDuplicate.None? || onDuplicate.value != ""
    ensures Assemble([Some("INSERT"), ignore, Some(into), Some(values), onDuplicate])
         == (if ignore.Some? then "INSERT IGNORE" else "INSERT") + " " + into + " " + values
            + (if onDuplicate.Some? then " " + onDuplicate.value else "")
  {
    InsertPresent(ignore, into, values, onDuplicate);
    var head := if ignore.Some? then ["INSERT", "IGNORE"] else ["INSERT"];
    var tail := if onDuplicate.Some? then [onDuplicate.value] else [];
    InsertJoin(head, ignore.Some?, into, values);
    if onDuplicate.Some? {
      JoinAppend(head + [into, values], onDuplicate.value, " ");
    } else {
      assert head + [into, values] + tail == head + [into, values];
    }
  }

  lemma InsertJoin(head: seq<string>, ignore: bool, into: string, values: string)
    requires head == if ignore then ["INSERT", "IGNORE"] else ["INSERT"]
    ensures Join(head + [into, values], " ") == (if ignore then "INSERT IGNORE" else "INSERT") + " " + into + " " + values
  {
    assert Join(head, " ") == if ignore then "INSERT IGNORE" else "INSERT" by {
      if ignore { assert head[1..] == ["IGNORE"]; }
    }
    assert Join([into, values], " ") == into + " " + values by { assert [into, values][1..] == [values]; }
    JoinConcat(head, [into, values], " ");
  }

  /** LIMIT 100 as the last present fragment of the SELECT. */
  lemma SelectLimitAssembled()
    ensures Assemble([Some("SELECT *"), Some("FROM main.some_table"), None, None, None, None, Some("LIMIT 100"), None])
         == "SELECT * FROM main.some_table LIMIT 100"
  {
    assert "SELECT * FROM main.some_table" + " " + "LIMIT 100" == "SELECT * FROM main.some_table LIMIT 100";
    var head: seq<Option<string>> := [Some("SELECT *"), Some("FROM main.some_table"), None, None, None, None];
    var none: seq<Option<string>> := [None];
    assert head + [Some("LIMIT 100")] + none == [Some("SELECT *"), Some("FROM main.some_table"), None, None, None, None, Some("LIMIT 100"), None];
    AssembleAbsentTail(head + [Some("LIMIT 100")], none);
    SelectFromText();
    AssembleAppend(head, "LIMIT 100");
  }

  /** Neither LIMIT nor OFFSET present: the base grammar's SELECT unchanged. */
  lemma SelectPlainAssembled()
    ensures Assemble([Some("SELECT *"), Some("FROM main.some_table"), None, None, None, None, None, None])
         == "SELECT * FROM main.some_table"
  {
    var head: seq<Option<string>> := [Some("SELECT *"), Some("FROM main.some_table"), None, None, None, None];
    var none: seq<Option<string>> := [None, None];
    assert head + none == [Some("SELECT *"), Some("FROM main.some_table"), None, None, None, None, None, None];
    AssembleAbsentTail(head, none);
    SelectFromText();
  }

  /** `select().from(...).limit(100)`. */
  method SelectLimitCase() returns (sql: string)
    ensures sql == "SELECT * FROM main.some_table LIMIT 100"
  {
    var b := new StatementBuilder(Select);
    b := b.Limit(Some(100));
    var base := SelectBase;
    SelectFragments(b, base);
    NumericTexts();
    SelectLimitAssembled();
    sql := b.ToString({}, SelectFrom, InstalledList(Select, base));
  }

  /** `select().from(...).limit()`: LIMIT with no value is left out. */
  method SelectLimitUnsetCase() returns (sql: string)
    ensures sql == "SELECT * FROM main.some_table"
  {
    var b := new StatementBuilder(Select);
    b := b.Limit(None);
    var base := SelectBase;
    SelectFragments(b, base);
    SelectPlainAssembled();
    sql := b.ToString({}, SelectFrom, InstalledList(Select, base));
  }

  /** `select().from(...).limit(100).offset()`: OFFSET with no value is left out. */
  method SelectOffsetUnsetCase() returns (sql: string)
    ensures sql == "SELECT * FROM main.some_table LIMIT 100"
  {
    var b := new StatementBuilder(Select);
    b := b.Limit(Some(100));
    b := b.Offset(None);
    var base := SelectBase;
    SelectFragments(b, base);
    NumericTexts();
    SelectLimitAssembled();
    sql := b.ToString({}, SelectFrom, InstalledList(Select, base));
  }

  /** `select().from(...).limit(100).offset(50)`. */
  method SelectLimitOffsetCase() returns (sql: string)
    ensures sql == "SELECT * FROM main.some_table LIMIT 100 OFFSET 50"
  {
    var b := new StatementBuilder(Select);
    b := b.Limit(Some(100));
    b := b.Offset(Some(50));
    var base := SelectBase;
    SelectFragments(b, base);
    NumericTexts();
    SelectLimitOffsetAssembled();
    sql := b.ToString({}, SelectFrom, InstalledList(Select, base));
  }

  /** One plain column, as in `onDuplicateKeyUpdate(['grade'])`: the column is set to the
      value the row would have inserted. */
  lemma OneColumnText(reserved: set<string>, c: string)
    requires c !in reserved
    ensures RenderOnDuplicate(reserved, Columns([Str(c)])) == Some("ON DUPLICATE KEY UPDATE " + (c + " = VALUES(" + c + ")"))
  {
    var items := Assignments(reserved, [Str(c)]);
    assert |items| == 1 && items[0] == c + " = VALUES(" + c + ")";
    assert Join(items, ListSep) == items[0];
  }

  /** Two plain columns, as in `onDuplicateKeyUpdate(['age', 'grade'])`: both assignments, in
      the order given, separated by ", ". */
  lemma TwoColumnText(reserved: set<string>, c: string, d: string)
    requires c !in reserved && d !in reserved
    ensures RenderOnDuplicate(reserved, Columns([Str(c), Str(d)]))
         == Some("ON DUPLICATE KEY UPDATE " + ((c + " = VALUES(" + c + ")") + ", " + (d + " = VALUES(" + d + ")")))
  {
    var items := Assignments(reserved, [Str(c), Str(d)]);
    assert items == [c + " = VALUES(" + c + ")", d + " = VALUES(" + d + ")"];
    JoinTwo(items[0], items[1], ListSep);
  }

  lemma JoinTwo(x: string, y: string, sep: string)
    ensures Join([x, y], sep) == x + sep + y
  {
    assert [x, y][1..] == [y];
  }

  /** A reserved column is wrapped in the grave accent on both sides of its assignment. */
  lemma ReservedColumnText(reserved: set<string>, c: string)
    requires c in reserved
    ensures RenderOnDuplicate(reserved, Columns([Str(c)]))
         == Some("ON DUPLICATE KEY UPDATE " + (("`" + c + "`") + " = VALUES(" + ("`" + c + "`") + ")"))
  {
    var items := Assignments(reserved, [Str(c)]);
    assert |items| == 1 && items[0] == ("`" + c + "`") + " = VALUES(" + ("`" + c + "`") + ")";
    assert Join(items, ListSep) == items[0];
  }

  /** A column-value object assigns its value expression to its first key. */
  lemma ObjectEntryText(reserved: set<string>, k: string, v: string)
    requires k !in reserved
    ensures RenderOnDuplicate(reserved, Columns([Obj([(k, v)])])) == Some("ON DUPLICATE KEY UPDATE " + (k + " = " + v))
  {
    var items := Assignments(reserved, [Obj([(k, v)])]);
    assert |items| == 1 && items[0] == k + " = " + v;
    assert Join(items, ListSep) == items[0];
  }

  /** `insert(...).values(...).onDuplicateKeyUpdate([c])` for a column that is not reserved. */
  method InsertOnDuplicateCase(into: string, values: string, c: string) returns (sql: string)
    requires into != "" && values != "" && c !in Reserved
    ensures sql == "INSERT" + " " + into + " " + values + " " + ("ON DUPLICATE KEY UPDATE " + (c + " = VALUES(" + c + ")"))
  {
    var b := new StatementBuilder(Insert);
    b := b.OnDuplicateKeyUpdate(Columns([Str(c)]));
    var base := InsertBase;
    InsertFragments(b, Reserved, base, into, values);
    OneColumnText(Reserved, c);
    InsertAssembled(None, into, values, Some("ON DUPLICATE KEY UPDATE " + (c + " = VALUES(" + c + ")")));
    sql := b.ToString(Reserved, InsertInto(into, values), InstalledList(Insert, base));
  }

  /** `insert(...).values(...).onDuplicateKeyUpdate([c, d])` for columns that are not reserved. */
  method InsertTwoColumnsCase(into: string, values: string, c: string, d: string) returns (sql: string)
    requires into != "" && values != "" && c !in Reserved && d !in Reserved
    ensures sql == "INSERT" + " " + into + " " + values + " "
                   + ("ON DUPLICATE KEY UPDATE " + ((c + " = VALUES(" + c + ")") + ", " + (d + " = VALUES(" + d + ")")))
  {
    var b := new StatementBuilder(Insert);
    b := b.OnDuplicateKeyUpdate(Columns([Str(c), Str(d)]));
    var base := InsertBase;
    InsertFragments(b, Reserved, base, into, values);
    TwoColumnText(Reserved, c, d);
    InsertAssembled(None, into, values, Some("ON DUPLICATE KEY UPDATE " + ((c + " = VALUES(" + c + ")") + ", " + (d + " = VALUES(" + d + ")"))));
    sql := b.ToString(Reserved, InsertInto(into, values), InstalledList(Insert, base));
  }

  /** `onDuplicateKeyUpdate()`, `onDuplicateKeyUpdate('grade')` and `onDuplicateKeyUpdate([])`:
      the statement is the base grammar's INSERT, as if the setter had not been called. */
  method InsertNoUpdateCase(into: string, values: string, arg: DupArg) returns (sql: string)
    requires into != "" && values != ""
    requires !arg.Columns? || arg.entries == []
    ensures sql == "INSERT" + " " + into + " " + values
  {
    var b := new StatementBuilder(Insert);
    b := b.OnDuplicateKeyUpdate(arg);
    var base := InsertBase;
    InsertFragments(b, Reserved, base, into, values);
    InsertAssembled(None, into, values, None);
    sql := b.ToString(Reserved, InsertInto(into, values), InstalledList(Insert, base));
  }

  /** `insert(...).ignore().values(...)`. */
  method InsertIgnoreCase(into: string, values: string) returns (sql: string)
    requires into != "" && values != ""
    ensures sql == "INSERT IGNORE" + " " + into + " " + values
  {
    var b := new StatementBuilder(Insert);
    b := b.Ignore();
    var base := InsertBase;
    InsertFragments(b, Reserved, base, into, values);
    InsertAssembled(Some("IGNORE"), into, values, None);
    sql := b.ToString(Reserved, InsertInto(into, values), InstalledList(Insert, base));
  }
}
