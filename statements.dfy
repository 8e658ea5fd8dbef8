/** Whole statements: the clause order the extension installs, combined with the builder's
    renderers and the assembler, fixes where each extension clause lands in the SQL text. */
module Statements {
  import opened Wrappers
  import opened Text
  import opened Assembler
  import opened Clauses
  import opened Registry
  import opened Builder

  /** Where the extension's registrations put its clauses in one kind's list. */
  lemma InstalledFollows(kind: Kind, xs: seq<string>)
    requires KindReady(kind, xs)
    ensures var clauses := InstalledList(kind, xs);
      match kind
      case Select => Follows(clauses, "orderBy", "limit") && Follows(clauses, "limit", "offset")
      case Insert => Follows(clauses, "insert", "ignore") && Follows(clauses, "values", "onDuplicateKeyUpdate")
      case _ => Follows(clauses, "where", "orderBy") && Follows(clauses, "orderBy", "limit")
  {
    match kind
    case Select => RegisterChain(xs, "orderBy", "limit", "offset");
    case Insert => RegisterPair(xs, "values", "onDuplicateKeyUpdate", "insert", "ignore");
    case _ => RegisterChain(xs, "where", "orderBy", "limit");
  }

  /** The text of a present LIMIT or OFFSET. */
  lemma NumericFragments(b: StatementBuilder, reserved: set<string>, base: map<string, string>)
    requires b.Renderable()
    ensures b.kind != Insert && b.limit.Some? && b.limit.value != 0
      ==> b.Fragment(reserved, base, LimitName) == Some("LIMIT " + Decimal(b.limit.value))
    ensures b.kind == Select && b.offset.Some? && b.offset.value != 0
      ==> b.Fragment(reserved, base, OffsetName) == Some("OFFSET " + Decimal(b.offset.value))
  {
  }

  /** SELECT with both LIMIT and OFFSET set: the two come out next to each other, LIMIT
      first, one space apart, each with the decimal text of its value. */
  lemma SelectLimitOffset(b: StatementBuilder, reserved: set<string>, base: map<string, string>, xs: seq<string>, n: nat, m: nat)
    requires b.kind == Select && b.Renderable() && KindReady(Select, xs)
    requires b.limit == Some(n) && n != 0 && b.offset == Some(m) && m != 0
    ensures Follows(InstalledList(Select, xs), LimitName, OffsetName)
    ensures var clauses := InstalledList(Select, xs);
      var i := IndexOf(clauses, LimitName);
      b.Render(reserved, base, clauses)
      == Lead(b.Fragments(reserved, base, clauses)[..i]) + ("LIMIT " + Decimal(n)) + " " + ("OFFSET " + Decimal(m))
         + Trail(b.Fragments(reserved, base, clauses)[i + 2..])
  {
    var clauses := InstalledList(Select, xs);
    InstalledFollows(Select, xs);
    NumericFragments(b, reserved, base);
    AdjacentClausesRender(b, reserved, base, clauses, LimitName, OffsetName);
  }

  /** DELETE and UPDATE with ORDER BY and LIMIT both present: ORDER BY comes first and LIMIT
      right after it, one space apart. */
  lemma OrderByThenLimit(b: StatementBuilder, reserved: set<string>, base: map<string, string>, xs: seq<string>, n: nat)
    requires (b.kind == Delete || b.kind == Update) && b.Renderable() && KindReady(b.kind, xs)
    requires RenderOrderBy(reserved, b.orderBy).Some? && b.limit == Some(n) && n != 0
    ensures Follows(InstalledList(b.kind, xs), OrderByName, LimitName)
    ensures var clauses := InstalledList(b.kind, xs);
      var i := IndexOf(clauses, OrderByName);
      b.Render(reserved, base, clauses)
      == Lead(b.Fragments(reserved, base, clauses)[..i]) + RenderOrderBy(reserved, b.orderBy).value + " " + ("LIMIT " + Decimal(n))
         + Trail(b.Fragments(reserved, base, clauses)[i + 2..])
  {
    var clauses := InstalledList(b.kind, xs);
    InstalledFollows(b.kind, xs);
    NumericFragments(b, reserved, base);
    assert b.Fragment(reserved, base, OrderByName) == RenderOrderBy(reserved, b.orderBy);
    AdjacentClausesRender(b, reserved, base, clauses, OrderByName, LimitName);
  }

  /** INSERT after `ignore()`: IGNORE comes right after the base grammar's INSERT keyword. */
  lemma IgnoreAfterInsert(b: StatementBuilder, reserved: set<string>, base: map<string, string>, xs: seq<string>)
    requires b.kind == Insert && b.Renderable() && KindReady(Insert, xs) && b.insertIgnore
    requires "insert" in base && base["insert"] != ""
    ensures Follows(InstalledList(Insert, xs), "insert", IgnoreName)
    ensures var clauses := InstalledList(Insert, xs);
      var i := IndexOf(clauses, "insert");
      b.Render(reserved, base, clauses)
      == Lead(b.Fragments(reserved, base, clauses)[..i]) + base["insert"] + " " + "IGNORE"
         + Trail(b.Fragments(reserved, base, clauses)[i + 2..])
  {
    var clauses := InstalledList(Insert, xs);
    InstalledFollows(Insert, xs);
    assert b.Fragment(reserved, base, "insert") == Some(base["insert"]);
    assert b.Fragment(reserved, base, IgnoreName) == Some("IGNORE");
    AdjacentClausesRender(b, reserved, base, clauses, "insert", IgnoreName);
  }

  /** INSERT with a non-empty ON DUPLICATE KEY UPDATE array: the clause comes right after
      the base grammar's VALUES fragment. */
  lemma OnDuplicateAfterValues(b: StatementBuilder, reserved: set<string>, base: map<string, string>, xs: seq<string>)
    requires b.kind == Insert && b.Renderable() && KindReady(Insert, xs)
    requires b.onDuplicateColumns.Columns? && b.onDuplicateColumns.entries != []
    requires "values" in base && base["values"] != ""
    ensures Follows(InstalledList(Insert, xs), "values", OnDuplicateName)
    ensures var clauses := InstalledList(Insert, xs);
      var i := IndexOf(clauses, "values");
      b.Render(reserved, base, clauses)
      == Lead(b.Fragments(reserved, base, clauses)[..i]) + base["values"] + " "
         + RenderOnDuplicate(reserved, b.onDuplicateColumns).value
         + Trail(b.Fragments(reserved, base, clauses)[i + 2..])
  {
    var clauses := InstalledList(Insert, xs);
    InstalledFollows(Insert, xs);
    assert b.Fragment(reserved, base, "values") == Some(base["values"]);
    assert b.Fragment(reserved, base, OnDuplicateName) == RenderOnDuplicate(reserved, b.onDuplicateColumns);
    AdjacentClausesRender(b, reserved, base, clauses, "values", OnDuplicateName);
  }
}
