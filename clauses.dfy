/** The five MySQL clauses the extension adds, as pure renderers of the builder's stored
    values. Each returns the clause's SQL fragment, or None when the clause is to be left out. */
module Clauses {
  import opened Wrappers
  import opened Text

  /** The four statement kinds of the base grammar. */
  datatype Kind = Select | Insert | Update | Delete

  /** One entry of the ON DUPLICATE KEY UPDATE argument array, classified by its JavaScript
      constructor the way the renderer classifies it. */
  datatype Entry =
    | Str(column: string)                 // a string: update the column from VALUES(column)
    | Obj(pairs: seq<(string, string)>)   // a plain object: its keys in Object.keys order, each value as its string form
    | Other                               // any other value (a number, an array, an instance of a class)
    | Null                                // null or undefined: reading its constructor throws a TypeError

  /** What `onDuplicateKeyUpdate(cols)` stored, as far as the renderer distinguishes it. */
  datatype DupArg =
    | Falsy                               // unset, undefined, null or another falsy value
    | NonArray                            // a truthy value that is not an array, such as a string
    | Columns(entries: seq<Entry>)        // an array (always truthy, even when empty)

  /** The clause names this extension defines. */
  const OrderByName: string := "orderBy"
  const LimitName: string := "limit"
  const OffsetName: string := "offset"
  const OnDuplicateName: string := "onDuplicateKeyUpdate"
  const IgnoreName: string := "ignore"

  /** The clauses the extension adds to a statement kind. ORDER BY is the base grammar's own
      clause on SELECT, so only DELETE and UPDATE get the extension's ORDER BY. */
  function ExtensionClauses(kind: Kind): set<string>
  {
    match kind
    case Select => {LimitName, OffsetName}
    case Insert => {OnDuplicateName, IgnoreName}
    case Update => {OrderByName, LimitName}
    case Delete => {OrderByName, LimitName}
  }

  /** Column quoting with the backtick as the auto-quote character: an identifier that is a
      reserved word is wrapped in backticks, any other column text passes through unchanged. */
  function Q(reserved: set<string>, column: string): (r: string)
    ensures column in reserved ==> |r| == |column| + 2 && r[0] == '`' && r[|r| - 1] == '`' && r[1..|r| - 1] == column
    ensures column !in reserved ==> r == column
  {
    if column in reserved then "`" + column + "`" else column
  }

  function QuoteAll(reserved: set<string>, columns: seq<string>): (r: seq<string>)
    ensures |r| == |columns|
    ensures forall i :: 0 <= i < |r| ==> r[i] == Q(reserved, columns[i])
  {
    seq(|columns|, i requires 0 <= i < |columns| => Q(reserved, columns[i]))
  }

  /** ORDER BY for DELETE and UPDATE. Absent when nothing was stored, when no column was
      given, or when the only column given is the empty string; otherwise the quoted columns
      in the order given, joined by ", ". */
  function RenderOrderBy(reserved: set<string>, orderBy: Option<seq<string>>): (r: Option<string>)
    ensures r.None? <==> (orderBy.None? || orderBy.value == [] || orderBy.value == [""])
    ensures r.Some? ==> |r.value| > 9 && r.value[..9] == "ORDER BY "
  {
    if orderBy.None? || |orderBy.value| <= 0 || (|orderBy.value| == 1 && |orderBy.value[0]| <= 0) then None
    else
      var list := Join(QuoteAll(reserved, orderBy.value), ListSep);
      assert |orderBy.value| > 1 ==> |list| >= 2;
      assert |orderBy.value| == 1 ==> list == Q(reserved, orderBy.value[0]);
      Some("ORDER BY " + list)
  }

  /** The column list of a present ORDER BY reads back as the quoted columns, one per column
      given and in the order given, when no column text contains ", ". */
  lemma OrderByColumns(reserved: set<string>, columns: seq<string>)
    requires columns != [] && columns != [""]
    requires forall i :: 0 <= i < |columns| ==> NoSep(Q(reserved, columns[i]))
    ensures RenderOrderBy(reserved, Some(columns)).Some?
    ensures SplitList(RenderOrderBy(reserved, Some(columns)).value[9..]) == QuoteAll(reserved, columns)
  {
    var r := RenderOrderBy(reserved, Some(columns)).value;
    assert r[9..] == Join(QuoteAll(reserved, columns), ListSep);
    SplitJoin(QuoteAll(reserved, columns));
  }

  /** LIMIT n / OFFSET n: absent when the stored value is falsy, otherwise the keyword, one
      space and the value's decimal text. */
  function NumericClause(keyword: string, value: Option<nat>): (r: Option<string>)
    ensures r.None? <==> (value.None? || value.value == 0)
    ensures r.Some? ==> |r.value| > |keyword| + 1 && r.value[..|keyword| + 1] == keyword + " "
    ensures r.Some? ==> AllDigits(r.value[|keyword| + 1..]) && DigitsValue(r.value[|keyword| + 1..]) == value.value
  {
    if value.Some? && value.value != 0 then
      DecimalRoundTrip(value.value);
      assert (keyword + " " + Decimal(value.value))[|keyword| + 1..] == Decimal(value.value);
      Some(keyword + " " + Decimal(value.value))
    else None
  }

  /** LIMIT for SELECT, UPDATE and DELETE. */
  function RenderLimit(limit: Option<nat>): (r: Option<string>)
    ensures r.None? <==> (limit.None? || limit.value == 0)
    ensures r.Some? ==> |r.value| > 6 && r.value[..6] == "LIMIT "
    ensures r.Some? ==> AllDigits(r.value[6..]) && DigitsValue(r.value[6..]) == limit.value
  {
    NumericClause("LIMIT", limit)
  }

  /** OFFSET for SELECT. */
  function RenderOffset(offset: Option<nat>): (r: Option<string>)
    ensures r.None? <==> (offset.None? || offset.value == 0)
    ensures r.Some? ==> |r.value| > 7 && r.value[..7] == "OFFSET "
    ensures r.Some? ==> AllDigits(r.value[7..]) && DigitsValue(r.value[7..]) == offset.value
  {
    NumericClause("OFFSET", offset)
  }

  /** An entry that can be rendered: anything but null or undefined. */
  predicate Renderable(arg: DupArg)
  {
    arg.Columns? ==> forall i :: 0 <= i < |arg.entries| ==> !arg.entries[i].Null?
  }

  /** One assignment of ON DUPLICATE KEY UPDATE. A string updates the column from the row
      being inserted; a plain object with a key assigns its first value verbatim to its first
      key; any other entry gives an empty item. */
  function Assignment(reserved: set<string>, entry: Entry): (r: string)
    requires !entry.Null?
    ensures entry.Str? ==> r == Q(reserved, entry.column) + " = VALUES(" + Q(reserved, entry.column) + ")"
    ensures entry.Obj? && entry.pairs != [] ==> r == Q(reserved, entry.pairs[0].0) + " = " + entry.pairs[0].1
    ensures entry.Other? || entry == Obj([]) ==> r == ""
  {
    match entry
    case Str(c) =>
      var col := Q(reserved, c);
      col + " = VALUES(" + col + ")"
    case Obj(pairs) =>
      if |pairs| > 0 then Q(reserved, pairs[0].0) + " = " + pairs[0].1 else ""
    case Other => ""
  }

  /** The assignments, one per entry, in the order of the entries. */
  function Assignments(reserved: set<string>, entries: seq<Entry>): (r: seq<string>)
    requires forall i :: 0 <= i < |entries| ==> !entries[i].Null?
    ensures |r| == |entries|
    ensures forall i :: 0 <= i < |r| ==> r[i] == Assignment(reserved, entries[i])
  {
    seq(|entries|, i requires 0 <= i < |entries| => Assignment(reserved, entries[i]))
  }

  /** ON DUPLICATE KEY UPDATE for INSERT. Absent when the stored argument is falsy, is not an
      array, or is an empty array; otherwise the assignments joined by ", ". */
  function RenderOnDuplicate(reserved: set<string>, arg: DupArg): (r: Option<string>)
    requires Renderable(arg)
    ensures r.None? <==> (!arg.Columns? || arg.entries == [])
    ensures r.Some? ==> |r.value| >= 24 && r.value[..24] == "ON DUPLICATE KEY UPDATE "
  {
    if !arg.Columns? || |arg.entries| <= 0 then None
    else Some("ON DUPLICATE KEY UPDATE " + Join(Assignments(reserved, arg.entries), ListSep))
  }

  /** Nothing is dropped, merged or reordered: the assignment list of a present clause reads
      back as one item per entry, in the order of the entries (entries of no recognised shape
      included, as empty items), when no item contains ", ". */
  lemma OnDuplicateItems(reserved: set<string>, entries: seq<Entry>)
    requires entries != []
    requires forall i :: 0 <= i < |entries| ==> !entries[i].Null?
    requires forall i :: 0 <= i < |entries| ==> NoSep(Assignment(reserved, entries[i]))
    ensures RenderOnDuplicate(reserved, Columns(entries)).Some?
    ensures var items := SplitList(RenderOnDuplicate(reserved, Columns(entries)).value[24..]);
            |items| == |entries| && forall i :: 0 <= i < |items| ==> items[i] == Assignment(reserved, entries[i])
  {
    var r := RenderOnDuplicate(reserved, Columns(entries)).value;
    assert r[24..] == Join(Assignments(reserved, entries), ListSep);
    SplitJoin(Assignments(reserved, entries));
  }

  /** IGNORE for INSERT: the bare keyword once `ignore()` has been called, nothing before. */
  function RenderIgnore(insertIgnore: bool): (r: Option<string>)
    ensures r.Some? <==> insertIgnore
    ensures r.Some? ==> r.value == "IGNORE"
  {
    if insertIgnore then Some("IGNORE") else None
  }
}
