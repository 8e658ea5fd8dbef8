/** A statement builder with the extension's state: the fluent setters write one field each
    and hand back the same builder, and rendering reads the fields through the clause
    renderers, in the order of the statement kind's clause list. */
module Builder {
  import opened Wrappers
  import opened Assembler
  import opened Clauses
  import opened Registry

  /** The base grammar's fragment for a clause of its own, if it renders one; the base
      grammar's rendering is outside this model and is given as a map. */
  function BaseFragment(base: map<string, string>, name: string): Option<string>
  {
    if name in base then Some(base[name]) else None
  }

  /** The clause list with the extension's clauses for `kind` taken out. */
  function BaseClauses(kind: Kind, clauses: seq<string>): (r: seq<string>)
    ensures forall x :: x in r ==> x in clauses && x !in ExtensionClauses(kind)
  {
    if clauses == [] then []
    else (if clauses[0] in ExtensionClauses(kind) then [] else [clauses[0]]) + BaseClauses(kind, clauses[1..])
  }

  /** For a kind with two extension clauses `a` and `b`, dropping the extension's clauses is
      removing every `b` and then every `a`. */
  lemma {:induction false} BaseClausesWithout(kind: Kind, ys: seq<string>, a: string, b: string)
    requires ExtensionClauses(kind) == {a, b}
    ensures BaseClauses(kind, ys) == Without(Without(ys, b), a)
  {
    if ys != [] {
      var hb: seq<string> := if ys[0] == b then [] else [ys[0]];
      assert Without(ys, b) == hb + Without(ys[1..], b);
      WithoutConcat(hb, Without(ys[1..], b), a);
      assert Without(hb, a) == (if ys[0] in ExtensionClauses(kind) then [] else [ys[0]]) by {
        if hb != [] { assert hb[1..] == []; }
      }
      BaseClausesWithout(kind, ys[1..], a, b);
    }
  }

  /** Taking the extension's clauses back out of an installed list gives the base grammar's
      list, every base clause kept in its order. */
  lemma InstalledBaseClauses(kind: Kind, xs: seq<string>)
    requires KindReady(kind, xs)
    ensures BaseClauses(kind, InstalledList(kind, xs)) == xs
  {
    match kind
    case Select => ChainBaseClauses(kind, xs, "orderBy", "limit", "offset");
    case Insert => PairBaseClauses(kind, xs, "values", "onDuplicateKeyUpdate", "insert", "ignore");
    case _ => ChainBaseClauses(kind, xs, "where", "orderBy", "limit");
  }

  lemma ChainBaseClauses(kind: Kind, xs: seq<string>, a: string, b: string, c: string)
    requires ExtensionClauses(kind) == {b, c}
    requires a in xs && b !in xs && c !in xs && b != c
    ensures BaseClauses(kind, Register(Register(xs, b, a).1, c, b).1) == xs
  {
    RegisterChain(xs, a, b, c);
    BaseClausesWithout(kind, Register(Register(xs, b, a).1, c, b).1, b, c);
  }

  lemma PairBaseClauses(kind: Kind, xs: seq<string>, a: string, b: string, c: string, d: string)
    requires ExtensionClauses(kind) == {b, d}
    requires a in xs && c in xs && b !in xs && d !in xs && b != d && a != c
    ensures BaseClauses(kind, Register(Register(xs, b, a).1, d, c).1) == xs
  {
    RegisterPair(xs, a, b, c, d);
    BaseClausesWithout(kind, Register(Register(xs, b, a).1, d, c).1, b, d);
  }

  /** The fragments the base grammar alone renders for a clause list. */
  function BaseFragments(base: map<string, string>, clauses: seq<string>): (r: seq<Option<string>>)
    ensures |r| == |clauses|
    ensures forall i :: 0 <= i < |r| ==> r[i] == BaseFragment(base, clauses[i])
  {
    seq(|clauses|, i requires 0 <= i < |clauses| => BaseFragment(base, clauses[i]))
  }

  class StatementBuilder {
    const kind: Kind
    var orderBy: Option<seq<string>>       // _orderBy
    var limit: Option<nat>                 // _limit
    var offset: Option<nat>                // _offset
    var onDuplicateColumns: DupArg         // _onDuplicateColumns
    var insertIgnore: bool                 // _insertIgnore

    /** A fresh builder: none of the extension's fields has been set. */
    constructor (kind: Kind)
      ensures this.kind == kind
      ensures orderBy == None && limit == None && offset == None
      ensures onDuplicateColumns == Falsy && !insertIgnore
    {
      this.kind := kind;
      orderBy, limit, offset := None, None, None;
      onDuplicateColumns, insertIgnore := Falsy, false;
    }

    /** `orderBy(...columns)` on DELETE and UPDATE: stores the columns given. */
    method OrderBy(columns: seq<string>) returns (self: StatementBuilder)
      requires kind == Delete || kind == Update
      modifies this
      ensures self == this && orderBy == Some(columns)
      ensures limit == old(limit) && offset == old(offset)
      ensures onDuplicateColumns == old(onDuplicateColumns) && insertIgnore == old(insertIgnore)
    {
      orderBy := Some(columns);
      self := this;
    }

    /** `limit(value)` on SELECT, UPDATE and DELETE; `limit()` stores None. */
    method Limit(value: Option<nat>) returns (self: StatementBuilder)
      requires kind != Insert
      modifies this
      ensures self == this && limit == value
      ensures orderBy == old(orderBy) && offset == old(offset)
      ensures onDuplicateColumns == old(onDuplicateColumns) && insertIgnore == old(insertIgnore)
    {
      limit := value;
      self := this;
    }

    /** `offset(value)` on SELECT; `offset()` stores None. */
    method Offset(value: Option<nat>) returns (self: StatementBuilder)
      requires kind == Select
      modifies this
      ensures self == this && offset == value
      ensures orderBy == old(orderBy) && limit == old(limit)
      ensures onDuplicateColumns == old(onDuplicateColumns) && insertIgnore == old(insertIgnore)
    {
      offset := value;
      self := this;
    }

    /** `onDuplicateKeyUpdate(cols)` on INSERT: stores whatever it is given. */
    method OnDuplicateKeyUpdate(columns: DupArg) returns (self: StatementBuilder)
      requires kind == Insert
      modifies this
      ensures self == this && onDuplicateColumns == columns
      ensures orderBy == old(orderBy) && limit == old(limit) && offset == old(offset)
      ensures insertIgnore == old(insertIgnore)
    {
      onDuplicateColumns := columns;
      self := this;
    }

    /** `ignore()` on INSERT. */
    method Ignore() returns (self: StatementBuilder)
      requires kind == Insert
      modifies this
      ensures self == this && insertIgnore
      ensures orderBy == old(orderBy) && limit == old(limit) && offset == old(offset)
      ensures onDuplicateColumns == old(onDuplicateColumns)
    {
      insertIgnore := true;
      self := this;
    }

    /** Rendering does not throw: no ON DUPLICATE KEY UPDATE entry is null or undefined. */
    predicate Renderable()
      reads this
    {
      Clauses.Renderable(onDuplicateColumns)
    }

    /** None of the extension's clauses for this kind renders anything. */
    predicate Silent(reserved: set<string>)
      reads this
      requires Renderable()
    {
      match kind
      case Select => RenderLimit(limit).None? && RenderOffset(offset).None?
      case Insert => RenderOnDuplicate(reserved, onDuplicateColumns).None? && RenderIgnore(insertIgnore).None?
      case _ => RenderOrderBy(reserved, orderBy).None? && RenderLimit(limit).None?
    }

    /** The fragment of one clause: the extension's renderer for the extension's clauses of
        this kind, the base grammar's fragment for every other clause. */
    function Fragment(reserved: set<string>, base: map<string, string>, name: string): Option<string>
      reads this
      requires Renderable()
    {
      if name !in ExtensionClauses(kind) then BaseFragment(base, name)
      else if name == OrderByName then RenderOrderBy(reserved, orderBy)
      else if name == LimitName then RenderLimit(limit)
      else if name == OffsetName then RenderOffset(offset)
      else if name == OnDuplicateName then RenderOnDuplicate(reserved, onDuplicateColumns)
      else RenderIgnore(insertIgnore)
    }

    function Fragments(reserved: set<string>, base: map<string, string>, clauses: seq<string>): (r: seq<Option<string>>)
      reads this
      requires Renderable()
      ensures |r| == |clauses|
      ensures forall i :: 0 <= i < |r| ==> r[i] == Fragment(reserved, base, clauses[i])
    {
      if clauses == [] then [] else [Fragment(reserved, base, clauses[0])] + Fragments(reserved, base, clauses[1..])
    }

    /** The statement text: the present fragments in clause order, one space apart. */
    function Render(reserved: set<string>, base: map<string, string>, clauses: seq<string>): string
      reads this
      requires Renderable()
    {
      Assemble(Fragments(reserved, base, clauses))
    }

    /** `toString()`: it has no modifies clause, so rendering leaves every field as it was
        and rendering again gives the same text. */
    method ToString(reserved: set<string>, base: map<string, string>, clauses: seq<string>) returns (sql: string)
      requires Renderable()
      ensures sql == Render(reserved, base, clauses)
    {
      sql := Assemble(Fragments(reserved, base, clauses));
    }
  }

  /** Splitting the clause list splits its fragments the same way. */
  lemma FragmentsConcat(b: StatementBuilder, reserved: set<string>, base: map<string, string>, xs: seq<string>, ys: seq<string>)
    requires b.Renderable()
    ensures b.Fragments(reserved, base, xs + ys) == b.Fragments(reserved, base, xs) + b.Fragments(reserved, base, ys)
  {
    var l, r, whole := b.Fragments(reserved, base, xs), b.Fragments(reserved, base, ys), b.Fragments(reserved, base, xs + ys);
    assert |whole| == |l + r|;
    forall i | 0 <= i < |whole| ensures whole[i] == (l + r)[i] {
      if i < |xs| { assert (xs + ys)[i] == xs[i]; } else { assert (xs + ys)[i] == ys[i - |xs|]; }
    }
  }

  /** When no extension clause renders, the statement is exactly what the base grammar renders
      for its own clauses: the extension adds no keyword and no separator. */
  lemma SilentRendersBase(b: StatementBuilder, reserved: set<string>, base: map<string, string>, clauses: seq<string>)
    requires b.Renderable() && b.Silent(reserved)
    ensures b.Render(reserved, base, clauses) == Assemble(BaseFragments(base, BaseClauses(b.kind, clauses)))
  {
    SilentPresent(b, reserved, base, clauses);
  }

  /** A builder none of whose extension fields has been set is silent. */
  lemma UnsetIsSilent(b: StatementBuilder, reserved: set<string>)
    requires b.orderBy == None && b.limit == None && b.offset == None
    requires b.onDuplicateColumns == Falsy && !b.insertIgnore
    ensures b.Renderable() && b.Silent(reserved)
  {
  }

  /** A silent builder renders nothing for an extension clause and the base grammar's fragment
      for every other clause. */
  lemma SilentFragment(b: StatementBuilder, reserved: set<string>, base: map<string, string>, name: string)
    requires b.Renderable() && b.Silent(reserved)
    ensures b.Fragment(reserved, base, name) == if name in ExtensionClauses(b.kind) then None else BaseFragment(base, name)
  {
  }

  /** Fragments that are None on the extension's clauses and the base grammar's elsewhere
      keep exactly what the base grammar renders for its own clauses. */
  lemma {:induction false} BaseOnlyPresent(kind: Kind, base: map<string, string>, clauses: seq<string>, frags: seq<Option<string>>)
    requires |frags| == |clauses|
    requires forall i :: 0 <= i < |frags| ==> frags[i] == if clauses[i] in ExtensionClauses(kind) then None else BaseFragment(base, clauses[i])
    ensures Present(frags) == Present(BaseFragments(base, BaseClauses(kind, clauses)))
  {
    if clauses != [] {
      var head, tail := clauses[0], clauses[1..];
      BaseOnlyPresent(kind, base, tail, frags[1..]);
      var rest := BaseClauses(kind, tail);
      if head in ExtensionClauses(kind) {
        assert BaseClauses(kind, clauses) == rest;
      } else {
        assert BaseClauses(kind, clauses) == [head] + rest;
        BaseFragmentsCons(base, head, rest);
      }
    }
  }

  lemma BaseFragmentsCons(base: map<string, string>, head: string, rest: seq<string>)
    ensures BaseFragments(base, [head] + rest) == [BaseFragment(base, head)] + BaseFragments(base, rest)
  {
    var bf := BaseFragments(base, [head] + rest);
    forall i | 0 <= i < |rest| ensures bf[1..][i] == BaseFragments(base, rest)[i] {
      assert ([head] + rest)[i + 1] == rest[i];
    }
    assert bf == [bf[0]] + bf[1..];
  }

  lemma SilentPresent(b: StatementBuilder, reserved: set<string>, base: map<string, string>, clauses: seq<string>)
    requires b.Renderable() && b.Silent(reserved)
    ensures Present(b.Fragments(reserved, base, clauses)) == Present(BaseFragments(base, BaseClauses(b.kind, clauses)))
  {
    var frags := b.Fragments(reserved, base, clauses);
    forall i | 0 <= i < |frags|
      ensures frags[i] == if clauses[i] in ExtensionClauses(b.kind) then None else BaseFragment(base, clauses[i])
    {
      SilentFragment(b, reserved, base, clauses[i]);
    }
    BaseOnlyPresent(b.kind, base, clauses, frags);
  }

  /** A clause that renders nothing can be taken out of the clause list without changing the
      statement: it leaves no stray separator behind. */
  lemma AbsentClauseAddsNothing(b: StatementBuilder, reserved: set<string>, base: map<string, string>, clauses: seq<string>, i: nat)
    requires b.Renderable() && i < |clauses|
    requires b.Fragment(reserved, base, clauses[i]) == None
    ensures b.Render(reserved, base, clauses) == b.Render(reserved, base, clauses[..i] + clauses[i + 1..])
  {
    assert clauses == clauses[..i] + [clauses[i]] + clauses[i + 1..];
    FragmentsConcat(b, reserved, base, clauses[..i] + [clauses[i]], clauses[i + 1..]);
    FragmentsConcat(b, reserved, base, clauses[..i], [clauses[i]]);
    FragmentsConcat(b, reserved, base, clauses[..i], clauses[i + 1..]);
    assert b.Fragments(reserved, base, [clauses[i]]) == [None];
    AssembleSkipsAbsent(b.Fragments(reserved, base, clauses[..i]), b.Fragments(reserved, base, clauses[i + 1..]));
  }

  /** When clause q follows clause p in the list and both render, the statement holds p's
      fragment, one space and q's fragment, with the earlier clauses before and the later
      clauses after. */
  lemma AdjacentClausesRender(b: StatementBuilder, reserved: set<string>, base: map<string, string>, clauses: seq<string>, p: string, q: string)
    requires b.Renderable() && Follows(clauses, p, q)
    requires b.Fragment(reserved, base, p).Some? && b.Fragment(reserved, base, p).value != ""
    requires b.Fragment(reserved, base, q).Some? && b.Fragment(reserved, base, q).value != ""
    ensures var i, frags := IndexOf(clauses, p), b.Fragments(reserved, base, clauses);
      b.Render(reserved, base, clauses)
      == Lead(frags[..i]) + b.Fragment(reserved, base, p).value + " "
         + b.Fragment(reserved, base, q).value + Trail(frags[i + 2..])
  {
    var i, frags := IndexOf(clauses, p), b.Fragments(reserved, base, clauses);
    AssembleAt(frags, i, b.Fragment(reserved, base, p).value, b.Fragment(reserved, base, q).value);
  }
}
