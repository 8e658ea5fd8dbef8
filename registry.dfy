/** The per-kind clause lists and the insert-after-anchor registration the extension uses to
    place each of its clauses right after a named clause of the base grammar. */
module Registry {
  import opened Clauses

  /** The position of the first occurrence of `a` (`Array.prototype.indexOf`). */
  function IndexOf(xs: seq<string>, a: string): (i: nat)
    requires a in xs
    ensures i < |xs| && xs[i] == a && a !in xs[..i]
  {
    if xs[0] == a then 0 else 1 + IndexOf(xs[1..], a)
  }

  /** The first occurrence is the only position with `a` and nothing equal to `a` before it. */
  lemma IndexOfAt(xs: seq<string>, a: string, j: nat)
    requires j < |xs| && xs[j] == a && a !in xs[..j]
    ensures a in xs && IndexOf(xs, a) == j
  {
    assert a in xs;
  }

  /** The list with `name` inserted immediately after the first occurrence of `anchor`. */
  function InsertAfter(xs: seq<string>, anchor: string, name: string): (r: seq<string>)
    requires anchor in xs
    ensures |r| == |xs| + 1
    ensures r[IndexOf(xs, anchor) + 1] == name
  {
    var i := IndexOf(xs, anchor);
    assert xs == xs[..i + 1] + xs[i + 1..];
    xs[..i + 1] + [name] + xs[i + 1..]
  }

  lemma InsertAfterMember(xs: seq<string>, anchor: string, name: string, x: string)
    requires anchor in xs
    ensures x in InsertAfter(xs, anchor, name) <==> x in xs || x == name
  {
    var i := IndexOf(xs, anchor);
    assert xs == xs[..i + 1] + xs[i + 1..];
  }

  /** The list with every occurrence of `a` removed. */
  function Without(xs: seq<string>, a: string): (r: seq<string>)
    ensures a !in r
  {
    if xs == [] then [] else (if xs[0] == a then [] else [xs[0]]) + Without(xs[1..], a)
  }

  lemma {:induction false} WithoutConcat(xs: seq<string>, ys: seq<string>, a: string)
    ensures Without(xs + ys, a) == Without(xs, a) + Without(ys, a)
  {
    if xs == [] {
      assert xs + ys == ys;
    } else {
      var head: seq<string> := if xs[0] == a then [] else [xs[0]];
      assert (xs + ys)[0] == xs[0] && (xs + ys)[1..] == xs[1..] + ys;
      assert Without(xs + ys, a) == head + Without(xs[1..] + ys, a);
      WithoutConcat(xs[1..], ys, a);
      assert Without(xs, a) == head + Without(xs[1..], a);
      assert head + (Without(xs[1..], a) + Without(ys, a)) == (head + Without(xs[1..], a)) + Without(ys, a);
    }
  }

  lemma {:induction false} WithoutAbsent(xs: seq<string>, a: string)
    requires a !in xs
    ensures Without(xs, a) == xs
  {
    if xs != [] {
      WithoutAbsent(xs[1..], a);
    }
  }

  /** Inserting a new clause keeps every other clause and their order: taking it out again
      gives back the list as it was. */
  lemma InsertAfterInverse(xs: seq<string>, anchor: string, name: string)
    requires anchor in xs && name !in xs
    ensures Without(InsertAfter(xs, anchor, name), name) == xs
  {
    var i := IndexOf(xs, anchor);
    var pre, post := xs[..i + 1], xs[i + 1..];
    assert xs == pre + post;
    assert name !in pre && name !in post;
    WithoutConcat(pre + [name], post, name);
    WithoutConcat(pre, [name], name);
    assert Without([name], name) == [] by { assert [name][1..] == []; }
    WithoutAbsent(pre, name);
    WithoutAbsent(post, name);
    assert pre + [] == pre;
  }

  /** Clause `b` is placed immediately after clause `a`. */
  predicate Follows(xs: seq<string>, a: string, b: string)
  {
    a in xs && b in xs && IndexOf(xs, b) == IndexOf(xs, a) + 1
  }

  /** A clause inserted after its anchor follows the anchor. */
  lemma InsertAfterFollows(xs: seq<string>, anchor: string, name: string)
    requires anchor in xs && name !in xs
    ensures Follows(InsertAfter(xs, anchor, name), anchor, name)
  {
    var r := InsertAfter(xs, anchor, name);
    var i := IndexOf(xs, anchor);
    assert r[..i] == xs[..i];
    IndexOfAt(r, anchor, i);
    assert r[..i + 1] == xs[..i + 1];
    IndexOfAt(r, name, i + 1);
  }

  /** A neighbour pair ahead of the insertion point keeps its positions. */
  lemma InsertAfterKeepsEarlier(xs: seq<string>, anchor: string, name: string, p: string, q: string)
    requires anchor in xs && name !in xs
    requires Follows(xs, p, q) && IndexOf(xs, p) < IndexOf(xs, anchor)
    ensures Follows(InsertAfter(xs, anchor, name), p, q)
  {
    var r := InsertAfter(xs, anchor, name);
    var i, j := IndexOf(xs, anchor), IndexOf(xs, p);
    assert r[..i + 1] == xs[..i + 1];
    assert r[..j] == xs[..j];
    IndexOfAt(r, p, j);
    assert r[..j + 1] == xs[..j + 1];
    IndexOfAt(r, q, j + 1);
  }

  /** What is missing from a prefix is missing from every slice inside it. */
  lemma AbsentFromSlice(xs: seq<string>, a: string, lo: nat, hi: nat, n: nat)
    requires lo <= hi <= n <= |xs| && a !in xs[..n]
    ensures a !in xs[lo..hi]
  {
    forall t | 0 <= t < hi - lo ensures xs[lo..hi][t] != a {
      assert xs[lo..hi][t] == xs[..n][lo + t];
    }
  }

  /** Behind a prefix that lacks `x`, the first occurrence of `x` is found one prefix
      length further along. */
  lemma IndexOfConcat(xs: seq<string>, ys: seq<string>, x: string)
    requires x !in xs && x in ys
    ensures x in xs + ys && IndexOf(xs + ys, x) == |xs| + IndexOf(ys, x)
  {
    var k := IndexOf(ys, x);
    assert (xs + ys)[..|xs| + k] == xs + ys[..k];
    IndexOfAt(xs + ys, x, |xs| + k);
  }

  /** A clause first met behind position `i` moves one place along when a new clause goes in
      right after position `i`. */
  lemma IndexOfShift(xs: seq<string>, i: nat, name: string, x: string)
    requires i < |xs| && name !in xs && x in xs && IndexOf(xs, x) > i
    ensures x in xs[..i + 1] + [name] + xs[i + 1..]
    ensures IndexOf(xs[..i + 1] + [name] + xs[i + 1..], x) == IndexOf(xs, x) + 1
  {
    var j := IndexOf(xs, x);
    var pre, post := xs[..i + 1], xs[i + 1..];
    assert xs == pre + post;
    AbsentFromSlice(xs, x, 0, i + 1, j);
    assert pre == xs[0..i + 1];
    assert post[j - i - 1] == x;
    IndexOfConcat(pre, post, x);
    IndexOfConcat(pre + [name], post, x);
  }

  /** A neighbour pair behind the insertion point moves one place along, together. */
  lemma InsertAfterKeepsLater(xs: seq<string>, anchor: string, name: string, p: string, q: string)
    requires anchor in xs && name !in xs
    requires Follows(xs, p, q) && IndexOf(xs, anchor) < IndexOf(xs, p)
    ensures Follows(InsertAfter(xs, anchor, name), p, q)
  {
    var i := IndexOf(xs, anchor);
    IndexOfShift(xs, i, name, p);
    IndexOfShift(xs, i, name, q);
  }

  /** Inserting after a different anchor leaves an existing neighbour pair intact. */
  lemma InsertAfterKeepsFollows(xs: seq<string>, anchor: string, name: string, p: string, q: string)
    requires anchor in xs && name !in xs
    requires Follows(xs, p, q) && p != anchor
    ensures Follows(InsertAfter(xs, anchor, name), p, q)
  {
    if IndexOf(xs, p) < IndexOf(xs, anchor) {
      InsertAfterKeepsEarlier(xs, anchor, name, p, q);
    } else {
      InsertAfterKeepsLater(xs, anchor, name, p, q);
    }
  }

  /** How a registration ended. */
  datatype Registration = Defined | AlreadyDefined | UnknownAnchor

  /** Registering clause `name` after clause `after`: a name already in the list is not
      added twice, an anchor missing from the list is a configuration error, and otherwise the
      clause goes immediately after the anchor. */
  function Register(xs: seq<string>, name: string, after: string): (r: (Registration, seq<string>))
    ensures r.0 == Defined <==> name !in xs && after in xs
    ensures r.0 != Defined ==> r.1 == xs
  {
    if name in xs then (AlreadyDefined, xs)
    else if after !in xs then (UnknownAnchor, xs)
    else (Defined, InsertAfter(xs, after, name))
  }

  /** A successful registration places the clause right after its anchor and changes
      nothing else in the list. */
  lemma RegisterPlaces(xs: seq<string>, name: string, after: string)
    requires name !in xs && after in xs
    ensures var r := Register(xs, name, after);
      r.0 == Defined && Follows(r.1, after, name) && Without(r.1, name) == xs
  {
    InsertAfterFollows(xs, after, name);
    InsertAfterInverse(xs, after, name);
  }

  /** Registering the same clause a second time changes nothing. */
  lemma RegisterTwice(xs: seq<string>, name: string, after: string)
    ensures Register(Register(xs, name, after).1, name, after).1 == Register(xs, name, after).1
    ensures Register(Register(xs, name, after).1, name, after).0 != Defined
  {
    var once := Register(xs, name, after);
    if once.0 == Defined {
      assert name in once.1;
    }
  }

  const AllKinds: set<Kind> := {Select, Insert, Update, Delete}

  /** What the base grammar's list for one kind must offer before the extension is installed:
      the anchors the extension names, and none of the clauses it adds. */
  predicate KindReady(kind: Kind, xs: seq<string>)
  {
    match kind
    case Select => "orderBy" in xs && "limit" !in xs && "offset" !in xs
    case Insert => "insert" in xs && "values" in xs && "onDuplicateKeyUpdate" !in xs && "ignore" !in xs
    case Update => "where" in xs && "orderBy" !in xs && "limit" !in xs
    case Delete => "where" in xs && "orderBy" !in xs && "limit" !in xs
  }

  predicate BaseReady(base: map<Kind, seq<string>>)
  {
    && base.Keys == AllKinds
    && KindReady(Select, base[Select]) && KindReady(Insert, base[Insert])
    && KindReady(Update, base[Update]) && KindReady(Delete, base[Delete])
  }

  /** One kind's clause list once the extension's registrations for that kind have run, in
      the order the extension runs them. */
  function InstalledList(kind: Kind, xs: seq<string>): seq<string>
  {
    match kind
    case Select => Register(Register(xs, "limit", "orderBy").1, "offset", "limit").1
    case Insert => Register(Register(xs, "onDuplicateKeyUpdate", "values").1, "ignore", "insert").1
    case Update => Register(Register(xs, "orderBy", "where").1, "limit", "orderBy").1
    case Delete => Register(Register(xs, "orderBy", "where").1, "limit", "orderBy").1
  }

  /** Registering `b` after `a` and then `c` after `b` forms the chain a, b, c, and removing
      the two again gives back the list. */
  lemma RegisterChain(xs: seq<string>, a: string, b: string, c: string)
    requires a in xs && b !in xs && c !in xs && b != c
    ensures var r := Register(Register(xs, b, a).1, c, b).1;
      Follows(r, a, b) && Follows(r, b, c) && Without(Without(r, c), b) == xs
  {
    var once := InsertAfter(xs, a, b);
    RegisterPlaces(xs, b, a);
    InsertAfterMember(xs, a, b, c);
    RegisterPlaces(once, c, b);
    if a != b {
      InsertAfterKeepsFollows(once, b, c, a, b);
    }
  }

  /** Registering `b` after `a` and then `d` after a different anchor `c` keeps both pairs,
      and removing the two again gives back the list. */
  lemma RegisterPair(xs: seq<string>, a: string, b: string, c: string, d: string)
    requires a in xs && c in xs && b !in xs && d !in xs && b != d && a != c
    ensures var r := Register(Register(xs, b, a).1, d, c).1;
      Follows(r, a, b) && Follows(r, c, d) && Without(Without(r, d), b) == xs
  {
    var once := InsertAfter(xs, a, b);
    RegisterPlaces(xs, b, a);
    InsertAfterMember(xs, a, b, c);
    InsertAfterMember(xs, a, b, d);
    RegisterPlaces(once, d, c);
    InsertAfterKeepsFollows(once, c, d, a, b);
  }

  /** The clause order the extension establishes: DELETE and UPDATE read where, orderBy,
      limit; SELECT reads orderBy, limit, offset; INSERT has ignore right after insert and
      onDuplicateKeyUpdate right after values. Removing the added clauses gives back the base
      grammar's lists, every base clause kept in its order. */
  lemma InstalledOrder(base: map<Kind, seq<string>>)
    requires BaseReady(base)
    ensures var del := InstalledList(Delete, base[Delete]);
      Follows(del, "where", "orderBy") && Follows(del, "orderBy", "limit")
      && Without(Without(del, "limit"), "orderBy") == base[Delete]
    ensures var upd := InstalledList(Update, base[Update]);
      Follows(upd, "where", "orderBy") && Follows(upd, "orderBy", "limit")
      && Without(Without(upd, "limit"), "orderBy") == base[Update]
    ensures var sel := InstalledList(Select, base[Select]);
      Follows(sel, "orderBy", "limit") && Follows(sel, "limit", "offset")
      && Without(Without(sel, "offset"), "limit") == base[Select]
    ensures var ins := InstalledList(Insert, base[Insert]);
      Follows(ins, "insert", "ignore") && Follows(ins, "values", "onDuplicateKeyUpdate")
      && Without(Without(ins, "ignore"), "onDuplicateKeyUpdate") == base[Insert]
  {
    RegisterChain(base[Delete], "where", "orderBy", "limit");
    RegisterChain(base[Update], "where", "orderBy", "limit");
    RegisterChain(base[Select], "orderBy", "limit", "offset");
    RegisterPair(base[Insert], "values", "onDuplicateKeyUpdate", "insert", "ignore");
  }

  /** The process-wide clause lists, one per statement kind, filled in by the base grammar
      and extended once when the extension module is loaded. */
  class ClauseRegistry {
    var lists: map<Kind, seq<string>>

    ghost predicate Valid()
      reads this
    {
      lists.Keys == AllKinds
    }

    constructor (select: seq<string>, insert: seq<string>, update: seq<string>, delete: seq<string>)
      ensures Valid()
      ensures lists == map[Select := select, Insert := insert, Update := update, Delete := delete]
    {
      lists := map[Select := select, Insert := insert, Update := update, Delete := delete];
    }

    /** `defineClause(name, renderer, {after})` on one statement kind. */
    method DefineClause(kind: Kind, name: string, after: string) returns (outcome: Registration)
      requires Valid()
      modifies this
      ensures Valid()
      ensures outcome == Register(old(lists[kind]), name, after).0
      ensures lists == old(lists)[kind := Register(old(lists[kind]), name, after).1]
    {
      var r := Register(lists[kind], name, after);
      outcome := r.0;
      lists := lists[kind := r.1];
    }

    /** The registrations the extension performs when it is loaded, in their order. */
    method Install()
      requires Valid()
      modifies this
      ensures Valid()
      ensures lists[Select] == InstalledList(Select, old(lists[Select]))
      ensures lists[Insert] == InstalledList(Insert, old(lists[Insert]))
      ensures lists[Update] == InstalledList(Update, old(lists[Update]))
      ensures lists[Delete] == InstalledList(Delete, old(lists[Delete]))
    {
      var outcome;
      outcome := DefineClause(Delete, "orderBy", "where");
      outcome := DefineClause(Update, "orderBy", "where");
      outcome := DefineClause(Select, "limit", "orderBy");
      outcome := DefineClause(Update, "limit", "orderBy");
      outcome := DefineClause(Delete, "limit", "orderBy");
      outcome := DefineClause(Select, "offset", "limit");
      outcome := DefineClause(Insert, "onDuplicateKeyUpdate", "values");
      outcome := DefineClause(Insert, "ignore", "insert");
    }
  }
}
