/** The statement assembler the extension relies on: it walks a statement's clause list in
    order, keeps the fragments that are present (a renderer that returns nothing, or an empty
    string, contributes nothing), and joins what is left with a single space. */
module Assembler {
  import opened Wrappers
  import opened Text

  /** The present, non-empty fragments, in clause order. */
  function Present(frags: seq<Option<string>>): (r: seq<string>)
    ensures |r| <= |frags|
    ensures forall i :: 0 <= i < |r| ==> r[i] != ""
  {
    if frags == [] then []
    else
      var rest := Present(frags[1..]);
      if frags[0].Some? && frags[0].value != "" then [frags[0].value] + rest else rest
  }

  function Assemble(frags: seq<Option<string>>): string
  {
    Join(Present(frags), " ")
  }

  lemma {:induction false} PresentConcat(a: seq<Option<string>>, b: seq<Option<string>>)
    ensures Present(a + b) == Present(a) + Present(b)
  {
    if a != [] {
      assert (a + b)[1..] == a[1..] + b;
      PresentConcat(a[1..], b);
    } else {
      assert a + b == b;
    }
  }

  /** Clauses that all render nothing contribute nothing. */
  lemma {:induction false} AllAbsent(frags: seq<Option<string>>)
    requires forall i :: 0 <= i < |frags| ==> frags[i].None?
    ensures Present(frags) == []
  {
    if frags != [] {
      AllAbsent(frags[1..]);
    }
  }

  /** One clause contributes its fragment when it is present and non-empty, nothing otherwise. */
  lemma PresentOne(f: Option<string>)
    ensures Present([f]) == if f.Some? && f.value != "" then [f.value] else []
  {
    assert [f][1..] == [];
  }

  /** Trailing clauses that all render nothing leave the statement as it was. */
  lemma AssembleAbsentTail(a: seq<Option<string>>, b: seq<Option<string>>)
    requires forall i :: 0 <= i < |b| ==> b[i].None?
    ensures Assemble(a + b) == Assemble(a)
  {
    AllAbsent(b);
    PresentConcat(a, b);
    assert Present(a) + [] == Present(a);
  }

  /** An absent clause adds neither text nor a separator. */
  lemma AssembleSkipsAbsent(a: seq<Option<string>>, b: seq<Option<string>>)
    ensures Assemble(a + [None] + b) == Assemble(a + b)
  {
    PresentConcat(a + [None], b);
    PresentConcat(a, [None]);
    assert a + [None] + b == (a + [None]) + b;
    PresentConcat(a, b);
    var absent: seq<Option<string>> := [None];
    assert Present(absent) == [] by { assert absent[1..] == []; }
    assert Present(a) + [] == Present(a);
  }

  /** What precedes a fragment in the assembled text: the earlier fragments and one space,
      or nothing when no earlier fragment is present. */
  function Lead(a: seq<Option<string>>): string
  {
    if Present(a) == [] then "" else Assemble(a) + " "
  }

  /** What follows a fragment in the assembled text: one space and the later fragments, or
      nothing when no later fragment is present. */
  function Trail(b: seq<Option<string>>): string
  {
    if Present(b) == [] then "" else " " + Assemble(b)
  }

  /** Joining with one space around a middle pair `f`, `g`. */
  lemma JoinAround(pa: seq<string>, f: string, g: string, pb: seq<string>)
    ensures Join(pa + [f, g] + pb, " ")
         == (if pa == [] then "" else Join(pa, " ") + " ") + f + " " + g
            + (if pb == [] then "" else " " + Join(pb, " "))
  {
    assert Join([f, g], " ") == f + " " + g by { assert [f, g][1..] == [g]; assert Join([g], " ") == g; }
    var left := pa + [f, g];
    assert Join(left, " ") == (if pa == [] then "" else Join(pa, " ") + " ") + f + " " + g by {
      if pa == [] { assert left == [f, g]; } else { JoinConcat(pa, [f, g], " "); }
    }
    if pb == [] {
      assert left + pb == left;
    } else {
      JoinConcat(left, pb, " ");
    }
  }

  /** Two neighbouring present clauses come out next to each other, separated by exactly one
      space, with the rest of the statement before and after them. */
  lemma AssembleAdjacent(a: seq<Option<string>>, f: string, g: string, b: seq<Option<string>>)
    requires f != "" && g != ""
    ensures Assemble(a + [Some(f), Some(g)] + b) == Lead(a) + f + " " + g + Trail(b)
  {
    var pair: seq<Option<string>> := [Some(f), Some(g)];
    assert Present(pair) == [f, g] by {
      assert pair[1..] == [Some(g)];
      assert pair[1..][1..] == [];
    }
    PresentConcat(a, pair);
    PresentConcat(a + pair, b);
    assert Present(a + pair + b) == Present(a) + [f, g] + Present(b);
    JoinAround(Present(a), f, g, Present(b));
  }

  /** Two neighbouring present fragments at positions `i` and `i + 1`, in place. */
  lemma AssembleAt(frags: seq<Option<string>>, i: nat, f: string, g: string)
    requires i + 2 <= |frags| && frags[i] == Some(f) && frags[i + 1] == Some(g)
    requires f != "" && g != ""
    ensures Assemble(frags) == Lead(frags[..i]) + f + " " + g + Trail(frags[i + 2..])
  {
    assert frags == frags[..i] + [Some(f), Some(g)] + frags[i + 2..];
    AssembleAdjacent(frags[..i], f, g, frags[i + 2..]);
  }

  /** A fragment appended after the others is set off by exactly one space, or by nothing
      when it is the first present fragment. */
  lemma AssembleAppend(a: seq<Option<string>>, f: string)
    requires f != ""
    ensures Assemble(a + [Some(f)]) == Lead(a) + f
  {
    PresentConcat(a, [Some(f)]);
    assert Present([Some(f)]) == [f] by { assert [Some(f)][1..] == []; }
    if Present(a) == [] {
      assert Present(a) + [f] == [f];
    } else {
      JoinAppend(Present(a), f, " ");
    }
  }
}
