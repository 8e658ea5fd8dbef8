/** String helpers shared by the renderers: joining a list with a separator (JavaScript's
    `Array.prototype.join`), the inverse of joining with ", ", and the decimal text of a
    non-negative integer (what a template literal `${n}` produces for an integer no larger
    than 2^53, which a JavaScript number holds exactly and which is below 10^21). */
module Text {

  /** The separator every list renderer puts between items. */
  const ListSep: string := ", "

  /** `xs.join(sep)`: the items in order with `sep` between neighbours. */
  function Join(xs: seq<string>, sep: string): string
  {
    if |xs| == 0 then ""
    else if |xs| == 1 then xs[0]
    else xs[0] + sep + Join(xs[1..], sep)
  }

  lemma {:induction false} JoinAppend(xs: seq<string>, y: string, sep: string)
    requires |xs| > 0
    ensures Join(xs + [y], sep) == Join(xs, sep) + sep + y
  {
    if |xs| == 1 {
      assert xs + [y] == [xs[0], y];
      assert [xs[0], y][1..] == [y];
    } else {
      assert (xs + [y])[1..] == xs[1..] + [y];
      JoinAppend(xs[1..], y, sep);
    }
  }

  /** Joining two non-empty lists puts exactly one separator where they meet. */
  lemma {:induction false} JoinConcat(xs: seq<string>, ys: seq<string>, sep: string)
    requires |xs| > 0 && |ys| > 0
    ensures Join(xs + ys, sep) == Join(xs, sep) + sep + Join(ys, sep)
  {
    if |xs| == 1 {
      assert (xs + ys)[1..] == ys;
    } else {
      assert (xs + ys)[1..] == xs[1..] + ys;
      JoinConcat(xs[1..], ys, sep);
    }
  }

  /** `s` has no occurrence of the list separator ", ". */
  predicate NoSep(s: string)
  {
    forall i :: 0 <= i && i + 1 < |s| ==> !(s[i] == ',' && s[i + 1] == ' ')
  }

  /** Splits `s` at every occurrence of ", ", scanning left to right: the reading a consumer
      of the rendered list would apply. */
  function SplitList(s: string): (r: seq<string>)
    ensures |r| > 0
    decreases |s|
  {
    if |s| < 2 then [s]
    else if s[0] == ',' && s[1] == ' ' then [""] + SplitList(s[2..])
    else
      var t := SplitList(s[1..]);
      [[s[0]] + t[0]] + t[1..]
  }

  lemma {:induction false} SplitSingle(x: string)
    requires NoSep(x)
    ensures SplitList(x) == [x]
  {
    if |x| >= 2 {
      assert !(x[0] == ',' && x[1] == ' ');
      assert NoSep(x[1..]) by {
        forall i | 0 <= i && i + 1 < |x[1..]| ensures !(x[1..][i] == ',' && x[1..][i + 1] == ' ') {
          assert x[1..][i] == x[i + 1] && x[1..][i + 1] == x[i + 2];
        }
      }
      SplitSingle(x[1..]);
      assert [x[0]] + x[1..] == x;
    }
  }

  /** An item free of ", " followed by the separator is split off as exactly that item. */
  lemma {:induction false} SplitLead(x: string, rest: string)
    requires NoSep(x)
    ensures SplitList(x + ListSep + rest) == [x] + SplitList(rest)
  {
    var s := x + ListSep + rest;
    if |x| == 0 {
      assert s == ListSep + rest;
      assert s[2..] == rest;
    } else {
      assert !(s[0] == ',' && s[1] == ' ') by {
        if |x| == 1 { assert s[1] == ','; } else { assert s[0] == x[0] && s[1] == x[1]; }
      }
      assert s[1..] == x[1..] + ListSep + rest;
      assert NoSep(x[1..]) by {
        forall i | 0 <= i && i + 1 < |x[1..]| ensures !(x[1..][i] == ',' && x[1..][i + 1] == ' ') {
          assert x[1..][i] == x[i + 1] && x[1..][i + 1] == x[i + 2];
        }
      }
      SplitLead(x[1..], rest);
      assert [s[0]] + x[1..] == x;
    }
  }

  /** Joining with ", " loses nothing: when no item contains ", ", splitting the joined
      text gives back exactly the items, as many as there were, in their order. */
  lemma {:induction false} SplitJoin(xs: seq<string>)
    requires |xs| > 0
    requires forall i :: 0 <= i < |xs| ==> NoSep(xs[i])
    ensures SplitList(Join(xs, ListSep)) == xs
  {
    if |xs| == 1 {
      SplitSingle(xs[0]);
    } else {
      SplitJoin(xs[1..]);
      SplitLead(xs[0], Join(xs[1..], ListSep));
    }
  }

  predicate IsDigit(c: char)
  {
    '0' <= c <= '9'
  }

  predicate AllDigits(s: string)
  {
    forall i :: 0 <= i < |s| ==> IsDigit(s[i])
  }

  function Digit(d: nat): (c: char)
    requires d < 10
    ensures IsDigit(c) && c as int - '0' as int == d
  {
    ('0' as int + d) as char
  }

  /** The decimal text of `n`: what `${n}` gives for a non-negative integer that is at most
      2^53 (and so below 10^21, from where JavaScript switches to exponent form). */
  function Decimal(n: nat): (r: string)
    ensures |r| > 0 && AllDigits(r)
    ensures r[0] == '0' <==> n == 0
    decreases n
  {
    if n < 10 then [Digit(n)] else Decimal(n / 10) + [Digit(n % 10)]
  }

  /** The number a string of decimal digits denotes. */
  function DigitsValue(s: string): nat
    requires AllDigits(s)
  {
    if s == [] then 0 else DigitsValue(s[..|s| - 1]) * 10 + (s[|s| - 1] as int - '0' as int)
  }

  /** Reading back the decimal text of `n` gives `n`. */
  lemma {:induction false} DecimalRoundTrip(n: nat)
    ensures DigitsValue(Decimal(n)) == n
    decreases n
  {
    if n >= 10 {
      var s := Decimal(n);
      assert s[..|s| - 1] == Decimal(n / 10);
      DecimalRoundTrip(n / 10);
    }
  }
}
