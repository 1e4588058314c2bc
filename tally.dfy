/** Sums and counts over the tile lists (the `sum` the game calls and the
    number of tiles holding a given value). */
module Tally {

  function Sum(s: seq<int>): (r: int)
    ensures (forall k :: 0 <= k < |s| ==> s[k] >= 0) ==> r >= 0
  {
    if s == [] then 0 else s[0] + Sum(s[1..])
  }

  /** Number of positions of s holding v. */
  function CountOf(s: seq<int>, v: int): (r: nat)
    ensures r <= |s|
  {
    if s == [] then 0 else (if s[0] == v then 1 else 0) + CountOf(s[1..], v)
  }

  lemma {:induction false} SumUpdate(s: seq<int>, i: int, v: int)
    requires 0 <= i < |s|
    ensures Sum(s[i := v]) == Sum(s) - s[i] + v
  {
    if i > 0 {
      assert s[i := v][1..] == s[1..][i - 1 := v];
      SumUpdate(s[1..], i - 1, v);
    } else {
      assert s[i := v][1..] == s[1..];
    }
  }

  lemma {:induction false} CountUpdate(s: seq<int>, i: int, v: int, w: int)
    requires 0 <= i < |s|
    ensures CountOf(s[i := v], w) == CountOf(s, w) - (if s[i] == w then 1 else 0) + (if v == w then 1 else 0)
  {
    if i > 0 {
      assert s[i := v][1..] == s[1..][i - 1 := v];
      CountUpdate(s[1..], i - 1, v, w);
    } else {
      assert s[i := v][1..] == s[1..];
    }
  }

  /** A list that is nowhere above another has a smaller sum, and an equal sum
      only when the two lists are the same. */
  lemma {:induction false} SumPointwise(a: seq<int>, b: seq<int>)
    requires |a| == |b|
    requires forall k :: 0 <= k < |a| ==> a[k] <= b[k]
    ensures Sum(a) <= Sum(b)
    ensures Sum(a) == Sum(b) ==> a == b
  {
    if a != [] {
      SumPointwise(a[1..], b[1..]);
      if Sum(a) == Sum(b) {
        assert a[0] == b[0];
        assert a == [a[0]] + a[1..];
        assert b == [b[0]] + b[1..];
      }
    }
  }

  lemma {:induction false} CountAppend(s: seq<int>, x: int, v: int)
    ensures CountOf(s + [x], v) == CountOf(s, v) + (if x == v then 1 else 0)
  {
    if s != [] {
      assert (s + [x])[1..] == s[1..] + [x];
      CountAppend(s[1..], x, v);
    }
  }

  /** Two lists holding v and w at the same positions hold as many of each. */
  lemma {:induction false} CountMatch(s: seq<int>, v: int, t: seq<int>, w: int)
    requires |s| == |t|
    requires forall j :: 0 <= j < |s| ==> (s[j] == v <==> t[j] == w)
    ensures CountOf(s, v) == CountOf(t, w)
  {
    if s != [] {
      CountMatch(s[1..], v, t[1..], w);
    }
  }
}
