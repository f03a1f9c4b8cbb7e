/** Sums of integer sequences. */
module Sums {

  function Sum(s: seq<int>): int {
    if s == [] then 0 else Sum(s[..|s| - 1]) + s[|s| - 1]
  }

  lemma {:induction false} SumUpdate(s: seq<int>, i: nat, v: int)
    requires i < |s|
    ensures Sum(s[i := v]) == Sum(s) - s[i] + v
    decreases |s|
  {
    var n := |s| - 1;
    if i < n {
      SumUpdate(s[..n], i, v);
      assert s[i := v][..n] == s[..n][i := v];
    } else {
      assert s[i := v][..n] == s[..n];
    }
  }

  /** The sum of a sequence whose entries are not negative bounds each entry, and any two. */
  lemma {:induction false} SumBounds(s: seq<int>, i: nat)
    requires i < |s| && forall k :: 0 <= k < |s| ==> s[k] >= 0
    ensures 0 <= s[i] <= Sum(s)
    decreases |s|
  {
    var n := |s| - 1;
    if i < n {
      SumBounds(s[..n], i);
    } else if n > 0 {
      SumBounds(s[..n], 0);
    }
  }

  lemma SumPair(s: seq<int>, i: nat, j: nat)
    requires i < |s| && j < |s| && i != j && forall k :: 0 <= k < |s| ==> s[k] >= 0
    ensures s[i] + s[j] <= Sum(s)
  {
    SumUpdate(s, i, 0);
    SumBounds(s[i := 0], j);
  }

  lemma {:induction false} SumZero(s: seq<int>)
    requires forall k :: 0 <= k < |s| ==> s[k] == 0
    ensures Sum(s) == 0
    decreases |s|
  {
    if s != [] { SumZero(s[..|s| - 1]); }
  }

  /** Twice a sum, when every entry doubles. */
  lemma {:induction false} SumDouble(s: seq<int>, t: seq<int>)
    requires |s| == |t| && forall k :: 0 <= k < |s| ==> t[k] == 2 * s[k]
    ensures Sum(t) == 2 * Sum(s)
    decreases |s|
  {
    if s != [] { SumDouble(s[..|s| - 1], t[..|t| - 1]); }
  }

  /** Even entries have an even sum. */
  lemma {:induction false} SumEven(s: seq<int>)
    requires forall k :: 0 <= k < |s| ==> s[k] % 2 == 0
    ensures Sum(s) % 2 == 0
    decreases |s|
  {
    if s != [] { SumEven(s[..|s| - 1]); }
  }

  lemma {:induction false} SumAdd(s: seq<int>, t: seq<int>, u: seq<int>)
    requires |s| == |t| == |u| && forall k :: 0 <= k < |s| ==> u[k] == s[k] + t[k]
    ensures Sum(u) == Sum(s) + Sum(t)
    decreases |s|
  {
    if s != [] { SumAdd(s[..|s| - 1], t[..|t| - 1], u[..|u| - 1]); }
  }
}
