/** Huffman's construction on a table of counts, and its optimality.  A count of zero means that the
    symbol is not used. */
module HuffOptimal {
  import opened Bytes
  import opened Sums

  // ----- The greedy construction

  /** The used symbol below n, other than skip, with the smallest count; in case of ties, the largest
      such symbol.  -1 if there is none. */
  function Pick(w: seq<nat>, skip: int, n: nat): (c: int)
    requires n <= |w|
    ensures -1 <= c < n && (c >= 0 ==> w[c] > 0 && c != skip)
    ensures forall i :: 0 <= i < n && w[i] > 0 && i != skip ==> c >= 0 && (w[c] < w[i] || (w[c] == w[i] && i <= c))
  {
    if n == 0 then -1
    else
      var c := Pick(w, skip, n - 1);
      if w[n - 1] > 0 && n - 1 != skip && (c < 0 || w[n - 1] <= w[c]) then n - 1 else c
  }

  function First(w: seq<nat>): int {
    Pick(w, -1, |w|)
  }

  function Second(w: seq<nat>): int {
    Pick(w, First(w), |w|)
  }

  function Used(w: seq<nat>): (n: nat) {
    if w == [] then 0 else Used(w[..|w| - 1]) + (if w[|w| - 1] > 0 then 1 else 0)
  }

  lemma {:induction false} UsedUpdate(w: seq<nat>, i: nat, v: nat)
    requires i < |w|
    ensures Used(w[i := v]) == Used(w) - (if w[i] > 0 then 1 else 0) + (if v > 0 then 1 else 0)
    decreases |w|
  {
    var n := |w| - 1;
    if i < n {
      UsedUpdate(w[..n], i, v);
      assert w[i := v][..n] == w[..n][i := v];
    } else {
      assert w[i := v][..n] == w[..n];
    }
  }

  /** One step: the two smallest counts become one. */
  function Merge(w: seq<nat>): (r: seq<nat>)
    requires Second(w) >= 0
    ensures |r| == |w| && Used(r) == Used(w) - 1
  {
    var a, b := First(w), Second(w);
    UsedUpdate(w, a, w[a] + w[b]);
    UsedUpdate(w[a := w[a] + w[b]], b, 0);
    w[a := w[a] + w[b]][b := 0]
  }

  /** The total of all merged counts. */
  function HuffmanCost(w: seq<nat>): nat
    decreases Used(w)
  {
    if Second(w) < 0 then 0 else w[First(w)] + w[Second(w)] + HuffmanCost(Merge(w))
  }

  // ----- Length assignments

  /** The coded size of the data: every count times its code length. */
  function CostTerms(w: seq<nat>, len: seq<nat>): (t: seq<int>)
    requires |len| == |w|
    ensures |t| == |w|
  {
    seq(|w|, i requires 0 <= i < |w| => w[i] * len[i])
  }

  function Cost(w: seq<nat>, len: seq<nat>): int
    requires |len| == |w|
  {
    Sum(CostTerms(w, len))
  }

  // The share of the code space that a code of this length takes, in units of 2^-m.
  function Share(used: bool, len: nat, m: nat): nat {
    if !used then 0 else if len <= m then Pow2(m - len) else 0
  }

  function KraftTerms(w: seq<nat>, len: seq<nat>, m: nat): (t: seq<int>)
    requires |len| == |w|
    ensures |t| == |w| && forall i :: 0 <= i < |t| ==> t[i] >= 0
  {
    seq(|w|, i requires 0 <= i < |w| => Share(w[i] > 0, len[i], m))
  }

  function Kraft(w: seq<nat>, len: seq<nat>, m: nat): int
    requires |len| == |w|
  {
    Sum(KraftTerms(w, len, m))
  }

  /** The lengths, at most m, satisfy the Kraft inequality on the used symbols; the lengths of every
      prefix code do. */
  predicate Fits(w: seq<nat>, len: seq<nat>, m: nat) {
    && |len| == |w|
    && (forall i :: 0 <= i < |w| && w[i] > 0 ==> len[i] <= m)
    && Kraft(w, len, m) <= Pow2(m)
  }

  // ----- Optimality, by exchanging lengths

  lemma SwapLengths(w: seq<nat>, len: seq<nat>, m: nat, a: nat, x: nat)
    requires Fits(w, len, m) && a < |w| && x < |w| && 0 < w[a] <= w[x] && len[x] == m
    ensures var swapped := len[a := m][x := len[a]];
      Fits(w, swapped, m) && Cost(w, swapped) <= Cost(w, len)
  {
    hide Sum, Pow2;
    var swapped := len[a := m][x := len[a]];
    if a != x {
      var ta, tb := KraftTerms(w, len, m), KraftTerms(w, swapped, m);
      SumUpdate(ta, a, ta[x]);
      SumUpdate(ta[a := ta[x]], x, ta[a]);
      assert tb == ta[a := ta[x]][x := ta[a]];
      var ca, cb := CostTerms(w, len), CostTerms(w, swapped);
      SumUpdate(ca, a, w[a] * m);
      SumUpdate(ca[a := w[a] * m], x, w[x] * len[a]);
      assert cb == ca[a := w[a] * m][x := w[x] * len[a]];
      ExchangeGains(w[a], w[x], len[a], m);
    } else {
      assert swapped == len;
    }
  }

  lemma ExchangeGains(wa: nat, wx: nat, la: nat, lx: nat)
    requires wa <= wx && la <= lx
    ensures wa * lx + wx * la <= wa * la + wx * lx
  {
    assert (wx - wa) * (lx - la) >= 0;
    assert (wx - wa) * (lx - la) == wx * lx - wx * la - wa * lx + wa * la;
  }

  /** If only one symbol has the greatest length, that length can be reduced. */
  lemma ShortenLongest(w: seq<nat>, len: seq<nat>, m: nat, a: nat)
    requires m > 0 && Fits(w, len, m) && a < |w| && w[a] > 0 && len[a] == m
    requires forall i :: 0 <= i < |w| && w[i] > 0 && i != a ==> len[i] < m
    ensures Fits(w, len[a := m - 1], m - 1) && Cost(w, len[a := m - 1]) <= Cost(w, len)
  {
    hide Sum, Pow2;
    var short := len[a := m - 1];
    var t, u := KraftTerms(w, len, m), KraftTerms(w, short, m - 1);
    SumUpdate(t, a, 0);
    SumEven(t[a := 0]);
    SumUpdate(t, a, 2);
    SumDouble(u, t[a := 2]);
    SumUpdate(CostTerms(w, len), a, w[a] * (m - 1));
    assert CostTerms(w, short) == CostTerms(w, len)[a := w[a] * (m - 1)];
    assert w[a] * (m - 1) == w[a] * m - w[a];
  }

  lemma LowerLimit(w: seq<nat>, len: seq<nat>, m: nat)
    requires m > 0 && Fits(w, len, m)
    requires forall i :: 0 <= i < |w| && w[i] > 0 ==> len[i] < m
    ensures Fits(w, len, m - 1)
  {
    SumDouble(KraftTerms(w, len, m - 1), KraftTerms(w, len, m));
  }

  /** Two siblings at the greatest length can be replaced by their parent. */
  lemma MergeSiblings(w: seq<nat>, len: seq<nat>, m: nat)
    requires m > 0 && Fits(w, len, m) && Second(w) >= 0
    requires len[First(w)] == len[Second(w)] == m
    ensures var up := len[First(w) := m - 1];
      Fits(Merge(w), up, m) && Cost(w, len) == Cost(Merge(w), up) + w[First(w)] + w[Second(w)]
  {
    hide Pick, Used;
    SiblingKraft(w, len, m);
    SiblingCost(w, len, m);
  }

  lemma SiblingKraft(w: seq<nat>, len: seq<nat>, m: nat)
    requires m > 0 && Fits(w, len, m) && Second(w) >= 0
    requires len[First(w)] == len[Second(w)] == m
    ensures Kraft(Merge(w), len[First(w) := m - 1], m) == Kraft(w, len, m)
  {
    hide Pick, Used;
    var a, b := First(w), Second(w);
    var t := KraftTerms(w, len, m);
    SumUpdate(t, a, 2);
    SumUpdate(t[a := 2], b, 0);
    assert Pow2(1) == 2;
    assert KraftTerms(Merge(w), len[a := m - 1], m) == t[a := 2][b := 0];
  }

  lemma SiblingCost(w: seq<nat>, len: seq<nat>, m: nat)
    requires m > 0 && |len| == |w| && Second(w) >= 0
    requires len[First(w)] == len[Second(w)] == m
    ensures Cost(w, len) == Cost(Merge(w), len[First(w) := m - 1]) + w[First(w)] + w[Second(w)]
  {
    hide Pick, Used;
    var a, b := First(w), Second(w);
    var c := CostTerms(w, len);
    var n := (w[a] + w[b]) * (m - 1);
    SumUpdate(c, a, n);
    SumUpdate(c[a := n], b, 0);
    assert CostTerms(Merge(w), len[a := m - 1]) == c[a := n][b := 0];
    ParentCost(w[a], w[b], m);
  }

  lemma ParentCost(x: nat, y: nat, m: nat)
    requires m > 0
    ensures (x + y) * (m - 1) == x * m + y * m - x - y
  {
  }

  lemma TwoUsedNeedABit(w: seq<nat>, len: seq<nat>)
    requires Second(w) >= 0 && |len| == |w|
    requires forall i :: 0 <= i < |w| && w[i] > 0 ==> len[i] <= 0
    ensures !Fits(w, len, 0)
  {
    SumPair(KraftTerms(w, len, 0), First(w), Second(w));
  }

  /** Huffman's construction is optimal: no assignment of lengths that satisfies the Kraft inequality
      codes the counted data in fewer bits. */
  lemma {:induction false} Optimal(w: seq<nat>, len: seq<nat>, m: nat)
    requires Fits(w, len, m)
    ensures HuffmanCost(w) <= Cost(w, len)
    decreases Used(w), m
  {
    hide Kraft, Cost, Merge, Pow2, Used;
    if Second(w) < 0 {
      CostNonNegative(w, len);
    } else if m == 0 {
      TwoUsedNeedABit(w, len);
    } else if x :| 0 <= x < |w| && w[x] > 0 && len[x] == m {
      var a, b := First(w), Second(w);
      SwapLengths(w, len, m, a, x);
      var one := len[a := m][x := len[a]];
      if y :| 0 <= y < |w| && w[y] > 0 && y != a && one[y] == m {
        SwapLengths(w, one, m, b, y);
        var two := one[b := m][y := one[b]];
        MergeSiblings(w, two, m);
        Optimal(Merge(w), two[a := m - 1], m);
      } else {
        ShortenLongest(w, one, m, a);
        Optimal(w, one[a := m - 1], m - 1);
      }
    } else {
      LowerLimit(w, len, m);
      Optimal(w, len, m - 1);
    }
  }

  lemma CostNonNegative(w: seq<nat>, len: seq<nat>)
    requires |len| == |w|
    ensures Cost(w, len) >= 0
  {
    var t := CostTerms(w, len);
    assert forall i :: 0 <= i < |t| ==> t[i] >= 0;
    if |t| > 0 { SumBounds(t, 0); }
  }

  // ----- Prefix codes

  type Bits = seq<bool>

  predicate PrefixFree(w: seq<nat>, codes: seq<Bits>) {
    && |codes| == |w|
    && forall i, j :: 0 <= i < |w| && 0 <= j < |w| && i != j && w[i] > 0 && w[j] > 0 ==> !(codes[i] <= codes[j])
  }

  function Lengths(codes: seq<Bits>): (len: seq<nat>)
    ensures |len| == |codes|
  {
    seq(|codes|, i requires 0 <= i < |codes| => |codes[i]|)
  }

  // The symbols whose code starts with bit b, and the codes without their first bit.
  function Half(w: seq<nat>, codes: seq<Bits>, b: bool): (h: seq<nat>)
    requires |codes| == |w|
    ensures |h| == |w|
  {
    seq(|w|, i requires 0 <= i < |w| => if codes[i] != [] && codes[i][0] == b then w[i] else 0)
  }

  function Tails(codes: seq<Bits>): (t: seq<Bits>)
    ensures |t| == |codes|
  {
    seq(|codes|, i requires 0 <= i < |codes| => if codes[i] == [] then [] else codes[i][1..])
  }

  lemma HalfPrefixFree(w: seq<nat>, codes: seq<Bits>, b: bool)
    requires PrefixFree(w, codes)
    ensures PrefixFree(Half(w, codes, b), Tails(codes))
  {
    var h, t := Half(w, codes, b), Tails(codes);
    forall i, j | 0 <= i < |w| && 0 <= j < |w| && i != j && h[i] > 0 && h[j] > 0
      ensures !(t[i] <= t[j])
    {
      assert codes[i] == [b] + t[i] && codes[j] == [b] + t[j];
    }
  }

  lemma EmptyCodeFits(w: seq<nat>, codes: seq<Bits>, m: nat, x: nat)
    requires PrefixFree(w, codes) && x < |w| && w[x] > 0 && codes[x] == []
    ensures Kraft(w, Lengths(codes), m) <= Pow2(m)
  {
    var t := KraftTerms(w, Lengths(codes), m);
    assert forall i :: 0 <= i < |w| && i != x && w[i] > 0 ==> codes[x] <= codes[i];
    SumUpdate(t, x, 0);
    SumZero(t[x := 0]);
  }

  /** The first bit splits the code space in two. */
  lemma SplitKraft(w: seq<nat>, codes: seq<Bits>, m: nat)
    requires |codes| == |w| && m > 0
    requires forall i :: 0 <= i < |w| && w[i] > 0 ==> 0 < |codes[i]| <= m
    ensures Kraft(w, Lengths(codes), m) ==
      Kraft(Half(w, codes, false), Lengths(Tails(codes)), m - 1) + Kraft(Half(w, codes, true), Lengths(Tails(codes)), m - 1)
  {
    var len := Lengths(Tails(codes));
    var t := KraftTerms(w, Lengths(codes), m);
    var t0, t1 := KraftTerms(Half(w, codes, false), len, m - 1), KraftTerms(Half(w, codes, true), len, m - 1);
    forall i | 0 <= i < |t|
      ensures t[i] == t0[i] + t1[i]
    {
      if w[i] > 0 { assert m - |codes[i]| == m - 1 - len[i]; }
    }
    SumAdd(t0, t1, t);
  }

  /** The code lengths of a prefix code satisfy the Kraft inequality. */
  lemma {:induction false} PrefixCodeFits(w: seq<nat>, codes: seq<Bits>, m: nat)
    requires PrefixFree(w, codes)
    requires forall i :: 0 <= i < |w| && w[i] > 0 ==> |codes[i]| <= m
    ensures Kraft(w, Lengths(codes), m) <= Pow2(m)
    decreases m
  {
    if x :| 0 <= x < |w| && w[x] > 0 && codes[x] == [] {
      EmptyCodeFits(w, codes, m, x);
    } else if m == 0 {
      SumZero(KraftTerms(w, Lengths(codes), m));
    } else {
      hide PrefixFree, Kraft;
      HalfPrefixFree(w, codes, false);
      HalfPrefixFree(w, codes, true);
      PrefixCodeFits(Half(w, codes, false), Tails(codes), m - 1);
      PrefixCodeFits(Half(w, codes, true), Tails(codes), m - 1);
      SplitKraft(w, codes, m);
    }
  }

  /** No prefix code for the used symbols codes the counted data in fewer bits. */
  lemma BestPrefixCode(w: seq<nat>, codes: seq<Bits>)
    requires PrefixFree(w, codes)
    ensures HuffmanCost(w) <= Cost(w, Lengths(codes))
  {
    var len := Lengths(codes);
    var m := Sum(len);
    forall i | 0 <= i < |w| && w[i] > 0
      ensures |codes[i]| <= m
    {
      SumBounds(len, i);
    }
    if |w| > 0 { SumBounds(len, 0); }
    PrefixCodeFits(w, codes, m);
    Optimal(w, len, m);
  }
}
