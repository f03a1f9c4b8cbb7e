/** The merge loop of the Huffman table generator: counts, code sizes and branch links are updated in
    place, one branch being a linked list of the symbols below one root. */
module HuffBuild {
  import opened Sums
  import opened HuffOptimal

  const N := 257  // 256 symbols and the pseudo-symbol that reserves the all-ones code
  const MAX_COUNT := 1000000000

  // ----- Branches

  /** The branches of the forest: for each root its symbols in link order, for each symbol its root. */
  datatype Forest = Forest(chain: seq<seq<int>>, owner: seq<int>)

  ghost predicate Partitioned(f: Forest) {
    && |f.chain| == |f.owner| == N
    && (forall i :: 0 <= i < N && f.owner[i] != -1 ==> 0 <= f.owner[i] < N && i in f.chain[f.owner[i]])
    && (forall c :: 0 <= c < N ==> Branch(f.chain[c]) && (f.chain[c] != [] ==> f.chain[c][0] == c))
    && forall c, i :: 0 <= c < N && i in f.chain[c] ==> f.owner[i] == c
  }

  // Distinct symbols.
  ghost predicate Branch(s: seq<int>) {
    && (forall j :: 0 <= j < |s| ==> 0 <= s[j] < N)
    && forall j, k :: 0 <= j < k < |s| ==> s[j] != s[k]
  }

  ghost predicate Linked(s: seq<int>, others: seq<int>)
    requires |others| == N && Branch(s)
  {
    forall j :: 0 <= j < |s| ==> others[s[j]] == NextIn(s, j)
  }

  function NextIn(s: seq<int>, j: nat): int
    requires j < |s|
  {
    if j + 1 < |s| then s[j + 1] else -1
  }

  /** The branch of c2 hung below that of c1. */
  ghost function Joined(f: Forest, c1: int, c2: int): Forest
    requires Partitioned(f) && 0 <= c1 < N && 0 <= c2 < N
  {
    Forest(f.chain[c1 := f.chain[c1] + f.chain[c2]][c2 := []],
           seq(N, i requires 0 <= i < N => if f.owner[i] == c2 then c1 else f.owner[i]))
  }

  lemma JoinedPartitioned(f: Forest, c1: int, c2: int)
    requires Partitioned(f) && 0 <= c1 < N && 0 <= c2 < N && c1 != c2 && f.chain[c1] != []
    ensures Partitioned(Joined(f, c1, c2))
  {
    var g := Joined(f, c1, c2);
    var s := f.chain[c1] + f.chain[c2];
    forall j, k | 0 <= j < k < |s|
      ensures s[j] != s[k]
    {
      var n := |f.chain[c1]|;
      if k < n {
        assert s[j] == f.chain[c1][j] && s[k] == f.chain[c1][k];
      } else if j < n {
        assert s[j] == f.chain[c1][j] && s[k] == f.chain[c2][k - n];
        assert f.owner[s[j]] == c1 && f.owner[s[k]] == c2;
      } else {
        assert s[j] == f.chain[c2][j - n] && s[k] == f.chain[c2][k - n];
      }
    }
  }

  // ----- What the branches sum up to

  /** 2^-n */
  function Weight(n: nat): real {
    if n == 0 then 1.0 else Weight(n - 1) / 2.0
  }

  /** The part of the code space the symbols of one branch fill. */
  function KraftOf(size: seq<nat>, owner: seq<int>, c: int): real
    requires |size| == |owner|
  {
    if size == [] then 0.0
    else
      var n := |size| - 1;
      KraftOf(size[..n], owner[..n], c) + (if owner[n] == c then Weight(size[n]) else 0.0)
  }

  function CountOf(w: seq<nat>, owner: seq<int>, c: int): nat
    requires |w| == |owner|
  {
    if w == [] then 0
    else
      var n := |w| - 1;
      CountOf(w[..n], owner[..n], c) + (if owner[n] == c then w[n] else 0)
  }

  /** Two branches become siblings: the symbols of both get one bit longer. */
  ghost predicate Deepened(owner: seq<int>, size: seq<nat>, owner': seq<int>, size': seq<nat>, a: int, b: int) {
    && |owner| == |size| == |owner'| == |size'|
    && forall i :: 0 <= i < |owner| ==>
         if owner[i] == a || owner[i] == b then owner'[i] == a && size'[i] == size[i] + 1
         else owner'[i] == owner[i] && size'[i] == size[i]
  }

  lemma {:induction false} KraftDeepened(owner: seq<int>, size: seq<nat>, owner': seq<int>, size': seq<nat>,
                                         a: int, b: int, c: int)
    requires a != b && Deepened(owner, size, owner', size', a, b)
    ensures KraftOf(size', owner', c) ==
      if c == a then (KraftOf(size, owner, a) + KraftOf(size, owner, b)) / 2.0
      else if c == b then 0.0
      else KraftOf(size, owner, c)
    decreases |size|
  {
    if size != [] {
      var n := |size| - 1;
      KraftDeepened(owner[..n], size[..n], owner'[..n], size'[..n], a, b, c);
    }
  }

  lemma {:induction false} CountDeepened(w: seq<nat>, owner: seq<int>, size: seq<nat>, owner': seq<int>, size': seq<nat>,
                                         a: int, b: int, c: int)
    requires a != b && Deepened(owner, size, owner', size', a, b) && |w| == |size|
    ensures CountOf(w, owner', c) ==
      if c == a then CountOf(w, owner, a) + CountOf(w, owner, b)
      else if c == b then 0
      else CountOf(w, owner, c)
    decreases |size|
  {
    if size != [] {
      var n := |size| - 1;
      CountDeepened(w[..n], owner[..n], size[..n], owner'[..n], size'[..n], a, b, c);
    }
  }

  lemma {:induction false} CostDeepened(w: seq<nat>, owner: seq<int>, size: seq<nat>, owner': seq<int>, size': seq<nat>,
                                        a: int, b: int)
    requires a != b && Deepened(owner, size, owner', size', a, b) && |w| == |size|
    ensures Cost(w, size') == Cost(w, size) + CountOf(w, owner, a) + CountOf(w, owner, b)
    decreases |size|
  {
    if size != [] {
      var n := |size| - 1;
      CostDeepened(w[..n], owner[..n], size[..n], owner'[..n], size'[..n], a, b);
      CostSplit(w, size);
      CostSplit(w, size');
      OneBitMore(w[n], size[n]);
    }
  }

  lemma CostSplit(w: seq<nat>, size: seq<nat>)
    requires |size| == |w| > 0
    ensures var n := |w| - 1; Cost(w, size) == Cost(w[..n], size[..n]) + w[n] * size[n]
  {
    var n := |w| - 1;
    assert CostTerms(w, size)[..n] == CostTerms(w[..n], size[..n]);
  }

  lemma OneBitMore(w: nat, size: nat)
    ensures w * (size + 1) == w * size + w
  {
  }

  // ----- The loop invariant

  /** Counts are branch totals, and each branch is a complete code tree for its symbols. */
  ghost predicate Balanced(w: seq<nat>, freq: seq<nat>, size: seq<nat>, f: Forest) {
    && |w| == |freq| == |size| == N && Partitioned(f)
    && (forall i :: 0 <= i < N ==> (w[i] > 0 <==> f.owner[i] != -1))
    && (forall c :: 0 <= c < N ==> (freq[c] > 0 <==> f.chain[c] != []))
    && (forall c :: 0 <= c < N ==> freq[c] == CountOf(w, f.owner, c))
    && (forall c :: 0 <= c < N && f.chain[c] != [] ==> KraftOf(size, f.owner, c) == 1.0)
    && (forall i :: 0 <= i < N && size[i] == 0 ==> f.owner[i] == -1 || f.chain[f.owner[i]] == [i])
    && (forall i :: 0 <= i < N && f.owner[i] == -1 ==> size[i] == 0)
  }

  ghost predicate AllLinked(f: Forest, others: seq<int>)
    requires |others| == N && Partitioned(f)
  {
    forall c :: 0 <= c < N ==> Linked(f.chain[c], others)
  }

  lemma BalancedStep(w: seq<nat>, freq: seq<nat>, size: seq<nat>, f: Forest, freq': seq<nat>, size': seq<nat>, a: int, b: int)
    requires Balanced(w, freq, size, f) && 0 <= a < N && 0 <= b < N && a != b && freq[a] > 0 && freq[b] > 0
    requires freq' == Merged(freq, a, b)
    requires Deepened(f.owner, size, Joined(f, a, b).owner, size', a, b)
    ensures Balanced(w, freq', size', Joined(f, a, b))
  {
    hide CountOf, KraftOf;
    JoinedPartitioned(f, a, b);
    var g := Joined(f, a, b);
    forall c | 0 <= c < N
      ensures freq'[c] == CountOf(w, g.owner, c)
      ensures g.chain[c] != [] ==> KraftOf(size', g.owner, c) == 1.0
    {
      CountDeepened(w, f.owner, size, g.owner, size', a, b, c);
      KraftDeepened(f.owner, size, g.owner, size', a, b, c);
    }
  }

  lemma JoinedLinked(f: Forest, c1: int, c2: int, others: seq<int>, others': seq<int>)
    requires Partitioned(f) && 0 <= c1 < N && 0 <= c2 < N && c1 != c2 && f.chain[c1] != [] && f.chain[c2] != []
    requires |others| == N && AllLinked(f, others)
    requires var b := f.chain[c1]; others' == others[b[|b| - 1] := c2]
    ensures Partitioned(Joined(f, c1, c2)) && AllLinked(Joined(f, c1, c2), others')
    ensures Linked(f.chain[c2], others')
  {
    hide Partitioned, Branch, Linked, NextIn;
    JoinedPartitioned(f, c1, c2);
    ChainParts(f, c1);
    ChainParts(f, c2);
    var g := Joined(f, c1, c2);
    ChainParts(g, c1);
    var b := f.chain[c1];
    forall c | 0 <= c < N && c != c1
      ensures Linked(f.chain[c], others')
    {
      OtherChain(f, c1, c, others, others');
    }
    JoinedChain(b, f.chain[c2], c2, others, others');
    NothingLinked(others');
  }

  lemma ChainParts(f: Forest, c: int)
    requires Partitioned(f) && 0 <= c < N
    ensures |f.chain| == |f.owner| == N && Branch(f.chain[c]) && (f.chain[c] != [] ==> f.chain[c][0] == c)
    ensures forall i :: 0 <= i < |f.chain[c]| ==> 0 <= f.chain[c][i] < N
    ensures forall d :: 0 <= d < N ==> Branch(f.chain[d])
  {
  }

  lemma NothingLinked(others: seq<int>)
    requires |others| == N
    ensures Branch([]) && Linked([], others)
  {
  }

  lemma OtherChain(f: Forest, c1: int, c: int, others: seq<int>, others': seq<int>)
    requires Partitioned(f) && 0 <= c1 < N && 0 <= c < N && c1 != c && f.chain[c1] != []
    requires |others| == N && Linked(f.chain[c], others)
    requires var b := f.chain[c1]; |others'| == N && forall i :: 0 <= i < N && i != b[|b| - 1] ==> others'[i] == others[i]
    ensures Linked(f.chain[c], others')
  {
    var b := f.chain[c1];
    assert b[|b| - 1] in b;
    forall j | 0 <= j < |f.chain[c]|
      ensures others'[f.chain[c][j]] == others[f.chain[c][j]]
    {
      assert f.chain[c][j] in f.chain[c];
      assert f.owner[f.chain[c][j]] == c && f.owner[b[|b| - 1]] == c1;
    }
  }

  lemma JoinedChain(a: seq<int>, b: seq<int>, c2: int, others: seq<int>, others': seq<int>)
    requires |others| == N && Branch(a) && Branch(b) && Branch(a + b) && a != [] && b != [] && b[0] == c2
    requires others' == others[a[|a| - 1] := c2] && Linked(a, others) && Linked(b, others')
    ensures Linked(a + b, others')
  {
    var s := a + b;
    forall j | 0 <= j < |s|
      ensures others'[s[j]] == NextIn(s, j)
    {
      if j < |a| {
        assert s[j] == a[j];
        assert others[a[j]] == NextIn(a, j);
        if j < |a| - 1 { assert s[j] != s[|a| - 1] == a[|a| - 1]; }
      } else {
        assert s[j] == b[j - |a|];
        assert others'[b[j - |a|]] == NextIn(b, j - |a|);
      }
    }
  }

  // ----- Start and end

  ghost function Singletons(w: seq<nat>): Forest
    requires |w| == N
  {
    Forest(seq(N, i requires 0 <= i < N => if w[i] > 0 then [i] else []),
           seq(N, i requires 0 <= i < N => if w[i] > 0 then i else -1))
  }

  lemma {:induction false} SingletonSums(w: seq<nat>, size: seq<nat>, owner: seq<int>, c: nat)
    requires |w| == |size| == |owner|
    requires forall i :: 0 <= i < |w| ==> size[i] == 0 && owner[i] == if w[i] > 0 then i else -1
    ensures CountOf(w, owner, c) == if c < |w| then w[c] else 0
    ensures KraftOf(size, owner, c) == if c < |w| && w[c] > 0 then 1.0 else 0.0
    ensures Cost(w, size) == 0
    decreases |w|
  {
    if w != [] {
      var n := |w| - 1;
      SingletonSums(w[..n], size[..n], owner[..n], c);
      CostSplit(w, size);
    }
  }

  lemma StartBalanced(w: seq<nat>, size: seq<nat>, others: seq<int>)
    requires |w| == |size| == |others| == N
    requires forall i :: 0 <= i < N ==> size[i] == 0 && others[i] == -1
    ensures Partitioned(Singletons(w)) && Balanced(w, w, size, Singletons(w)) && AllLinked(Singletons(w), others) && Cost(w, size) == 0
  {
    hide CountOf, KraftOf, Cost;
    var f := Singletons(w);
    forall c | 0 <= c < N
      ensures CountOf(w, f.owner, c) == w[c] && (w[c] > 0 ==> KraftOf(size, f.owner, c) == 1.0)
    {
      SingletonSums(w, size, f.owner, c);
    }
    SingletonSums(w, size, f.owner, 0);
  }

  /** The part of the code space all used symbols fill together. */
  function KraftUsed(w: seq<nat>, size: seq<nat>): real
    requires |w| == |size|
  {
    if w == [] then 0.0
    else
      var n := |w| - 1;
      KraftUsed(w[..n], size[..n]) + (if w[n] > 0 then Weight(size[n]) else 0.0)
  }

  lemma {:induction false} OneOwner(w: seq<nat>, size: seq<nat>, owner: seq<int>, r: int)
    requires |w| == |size| == |owner| && forall i :: 0 <= i < |w| ==> (owner[i] == r <==> w[i] > 0)
    ensures KraftUsed(w, size) == KraftOf(size, owner, r)
    decreases |w|
  {
    if w != [] {
      var n := |w| - 1;
      OneOwner(w[..n], size[..n], owner[..n], r);
    }
  }

  lemma Finished(w: seq<nat>, freq: seq<nat>, size: seq<nat>, f: Forest)
    requires Balanced(w, freq, size, f) && Second(w) >= 0 && Second(freq) < 0
    ensures KraftUsed(w, size) == 1.0 && HuffmanCost(freq) == 0
    ensures forall i :: 0 <= i < N ==> (size[i] > 0 <==> w[i] > 0)
  {
    var r := f.owner[First(w)];
    forall i | 0 <= i < N
      ensures f.owner[i] == r <==> w[i] > 0
    {
      if w[i] > 0 { OnlyRoot(freq, r, f.owner[i]); }
    }
    OneOwner(w, size, f.owner, r);
    assert First(w) in f.chain[r] && Second(w) in f.chain[r];
    assert |f.chain[r]| != 1;
  }

  lemma OnlyRoot(freq: seq<nat>, r: int, s: int)
    requires |freq| == N && Second(freq) < 0 && 0 <= r < N && 0 <= s < N && freq[r] > 0 && freq[s] > 0
    ensures r == s
  {
  }

  /** The count b added to the count a. */
  function Merged(w: seq<nat>, a: int, b: int): (r: seq<nat>)
    requires 0 <= a < |w| && 0 <= b < |w|
    ensures |r| == |w|
  {
    w[a := w[a] + w[b]][b := 0]
  }

  /** Count a is smaller than count b; in case of ties, the larger symbol number comes first. */
  predicate Precedes(w: seq<nat>, a: int, b: int)
    requires 0 <= a < |w| && 0 <= b < |w|
  {
    w[a] < w[b] || (w[a] == w[b] && a > b)
  }

  /** These two come before all other nonzero counts. */
  ghost predicate SmallestPair(w: seq<nat>, a: int, b: int) {
    && 0 <= a < |w| && 0 <= b < |w| && a != b && 0 < w[a] && Precedes(w, a, b)
    && forall c :: 0 <= c < |w| && w[c] > 0 && c != a && c != b ==> Precedes(w, b, c)
  }

  lemma TwoSmallest(w: seq<nat>, c1: int, c2: int)
    requires c1 == Pick(w, -1, |w|) && c2 == Pick(w, c1, |w|) >= 0
    ensures c1 == First(w) && c2 == Second(w) && SmallestPair(w, c1, c2) && w[c1] > 0 && w[c2] > 0
    ensures Merge(w) == Merged(w, c1, c2) && Sum(Merge(w)) == Sum(w) && Used(Merge(w)) < Used(w)
    ensures HuffmanCost(w) == w[c1] + w[c2] + HuffmanCost(Merge(w))
  {
    hide Used, Sum, HuffmanCost, Merge, Pick, SmallestPair, Precedes;
    MergeSum(w);
    PickedPair(w, c1, c2);
  }

  lemma PickedPair(w: seq<nat>, c1: int, c2: int)
    requires c1 == Pick(w, -1, |w|) && c2 == Pick(w, c1, |w|) >= 0
    ensures SmallestPair(w, c1, c2) && w[c1] > 0 && w[c2] > 0
  {
    hide Pick;
  }

  lemma CountsBounded(w: seq<nat>)
    ensures forall i :: 0 <= i < |w| ==> w[i] <= Sum(w)
  {
    forall i | 0 <= i < |w|
      ensures w[i] <= Sum(w)
    {
      SumBounds(w, i);
    }
  }

  lemma MergeSum(w: seq<nat>)
    requires Second(w) >= 0
    ensures Sum(Merge(w)) == Sum(w) && Used(Merge(w)) < Used(w)
    ensures HuffmanCost(w) == w[First(w)] + w[Second(w)] + HuffmanCost(Merge(w))
    ensures Merge(w) == w[First(w) := w[First(w)] + w[Second(w)]][Second(w) := 0]
  {
    var a, b := First(w), Second(w);
    SumUpdate(w, a, w[a] + w[b]);
    SumUpdate(w[a := w[a] + w[b]], b, 0);
  }

  // ----- How long codes can get

  /** The least total count of a branch with a code of h bits: a Fibonacci number. */
  function Least(h: nat): (n: nat)
    ensures n > 0
  {
    if h <= 1 then h + 1 else Least(h - 1) + Least(h - 2)
  }

  lemma {:induction false} LeastMonotonic(g: nat, h: nat)
    requires g <= h
    ensures Least(g) <= Least(h)
    decreases h
  {
    if g < h { LeastMonotonic(g, h - 1); }
  }

  /** The tallest branch of each root has this height; the counts are as great as that takes, and no count
      is less than what was merged before. */
  ghost predicate Grown(freq: seq<nat>, size: seq<nat>, owner: seq<int>, height: seq<nat>) {
    && |freq| == |size| == |owner| == |height| == N
    && (forall i :: 0 <= i < N && 0 <= owner[i] < N ==> size[i] <= height[owner[i]])
    && (forall c :: 0 <= c < N && freq[c] > 0 ==> freq[c] >= Least(height[c]))
    && forall c, d :: 0 <= c < N && 0 <= d < N && freq[c] > 0 && freq[d] > 0 && height[c] > 0 ==> freq[d] >= Least(height[c] - 1)
  }

  function Max(a: nat, b: nat): nat {
    if a < b then b else a
  }

  /** Merging the two smallest counts. */
  lemma GrownStep(freq: seq<nat>, size: seq<nat>, owner: seq<int>, height: seq<nat>,
                  freq': seq<nat>, size': seq<nat>, owner': seq<int>, a: int, b: int) returns (height': seq<nat>)
    requires Grown(freq, size, owner, height) && |freq| == |freq'| == N
    requires SmallestPair(freq, a, b) && freq' == Merged(freq, a, b) && Deepened(owner, size, owner', size', a, b)
    ensures Grown(freq', size', owner', height')
  {
    hide Least;
    var h := Max(height[a], height[b]);
    height' := height[a := h + 1];
    TallestPair(height[a], height[b], freq[a], freq[b]);
    forall d | 0 <= d < N && freq'[d] > 0
      ensures freq'[d] >= Least(h)
    {
      assert freq'[d] >= freq[b];
      LeastMonotonic(h, h);
    }
  }

  lemma TallestPair(ha: nat, hb: nat, fa: nat, fb: nat)
    requires fa <= fb && fa >= Least(ha) && fb >= Least(hb)
    requires ha > 0 ==> fa >= Least(ha - 1) && fb >= Least(ha - 1)
    requires hb > 0 ==> fa >= Least(hb - 1) && fb >= Least(hb - 1)
    ensures var h := Max(ha, hb); fb >= Least(h) && fa + fb >= Least(h + 1)
  {
    var h := Max(ha, hb);
    assert Least(h + 1) == if h == 0 then 2 else Least(h) + Least(h - 1);
  }

  lemma GrownStart(w: seq<nat>, size: seq<nat>)
    requires |w| == |size| == N && forall i :: 0 <= i < N ==> size[i] == 0
    ensures Grown(w, size, Singletons(w).owner, size)
  {
  }

  /** The pseudo-symbol included, codes of more than 32 bits take a total count of 9227465. */
  lemma LongCodes(h: nat)
    requires h > 32
    ensures Least(h) >= 9227465
  {
    assert Least(4) == 8 && Least(5) == 13;
    assert Least(8) == 55 && Least(9) == 89 by { LeastTwo(4); }
    LeastTwo(8);
    LeastTwo(12);
    LeastTwo(16);
    LeastTwo(20);
    LeastTwo(24);
    LeastTwo(28);
    assert Least(33) == Least(32) + Least(31);
    LeastMonotonic(33, h);
  }

  lemma LeastTwo(h: nat)
    ensures Least(h + 4) == 3 * Least(h + 1) + 2 * Least(h) && Least(h + 5) == 5 * Least(h + 1) + 3 * Least(h)
  {
    assert Least(h + 2) == Least(h + 1) + Least(h);
    assert Least(h + 3) == Least(h + 2) + Least(h + 1);
    assert Least(h + 4) == Least(h + 3) + Least(h + 2);
    assert Least(h + 5) == Least(h + 4) + Least(h + 3);
  }

  // ----- The pseudo-symbol

  /** No code is longer than that of symbol p.  Its branch comes before every other that is as tall, and before what any
      two others would become. */
  ghost predicate Deepest(freq: seq<nat>, size: seq<nat>, owner: seq<int>, p: nat) {
    && |freq| == |size| == |owner| == N && p < N && (forall i :: 0 <= i < N ==> owner[i] == -1 || 0 <= owner[i] < N)
    && 0 <= owner[p] && freq[owner[p]] > 0
    && (forall i :: 0 <= i < N && owner[i] != -1 ==> size[i] <= size[p])
    && (forall i :: 0 <= i < N && owner[i] != -1 && owner[i] != owner[p] && size[i] == size[p] ==> Precedes(freq, owner[p], owner[i]))
    && forall x, y :: 0 <= x < N && 0 <= y < N && x != y && x != owner[p] && y != owner[p] && freq[x] > 0 && freq[y] > 0 ==>
         SumAfter(freq, owner[p], x, y)
  }

  predicate SumAfter(freq: seq<nat>, r: int, x: int, y: int)
    requires 0 <= r < |freq| && 0 <= x < |freq| && 0 <= y < |freq|
  {
    freq[r] < freq[x] + freq[y] || (freq[r] == freq[x] + freq[y] && r > x && r > y)
  }

  lemma DeepestStart(w: seq<nat>, size: seq<nat>, p: nat)
    requires |w| == |size| == N && p == 256 && w[p] == 1 && forall i :: 0 <= i < N ==> size[i] == 0
    ensures Deepest(w, size, Singletons(w).owner, p)
  {
  }

  /** A merge of the first two keeps this: either p gets one bit longer, or branches that come before that of p, and so
      are less tall. */
  lemma DeepestStep(freq: seq<nat>, size: seq<nat>, owner: seq<int>, freq': seq<nat>, size': seq<nat>, owner': seq<int>, a: int, b: int, p: nat)
    requires Deepest(freq, size, owner, p) && |freq'| == N && (forall i :: 0 <= i < N && owner[i] != -1 ==> freq[owner[i]] > 0)
    requires SmallestPair(freq, a, b) && freq' == Merged(freq, a, b) && Deepened(owner, size, owner', size', a, b)
    ensures Deepest(freq', size', owner', p)
  {
    hide Precedes, SumAfter;
    var r := owner[p];
    if r == a || r == b {
      forall x, y | 0 <= x < N && 0 <= y < N && x != y && x != a && y != a && freq'[x] > 0 && freq'[y] > 0
        ensures SumAfter(freq', a, x, y)
      {
        TwoLater(freq, freq', a, b, x, y);
      }
    } else {
      assert Precedes(freq, b, r);
      FirstPair(freq, a, b, r);
      forall i | 0 <= i < N && owner'[i] != -1
        ensures size'[i] <= size'[p]
        ensures owner'[i] != r && size'[i] == size'[p] ==> Precedes(freq', r, owner'[i])
      {
        StillDeepest(freq, size, owner, freq', size', owner', a, b, p, i);
      }
      forall x, y | 0 <= x < N && 0 <= y < N && x != y && x != r && y != r && freq'[x] > 0 && freq'[y] > 0
        ensures SumAfter(freq', r, x, y)
      {
        StillAfter(freq, freq', a, b, r, x, y);
      }
    }
  }

  lemma FirstPair(w: seq<nat>, a: int, b: int, r: int)
    requires SmallestPair(w, a, b) && 0 <= r < |w| && Precedes(w, b, r)
    ensures Precedes(w, a, r) && !Precedes(w, r, a) && !Precedes(w, r, b)
  {
  }

  lemma TwoLater(freq: seq<nat>, freq': seq<nat>, a: int, b: int, x: int, y: int)
    requires SmallestPair(freq, a, b) && freq' == Merged(freq, a, b)
    requires 0 <= x < |freq| && 0 <= y < |freq| && x != y && x != a && y != a && freq'[x] > 0 && freq'[y] > 0
    ensures SumAfter(freq', a, x, y)
  {
    assert Precedes(freq, b, x) && Precedes(freq, b, y);
  }

  lemma StillDeepest(freq: seq<nat>, size: seq<nat>, owner: seq<int>, freq': seq<nat>, size': seq<nat>, owner': seq<int>, a: int, b: int, p: nat, i: nat)
    requires Deepest(freq, size, owner, p) && |freq'| == N && i < N && owner[p] != a && owner[p] != b
    requires SmallestPair(freq, a, b) && freq' == Merged(freq, a, b) && Deepened(owner, size, owner', size', a, b) && owner'[i] != -1
    requires !Precedes(freq, owner[p], a) && !Precedes(freq, owner[p], b)
    ensures size'[i] <= size'[p]
    ensures owner'[i] != owner[p] && size'[i] == size'[p] ==> Precedes(freq', owner[p], owner'[i])
  {
    if owner[i] == a || owner[i] == b {
      assert size[i] < size[p];
      assert SumAfter(freq, owner[p], a, b);
    }
  }

  lemma StillAfter(freq: seq<nat>, freq': seq<nat>, a: int, b: int, r: int, x: int, y: int)
    requires SmallestPair(freq, a, b) && freq' == Merged(freq, a, b) && 0 <= r < |freq| && r != a && r != b
    requires 0 <= x < |freq| && 0 <= y < |freq| && x != y && x != r && y != r && freq'[x] > 0 && freq'[y] > 0
    requires forall x, y :: 0 <= x < |freq| && 0 <= y < |freq| && x != y && x != r && y != r && freq[x] > 0 && freq[y] > 0 ==> SumAfter(freq, r, x, y)
    ensures SumAfter(freq', r, x, y)
  {
    assert SumAfter(freq, r, if x == a then b else x, if y == a then b else y);
  }

  lemma Rooted(w: seq<nat>, freq: seq<nat>, size: seq<nat>, f: Forest)
    requires Balanced(w, freq, size, f)
    ensures |w| == |f.owner| == N && forall i :: 0 <= i < N ==> (w[i] > 0 <==> f.owner[i] != -1)
    ensures forall i :: 0 <= i < N && f.owner[i] != -1 ==> 0 <= f.owner[i] < N && freq[f.owner[i]] > 0
  {
    hide KraftOf, CountOf;
  }

  lemma TallestCode(w: seq<nat>, freq: seq<nat>, size: seq<nat>, f: Forest, height: seq<nat>)
    requires Balanced(w, freq, size, f) && Grown(freq, size, f.owner, height) && Sum(freq) >= 1
    ensures forall i :: 0 <= i < N ==> Least(size[i]) <= Sum(freq)
  {
    hide Least, KraftOf, CountOf, Sum;
    CountsBounded(freq);
    forall i | 0 <= i < N
      ensures Least(size[i]) <= Sum(freq)
    {
      var c := f.owner[i];
      if c == -1 {
        assert size[i] == 0;
        assert Least(0) == 1 by { LeastZero(); }
      } else {
        LeastMonotonic(size[i], height[c]);
      }
    }
  }

  lemma LeastZero()
    ensures Least(0) == 1
  {
  }

  // ----- The loop

  method Smallest(freq: array<nat>, skip: int) returns (c: int)
    requires freq.Length == N && forall i :: 0 <= i < N && i != skip ==> freq[i] <= MAX_COUNT
    ensures c == Pick(freq[..], skip, N)
  {
    c := -1;
    var v := MAX_COUNT;
    var i := 0;
    while i <= 256
      invariant 0 <= i <= N
      invariant c == Pick(freq[..], skip, i) && v == if c < 0 then MAX_COUNT else freq[c]
    {
      if freq[i] != 0 && freq[i] <= v && i != skip {
        v := freq[i];
        c := i;
      }
      i := i + 1;
    }
  }

  // Increment the codesize of everything in a tree branch; returns the last symbol in it.
  method Deepen(codesize: array<nat>, others: array<int>, root: int, ghost branch: seq<int>) returns (c: int)
    requires codesize.Length == others.Length == N && codesize as object != others
    requires Branch(branch) && branch != [] && branch[0] == root && Linked(branch, others[..])
    modifies codesize
    ensures c == branch[|branch| - 1]
    ensures forall i :: 0 <= i < N ==> codesize[i] == old(codesize[i]) + (if i in branch then 1 else 0)
  {
    c := root;
    ghost var j, links := 0, others[..];
    codesize[c] := codesize[c] + 1;
    while others[c] >= 0
      invariant 0 <= j < |branch| && c == branch[j] && others[..] == links
      invariant links[branch[j]] == NextIn(branch, j)
      invariant forall i :: 0 <= i < N ==> codesize[i] == old(codesize[i]) + (if i in branch[..j + 1] then 1 else 0)
      decreases |branch| - j
    {
      c := others[c];
      j := j + 1;
      codesize[c] := codesize[c] + 1;
    }
  }

  // Merge the two counts/trees.
  method MergeStep(freq: array<nat>, codesize: array<nat>, others: array<int>, c1: int, c2: int,
                   ghost w: seq<nat>, ghost f: Forest)
    returns (ghost g: Forest)
    requires freq.Length == codesize.Length == others.Length == N
    requires codesize as object != others && freq as object != others && freq != codesize
    requires Balanced(w, freq[..], codesize[..], f) && AllLinked(f, others[..])
    requires 0 <= c1 < N && 0 <= c2 < N && c1 != c2 && freq[c1] > 0 && freq[c2] > 0
    modifies freq, codesize, others
    ensures Partitioned(g) && Balanced(w, freq[..], codesize[..], g) && AllLinked(g, others[..])
    ensures freq[..] == Merged(old(freq[..]), c1, c2)
    ensures Cost(w, codesize[..]) == Cost(w, old(codesize[..])) + old(freq[c1]) + old(freq[c2])
    ensures Deepened(f.owner, old(codesize[..]), g.owner, codesize[..], c1, c2)
  {
    hide Cost, NextIn, KraftOf, CountOf;
    ghost var freq0, size0, others0 := freq[..], codesize[..], others[..];
    freq[c1] := freq[c1] + freq[c2];
    freq[c2] := 0;
    var last := Deepen(codesize, others, c1, f.chain[c1]);
    others[last] := c2;  // chain c2 onto c1's tree branch
    JoinedLinked(f, c1, c2, others0, others[..]);
    var end := Deepen(codesize, others, c2, f.chain[c2]);
    g := Joined(f, c1, c2);
    assert Deepened(f.owner, size0, g.owner, codesize[..], c1, c2);
    BalancedStep(w, freq0, size0, f, freq[..], codesize[..], c1, c2);
    CostDeepened(w, f.owner, size0, g.owner, codesize[..], c1, c2);
  }

  method MergeNext(freq: array<nat>, codesize: array<nat>, others: array<int>, c1: int, c2: int,
                   ghost w: seq<nat>, ghost f: Forest, ghost height: seq<nat>)
    returns (ghost g: Forest, ghost height': seq<nat>)
    requires freq.Length == codesize.Length == others.Length == N
    requires codesize as object != others && freq as object != others && freq != codesize
    requires Balanced(w, freq[..], codesize[..], f) && AllLinked(f, others[..])
    requires SmallestPair(freq[..], c1, c2) && freq[c2] > 0 && Grown(freq[..], codesize[..], f.owner, height)
    requires w[256] == 1 ==> Deepest(freq[..], codesize[..], f.owner, 256)
    modifies freq, codesize, others
    ensures Partitioned(g) && Balanced(w, freq[..], codesize[..], g) && AllLinked(g, others[..])
    ensures freq[..] == Merged(old(freq[..]), c1, c2)
    ensures Cost(w, codesize[..]) == Cost(w, old(codesize[..])) + old(freq[c1]) + old(freq[c2])
    ensures Grown(freq[..], codesize[..], g.owner, height')
    ensures w[256] == 1 ==> Deepest(freq[..], codesize[..], g.owner, 256)
  {
    hide Balanced, Partitioned, AllLinked, Deepest, Precedes, Cost, Grown, Deepened, Merged;
    ghost var before, sizes := freq[..], codesize[..];
    Rooted(w, before, sizes, f);
    g := MergeStep(freq, codesize, others, c1, c2, w, f);
    height' := GrownStep(before, sizes, f.owner, height, freq[..], codesize[..], g.owner, c1, c2);
    if w[256] == 1 { DeepestStep(before, sizes, f.owner, freq[..], codesize[..], g.owner, c1, c2, 256); }
  }

  // Huffman's basic algorithm to assign optimal code lengths to symbols.
  method MergeAll(freq: array<nat>, codesize: array<nat>, others: array<int>, ghost w: seq<nat>)
    requires freq.Length == codesize.Length == others.Length == N
    requires codesize as object != others && freq as object != others && freq != codesize
    requires w == freq[..] && Sum(w) <= MAX_COUNT && Second(w) >= 0
    requires forall i :: 0 <= i < N ==> codesize[i] == 0 && others[i] == -1
    modifies freq, codesize, others
    ensures Cost(w, codesize[..]) == HuffmanCost(w)
    ensures KraftUsed(w, codesize[..]) == 1.0
    ensures forall i :: 0 <= i < N ==> (codesize[i] > 0 <==> w[i] > 0)
    ensures forall i :: 0 <= i < N ==> Least(codesize[i]) <= Sum(w)
    ensures w[256] == 1 ==> forall i :: 0 <= i < N ==> codesize[i] <= codesize[256]
  {
    hide Balanced, Partitioned, AllLinked, Singletons, Deepest, SmallestPair, Precedes, KraftUsed, Cost, Pick, Used, HuffmanCost, Merge, Sum, Grown, Least, Deepened, Merged;
    ghost var f, height: seq<nat> := Singletons(w), codesize[..];
    StartBalanced(w, codesize[..], others[..]);
    GrownStart(w, codesize[..]);
    SumBounds(w, First(w));
    if w[256] == 1 { DeepestStart(w, codesize[..], 256); }
    while true
      invariant Partitioned(f) && Balanced(w, freq[..], codesize[..], f) && AllLinked(f, others[..])
      invariant Cost(w, codesize[..]) + HuffmanCost(freq[..]) == HuffmanCost(w)
      invariant Sum(freq[..]) == Sum(w) && Grown(freq[..], codesize[..], f.owner, height)
      invariant w[256] == 1 ==> Deepest(freq[..], codesize[..], f.owner, 256)
      decreases Used(freq[..])
    {
      CountsBounded(freq[..]);
      var c1 := Smallest(freq, -1);
      var c2 := Smallest(freq, c1);
      if c2 < 0 {
        break;
      }
      TwoSmallest(freq[..], c1, c2);
      f, height := MergeNext(freq, codesize, others, c1, c2, w, f, height);
    }
    TallestCode(w, freq[..], codesize[..], f, height);
    Finished(w, freq[..], codesize[..], f);
    Rooted(w, freq[..], codesize[..], f);
    if w[256] == 1 { LastInLargest(w, codesize[..], freq[..], f.owner); }
  }

  lemma LastInLargest(w: seq<nat>, size: seq<nat>, freq: seq<nat>, owner: seq<int>)
    requires |w| == N && w[256] == 1 && Deepest(freq, size, owner, 256) && forall i :: 0 <= i < N ==> (size[i] > 0 <==> w[i] > 0)
    requires forall i :: 0 <= i < N ==> (w[i] > 0 <==> owner[i] != -1)
    ensures forall i :: 0 <= i < N ==> size[i] <= size[256]
  {
  }
}
