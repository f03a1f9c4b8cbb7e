/** From code sizes to a JPEG Huffman table: counting, limiting lengths to 16 bits, reserving the
    all-ones code, and listing the symbols. */
module HuffLimit {
  import opened Bytes
  import opened Sums
  import opened HuffOptimal
  import opened HuffBuild
  import opened HuffTable

  const MAX_CLEN := 32

  lemma {:induction false} FilledAdd(bits: seq<int>, s: nat, l: nat)
    requires 0 < s < |bits| && l < |bits|
    ensures Filled(bits[s := bits[s] + 1], l) == Filled(bits, l) + (if s <= l then Pow2(l - s) else 0)
  {
    if l != 0 { FilledAdd(bits, s, l - 1); }
  }

  lemma {:induction false} FilledSame(bits: seq<int>, cs: seq<int>, l: nat)
    requires l < |bits| && l < |cs| && forall k :: 1 <= k <= l ==> bits[k] == cs[k]
    ensures Filled(bits, l) == Filled(cs, l)
  {
    if l != 0 { FilledSame(bits, cs, l - 1); }
  }

  ghost predicate Counts(bits: seq<int>, n: nat) {
    |bits| == n > 0 && bits[0] == 0 && forall k :: 0 <= k < n ==> bits[k] >= 0
  }

  // ----- Counting

  lemma {:induction false} WeightShare(s: nat)
    requires s <= MAX_CLEN
    ensures Weight(s) * 4294967296.0 == Pow2(MAX_CLEN - s) as real
  {
    if s == 0 {
      assert Pow2(8) == 256 by { ShlPowers(); }
      ShlPowers();
    } else {
      WeightShare(s - 1);
    }
  }

  lemma ShlPowers()
    ensures Pow2(8) == 0x100 && Pow2(16) == 0x10000 && Pow2(32) == 0x100000000
  {
    hide Shl;
    Pow2Add(4, 4);
    Pow2Add(8, 8);
    Pow2Add(16, 16);
    assert Pow2(4) == 2 * Pow2(3) == 4 * Pow2(2) == 8 * Pow2(1) == 16;
  }

  /** How many of the first n symbols have codes of length l. */
  function AtLength(size: seq<nat>, l: nat, n: nat): (c: nat)
    requires n <= |size|
    ensures c <= n
  {
    if n == 0 then 0 else AtLength(size, l, n - 1) + (if size[n - 1] == l then 1 else 0)
  }

  /** The number of symbols of each length. */
  function LengthCounts(size: seq<nat>): (bits: seq<int>)
    ensures |bits| == MAX_CLEN + 1
  {
    seq(MAX_CLEN + 1, l requires 0 <= l => if l == 0 then 0 else AtLength(size, l, |size|))
  }

  // Count the number of symbols of each code length.
  method CountLengths(codesize: array<nat>, bits: array<int>, ghost w: seq<nat>) returns (ok: bool)
    requires codesize.Length == N == |w| && bits.Length == MAX_CLEN + 1
    requires forall k :: 0 <= k <= MAX_CLEN ==> bits[k] == 0
    requires KraftUsed(w, codesize[..]) == 1.0 && forall i :: 0 <= i < N ==> (codesize[i] > 0 <==> w[i] > 0)
    modifies bits
    ensures ok <==> forall i :: 0 <= i < N ==> codesize[i] <= MAX_CLEN
    ensures ok ==> Counts(bits[..], MAX_CLEN + 1) && Filled(bits[..], MAX_CLEN) == Pow2(MAX_CLEN)
    ensures ok ==> Sum(bits[..]) == Used(w) && bits[..] == LengthCounts(codesize[..])
  {
    hide Filled, Sum, KraftUsed, Used, Pow2;
    var i := 0;
    EmptyCounts(bits[..], MAX_CLEN);
    NoneUsed(w[..0], codesize[..0]);
    while i <= 256
      invariant 0 <= i <= N && Counts(bits[..], MAX_CLEN + 1)
      invariant forall k :: 0 <= k < i ==> codesize[k] <= MAX_CLEN
      invariant Filled(bits[..], MAX_CLEN) as real == 4294967296.0 * KraftUsed(w[..i], codesize[..i])
      invariant Sum(bits[..]) == Used(w[..i])
      invariant forall l :: 1 <= l <= MAX_CLEN ==> bits[l] == AtLength(codesize[..], l, i)
    {
      ghost var before := bits[..];
      NextSymbol(w, codesize[..], i);
      if codesize[i] != 0 {
        if codesize[i] > MAX_CLEN {
          return false;
        }
        FilledAdd(before, codesize[i], MAX_CLEN);
        SumUpdate(before, codesize[i], before[codesize[i]] + 1);
        WeightShare(codesize[i]);
        bits[codesize[i]] := bits[codesize[i]] + 1;
        assert bits[..] == before[codesize[i] := before[codesize[i]] + 1];
      }
      i := i + 1;
    }
    assert w[..N] == w && codesize[..N] == codesize[..];
    assert bits[..] == LengthCounts(codesize[..]);
    ShlPowers();
    ok := true;
  }

  lemma {:induction false} EmptyCounts(bits: seq<int>, l: nat)
    requires l < |bits| && forall k :: 0 <= k < |bits| ==> bits[k] == 0
    ensures Filled(bits, l) == 0 && Sum(bits) == 0
    decreases l
  {
    SumZero(bits);
    if l > 0 { EmptyCounts(bits, l - 1); }
  }

  lemma NoneUsed(w: seq<nat>, size: seq<nat>)
    requires w == [] && size == []
    ensures KraftUsed(w, size) == 0.0 && Used(w) == 0
  {
  }

  lemma NextSymbol(w: seq<nat>, size: seq<nat>, i: nat)
    requires i < |w| == |size|
    ensures KraftUsed(w[..i + 1], size[..i + 1]) == KraftUsed(w[..i], size[..i]) + (if w[i] > 0 then Weight(size[i]) else 0.0)
    ensures Used(w[..i + 1]) == Used(w[..i]) + (if w[i] > 0 then 1 else 0)
  {
    assert w[..i + 1][..i] == w[..i] && size[..i + 1][..i] == size[..i];
  }

  // ----- Limiting the lengths

  /** Complete up to length i, with nothing above. */
  ghost predicate CompleteTo(bits: seq<int>, i: nat) {
    && Counts(bits, MAX_CLEN + 1) && i <= MAX_CLEN
    && (forall k :: i < k <= MAX_CLEN ==> bits[k] == 0)
    && Filled(bits, i) == Pow2(i)
  }

  function Add(s: seq<int>, i: nat, d: int): (t: seq<int>)
    requires i < |s|
    ensures |t| == |s|
  {
    s[i := s[i] + d]
  }

  /** The replacement of section K.2: a pair at length i, of which one moves up, and a symbol of length j
      moves down beside the other. */
  function Shortened(bits: seq<int>, i: nat, j: nat): seq<int>
    requires 0 < j <= i - 2 && i < |bits|
  {
    Add(Add(Add(Add(bits, i, -2), i - 1, 1), j + 1, 2), j, -1)
  }

  lemma {:induction false} FilledChange(bits: seq<int>, s: nat, d: int, l: nat)
    requires 0 < s <= l < |bits|
    ensures Filled(Add(bits, s, d), l) == Filled(bits, l) + d * Pow2(l - s)
  {
    var t := Add(bits, s, d);
    if s == l {
      FilledSame(bits, t, l - 1);
    } else {
      FilledChange(bits, s, d, l - 1);
      assert 2 * (d * Pow2(l - 1 - s)) == d * (2 * Pow2(l - 1 - s));
    }
  }

  lemma SumChange(s: seq<int>, i: nat, d: int)
    requires i < |s|
    ensures Sum(Add(s, i, d)) == Sum(s) + d
  {
    hide Sum;
    SumUpdate(s, i, s[i] + d);
  }

  /** It keeps the code complete and the number of symbols. */
  lemma ShortenedKeeps(bits: seq<int>, i: nat, j: nat)
    requires 0 < j <= i - 2 && i < |bits|
    ensures Filled(Shortened(bits, i, j), i) == Filled(bits, i)
    ensures Sum(Shortened(bits, i, j)) == Sum(bits)
  {
    hide Filled, Sum, Add;
    var b1 := Add(bits, i, -2);
    var b2 := Add(b1, i - 1, 1);
    var b3 := Add(b2, j + 1, 2);
    FilledChange(bits, i, -2, i);
    FilledChange(b1, i - 1, 1, i);
    FilledChange(b2, j + 1, 2, i);
    FilledChange(b3, j, -1, i);
    assert Pow2(0) == 1 && Pow2(1) == 2 && Pow2(i - j) == 2 * Pow2(i - j - 1);
    SumChange(bits, i, -2);
    SumChange(b1, i - 1, 1);
    SumChange(b2, j + 1, 2);
    SumChange(b3, j, -1);
  }

  /** Symbols of the greatest length come in pairs, and there is a shorter one to give way. */
  lemma PairAtEnd(bits: seq<int>, i: nat)
    requires CompleteTo(bits, i) && i > 16 && bits[i] > 0 && Sum(bits) < 0x10000
    ensures bits[i] >= 2 && Filled(bits, i - 2) > 0
  {
    SumPair(bits, i, i - 1);
    ShlPowers();
    Pow2Below(17, i);
    assert Filled(bits, i) == 4 * Filled(bits, i - 2) + 2 * bits[i - 1] + bits[i];
  }

  lemma NoneLeft(bits: seq<int>, i: nat)
    requires i >= 1 && CompleteTo(bits, i) && bits[i] <= 0
    ensures CompleteTo(bits, i - 1)
  {
  }

  // ----- The moves that limit the lengths

  /** A pair of codes of this length gives way to one shorter code, and to one beside a code of the other length. */
  datatype Move = Move(long: nat, short: nat)

  /** The pair is taken at the greatest length in use, if that is over 16 bits; the other length is the greatest in use that
      is shorter by two or more. */
  predicate LegalMove(b: seq<int>, m: Move) {
    && |b| == MAX_CLEN + 1 && 16 < m.long <= MAX_CLEN && 0 < m.short <= m.long - 2 && b[m.long] > 0 && b[m.short] > 0
    && (forall l :: m.long < l <= MAX_CLEN ==> b[l] == 0)
    && (forall l :: m.short < l <= m.long - 2 ==> b[l] == 0)
  }

  function AfterMove(b: seq<int>, m: Move): (c: seq<int>)
    ensures |c| == |b|
  {
    seq(|b|, l requires 0 <= l < |b| =>
      b[l] - (if l == m.long then 2 else 0) + (if l == m.long - 1 then 1 else 0) + (if l == m.short + 1 then 2 else 0) - (if l == m.short then 1 else 0))
  }

  ghost predicate Moves(b: seq<int>, ms: seq<Move>, c: seq<int>)
    decreases |ms|
  {
    if ms == [] then c == b else LegalMove(b, ms[0]) && Moves(AfterMove(b, ms[0]), ms[1..], c)
  }

  ghost predicate NoneLong(b: seq<int>) {
    |b| == MAX_CLEN + 1 && forall l :: 16 < l <= MAX_CLEN ==> b[l] == 0
  }

  lemma {:induction false} MovesSnoc(b: seq<int>, ms: seq<Move>, c: seq<int>, m: Move)
    requires Moves(b, ms, c) && LegalMove(c, m)
    ensures Moves(b, ms + [m], AfterMove(c, m))
    decreases |ms|
  {
    hide LegalMove, AfterMove;
    if ms == [] {
      assert [m][1..] == [];
    } else {
      assert (ms + [m])[1..] == ms[1..] + [m];
      MovesSnoc(AfterMove(b, ms[0]), ms[1..], c, m);
    }
  }

  /** Each move is determined, and so is the end; without long codes there is no move. */
  lemma {:induction false} MovesDetermined(b: seq<int>, ms: seq<Move>, c: seq<int>, ms': seq<Move>, c': seq<int>)
    requires Moves(b, ms, c) && NoneLong(c) && Moves(b, ms', c') && NoneLong(c')
    ensures ms == ms' && c == c'
    ensures NoneLong(b) ==> ms == [] && c == b
    decreases |ms|
  {
    hide AfterMove;
    if ms != [] && ms' != [] {
      assert ms[0] == ms'[0];
      MovesDetermined(AfterMove(b, ms[0]), ms[1..], c, ms'[1..], c');
    }
  }

  // JPEG doesn't allow symbols with code lengths over 16 bits.
  method LimitLengths(bits: array<int>) returns (ghost ms: seq<Move>)
    requires bits.Length == MAX_CLEN + 1 && CompleteTo(bits[..], MAX_CLEN) && Sum(bits[..]) < 0x10000
    modifies bits
    ensures CompleteTo(bits[..], 16) && Sum(bits[..]) == old(Sum(bits[..]))
    ensures Moves(old(bits[..]), ms, bits[..])
    ensures NoneLong(old(bits[..])) ==> bits[..] == old(bits[..])
  {
    hide Filled, Sum, Pow2, Moves, LegalMove, AfterMove;
    var i := MAX_CLEN;
    ms := [];
    NoMoves(bits[..]);
    while i > 16
      invariant 16 <= i <= MAX_CLEN && CompleteTo(bits[..], i) && Sum(bits[..]) == old(Sum(bits[..]))
      invariant Moves(old(bits[..]), ms, bits[..])
    {
      while bits[i] > 0
        invariant CompleteTo(bits[..], i) && Sum(bits[..]) == old(Sum(bits[..]))
        invariant Moves(old(bits[..]), ms, bits[..])
        decreases bits[i]
      {
        ghost var before := bits[..];
        ghost var m := ShortenPair(bits, i);
        MovesSnoc(old(bits[..]), ms, before, m);
        ms := ms + [m];
      }
      NoneLeft(bits[..], i);
      i := i - 1;
    }
    MovesDetermined(old(bits[..]), ms, bits[..], ms, bits[..]);
  }

  lemma NoMoves(b: seq<int>)
    ensures Moves(b, [], b)
  {
  }

  method ShortenPair(bits: array<int>, i: nat) returns (ghost m: Move)
    requires bits.Length == MAX_CLEN + 1 && CompleteTo(bits[..], i) && Sum(bits[..]) < 0x10000
    requires 16 < i && bits[i] > 0
    modifies bits
    ensures CompleteTo(bits[..], i) && Sum(bits[..]) == old(Sum(bits[..])) && bits[i] < old(bits[i])
    ensures LegalMove(old(bits[..]), m) && bits[..] == AfterMove(old(bits[..]), m)
  {
    hide Filled, Sum, Pow2;
    PairAtEnd(bits[..], i);
    var j := FindShorter(bits, i);
    ghost var before := bits[..];
    ShortenedKeeps(before, i, j);
    bits[i] := bits[i] - 2;          // remove two symbols
    bits[i - 1] := bits[i - 1] + 1;  // one goes in this length
    bits[j + 1] := bits[j + 1] + 2;  // two new symbols in this length
    bits[j] := bits[j] - 1;          // symbol of this length is now a prefix
    assert bits[..] == Shortened(before, i, j);
    m := Move(i, j);
  }

  // Find length of new prefix to be used.
  method FindShorter(bits: array<int>, i: nat) returns (j: nat)
    requires 2 <= i < bits.Length && Filled(bits[..], i - 2) > 0 && forall k :: 0 <= k < bits.Length ==> bits[k] >= 0
    ensures 0 < j <= i - 2 && bits[j] > 0 && forall k :: j < k <= i - 2 ==> bits[k] == 0
  {
    j := i - 2;
    while bits[j] == 0
      invariant 0 < j <= i - 2 && Filled(bits[..], j) > 0
      invariant forall k :: j < k <= i - 2 ==> bits[k] == 0
      decreases j
    {
      j := j - 1;
    }
  }

  /** The code is complete except for the all-ones code of length i, its greatest length. */
  ghost predicate AllButOnes(bits: seq<int>, i: nat) {
    && |bits| >= 17 && bits[0] == 0 && 0 < i <= 16
    && (forall k :: 0 <= k <= 16 ==> bits[k] >= 0)
    && (forall k :: i < k <= 16 ==> bits[k] == 0)
    && Filled(bits, i) == Pow2(i) - 1
  }

  /** The greatest length in use. */
  predicate Largest(bits: seq<int>, i: nat) {
    |bits| > 16 && 0 < i <= 16 && bits[i] > 0 && forall k :: i < k <= 16 ==> bits[k] == 0
  }

  // Remove the count for the pseudo-symbol 256 from the largest codelength.
  method RemovePseudoSymbol(bits: array<int>) returns (i: nat)
    requires bits.Length == MAX_CLEN + 1 && CompleteTo(bits[..], 16)
    modifies bits
    ensures AllButOnes(bits[..], i) && Sum(bits[..]) == old(Sum(bits[..])) - 1
    ensures Largest(old(bits[..]), i) && bits[..] == old(bits[..])[i := old(bits[i]) - 1]
    ensures forall k :: 16 < k <= MAX_CLEN ==> bits[k] == 0
  {
    hide Sum, Pow2;
    i := 16;
    ShlPowers();
    while bits[i] == 0
      invariant 0 < i <= 16 && Filled(bits[..], i) == Pow2(i)
      invariant forall k :: i < k <= 16 ==> bits[k] == 0
      decreases i
    {
      i := i - 1;
      assert i > 0 by { assert Filled(bits[..], 0) == 0; }
    }
    ghost var before := bits[..];
    bits[i] := bits[i] - 1;
    SumUpdate(before, i, before[i] - 1);
    FilledAdd(bits[..], i, i);
    assert bits[..] == before[i := before[i] - 1] && before == bits[..][i := bits[..][i] + 1];
  }
}
