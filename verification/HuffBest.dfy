/** What the generated table is worth: its codes have exactly the lengths of Huffman's procedure, unless these had to be
    limited, and so no prefix code does better. */
module HuffBest {
  import opened Bytes
  import opened Sums
  import opened HuffOptimal
  import opened HuffBuild
  import opened HuffLimit
  import opened HuffTable
  import opened HuffGen

  // ----- Counting

  lemma {:induction false} CountUpTo(size: seq<nat>, l: nat, n: nat)
    requires n <= |size| && l > 0
    ensures CountBefore(size, l + 1, 0, n) == CountBefore(size, l, 0, n) + AtLength(size, l, n)
  {
    if n != 0 { CountUpTo(size, l, n - 1); }
  }

  lemma {:induction false} CountMonotonic(size: seq<nat>, i: nat, j: nat, k: nat, n: nat)
    requires n <= |size| && j <= k
    ensures CountBefore(size, i, j, n) <= CountBefore(size, i, k, n)
  {
    if n != 0 { CountMonotonic(size, i, j, k, n - 1); }
  }

  lemma {:induction false} AtLengthPrefix(size: seq<nat>, l: nat, m: nat, n: nat)
    requires n <= m <= |size|
    ensures AtLength(size[..m], l, n) == AtLength(size, l, n)
  {
    if n != 0 { AtLengthPrefix(size, l, m, n - 1); }
  }

  lemma {:induction false} NoneAtLength(size: seq<nat>, l: nat, n: nat)
    requires n <= |size| && forall i :: 0 <= i < n ==> size[i] < l
    ensures AtLength(size, l, n) == 0
  {
    if n != 0 { NoneAtLength(size, l, n - 1); }
  }

  // ----- The lengths of the table

  /** No code is too long, and none is longer than that of the pseudo-symbol. */
  ghost predicate Short(size: seq<nat>) {
    |size| == N && 0 < size[256] <= 16 && forall i :: 0 <= i < N ==> size[i] <= size[256]
  }

  lemma CountsStay(t: Table, size: seq<nat>)
    requires WellFormed(t) && Short(size) && LengthsFrom(t, size)
    ensures forall l :: 1 <= l <= 16 ==> t.bits[l] == AtLength(size[..256], l, 256)
  {
    hide Moves, AtLength, CodesTo, Placed;
    var b := LengthCounts(size);
    var ms, limited, i :| Moves(b, ms, limited) && NoneLong(limited) && Largest(limited, i) && t.bits == limited[i := limited[i] - 1][..17];
    forall l | size[256] < l <= MAX_CLEN
      ensures b[l] == 0
    {
      NoneAtLength(size, l, N);
    }
    NoMoves(b);
    MovesDetermined(b, ms, limited, [], b);
    PseudoAtLength(size, size[256]);
    assert b[size[256]] > 0 && limited == b;
    assert i == size[256];
    forall l | 1 <= l <= 16
      ensures t.bits[l] == AtLength(size[..256], l, 256)
    {
      PseudoAtLength(size, l);
    }
  }

  lemma PseudoAtLength(size: seq<nat>, l: nat)
    requires |size| == N
    ensures AtLength(size, l, N) == AtLength(size[..256], l, 256) + (if size[256] == l then 1 else 0)
  {
    AtLengthPrefix(size, l, 256, 256);
  }

  lemma {:induction false} CodesToCount(t: Table, z: seq<nat>, l: nat)
    requires WellFormed(t) && |z| == 256 && l <= 16 && forall k :: 1 <= k <= 16 ==> t.bits[k] == AtLength(z, k, 256)
    ensures CodesTo(t.bits, l) == CountBefore(z, l + 1, 0, 256)
  {
    hide AtLength, CountBefore;
    if l == 0 {
      CountNone(z, 256);
    } else {
      CodesToCount(t, z, l - 1);
      CountUpTo(z, l, 256);
    }
  }

  /** Every symbol gets a code of exactly its size. */
  lemma ExactLength(t: Table, size: seq<nat>, p: int, l: int)
    requires WellFormed(t) && Short(size) && LengthsFrom(t, size) && HasLength(t.bits, p, l)
    ensures 0 <= p < 256 && size[t.vals[p]] == l
  {
    hide CodesTo, AtLength, CountBefore, Moves, LengthCounts, Largest, NoneLong;
    CountsStay(t, size);
    var z := size[..256];
    CodesMonotonic(t.bits, 0, l - 1);
    CodesMonotonic(t.bits, l, 16);
    var s := t.vals[p];
    assert t.vals[..CodesTo(t.bits, 16)][p] == s;
    var k := z[s];
    assert p == CountBefore(z, k, s, 256) && k > 0;
    PlaceBounds(z, k, s);
    CodesToCount(t, z, k - 1);
    CodesToCount(t, z, k);
    if k < l {
      CodesMonotonic(t.bits, k, l - 1);
    } else if l < k {
      CodesMonotonic(t.bits, l, k - 1);
    }
  }

  lemma PlaceBounds(z: seq<nat>, k: nat, s: nat)
    requires |z| == 256 && s < 256 && z[s] == k > 0
    ensures CountBefore(z, k, 0, 256) <= CountBefore(z, k, s, 256) < CountBefore(z, k + 1, 0, 256)
  {
    hide CountBefore;
    CountMonotonic(z, k, 0, s, 256);
    CountNext(z, k, s, 256);
    CountMonotonic(z, k, s + 1, 256, 256);
    CountRow(z, k, 256);
  }

  // ----- The size of the coded data

  /** The bits that the counted symbols take in this code. */
  function CodedBits(freq: seq<nat>, e: EncoderTable): int
    requires |freq| >= 256 && |e.ehufsi| == 256
  {
    Sum(seq(256, s requires 0 <= s < 256 => freq[s] * e.ehufsi[s]))
  }

  /** The codes of the table have the lengths of Huffman's procedure: the data takes the minimum, of which the pseudo-symbol
      is paid once. */
  lemma TableIsOptimal(t: Table, e: EncoderTable, w: seq<nat>, size: seq<nat>)
    requires WellFormed(t) && |w| == N && w[256] == 1 && Short(size) && LengthsFrom(t, size) && ListsCounted(t, w, size)
    requires Encodes(e, t) && LegalTree(t.bits) && Cost(w, size) == HuffmanCost(w)
    ensures forall s :: 0 <= s < 256 && w[s] > 0 ==> e.ehufsi[s] == size[s]
    ensures CodedBits(w, e) + size[256] == HuffmanCost(w)
  {
    hide CodesTo, LengthsFrom, LegalTree, HuffmanCost, Sum, HasLength;
    forall s | 0 <= s < 256 && w[s] > 0
      ensures e.ehufsi[s] == size[s]
    {
      assert Lists(t, s);
      SymbolLength(t, e, size, s);
    }
    CostSplit(w, size);
    var terms := seq(256, s requires 0 <= s < 256 => w[s] * e.ehufsi[s]);
    assert terms == CostTerms(w[..256], size[..256]) by {
      forall s | 0 <= s < 256
        ensures terms[s] == w[s] * size[s]
      {
        if w[s] == 0 { Nothing(e.ehufsi[s], size[s]); }
      }
    }
  }

  lemma Nothing(a: int, b: int)
    ensures 0 * a == 0 * b
  {
  }

  lemma SymbolLength(t: Table, e: EncoderTable, size: seq<nat>, s: nat)
    requires WellFormed(t) && Short(size) && LengthsFrom(t, size) && s < 256 && Lists(t, s) && Encodes(e, t) && LegalTree(t.bits)
    ensures e.ehufsi[s] == size[s]
  {
    hide CodesTo, LegalTree;
    CodesMonotonic(t.bits, 0, 16);
    var p :| 0 <= p < Min256(CodesTo(t.bits, 16)) && t.vals[p] == s;
    NoneBelow(t.bits);
    var l := LengthOf(t.bits, p, 1);
    ExactLength(t, size, p, l);
  }

  lemma NoneBelow(bits: seq<int>)
    requires |bits| == 17
    ensures CodesTo(bits, 0) == 0
  {
  }

  /** No prefix code for the counted symbols, with a code to spare for the pseudo-symbol, takes fewer bits than the table. */
  lemma NoBetterCode(t: Table, e: EncoderTable, w: seq<nat>, size: seq<nat>, codes: seq<Bits>)
    requires WellFormed(t) && |w| == N && w[256] == 1 && Short(size) && LengthsFrom(t, size) && ListsCounted(t, w, size)
    requires Encodes(e, t) && LegalTree(t.bits) && Cost(w, size) == HuffmanCost(w) && PrefixFree(w, codes)
    ensures CodedBits(w, e) + size[256] <= Cost(w, Lengths(codes))
  {
    hide LengthsFrom, ListsCounted, CodedBits, Cost, HuffmanCost, PrefixFree, LegalTree, Encodes;
    TableIsOptimal(t, e, w, size);
    BestPrefixCode(w, codes);
  }

  /** Generates a table and derives its codes: if no code is longer than 16 bits, every counted symbol has a code of exactly the
      length that Huffman's procedure gives it, and the data takes the minimum of bits. */
  method BestTable(freq: array<nat>) returns (ok: bool, t: Table, e: EncoderTable, ghost size: seq<nat>)
    requires freq.Length == N && 1 <= RealSymbols(freq[..]) <= 254 && Sum(WithPseudo(freq[..])) <= MAX_COUNT
    modifies freq
    ensures |size| == N && |e.ehufsi| == 256 && (ok <==> forall i :: 0 <= i < N ==> size[i] <= MAX_CLEN)
    ensures forall s :: 0 <= s < 256 && old(freq[s]) > 0 && size[256] <= 16 ==> e.ehufsi[s] == size[s]
    ensures size[256] <= 16 ==> ok && CodedBits(WithPseudo(old(freq[..])), e) + size[256] == HuffmanCost(WithPseudo(old(freq[..])))
  {
    hide RealSymbols, Sum, LengthsFrom, ListsCounted, CodedBits, Cost, HuffmanCost, LegalTree, LegalSymbols, KraftUsed, Encodes, AllButOnes;
    ghost var w := WithPseudo(freq[..]);
    e := EncoderTable(seq(256, _ => 0), seq(256, _ => 0));
    ok, t, size := GenOptimalTable(freq);
    if ok {
      var built;
      built, e := MakeEncoderTable(t, false);
      CodesForBytes(e, t);
      if size[256] <= 16 { TableIsOptimal(t, e, w, size); }
    }
  }

  lemma CodesForBytes(e: EncoderTable, t: Table)
    requires WellFormed(t) && Encodes(e, t)
    ensures |e.ehufsi| == 256
  {
  }
}
