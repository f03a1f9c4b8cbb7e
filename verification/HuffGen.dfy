/** Generating the best Huffman table for given counts (section K.2 of ITU-T T.81). */
module HuffGen {
  import opened Bytes
  import opened Sums
  import opened HuffOptimal
  import opened HuffBuild
  import opened HuffLimit
  import opened HuffTable

  // ----- Listing the symbols by code length

  /** Symbol s comes before symbol j of length i. */
  predicate Before(size: seq<nat>, s: int, i: nat, j: nat)
    requires 0 <= s < |size|
  {
    0 < size[s] < i || (0 < size[s] == i && s < j)
  }

  function CountBefore(size: seq<nat>, i: nat, j: nat, n: nat): (c: nat)
    requires n <= |size|
    ensures c <= n
  {
    if n == 0 then 0 else CountBefore(size, i, j, n - 1) + (if Before(size, n - 1, i, j) then 1 else 0)
  }

  lemma {:induction false} CountNext(size: seq<nat>, i: nat, j: nat, n: nat)
    requires n <= |size| && j < |size| && i > 0
    ensures CountBefore(size, i, j + 1, n) == CountBefore(size, i, j, n) + (if j < n && size[j] == i then 1 else 0)
  {
    if n != 0 { CountNext(size, i, j, n - 1); }
  }

  lemma {:induction false} CountRow(size: seq<nat>, i: nat, n: nat)
    requires n <= |size|
    ensures CountBefore(size, i + 1, 0, n) == CountBefore(size, i, |size|, n)
  {
    if n != 0 { CountRow(size, i, n - 1); }
  }

  lemma {:induction false} CountNone(size: seq<nat>, n: nat)
    requires n <= |size|
    ensures CountBefore(size, 1, 0, n) == 0
  {
    if n != 0 { CountNone(size, n - 1); }
  }

  lemma {:induction false} CountAll(w: seq<nat>, size: seq<nat>, i: nat, n: nat)
    requires n <= |size| && n <= |w| && forall s :: 0 <= s < n ==> size[s] < i && (size[s] > 0 <==> w[s] > 0)
    ensures CountBefore(size, i, 0, n) == Used(w[..n])
  {
    if n != 0 {
      CountAll(w, size, i, n - 1);
      assert w[..n][..n - 1] == w[..n - 1];
    }
  }

  /** The symbols that come before symbol j of length i, in order of length and then of number. */
  ghost predicate Listed(size: seq<nat>, vals: seq<int>, i: nat, j: nat) {
    && (forall q :: 0 <= q < |vals| ==> 0 <= vals[q] < |size| && Before(size, vals[q], i, j))
    && (forall q, r :: 0 <= q < r < |vals| && 0 <= vals[q] < |size| && 0 <= vals[r] < |size| ==>
         size[vals[q]] < size[vals[r]] || (size[vals[q]] == size[vals[r]] && vals[q] < vals[r]))
    && forall s :: 0 <= s < |size| && Before(size, s, i, j) ==> s in vals
  }

  lemma ListNext(size: seq<nat>, vals: seq<int>, i: nat, j: nat)
    requires Listed(size, vals, i, j) && j < |size| && i > 0
    ensures Listed(size, if size[j] == i then vals + [j] else vals, i, j + 1)
  {
    if size[j] == i {
      var more := vals + [j];
      forall s | 0 <= s < |size| && Before(size, s, i, j + 1)
        ensures s in more
      {
        assert more[|vals|] == j;
        if s != j { assert s in vals; }
      }
    }
  }

  lemma ListRow(size: seq<nat>, vals: seq<int>, i: nat)
    requires Listed(size, vals, i, |size|)
    ensures Listed(size, vals, i + 1, 0)
  {
  }

  /** Each symbol is listed after exactly those that come before it. */
  ghost predicate Placed(size: seq<nat>, vals: seq<int>) {
    forall q :: 0 <= q < |vals| ==> 0 <= vals[q] < |size| && size[vals[q]] > 0 && q == CountBefore(size, size[vals[q]], vals[q], |size|)
  }

  // Return a list of the symbols sorted by code length.
  method ListSymbols(codesize: array<nat>, ghost size: seq<nat>) returns (huffval: array<byte>, p: nat)
    requires codesize.Length == 257 && size == codesize[..256]
    ensures fresh(huffval) && huffval.Length == 256 && p <= 256
    ensures p == CountBefore(size, MAX_CLEN + 1, 0, 256) && Listed(size, huffval[..p], MAX_CLEN + 1, 0)
    ensures Placed(size, huffval[..p])
  {
    hide Listed, CountBefore;
    huffval := new byte[256](_ => 0);
    p := 0;
    CountNone(size, 256);
    ListNone(size);
    var i := 1;
    while i <= MAX_CLEN
      invariant 1 <= i <= MAX_CLEN + 1 && p <= 256
      invariant p == CountBefore(size, i, 0, 256) && Listed(size, huffval[..p], i, 0) && Placed(size, huffval[..p])
    {
      var j := 0;
      while j <= 255
        invariant 0 <= j <= 256 && p <= 256
        invariant p == CountBefore(size, i, j, 256) && Listed(size, huffval[..p], i, j) && Placed(size, huffval[..p])
      {
        CountNext(size, i, j, 256);
        ghost var before := huffval[..p];
        ListNext(size, before, i, j);
        if codesize[j] == i {
          huffval[p] := j;
          p := p + 1;
          assert huffval[..p] == before + [j];
        }
        j := j + 1;
      }
      CountRow(size, i, 256);
      ListRow(size, huffval[..p], i);
      i := i + 1;
    }
  }

  lemma ListNone(size: seq<nat>)
    ensures Listed(size, [], 1, 0)
  {
  }

  // ----- The generated table

  lemma {:induction false} CodesToSum(bits: seq<int>, l: nat)
    requires l < |bits| && bits[0] == 0
    ensures CodesTo(bits, l) == Sum(bits[..l + 1])
  {
    if l == 0 {
      assert bits[..1] == [bits[0]] && bits[..1][..0] == [];
    } else {
      CodesToSum(bits, l - 1);
      assert bits[..l + 1][..l] == bits[..l];
    }
  }

  lemma {:induction false} SumTrailing(s: seq<int>, n: nat)
    requires n <= |s| && forall k :: n <= k < |s| ==> s[k] == 0
    ensures Sum(s) == Sum(s[..n])
    decreases |s|
  {
    if n < |s| {
      SumTrailing(s[..|s| - 1], n);
      assert s[..|s| - 1][..n] == s[..n];
    } else {
      assert s[..n] == s;
    }
  }

  lemma {:induction false} FilledPrefix(bits: seq<int>, n: nat, l: nat)
    requires l < n <= |bits|
    ensures Filled(bits[..n], l) == Filled(bits, l)
  {
    if l != 0 { FilledPrefix(bits, n, l - 1); }
  }

  /** A code that is complete but for the all-ones code is a legal tree: no code is all ones. */
  lemma CompleteIsLegal(bits: seq<int>, i: nat)
    requires |bits| == 17 && AllButOnes(bits, i) && CodesTo(bits, 16) <= 256
    ensures LegalTree(bits)
  {
    hide Filled, CodesTo;
    SameCodes(bits, i, 16);
    forall l | 0 <= l <= 16
      ensures CodesTo(bits, l) <= 256
    {
      CodesMonotonic(bits, l, 16);
    }
    forall l | 1 <= l <= 16
      ensures Filled(bits, l) < Pow2(l)
    {
      if l < i {
        CodesMonotonic(bits, l, i);
        ShlMonotonic(Pow2(l), Filled(bits, l), i - l);
        ShlShl(1, l, i - l);
      } else {
        LegalBeyond(bits, i, l);
      }
    }
  }

  lemma {:induction false} SameCodes(bits: seq<int>, i: nat, l: nat)
    requires i <= l < |bits| && forall k :: i < k < |bits| ==> bits[k] == 0
    ensures CodesTo(bits, i) == CodesTo(bits, l)
    decreases l
  {
    if i < l { SameCodes(bits, i, l - 1); }
  }

  /** The table lists exactly the counted symbols, the shortest codes of the optimal code first. */
  ghost predicate ListsCounted(t: Table, w: seq<nat>, size: seq<nat>)
    requires WellFormed(t) && |w| == |size| == N
  {
    && CodesTo(t.bits, 16) == Used(w[..256]) <= 256
    && (forall s :: 0 <= s < 256 ==> (Lists(t, s) <==> w[s] > 0))
    && forall p, q :: 0 <= p < q < CodesTo(t.bits, 16) && q < 256 ==>
         size[t.vals[p]] < size[t.vals[q]] || (size[t.vals[p]] == size[t.vals[q]] && t.vals[p] < t.vals[q])
  }

  lemma ListingComplete(t: Table, w: seq<nat>, size: seq<nat>, p: nat)
    requires WellFormed(t) && |w| == |size| == N && p <= 256 && p == CodesTo(t.bits, 16)
    requires forall i :: 0 <= i < N ==> size[i] <= MAX_CLEN && (size[i] > 0 <==> w[i] > 0)
    requires p == CountBefore(size[..256], MAX_CLEN + 1, 0, 256) && Listed(size[..256], t.vals[..p], MAX_CLEN + 1, 0)
    ensures ListsCounted(t, w, size)
    ensures LegalSymbols(t, false, p)
  {
    hide CodesTo, CountBefore, Lists, Listed;
    CountAll(w, size[..256], MAX_CLEN + 1, 256);
    forall s | 0 <= s < 256
      ensures Lists(t, s) <==> w[s] > 0
    {
      ListedOnce(t, size, p, s);
    }
    Ordered(size, t.vals, p);
  }

  lemma ListedOnce(t: Table, size: seq<nat>, p: nat, s: nat)
    requires WellFormed(t) && |size| == N && p <= 256 && p == CodesTo(t.bits, 16) && s < 256 && size[s] <= MAX_CLEN
    requires Listed(size[..256], t.vals[..p], MAX_CLEN + 1, 0)
    ensures Lists(t, s) <==> size[s] > 0
  {
    hide CodesTo;
    assert t.vals[..Min256(p)] == t.vals[..p];
    assert Before(size[..256], s, MAX_CLEN + 1, 0) <==> size[s] > 0;
    if Lists(t, s) {
      var q :| 0 <= q < p && t.vals[q] == s;
      assert t.vals[..p][q] == s;
    }
  }

  lemma Ordered(size: seq<nat>, vals: seq<byte>, p: nat)
    requires |size| == N && |vals| == 256 && p <= 256 && Listed(size[..256], vals[..p], MAX_CLEN + 1, 0)
    ensures forall q, r :: 0 <= q < r < p ==> size[vals[q]] < size[vals[r]] || (size[vals[q]] == size[vals[r]] && vals[q] < vals[r])
    ensures forall q, r :: 0 <= q < r < p ==> vals[q] != vals[r]
  {
    forall q, r | 0 <= q < r < p
      ensures size[vals[q]] < size[vals[r]] || (size[vals[q]] == size[vals[r]] && vals[q] < vals[r])
    {
      assert vals[..p][q] == vals[q] && vals[..p][r] == vals[r];
      assert size[..256][vals[q]] == size[vals[q]] && size[..256][vals[r]] == size[vals[r]];
    }
  }

  /** How the table comes from the code sizes: the number of symbols of each length, the moves that limit the lengths to 16
      bits, one code less at the greatest length, and the symbols in order of their sizes. */
  ghost predicate LengthsFrom(t: Table, size: seq<nat>)
    requires WellFormed(t) && |size| == N
  {
    && 0 <= CodesTo(t.bits, 16) <= 256 && Placed(size[..256], t.vals[..CodesTo(t.bits, 16)])
    && exists ms, limited, i :: Moves(LengthCounts(size), ms, limited) && NoneLong(limited) && Largest(limited, i)
         && t.bits == limited[i := limited[i] - 1][..17]
  }

  /** The number of real symbols with a nonzero count. */
  function RealSymbols(freq: seq<nat>): nat
    requires |freq| == N
  {
    Used(freq[..256])
  }

  /** The counts as the procedure takes them, with the pseudo-symbol. */
  function WithPseudo(freq: seq<nat>): (w: seq<nat>)
    requires |freq| == N
    ensures |w| == N
  {
    freq[256 := 1]
  }

  lemma PseudoSymbol(freq: seq<nat>)
    requires |freq| == N && RealSymbols(freq) > 0
    ensures Used(WithPseudo(freq)) == RealSymbols(freq) + 1 && WithPseudo(freq)[..256] == freq[..256]
    ensures Second(WithPseudo(freq)) >= 0
  {
    var w := WithPseudo(freq);
    assert w[..256] == freq[..256];
    var s := SomeUsed(freq[..256]);
    assert w[s] > 0 && w[256] > 0;
  }

  lemma {:induction false} SomeUsed(w: seq<nat>) returns (s: nat)
    requires Used(w) > 0
    ensures s < |w| && w[s] > 0
  {
    s := |w| - 1;
    if w[s] == 0 {
      s := SomeUsed(w[..s]);
    }
  }

  /** Generates a Huffman table for the counts.  The code sizes of the merge step form an optimal code; if
      one exceeds 32 bits there is no table.  Otherwise the table lists exactly the counted symbols, the
      lengths are at most 16, and both table builders accept it. */
  method GenOptimalTable(freq: array<nat>) returns (ok: bool, t: Table, ghost size: seq<nat>)
    requires freq.Length == N && 1 <= RealSymbols(freq[..]) <= 254 && Sum(WithPseudo(freq[..])) <= MAX_COUNT
    modifies freq
    ensures |size| == N && Cost(WithPseudo(old(freq[..])), size) == HuffmanCost(WithPseudo(old(freq[..])))
    ensures KraftUsed(WithPseudo(old(freq[..])), size) == 1.0
    ensures ok <==> forall i :: 0 <= i < N ==> size[i] <= MAX_CLEN
    ensures Sum(WithPseudo(old(freq[..]))) < 9227465 ==> ok
    ensures WellFormed(t)
    ensures ok ==> ListsCounted(t, WithPseudo(old(freq[..])), size)
    ensures ok ==> LegalTree(t.bits) && LegalSymbols(t, false, CodesTo(t.bits, 16))
    ensures ok ==> exists i :: AllButOnes(t.bits, i)
    ensures forall i :: 0 <= i < N ==> size[i] <= size[256] && (size[i] > 0 <==> WithPseudo(old(freq[..]))[i] > 0)
    ensures ok ==> LengthsFrom(t, size)
  {
    hide Used, Cost, HuffmanCost, KraftUsed, Second, Sum, LegalTree, LegalSymbols, ListsCounted, AllButOnes, CompleteTo, Filled, LengthsFrom;
    ghost var w := WithPseudo(freq[..]);
    PseudoSymbol(freq[..]);
    var codesize, others := new nat[257](_ => 0), new int[257](_ => -1);
    freq[256] := 1;  // make sure 256 has a nonzero count
    assert freq[..] == w;
    MergeAll(freq, codesize, others, w);
    size := codesize[..];
    forall i | 0 <= i < N && size[i] > MAX_CLEN
      ensures Sum(w) >= 9227465
    {
      LongCodes(size[i]);
    }
    ok, t := TableOf(codesize, w);
  }

  // The table for given code sizes.
  method TableOf(codesize: array<nat>, ghost w: seq<nat>) returns (ok: bool, t: Table)
    requires codesize.Length == N == |w| && 2 <= Used(w) <= 255 && w[256] > 0 && Used(w[..256]) == Used(w) - 1
    requires KraftUsed(w, codesize[..]) == 1.0 && forall i :: 0 <= i < N ==> (codesize[i] > 0 <==> w[i] > 0)
    ensures ok <==> forall i :: 0 <= i < N ==> codesize[i] <= MAX_CLEN
    ensures WellFormed(t)
    ensures ok ==> ListsCounted(t, w, codesize[..])
    ensures ok ==> LegalTree(t.bits) && LegalSymbols(t, false, CodesTo(t.bits, 16))
    ensures ok ==> exists i :: AllButOnes(t.bits, i)
    ensures ok ==> LengthsFrom(t, codesize[..])
  {
    hide Used, KraftUsed, Sum, LegalTree, LegalSymbols, ListsCounted, AllButOnes, CompleteTo, Filled, Listed, CountBefore, CodesTo,
         LengthsFrom, LengthCounts;
    t := Table(seq(17, _ => 0), seq(256, _ => 0));
    var bits := new int[33](_ => 0);
    ok := CountLengths(codesize, bits, w);
    if !ok {
      return;
    }
    Complete(bits[..]);
    t := TableFrom(bits, codesize, w);
  }

  // The rest, once the lengths are counted
  method TableFrom(bits: array<int>, codesize: array<nat>, ghost w: seq<nat>) returns (t: Table)
    requires codesize.Length == N == |w| && 2 <= Used(w) <= 255 && w[256] > 0 && Used(w[..256]) == Used(w) - 1
    requires forall i :: 0 <= i < N ==> codesize[i] <= MAX_CLEN && (codesize[i] > 0 <==> w[i] > 0)
    requires bits.Length == MAX_CLEN + 1 && CompleteTo(bits[..], MAX_CLEN) && Sum(bits[..]) == Used(w)
    requires bits[..] == LengthCounts(codesize[..])
    modifies bits
    ensures WellFormed(t) && ListsCounted(t, w, codesize[..])
    ensures LegalTree(t.bits) && LegalSymbols(t, false, CodesTo(t.bits, 16))
    ensures exists i :: AllButOnes(t.bits, i)
    ensures LengthsFrom(t, codesize[..])
  {
    hide Used, KraftUsed, Sum, LegalTree, LegalSymbols, ListsCounted, AllButOnes, CompleteTo, Filled, Listed, CountBefore, CodesTo,
         Placed, Moves, Largest, LengthCounts, NoneLong;
    ghost var ms := LimitLengths(bits);
    ghost var limited := bits[..];
    LimitedIsShort(limited);
    var i := RemovePseudoSymbol(bits);
    var huffval, p := ListSymbols(codesize, codesize[..256]);
    t := Table(bits[..17], huffval[..]);
    CutOff(bits[..], i, Used(w) - 1);
    CountAll(w, codesize[..256], MAX_CLEN + 1, 256);
    assert t.vals[..p] == huffval[..p];
    CompleteIsLegal(t.bits, i);
    ListingComplete(t, w, codesize[..], p);
    LengthsAre(t, codesize[..], ms, limited, i);
  }

  lemma LimitedIsShort(b: seq<int>)
    requires CompleteTo(b, 16)
    ensures NoneLong(b)
  {
    hide Filled;
  }

  lemma LengthsAre(t: Table, size: seq<nat>, ms: seq<Move>, limited: seq<int>, i: nat)
    requires WellFormed(t) && |size| == N && 0 <= CodesTo(t.bits, 16) <= 256 && Placed(size[..256], t.vals[..CodesTo(t.bits, 16)])
    requires Moves(LengthCounts(size), ms, limited) && NoneLong(limited) && Largest(limited, i)
    requires t.bits == limited[i := limited[i] - 1][..17]
    ensures LengthsFrom(t, size)
  {
    hide CodesTo, Placed, LengthCounts, Moves;
  }

  lemma Complete(bits: seq<int>)
    requires Counts(bits, MAX_CLEN + 1) && Filled(bits, MAX_CLEN) == Pow2(MAX_CLEN)
    ensures CompleteTo(bits, MAX_CLEN)
  {
  }

  /** The lengths that go into the table. */
  lemma CutOff(bits: seq<int>, i: nat, n: nat)
    requires |bits| == MAX_CLEN + 1 && AllButOnes(bits, i) && (forall k :: 16 < k <= MAX_CLEN ==> bits[k] == 0)
    requires Sum(bits) == n <= 254
    ensures AllButOnes(bits[..17], i) && CodesTo(bits[..17], 16) == n
    ensures forall l :: 1 <= l <= 16 ==> 0 <= bits[..17][l] < 256
  {
    SumTrailing(bits, 17);
    CodesToSum(bits[..17], 16);
    assert bits[..17][..17] == bits[..17];
    FilledPrefix(bits, 17, i);
    forall l | 1 <= l <= 16
      ensures bits[l] < 256
    {
      SumBounds(bits[..17], l);
    }
  }
}
