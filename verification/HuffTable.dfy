/** Canonical Huffman codes (Annex C of ITU-T T.81), the derived tables of encoder and decoder, and
    bit-sequential against lookahead decoding. */
module HuffTable {
  import opened Bytes
  import opened BitStrings

  /** A Huffman table as in a DHT marker: bits[l] codes of length l for 1 <= l <= 16, and the symbols in
      order of code length. */
  datatype Table = Table(bits: seq<int>, vals: seq<byte>)

  predicate WellFormed(t: Table) {
    |t.bits| == 17 && |t.vals| == 256 && forall l :: 1 <= l <= 16 ==> 0 <= t.bits[l] < 256
  }

  /** The code that follows the last code of length l when codes are assigned in order of length: every
      shorter code takes up twice its room at each longer length. */
  function Filled(bits: seq<int>, l: nat): int
    requires l < |bits|
  {
    if l == 0 then 0 else 2 * Filled(bits, l - 1) + bits[l]
  }

  /** The number of codes of at most l bits. */
  function CodesTo(bits: seq<int>, l: nat): int
    requires l < |bits|
  {
    if l == 0 then 0 else CodesTo(bits, l - 1) + bits[l]
  }

  /** A legal code tree: at most 256 codes, and none of them all ones. */
  predicate LegalTree(bits: seq<int>)
    requires |bits| == 17
  {
    && (forall l :: 0 <= l <= 16 ==> CodesTo(bits, l) <= 256)
    && forall l :: 1 <= l <= 16 ==> Filled(bits, l) < Pow2(l)
  }

  /** Symbol number p has a code of length l. */
  predicate HasLength(bits: seq<int>, p: int, l: int)
    requires |bits| == 17
  {
    1 <= l <= 16 && CodesTo(bits, l - 1) <= p < CodesTo(bits, l)
  }

  /** The code of symbol number p, of length l. */
  function CodeAt(bits: seq<int>, p: int, l: int): int
    requires |bits| == 17 && HasLength(bits, p, l)
  {
    2 * Filled(bits, l - 1) + (p - CodesTo(bits, l - 1))
  }

  lemma {:induction false} CodesMonotonic(bits: seq<int>, k: nat, l: nat)
    requires |bits| == 17 && k <= l <= 16 && forall i :: 1 <= i <= 16 ==> bits[i] >= 0
    ensures 0 <= CodesTo(bits, k) <= CodesTo(bits, l)
    ensures 0 <= Filled(bits, k) && Shl(Filled(bits, k), l - k) <= Filled(bits, l)
    decreases l
  {
    if k < l {
      CodesMonotonic(bits, k, l - 1);
    } else if l > 0 {
      CodesMonotonic(bits, k - 1, l - 1);
    }
  }

  lemma CodeFits(bits: seq<int>, p: int, l: nat)
    requires |bits| == 17 && (forall i :: 1 <= i <= 16 ==> bits[i] >= 0) && LegalTree(bits) && HasLength(bits, p, l)
    ensures 0 <= CodeAt(bits, p, l) < Filled(bits, l) < Pow2(l) && 0 <= p < 256
  {
    CodesMonotonic(bits, l - 1, l);
  }

  /** The code length of symbol number p. */
  function LengthOf(bits: seq<int>, p: int, l: nat): (r: nat)
    requires |bits| == 17 && 1 <= l <= 16 && CodesTo(bits, l - 1) <= p < CodesTo(bits, 16)
    ensures HasLength(bits, p, r) && r >= l
    decreases 16 - l
  {
    if p < CodesTo(bits, l) then l else LengthOf(bits, p, l + 1)
  }

  /** Lengths that are not used leave the tree as legal as it was. */
  lemma {:induction false} LegalBeyond(bits: seq<int>, k: nat, l: nat)
    requires |bits| == 17 && k <= l <= 16 && forall i :: 1 <= i <= 16 ==> bits[i] >= 0
    requires CodesTo(bits, k) == CodesTo(bits, 16) && Filled(bits, k) < Pow2(k)
    ensures Filled(bits, l) < Pow2(l)
    decreases l
  {
    if k < l {
      LegalBeyond(bits, k, l - 1);
      CodesMonotonic(bits, k, l - 1);
      CodesMonotonic(bits, l, 16);
    }
  }

  lemma NothingBefore(bits: seq<int>, l: nat)
    requires |bits| == 17 && l <= 16 && (forall i :: 1 <= i <= 16 ==> bits[i] >= 0) && CodesTo(bits, l) == 0
    ensures Filled(bits, l) == 0
  {
    if l > 0 {
      CodesMonotonic(bits, l - 1, l);
      NothingBefore(bits, l - 1);
    }
  }

  // ----- Figures C.1 and C.2

  // Make table of Huffman code length for each symbol; returns the number of symbols.
  method CodeSizes(t: Table, huffsize: array<int>) returns (ok: bool, p: nat)
    requires WellFormed(t) && huffsize.Length == 257
    modifies huffsize
    ensures ok <==> forall l :: 0 <= l <= 16 ==> CodesTo(t.bits, l) <= 256
    ensures ok ==> p == CodesTo(t.bits, 16) <= 256 && huffsize[p] == 0 && Sized(t.bits, huffsize[..])
  {
    p := 0;
    var l := 1;
    while l <= 16
      invariant 1 <= l <= 17 && p == CodesTo(t.bits, l - 1) <= 256
      invariant forall k :: 0 <= k < l ==> CodesTo(t.bits, k) <= 256
      invariant forall k, q :: 1 <= k < l && HasLength(t.bits, q, k) ==> 0 <= q < p && huffsize[q] == k
    {
      var i := t.bits[l];
      if i < 0 || p + i > 256 {  // protect against table overrun
        assert CodesTo(t.bits, l) > 256;
        return false, p;
      }
      ghost var first := p;
      while i > 0
        invariant 0 <= i <= t.bits[l] && p == first + (t.bits[l] - i) <= 256
        invariant forall q :: first <= q < p ==> huffsize[q] == l
        invariant forall k, q :: 1 <= k < l && HasLength(t.bits, q, k) ==> 0 <= q < first && huffsize[q] == k
      {
        huffsize[p] := l;
        p := p + 1;
        i := i - 1;
      }
      l := l + 1;
    }
    huffsize[p] := 0;
    ok := true;
  }

  /** The sizes in order of the codes, and a zero after the last. */
  ghost predicate Sized(bits: seq<int>, huffsize: seq<int>) {
    && |bits| == 17 && |huffsize| == 257 && (forall i :: 1 <= i <= 16 ==> bits[i] >= 0)
    && (forall l :: 0 <= l <= 16 ==> CodesTo(bits, l) <= 256)
    && (forall l, q :: HasLength(bits, q, l) ==> 0 <= q < 257 && huffsize[q] == l)
    && 0 <= CodesTo(bits, 16) && huffsize[CodesTo(bits, 16)] == 0
  }

  lemma NoCodes(bits: seq<int>, huffsize: seq<int>)
    requires Sized(bits, huffsize) && huffsize[0] == 0
    ensures LegalTree(bits) && forall l, q :: !HasLength(bits, q, l)
  {
    if CodesTo(bits, 16) > 0 {
      SizedSymbol(bits, 0, 1, huffsize);
    }
    forall l | 0 <= l <= 16
      ensures CodesTo(bits, l) == 0 && Filled(bits, l) == 0
    {
      CodesMonotonic(bits, l, 16);
      NothingBefore(bits, l);
    }
  }

  lemma StartOfCodes(bits: seq<int>, huffsize: seq<int>, codes: seq<int>)
    requires Sized(bits, huffsize) && huffsize[0] != 0 && |codes| == 257
    ensures var si := huffsize[0];
      1 <= si <= 16 && CodesTo(bits, si - 1) == 0 && Filled(bits, si - 1) == 0 && Begun(bits, si, 0, codes)
  {
    var si := LengthOf(bits, 0, 1);
    assert HasLength(bits, 0, si);
    forall k | 0 <= k < si
      ensures CodesTo(bits, k) == 0 && Filled(bits, k) == 0
    {
      CodesMonotonic(bits, 0, k);
      CodesMonotonic(bits, k, si - 1);
      NothingBefore(bits, k);
    }
  }

  lemma SizedSymbol(bits: seq<int>, p: int, l: nat, huffsize: seq<int>)
    requires |bits| == 17 && 1 <= l <= 16 && |huffsize| == 257 && 0 <= p < 257
    requires CodesTo(bits, l - 1) <= p < CodesTo(bits, 16)
    requires forall k, q :: HasLength(bits, q, k) ==> 0 <= q < 257 && huffsize[q] == k
    ensures huffsize[p] >= l
  {
    assert HasLength(bits, p, LengthOf(bits, p, l));
  }

  lemma NotThisLength(bits: seq<int>, si: nat, huffsize: seq<int>)
    requires Sized(bits, huffsize) && 1 <= si <= 16 && 0 <= CodesTo(bits, si) <= CodesTo(bits, 16)
    ensures huffsize[CodesTo(bits, si)] != si
  {
    var p := CodesTo(bits, si);
    if p < CodesTo(bits, 16) {
      SizedSymbol(bits, p, si + 1, huffsize);
    }
  }

  lemma AllAssigned(bits: seq<int>, si: nat, p: nat, lastp: nat, huffsize: seq<int>, huffcode: seq<int>)
    requires Sized(bits, huffsize) && 1 <= si <= 17
    requires |huffcode| == 257 && Begun(bits, si, p, huffcode)
    requires p == CodesTo(bits, si - 1) <= lastp == CodesTo(bits, 16) && huffsize[p] == 0
    ensures LegalTree(bits)
    ensures forall l, q :: HasLength(bits, q, l) ==> 0 <= q < 257 && huffcode[q] == CodeAt(bits, q, l)
  {
    hide Filled, CodesTo, Pow2, CodeAt;
    AllFits(bits, si, p, lastp, huffsize);
    forall l, q | HasLength(bits, q, l)
      ensures 0 <= q < 257 && huffcode[q] == CodeAt(bits, q, l)
    {
    }
  }

  lemma EmptyFits(bits: seq<int>)
    requires |bits| == 17
    ensures Filled(bits, 0) < Pow2(0)
  {
  }

  /** No code is left, so that none is too long for the lengths from si on. */
  lemma AllFits(bits: seq<int>, si: nat, p: nat, lastp: nat, huffsize: seq<int>)
    requires Sized(bits, huffsize) && 1 <= si <= 17
    requires p == CodesTo(bits, si - 1) <= lastp == CodesTo(bits, 16) && huffsize[p] == 0
    requires forall k :: 1 <= k < si ==> Filled(bits, k) < Pow2(k)
    ensures LegalTree(bits) && forall k :: si <= k <= 16 ==> CodesTo(bits, k) == CodesTo(bits, k - 1)
  {
    hide Filled, CodesTo, Pow2, CodeAt, HasLength;
    EmptyFits(bits);
    if p < lastp {
      SizedSymbol(bits, p, si, huffsize);
    }
    forall k | si <= k <= 16
      ensures Filled(bits, k) < Pow2(k) && CodesTo(bits, k) == CodesTo(bits, k - 1)
    {
      LegalBeyond(bits, si - 1, k);
      CodesMonotonic(bits, si - 1, k - 1);
      CodesMonotonic(bits, k - 1, k);
      CodesMonotonic(bits, k, 16);
    }
  }

  /** All codes of fewer than si bits are in place; these are the codes of the symbols below p. */
  ghost predicate Assigned(bits: seq<int>, si: nat, p: nat, codes: seq<int>)
    requires |bits| == 17 && |codes| == 257
  {
    forall k, q :: k < si && HasLength(bits, q, k) ==> 0 <= q < p && q < 257 && codes[q] == CodeAt(bits, q, k)
  }

  lemma AssignedNext(bits: seq<int>, si: nat, p0: nat, p: nat, codes: seq<int>, codes': seq<int>)
    requires |bits| == 17 && |codes| == |codes'| == 257 && p0 <= p <= 257 && 1 <= si <= 16
    requires Assigned(bits, si, p0, codes) && p0 == CodesTo(bits, si - 1) && p == CodesTo(bits, si)
    requires forall q :: 0 <= q < p0 ==> codes'[q] == codes[q]
    requires forall q :: p0 <= q < p ==> codes'[q] == 2 * Filled(bits, si - 1) + (q - p0)
    ensures Assigned(bits, si + 1, p, codes')
  {
  }

  lemma TreeOverflows(bits: seq<int>, l: nat)
    requires |bits| == 17 && 1 <= l <= 16 && Filled(bits, l) >= Pow2(l)
    ensures !LegalTree(bits)
  {
  }

  // Generate the codes themselves; also validate that the counts represent a legal Huffman code tree.
  method AssignCodes(t: Table, huffsize: array<int>, huffcode: array<int>, lastp: nat) returns (ok: bool)
    requires WellFormed(t) && huffsize.Length == huffcode.Length == 257 && huffsize != huffcode
    requires Sized(t.bits, huffsize[..]) && lastp == CodesTo(t.bits, 16) <= 256 && huffsize[lastp] == 0
    modifies huffcode
    ensures ok <==> LegalTree(t.bits)
    ensures ok ==> forall l, q :: HasLength(t.bits, q, l) ==> 0 <= q < 257 && huffcode[q] == CodeAt(t.bits, q, l)
  {
    hide CodeAt, CodesTo, Filled, LegalTree, Assigned, HasLength, Sized, Begun, Pow2;
    var code, p := 0, 0;
    if huffsize[p] == 0 {
      NoCodes(t.bits, huffsize[..]);
      return true;
    }
    var si := huffsize[0];
    StartOfCodes(t.bits, huffsize[..], huffcode[..]);
    while huffsize[p] != 0
      invariant 1 <= si <= 17 && 0 <= p == CodesTo(t.bits, si - 1) <= lastp && code == 2 * Filled(t.bits, si - 1)
      invariant Begun(t.bits, si, p, huffcode[..])
      decreases 17 - si
    {
      p, code := AssignLength(t, huffsize, huffcode, si, p, code);
      // code is now 1 more than the last code used for codelength si; but it must still fit in si bits,
      // since no code is allowed to be all ones
      if code >= Pow2(si) {
        TreeOverflows(t.bits, si);
        return false;
      }
      code := code * 2;
      si := si + 1;
    }
    AllAssigned(t.bits, si, p, lastp, huffsize[..], huffcode[..]);
    ok := true;
  }

  /** All lengths below si have their codes, which fit. */
  ghost predicate Begun(bits: seq<int>, si: nat, p: nat, codes: seq<int>)
    requires |bits| == 17 && |codes| == 257 && si <= 17
  {
    (forall k :: 1 <= k < si ==> Filled(bits, k) < Pow2(k)) && Assigned(bits, si, p, codes)
  }

  lemma BegunNext(bits: seq<int>, si: nat, p: nat, codes: seq<int>)
    requires |bits| == 17 && |codes| == 257 && 1 <= si <= 16 && Assigned(bits, si + 1, p, codes) && Filled(bits, si) < Pow2(si)
    requires forall k :: 1 <= k < si ==> Filled(bits, k) < Pow2(k)
    ensures Begun(bits, si + 1, p, codes)
  {
    hide Filled, Pow2, Assigned;
  }

  method AssignLength(t: Table, huffsize: array<int>, huffcode: array<int>, si: nat, p0: nat, code0: int)
    returns (p: nat, code: int)
    requires WellFormed(t) && huffsize.Length == huffcode.Length == 257 && huffsize != huffcode
    requires 1 <= si <= 16 && p0 == CodesTo(t.bits, si - 1) && code0 == 2 * Filled(t.bits, si - 1)
    requires Sized(t.bits, huffsize[..]) && Begun(t.bits, si, p0, huffcode[..])
    modifies huffcode
    ensures p == CodesTo(t.bits, si) <= CodesTo(t.bits, 16) <= 256 && code == Filled(t.bits, si)
    ensures code < Pow2(si) ==> Begun(t.bits, si + 1, p, huffcode[..])
  {
    p, code := p0, code0;
    CodesMonotonic(t.bits, si - 1, si);
    CodesMonotonic(t.bits, si, 16);
    NotThisLength(t.bits, si, huffsize[..]);
    while huffsize[p] == si
      invariant p0 <= p <= CodesTo(t.bits, si) && code == code0 + (p - p0)
      invariant forall q :: 0 <= q < p0 ==> huffcode[q] == old(huffcode[q])
      invariant forall q :: p0 <= q < p ==> huffcode[q] == code0 + (q - p0)
      decreases CodesTo(t.bits, si) - p
    {
      assert HasLength(t.bits, p, si);
      huffcode[p] := code;
      p := p + 1;
      code := code + 1;
    }
    assert !HasLength(t.bits, p, si);
    AssignedNext(t.bits, si, p0, p, old(huffcode[..]), huffcode[..]);
    if code < Pow2(si) { BegunNext(t.bits, si, p, huffcode[..]); }
  }

  // Figures C.1 and C.2 together, as both builders start out.
  method SizesAndCodes(t: Table, huffsize: array<int>, huffcode: array<int>) returns (ok: bool, lastp: nat)
    requires WellFormed(t) && huffsize.Length == huffcode.Length == 257 && huffsize != huffcode
    modifies huffsize, huffcode
    ensures ok <==> LegalTree(t.bits)
    ensures ok ==> lastp == CodesTo(t.bits, 16) <= 256 && Coded(t.bits, huffsize[..], huffcode[..])
  {
    ok, lastp := CodeSizes(t, huffsize);
    if ok {
      ok := AssignCodes(t, huffsize, huffcode, lastp);
    }
  }

  /** The sizes and codes of all symbols, by symbol number. */
  ghost predicate Coded(bits: seq<int>, huffsize: seq<int>, huffcode: seq<int>)
    requires |bits| == 17 && |huffsize| == |huffcode| == 257
  {
    forall l, q :: HasLength(bits, q, l) ==> 0 <= q < 257 && huffsize[q] == l && huffcode[q] == CodeAt(bits, q, l)
  }

  // ----- The encoder's table

  /** Codes and their lengths, indexed by symbol; length 0 if there is no code. */
  datatype EncoderTable = EncoderTable(ehufco: seq<int>, ehufsi: seq<int>)

  function MaxSymbol(isDC: bool): int {
    if isDC then 15 else 255
  }

  /** The symbols fit the kind of table, and none is listed twice. */
  predicate LegalSymbols(t: Table, isDC: bool, n: int)
    requires WellFormed(t) && n <= 256
  {
    && (forall p :: 0 <= p < n ==> t.vals[p] <= MaxSymbol(isDC))
    && forall p, q :: 0 <= p < q < n ==> t.vals[p] != t.vals[q]
  }

  /** The table has a code for the symbol. */
  predicate Lists(t: Table, symbol: int)
    requires WellFormed(t)
  {
    symbol in t.vals[..Min256(CodesTo(t.bits, 16))]
  }

  /** The encoder's table gives every listed symbol its canonical code, and no other symbol any. */
  ghost predicate Encodes(e: EncoderTable, t: Table)
    requires WellFormed(t)
  {
    && |e.ehufco| == |e.ehufsi| == 256
    && (forall l, p :: HasLength(t.bits, p, l) ==>
         0 <= p < 256 && e.ehufsi[t.vals[p]] == l && e.ehufco[t.vals[p]] == CodeAt(t.bits, p, l))
    && forall sym :: 0 <= sym < 256 && sym !in t.vals[..Min256(CodesTo(t.bits, 16))] ==> e.ehufsi[sym] == 0 && e.ehufco[sym] == 0
  }

  function Min256(n: int): nat {
    if n < 0 then 0 else if n > 256 then 256 else n
  }

  /** Builds the encoder's table; accepts exactly the legal code trees with legal symbols. */
  method MakeEncoderTable(t: Table, isDC: bool) returns (ok: bool, e: EncoderTable)
    requires WellFormed(t)
    ensures ok <==> LegalTree(t.bits) && LegalSymbols(t, isDC, CodesTo(t.bits, 16))
    ensures ok ==> Encodes(e, t)
  {
    e := EncoderTable([], []);
    var huffsize, huffcode := new int[257], new int[257];
    var lastp;
    ok, lastp := SizesAndCodes(t, huffsize, huffcode);
    if ok {
      ok, e := IndexBySymbol(t, isDC, huffsize[..], huffcode[..], lastp);
    }
  }

  // Figure C.3: generate encoding tables.
  method IndexBySymbol(t: Table, isDC: bool, huffsize: seq<int>, huffcode: seq<int>, lastp: nat)
    returns (ok: bool, e: EncoderTable)
    requires WellFormed(t) && LegalTree(t.bits) && lastp == CodesTo(t.bits, 16) <= 256
    requires |huffsize| == |huffcode| == 257 && Coded(t.bits, huffsize, huffcode)
    ensures ok <==> LegalSymbols(t, isDC, lastp)
    ensures ok ==> Encodes(e, t)
  {
    hide CodeAt, CodesTo, LegalTree, Coded, Encodes, LegalSymbols, Indexed;
    e := EncoderTable([], []);
    SymbolSized(t.bits, huffsize, huffcode, lastp);
    // Set all codeless symbols to have code length 0
    var ehufco, ehufsi := new int[256](_ => 0), new int[256](_ => 0);
    NoneIndexed(t, isDC, huffsize, huffcode, ehufsi[..], ehufco[..]);
    var p := 0;
    while p < lastp
      invariant 0 <= p <= lastp && LegalSymbols(t, isDC, p)
      invariant Indexed(t, p, huffsize, huffcode, ehufsi[..], ehufco[..])
    {
      var i := t.vals[p];
      IndexedNext(t, isDC, p, lastp, huffsize, huffcode, ehufsi[..], ehufco[..]);
      if i > MaxSymbol(isDC) || ehufsi[i] != 0 {
        return false, e;
      }
      ehufco[i] := huffcode[p];
      ehufsi[i] := huffsize[p];
      p := p + 1;
    }
    e := EncoderTable(ehufco[..], ehufsi[..]);
    IndexedEncodes(t, huffsize, huffcode, e);
    ok := true;
  }

  /** The first p symbols have their sizes and codes, and no other symbol has any. */
  ghost predicate Indexed(t: Table, p: int, huffsize: seq<int>, huffcode: seq<int>, si: seq<int>, co: seq<int>)
    requires WellFormed(t) && 0 <= p <= 256 && |huffsize| == |huffcode| == 257 && |si| == |co| == 256
  {
    && (forall q :: 0 <= q < p ==> si[t.vals[q]] == huffsize[q] && co[t.vals[q]] == huffcode[q])
    && forall sym :: 0 <= sym < 256 && sym !in t.vals[..p] ==> si[sym] == 0 && co[sym] == 0
  }

  lemma NoneIndexed(t: Table, isDC: bool, huffsize: seq<int>, huffcode: seq<int>, si: seq<int>, co: seq<int>)
    requires WellFormed(t) && |huffsize| == |huffcode| == 257
    requires |si| == |co| == 256 && forall i :: 0 <= i < 256 ==> si[i] == 0 && co[i] == 0
    ensures LegalSymbols(t, isDC, 0) && Indexed(t, 0, huffsize, huffcode, si, co)
  {
  }

  /** A symbol already has a size exactly if it was listed before. */
  lemma IndexedNext(t: Table, isDC: bool, p: nat, lastp: nat, huffsize: seq<int>, huffcode: seq<int>, si: seq<int>, co: seq<int>)
    requires WellFormed(t) && p < lastp <= 256 && |huffsize| == |huffcode| == 257 && |si| == |co| == 256
    requires LegalSymbols(t, isDC, p) && Indexed(t, p, huffsize, huffcode, si, co)
    requires forall q :: 0 <= q < lastp ==> huffsize[q] > 0
    ensures var i := t.vals[p];
      if i > MaxSymbol(isDC) || si[i] != 0 then !LegalSymbols(t, isDC, lastp)
      else LegalSymbols(t, isDC, p + 1) && Indexed(t, p + 1, huffsize, huffcode, si[i := huffsize[p]], co[i := huffcode[p]])
  {
    assert t.vals[..p + 1] == t.vals[..p] + [t.vals[p]];
  }

  lemma IndexedEncodes(t: Table, huffsize: seq<int>, huffcode: seq<int>, e: EncoderTable)
    requires WellFormed(t) && 0 <= CodesTo(t.bits, 16) <= 256
    requires |huffsize| == |huffcode| == 257 && Coded(t.bits, huffsize, huffcode)
    requires |e.ehufco| == |e.ehufsi| == 256
    requires Indexed(t, CodesTo(t.bits, 16), huffsize, huffcode, e.ehufsi, e.ehufco)
    ensures Encodes(e, t)
  {
    SymbolNumbers(t.bits);
  }

  lemma SymbolNumbers(bits: seq<int>)
    requires |bits| == 17 && forall i :: 1 <= i <= 16 ==> bits[i] >= 0
    ensures forall l, q :: HasLength(bits, q, l) ==> 0 <= q < CodesTo(bits, 16)
  {
    forall l, q | HasLength(bits, q, l)
      ensures 0 <= q < CodesTo(bits, 16)
    {
      CodesMonotonic(bits, 0, l - 1);
      CodesMonotonic(bits, l, 16);
    }
  }

  lemma SymbolSized(bits: seq<int>, huffsize: seq<int>, huffcode: seq<int>, lastp: nat)
    requires |bits| == 17 && |huffsize| == |huffcode| == 257 && Coded(bits, huffsize, huffcode)
    requires lastp == CodesTo(bits, 16) <= 256
    ensures forall p :: 0 <= p < lastp ==> huffsize[p] > 0
  {
    forall p | 0 <= p < lastp
      ensures huffsize[p] > 0
    {
      assert HasLength(bits, p, LengthOf(bits, p, 1));
    }
  }
}
