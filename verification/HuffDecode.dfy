/** The decoder's tables: bit-sequential decoding, and the lookahead table that replaces it for short
    codes. */
module HuffDecode {
  import opened Bytes
  import opened BitStrings
  import opened HuffTable

  const HUFF_LOOKAHEAD := 8

  /** The next n bits of a string that goes on with zeros. */
  function Peek(s: Bits, n: nat): nat {
    if n == 0 then 0 else 2 * Peek(s, n - 1) + (if n <= |s| && s[n - 1] then 1 else 0)
  }

  lemma {:induction false} PeekNum(s: Bits, n: nat)
    requires n <= |s|
    ensures Peek(s, n) == Num(s[..n])
  {
    if n != 0 {
      PeekNum(s, n - 1);
      assert s[..n][..n - 1] == s[..n - 1];
    }
  }

  lemma {:induction false} PeekBound(s: Bits, n: nat)
    ensures Peek(s, n) < Pow2(n)
  {
    if n != 0 { PeekBound(s, n - 1); }
  }

  lemma {:induction false} PeekPrefix(s: Bits, k: nat, n: nat)
    requires k <= n
    ensures Peek(s, k) == Peek(s, n) / Pow2(n - k)
    decreases n
  {
    if k < n {
      PeekPrefix(s, k, n - 1);
      DivideEven(Peek(s, n - 1), if n <= |s| && s[n - 1] then 1 else 0, Pow2(n - 1 - k));
    } else {
      assert Pow2(0) == 1;
    }
  }

  lemma DivideEven(x: nat, b: nat, p: nat)
    requires p > 0 && b < 2
    ensures (2 * x + b) / (2 * p) == x / p
  {
    var q, r := x / p, x % p;
    assert q * (2 * p) == 2 * (q * p);
    Quotient(2 * x + b, 2 * p, q, 2 * r + b);
  }

  // ----- Bit-sequential decoding (Figure F.16)

  datatype Symbol = Symbol(value: byte, length: nat)

  /** Collect the code one bit at a time, from length l on: the first length at which it is not above
      the largest code of that length decides.  No code, at length 17, counts as symbol 0. */
  function SymbolFrom(t: Table, s: Bits, l: nat): (r: Symbol)
    requires WellFormed(t) && 1 <= l <= 17
    ensures l <= r.length <= 17
    decreases 17 - l
  {
    if l == 17 then Symbol(0, 17)
    else if Peek(s, l) < Filled(t.bits, l) && t.bits[l] > 0 then
      Symbol(SymbolAt(t, Peek(s, l) - 2 * Filled(t.bits, l - 1) + CodesTo(t.bits, l - 1)), l)
    else SymbolFrom(t, s, l + 1)
  }

  function SymbolAt(t: Table, p: int): byte
    requires WellFormed(t)
  {
    if 0 <= p < 256 then t.vals[p] else 0
  }

  /** The code is one of its length, and tells the symbol. */
  lemma CodeInPlace(bits: seq<int>, p: int, l: nat)
    requires |bits| == 17 && HasLength(bits, p, l)
    ensures bits[l] > 0 && CodeAt(bits, p, l) < Filled(bits, l) && CodeAt(bits, p, l) - 2 * Filled(bits, l - 1) + CodesTo(bits, l - 1) == p
  {
  }

  /** Decoding inverts encoding: a code, whatever follows it, is decoded to its symbol. */
  lemma CodeDecodes(t: Table, p: int, l: nat, rest: Bits)
    requires WellFormed(t) && LegalTree(t.bits) && HasLength(t.bits, p, l)
    ensures 0 <= CodeAt(t.bits, p, l) < Pow2(l) && 0 <= p < 256
    ensures SymbolFrom(t, ToBits(CodeAt(t.bits, p, l), l) + rest, 1) == Symbol(t.vals[p], l)
  {
    hide Filled, CodesTo, Pow2, LegalTree, ToBits, Num;
    CodeFits(t.bits, p, l);
    CodeInPlace(t.bits, p, l);
    var s := ToBits(CodeAt(t.bits, p, l), l) + rest;
    assert s[..l] == ToBits(CodeAt(t.bits, p, l), l);
    PeekNum(s, l);
    NumToBits(CodeAt(t.bits, p, l), l);
    SkipsShorter(t, s, 1, l);
  }

  /** A value at or above the first code of length l is above every shorter code. */
  lemma {:induction false} SkipsShorter(t: Table, s: Bits, k: nat, l: nat)
    requires WellFormed(t) && 1 <= k <= l <= 16
    requires Peek(s, l) >= 2 * Filled(t.bits, l - 1)
    ensures SymbolFrom(t, s, k) == SymbolFrom(t, s, l)
    ensures k < l ==> Peek(s, k) >= Filled(t.bits, k)
    decreases l - k
  {
    if k < l {
      SkipsShorter(t, s, k + 1, l);
      assert Peek(s, k + 1) >= 2 * Filled(t.bits, k) by {
        if k + 1 < l { CodesMonotonic(t.bits, k, k + 1); }
      }
    }
  }

  /** While no code has been found, the bits read are not below the codes of the next length. */
  lemma {:induction false} NotFoundAbove(t: Table, s: Bits, k: nat, l: nat)
    requires WellFormed(t) && 1 <= k <= l <= 17 && SymbolFrom(t, s, k).length >= l
    requires Peek(s, k - 1) >= Filled(t.bits, k - 1)
    ensures Peek(s, l - 1) >= Filled(t.bits, l - 1)
    decreases l - k
  {
    if k < l {
      NotFoundAbove(t, s, k + 1, l);
    }
  }

  // ----- The derived table

  datatype DecoderTable = DecoderTable(maxcode: seq<int>, valoffset: seq<int>, lookup: seq<int>, vals: seq<byte>)

  /** The entry for the next 8 bits: length and symbol, or length 9 if the code is longer. */
  function LookupEntry(t: Table, look: nat, l: nat): (e: nat)
    requires WellFormed(t) && 1 <= l <= 9
    decreases 9 - l
  {
    if l == 9 then 9 * 256
    else if look / Pow2(8 - l) < Filled(t.bits, l) && t.bits[l] > 0 then
      l * 256 + SymbolAt(t, look / Pow2(8 - l) - 2 * Filled(t.bits, l - 1) + CodesTo(t.bits, l - 1))
    else LookupEntry(t, look, l + 1)
  }

  ghost predicate Decodes(d: DecoderTable, t: Table)
    requires WellFormed(t)
  {
    && |d.maxcode| == |d.valoffset| == 18 && |d.lookup| == 256 && d.vals == t.vals
    && (forall l :: 1 <= l <= 16 ==> Limits(t, l, d.maxcode[l], d.valoffset[l]))
    && d.maxcode[17] == 0xFFFFF
    && forall look :: 0 <= look < 256 ==> d.lookup[look] == LookupEntry(t, look, 1)
  }

  /** The lookahead table gives the same symbol and length as bit-sequential decoding. */
  lemma {:induction false} LookaheadAgrees(t: Table, s: Bits, l: nat)
    requires WellFormed(t) && 1 <= l <= 9
    ensures var e := LookupEntry(t, Peek(s, 8), l);
      if e / 256 <= 8 then SymbolFrom(t, s, l) == Symbol(e % 256, e / 256)
      else e / 256 == 9 && SymbolFrom(t, s, l) == SymbolFrom(t, s, 9)
    decreases 9 - l
  {
    hide *;
    if l == 9 {
      LookupStep(t, s, 9);
    } else {
      PeekPrefix(s, l, 8);
      LookupStep(t, s, l);
      if !Found(t, s, l) { LookaheadAgrees(t, s, l + 1); }
    }
  }

  /** A code of length l comes next. */
  predicate Found(t: Table, s: Bits, l: nat)
    requires WellFormed(t) && l <= 16
  {
    Peek(s, l) < Filled(t.bits, l) && t.bits[l] > 0
  }

  lemma LookupStep(t: Table, s: Bits, l: nat)
    requires WellFormed(t) && 1 <= l <= 9 && (l <= 8 ==> Peek(s, 8) / Pow2(8 - l) == Peek(s, l))
    ensures var e := LookupEntry(t, Peek(s, 8), l);
      if l == 9 then e == 9 * 256
      else if Found(t, s, l) then e / 256 == l && SymbolFrom(t, s, l) == Symbol(e % 256, l)
      else e == LookupEntry(t, Peek(s, 8), l + 1) && SymbolFrom(t, s, l) == SymbolFrom(t, s, l + 1)
  {
    hide Filled, CodesTo, Peek, Pow2, SymbolAt;
  }

  // ----- Building the tables

  // Figure F.15: generate decoding tables for bit-sequential decoding.
  method SequentialTables(t: Table, huffcode: seq<int>) returns (maxcode: array<int>, valoffset: array<int>)
    requires WellFormed(t) && LegalTree(t.bits) && |huffcode| == 257
    requires forall l, q :: HasLength(t.bits, q, l) ==> 0 <= q < 257 && huffcode[q] == CodeAt(t.bits, q, l)
    ensures maxcode.Length == valoffset.Length == 18 && fresh(maxcode) && fresh(valoffset)
    ensures maxcode[17] == 0xFFFFF
    ensures forall l :: 1 <= l <= 16 ==> Limits(t, l, maxcode[l], valoffset[l])
  {
    maxcode, valoffset := new int[18], new int[18];
    var p, l := 0, 1;
    while l <= 16
      invariant 1 <= l <= 17 && p == CodesTo(t.bits, l - 1)
      invariant forall k :: 1 <= k < l ==> Limits(t, k, maxcode[k], valoffset[k])
    {
      if t.bits[l] != 0 {
        assert HasLength(t.bits, p, l) && HasLength(t.bits, p + t.bits[l] - 1, l);
        // valoffset[l] = huffval[] index of 1st symbol of code length l, minus the minimum code of length l
        valoffset[l] := p - huffcode[p];
        p := p + t.bits[l];
        maxcode[l] := huffcode[p - 1];  // maximum code of length l
      } else {
        maxcode[l] := -1;  // -1 if no codes of this length
      }
      l := l + 1;
    }
    valoffset[17] := 0;
    maxcode[17] := 0xFFFFF;  // ensures jpeg_huff_decode terminates
  }

  predicate Limits(t: Table, l: nat, maxcode: int, valoffset: int)
    requires WellFormed(t) && 1 <= l <= 16
  {
    if t.bits[l] > 0 then
      maxcode == Filled(t.bits, l) - 1 && valoffset == CodesTo(t.bits, l - 1) - 2 * Filled(t.bits, l - 1)
    else maxcode == -1
  }

  lemma DivideDouble(x: nat, p: nat)
    requires p > 0
    ensures x / (2 * p) == x / p / 2
  {
    var q, r := x / p, x % p;
    var a, b := q / 2, q % 2;
    assert q * p == a * (2 * p) + b * p by {
      assert q == 2 * a + b;
    }
    Quotient(x, 2 * p, a, b * p + r);
  }

  /** Lookahead bits at or above the first code of length l are above every shorter code. */
  lemma {:induction false} EntrySkips(t: Table, look: nat, k: nat, l: nat)
    requires WellFormed(t) && 1 <= k <= l <= 8
    requires look / Pow2(8 - l) >= 2 * Filled(t.bits, l - 1)
    ensures LookupEntry(t, look, k) == LookupEntry(t, look, l)
    ensures k < l ==> look / Pow2(8 - k) >= Filled(t.bits, k)
    decreases l - k
  {
    if k < l {
      EntrySkips(t, look, k + 1, l);
      DivideDouble(look, Pow2(8 - (k + 1)));
      if k + 1 < l { CodesMonotonic(t.bits, k, k + 1); }
    }
  }

  lemma EntryOfCode(t: Table, p: int, l: nat, look: nat)
    requires WellFormed(t) && LegalTree(t.bits) && HasLength(t.bits, p, l) && l <= 8
    requires look / Pow2(8 - l) == CodeAt(t.bits, p, l)
    ensures 0 <= p < 256 && LookupEntry(t, look, 1) == l * 256 + t.vals[p]
  {
    hide Filled, CodesTo, Pow2, LegalTree;
    CodeFits(t.bits, p, l);
    CodeInPlace(t.bits, p, l);
    EntrySkips(t, look, 1, l);
  }

  lemma EntryBeyond(t: Table, look: nat)
    requires WellFormed(t) && look >= Filled(t.bits, 8)
    ensures LookupEntry(t, look, 1) == 9 * 256
  {
    assert Pow2(0) == 1;
    EntrySkips(t, look, 1, 8);
  }

  /** Entries below the cursor are final, those above still say that the code is longer. */
  ghost predicate FilledTo(t: Table, lookup: seq<int>, cursor: int)
    requires WellFormed(t)
  {
    && |lookup| == 256 && 0 <= cursor <= 256
    && (forall look :: 0 <= look < cursor ==> lookup[look] == LookupEntry(t, look, 1))
    && forall look :: cursor <= look < 256 ==> lookup[look] == 9 * 256
  }

  // Generate left-justified code followed by all possible bit sequences.
  method FillEntries(t: Table, lookup: array<int>, code: int, p: int, l: nat)
    requires WellFormed(t) && LegalTree(t.bits) && HasLength(t.bits, p, l) && l <= 8 && code == CodeAt(t.bits, p, l)
    requires lookup.Length == 256 && FilledTo(t, lookup[..], Shl(code, 8 - l))
    modifies lookup
    ensures FilledTo(t, lookup[..], Shl(code + 1, 8 - l))
  {
    hide Filled, LookupEntry, CodesTo;
    CodeFits(t.bits, p, l);
    CodeRoom(code, l);
    var lookbits := Shl(code, 8 - l);
    var ctr := Pow2(8 - l);
    while ctr > 0
      invariant 0 <= ctr <= Pow2(8 - l) && lookbits + ctr == Shl(code + 1, 8 - l)
      invariant FilledTo(t, lookup[..], lookbits)
    {
      ShlQuotient(code, Pow2(8 - l) - ctr, 8 - l, lookbits);
      EntryOfCode(t, p, l, lookbits);
      lookup[lookbits] := l * 256 + t.vals[p];
      lookbits := lookbits + 1;
      ctr := ctr - 1;
    }
  }

  lemma CodeRoom(code: int, l: nat)
    requires l <= 8 && 0 <= code < Pow2(l)
    ensures 0 <= Shl(code, 8 - l) && Shl(code + 1, 8 - l) == Shl(code, 8 - l) + Pow2(8 - l) <= 256
  {
    ShlNonNegative(code, 8 - l);
    ShlAdd(code, 1, 8 - l);
    ShlMonotonic(code + 1, Pow2(l), 8 - l);
    ShlShl(1, l, 8 - l);
    ShlEight(1);
  }

  // Compute lookahead tables to speed up decoding.
  method LookaheadTable(t: Table, huffcode: seq<int>) returns (lookup: array<int>)
    requires WellFormed(t) && LegalTree(t.bits) && |huffcode| == 257
    requires forall l, q :: HasLength(t.bits, q, l) ==> 0 <= q < 257 && huffcode[q] == CodeAt(t.bits, q, l)
    ensures lookup.Length == 256 && fresh(lookup)
    ensures forall look :: 0 <= look < 256 ==> lookup[look] == LookupEntry(t, look, 1)
  {
    hide LookupEntry, Shl, Pow2, LegalTree;
    lookup := new int[256](_ => 9 * 256);
    ShlZero(8);
    var p, l := 0, 1;
    while l <= 8
      invariant 1 <= l <= 9 && p == CodesTo(t.bits, l - 1)
      invariant FilledTo(t, lookup[..], Shl(Filled(t.bits, l - 1), 9 - l))
    {
      ShlShl(Filled(t.bits, l - 1), 1, 8 - l);
      FirstCode(Filled(t.bits, l - 1), l);
      var i := 1;
      while i <= t.bits[l]
        invariant 1 <= i <= t.bits[l] + 1 && p == CodesTo(t.bits, l - 1) + (i - 1)
        invariant FilledTo(t, lookup[..], Shl(2 * Filled(t.bits, l - 1) + (i - 1), 8 - l))
      {
        assert HasLength(t.bits, p, l);
        FillEntries(t, lookup, huffcode[p], p, l);
        i := i + 1;
        p := p + 1;
      }
      l := l + 1;
    }
    FinalEntries(t, lookup[..]);
  }

  lemma FirstCode(f: int, l: nat)
    requires 1 <= l <= 8
    ensures Shl(f, 9 - l) == Shl(2 * f, 8 - l)
  {
    ShlShl(f, 1, 8 - l);
    assert Shl(f, 1) == 2 * f;
  }

  lemma FinalEntries(t: Table, lookup: seq<int>)
    requires WellFormed(t) && FilledTo(t, lookup, Shl(Filled(t.bits, 8), 0))
    ensures forall look :: 0 <= look < 256 ==> lookup[look] == LookupEntry(t, look, 1)
  {
    forall look | Filled(t.bits, 8) <= look < 256
      ensures LookupEntry(t, look, 1) == 9 * 256
    {
      if look >= 0 { EntryBeyond(t, look); }
    }
  }

  /** Builds the decoder's table; accepts exactly the legal code trees, and for DC the legal symbols. */
  method MakeDecoderTable(t: Table, isDC: bool) returns (ok: bool, d: DecoderTable)
    requires WellFormed(t)
    ensures ok <==> LegalTree(t.bits) && (isDC ==> forall p :: 0 <= p < CodesTo(t.bits, 16) ==> t.vals[p] <= 15)
    ensures ok ==> Decodes(d, t)
  {
    d := DecoderTable([], [], [], []);
    var huffsize, huffcode := new int[257], new int[257];
    var numsymbols;
    ok, numsymbols := SizesAndCodes(t, huffsize, huffcode);
    if ok {
      var maxcode, valoffset := SequentialTables(t, huffcode[..]);
      var lookup := LookaheadTable(t, huffcode[..]);
      d := DecoderTable(maxcode[..], valoffset[..], lookup[..], t.vals);
      if isDC {
        // Validate symbols as being reasonable.
        var i := 0;
        while i < numsymbols
          invariant 0 <= i <= numsymbols && forall p :: 0 <= p < i ==> t.vals[p] <= 15
        {
          if t.vals[i] > 15 {
            return false, d;
          }
          i := i + 1;
        }
      }
    }
  }
}
