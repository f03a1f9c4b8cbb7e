/** Successive approximation of AC coefficients (section G.1.2.3 of ITU-T T.81): what a refinement pass
    writes for a block, and what the decoder makes of any bit string. */
module ProgRefine {
  import opened ZigZag
  import opened Bytes
  import opened BitStrings
  import opened BitWriter
  import opened HuffTable
  import opened HuffDecode
  import opened HuffBlock

  // ----- Point transform

  /** The magnitude without its al low bits. */
  function Scaled(v: int, al: nat): nat {
    Shr(Magnitude(v), al)
  }

  /** The coefficient truncated toward zero to a multiple of 2^al. */
  function Trunc(v: int, al: nat): int {
    if v < 0 then -Shl(Scaled(v, al), al) else Shl(Scaled(v, al), al)
  }

  /** v & (1 << n), in two's complement. */
  predicate TestBit(v: int, n: nat)
    decreases n
  {
    if n == 0 then v % 2 == 1 else TestBit(v / 2, n - 1)
  }

  /** A correction bit: 1 if the magnitude grows by 2^al; no effect if that was done already. */
  function Correct(v: int, bit: bool, al: nat): int {
    if bit && !TestBit(v, al) then (if v >= 0 then v + Pow2(al) else v - Pow2(al)) else v
  }

  /** 2^al or -2^al. */
  function Unit(positive: bool, al: nat): int {
    var p: int := Pow2(al);
    if positive then p else -p
  }

  lemma {:induction false} TestShifted(w: int, n: nat)
    ensures !TestBit(Shl(w, n + 1), n)
    decreases n
  {
    assert Shl(w, n + 1) == 2 * Shl(w, n);
    if n != 0 { TestShifted(w, n - 1); }
  }

  lemma {:induction false} TestAdded(v: int, n: nat)
    ensures TestBit(v + Pow2(n), n) == !TestBit(v, n)
    ensures TestBit(v - Pow2(n), n) == !TestBit(v, n)
    decreases n
  {
    if n != 0 {
      assert (v + Pow2(n)) / 2 == v / 2 + Pow2(n - 1) && (v - Pow2(n)) / 2 == v / 2 - Pow2(n - 1);
      TestAdded(v / 2, n - 1);
    }
  }

  /** Correcting twice is correcting once. */
  lemma CorrectAgain(v: int, bit: bool, al: nat)
    ensures Correct(Correct(v, bit, al), bit, al) == Correct(v, bit, al)
  {
    TestAdded(v, al);
  }

  lemma {:induction false} ShrHalf(x: nat, n: nat)
    ensures Shr(x, n + 1) == Shr(x, n) / 2
  {
    if n != 0 { ShrHalf(x / 2, n - 1); }
  }

  lemma {:induction false} ShlNegative(x: int, n: nat)
    ensures Shl(-x, n) == -Shl(x, n)
  {
    if n != 0 { ShlNegative(x, n - 1); }
  }

  /** What a refinement pass does to one coefficient. */
  lemma OneBitFiner(v: int, al: nat)
    ensures var a, old_, new_ := Scaled(v, al), Trunc(v, al + 1), Trunc(v, al);
      && (a <= 1 <==> old_ == 0)
      && (a == 0 ==> new_ == 0)
      && (a == 1 ==> new_ == Unit(v >= 0, al))
      && (a > 1 ==> Correct(old_, a % 2 == 1, al) == new_)
  {
    hide Shr, TestBit, Magnitude;
    var a := Scaled(v, al);
    var h: int := a / 2;
    ShrHalf(Magnitude(v), al);
    ShlZero(al + 1);
    ShlZero(al);
    ShlNonNegative(h, al + 1);
    ShlAdd(2 * h, a % 2, al);
    DoubleShl(h, al);
    TestShifted(h, al);
    TestShifted(-h, al);
    ShlNegative(h, al + 1);
  }

  lemma {:induction false} DoubleShl(x: int, n: nat)
    ensures Shl(2 * x, n) == Shl(x, n + 1)
  {
    if n != 0 { DoubleShl(x, n - 1); }
  }

  // ----- The decoder, on any bit string.  Coefficients are in zigzag order.

  /** The band of a scan and its bit position. */
  datatype Band = Band(ss: nat, se: nat, al: nat)

  predicate LegalBand(band: Band) {
    1 <= band.ss <= band.se < 64
  }

  datatype Position = Position(z: seq<int>, k: nat, rest: Bits)

  predicate NextBit(bits: Bits) {
    Peek(bits, 1) == 1
  }

  /** Advance over already-nonzero coefficients and r still-zero ones, appending correction bits to the
      nonzeroes; stop at the zero after them or at the end of the band. */
  function Advance(band: Band, bits: Bits, k: nat, r: nat, z: seq<int>): (p: Position)
    requires |z| == 64 && band.se < 64
    ensures |p.z| == 64 && k <= p.k
    decreases 64 - k
  {
    if k > band.se then Position(z, k, bits)
    else if z[k] != 0 then Advance(band, Drop(bits, 1), k + 1, r, z[k := Correct(z[k], NextBit(bits), band.al)])
    else if r == 0 then Position(z, k, bits)
    else Advance(band, bits, k + 1, r - 1, z)
  }

  datatype Refined = Refined(z: seq<int>, eobrun: nat, rest: Bits)

  /** Correction bits for all nonzero coefficients from k on. */
  function Corrections(band: Band, bits: Bits, k: nat, z: seq<int>): (p: Position)
    requires |z| == 64 && band.se < 64
    ensures |p.z| == 64
    decreases 64 - k
  {
    if k > band.se then Position(z, k, bits)
    else if z[k] != 0 then Corrections(band, Drop(bits, 1), k + 1, z[k := Correct(z[k], NextBit(bits), band.al)])
    else Corrections(band, bits, k + 1, z)
  }

  function Min63(k: nat): nat {
    if k > 63 then 63 else k
  }

  /** The length of an EOB run: 2^r plus r appended bits. */
  function RunLength(bits: Bits, r: nat): nat {
    Pow2(r) + Peek(bits, r)
  }

  /** Decoding a block from coefficient k on when no EOB run is pending. */
  function DecodeCoefs(t: Table, band: Band, bits: Bits, k: nat, z: seq<int>): (d: Refined)
    requires WellFormed(t) && |z| == 64 && band.se < 64
    ensures |d.z| == 64
    decreases 64 - k
  {
    if k > band.se then Refined(z, 0, bits)
    else
      var sym := SymbolFrom(t, bits, 1);
      var r, s, after := sym.value / 16, sym.value % 16, Drop(bits, sym.length);
      if s != 0 then
        var p := Advance(band, Drop(after, 1), k, r, z);
        DecodeCoefs(t, band, p.rest, p.k + 1, p.z[Min63(p.k) := Unit(NextBit(after), band.al)])
      else if r == 15 then
        var p := Advance(band, after, k, 15, z);
        DecodeCoefs(t, band, p.rest, p.k + 1, p.z)
      else
        var p := Corrections(band, Drop(after, r), k, z);
        Refined(p.z, RunLength(after, r) - 1, p.rest)
  }

  /** Decoding a block; in an EOB run there are only correction bits. */
  function DecodeRefine(t: Table, band: Band, bits: Bits, eobrun: nat, z: seq<int>): (d: Refined)
    requires WellFormed(t) && |z| == 64 && band.se < 64
    ensures |d.z| == 64
  {
    if eobrun == 0 then DecodeCoefs(t, band, bits, band.ss, z)
    else
      var p := Corrections(band, bits, band.ss, z);
      Refined(p.z, eobrun - 1, p.rest)
  }

  // ----- The encoder.  A chunk is a symbol and the bits that follow it.

  datatype Chunk = Chunk(symbol: byte, bits: Bits)

  function ChunkBits(e: EncoderTable, c: Chunk): Bits
    requires LegalEncoder(e)
  {
    ToBits(e.ehufco[c.symbol], e.ehufsi[c.symbol]) + c.bits
  }

  function ChunksBits(e: EncoderTable, cs: seq<Chunk>): Bits
    requires LegalEncoder(e)
  {
    if cs == [] then [] else ChunkBits(e, cs[0]) + ChunksBits(e, cs[1..])
  }

  predicate CoversChunks(e: EncoderTable, cs: seq<Chunk>)
    requires LegalEncoder(e)
  {
    forall i :: 0 <= i < |cs| ==> e.ehufsi[cs[i].symbol] > 0
  }

  /** The index of the last newly nonzero coefficient, or of the first one in the band. */
  function LastNew(band: Band, x: seq<int>, k: nat): (r: nat)
    requires |x| == 64 && k < 64
    ensures r <= k || r == band.ss
    ensures forall j :: band.ss <= j <= k && Scaled(x[j], band.al) == 1 ==> j <= r
  {
    if k <= band.ss then band.ss
    else if Scaled(x[k], band.al) == 1 then k
    else LastNew(band, x, k - 1)
  }

  function Eob(band: Band, x: seq<int>): nat
    requires |x| == 64 && LegalBand(band)
  {
    LastNew(band, x, band.se)
  }

  /** Zero run length and correction bits that await a symbol. */
  datatype Awaiting = Awaiting(r: nat, br: Bits)

  predicate HasTail(a: Awaiting) {
    a.r > 0 || a.br != []
  }

  /** Figure G.7 from coefficient k on: the chunks for a block. */
  function Head(band: Band, x: seq<int>, k: nat, w: Awaiting): seq<Chunk>
    requires |x| == 64 && LegalBand(band) && band.ss <= k
    decreases 64 - k, w.r
  {
    if k > band.se then []
    else
      var a := Scaled(x[k], band.al);
      if a == 0 then Head(band, x, k + 1, Awaiting(w.r + 1, w.br))
      else if w.r > 15 && k <= Eob(band, x) then [Chunk(0xF0, w.br)] + Head(band, x, k, Awaiting(w.r - 16, []))
      else if a > 1 then Head(band, x, k + 1, Awaiting(w.r, w.br + [a % 2 == 1]))
      else [Chunk(16 * w.r + 1, [x[k] >= 0] + w.br)] + Head(band, x, k + 1, Awaiting(0, []))
  }

  /** What is left for the EOB symbol. */
  function Tail(band: Band, x: seq<int>, k: nat, w: Awaiting): Awaiting
    requires |x| == 64 && LegalBand(band) && band.ss <= k
    decreases 64 - k, w.r
  {
    if k > band.se then w
    else
      var a := Scaled(x[k], band.al);
      if a == 0 then Tail(band, x, k + 1, Awaiting(w.r + 1, w.br))
      else if w.r > 15 && k <= Eob(band, x) then Tail(band, x, k, Awaiting(w.r - 16, []))
      else if a > 1 then Tail(band, x, k + 1, Awaiting(w.r, w.br + [a % 2 == 1]))
      else Tail(band, x, k + 1, Awaiting(0, []))
  }

  /** An EOB run of m blocks, with the correction bits of its blocks. */
  function EobChunk(m: nat, be: Bits): Chunk
    requires 1 <= m <= 0x7FFF
  {
    Pow2Fifteen();
    NBitsBound(m, 15);
    Chunk(16 * (NBits(m) - 1), ToBits(m, NBits(m) - 1) + be)
  }

  // ----- Stretches of a band

  /** The zero coefficients from j to k. */
  function Zeros(band: Band, x: seq<int>, j: nat, k: nat): nat
    requires |x| == 64 && k <= 64
    decreases k
  {
    if j >= k then 0 else Zeros(band, x, j, k - 1) + (if Scaled(x[k - 1], band.al) == 0 then 1 else 0)
  }

  /** The correction bits from j to k. */
  function Corr(band: Band, x: seq<int>, j: nat, k: nat): Bits
    requires |x| == 64 && k <= 64
    decreases k
  {
    if j >= k then []
    else
      var a := Scaled(x[k - 1], band.al);
      Corr(band, x, j, k - 1) + (if a > 1 then [a % 2 == 1] else [])
  }

  lemma {:induction false} ZerosFront(band: Band, x: seq<int>, j: nat, k: nat)
    requires |x| == 64 && j < k <= 64
    ensures Zeros(band, x, j, k) == (if Scaled(x[j], band.al) == 0 then 1 else 0) + Zeros(band, x, j + 1, k)
    decreases k
  {
    hide Scaled;
    if j < k - 1 { ZerosFront(band, x, j, k - 1); }
  }

  lemma {:induction false} CorrFront(band: Band, x: seq<int>, j: nat, k: nat)
    requires |x| == 64 && j < k <= 64
    ensures var a := Scaled(x[j], band.al);
      Corr(band, x, j, k) == (if a > 1 then [a % 2 == 1] else []) + Corr(band, x, j + 1, k)
    decreases k
  {
    hide Scaled;
    var c := Scaled(x[k - 1], band.al);
    var last := if c > 1 then [c % 2 == 1] else [];
    if j < k - 1 {
      CorrFront(band, x, j, k - 1);
      var a := Scaled(x[j], band.al);
      Reassociate(if a > 1 then [a % 2 == 1] else [], Corr(band, x, j + 1, k - 1), last);
    } else {
      assert [] + last == last + [];
    }
  }

  /** The coefficients as the decoder has them with the band refined up to k. */
  function Mix(band: Band, x: seq<int>, z: seq<int>, k: nat): (m: seq<int>)
    requires |x| == |z| == 64
    ensures |m| == 64
  {
    seq(64, j requires 0 <= j < 64 => if band.ss <= j <= band.se && j < k then Trunc(x[j], band.al) else z[j])
  }

  /** The decoder holds the band at one bit less precision. */
  predicate Coarse(band: Band, x: seq<int>, z: seq<int>) {
    |x| == |z| == 64 && forall j :: band.ss <= j <= band.se && j < 64 ==> z[j] == Trunc(x[j], band.al + 1)
  }

  lemma MixStep(band: Band, x: seq<int>, z: seq<int>, k: nat)
    requires LegalBand(band) && Coarse(band, x, z) && band.ss <= k <= band.se
    ensures var a, m := Scaled(x[k], band.al), Mix(band, x, z, k);
      && (a <= 1 <==> m[k] == 0)
      && (a == 0 ==> Mix(band, x, z, k + 1) == m)
      && (a == 1 ==> Mix(band, x, z, k + 1) == m[k := Unit(x[k] >= 0, band.al)])
      && (a > 1 ==> Mix(band, x, z, k + 1) == m[k := Correct(m[k], a % 2 == 1, band.al)])
  {
    hide Scaled, Trunc, Correct, Unit;
    OneBitFiner(x[k], band.al);
    var m, m' := Mix(band, x, z, k), Mix(band, x, z, k + 1);
    assert m' == m[k := Trunc(x[k], band.al)];
    assert m[k := m[k]] == m;
  }

  lemma FirstBit(b: bool, rest: Bits)
    ensures NextBit([b] + rest) == b && Drop([b] + rest, 1) == rest
  {
    assert Peek([b] + rest, 1) == 2 * Peek([b] + rest, 0) + (if b then 1 else 0);
  }

  /** All coefficients from k0 to k are passed over, then the decoder stops at k, which is still zero. */
  lemma {:induction false} AdvanceToNew(band: Band, x: seq<int>, z: seq<int>, k0: nat, k: nat, rest: Bits)
    requires LegalBand(band) && Coarse(band, x, z) && band.ss <= k0 <= k <= band.se
    requires Scaled(x[k], band.al) == 1 && forall j :: k0 <= j < k ==> Scaled(x[j], band.al) != 1
    ensures Advance(band, Corr(band, x, k0, k) + rest, k0, Zeros(band, x, k0, k), Mix(band, x, z, k0))
         == Position(Mix(band, x, z, k), k, rest)
    decreases k - k0
  {
    hide Scaled, Mix, Correct, NextBit, Drop;
    MixStep(band, x, z, k0);
    if k0 == k {
      assert [] + rest == rest;
    } else {
      ZerosFront(band, x, k0, k);
      CorrFront(band, x, k0, k);
      AdvanceToNew(band, x, z, k0 + 1, k, rest);
      PassOver(band, x, k0, k, rest);
    }
  }

  lemma PassOver(band: Band, x: seq<int>, j: nat, k: nat, rest: Bits)
    requires |x| == 64 && j < k <= 64
    ensures var a, after := Scaled(x[j], band.al), Corr(band, x, j + 1, k) + rest;
      if a > 1 then
        NextBit(Corr(band, x, j, k) + rest) == (a % 2 == 1) && Drop(Corr(band, x, j, k) + rest, 1) == after
      else Corr(band, x, j, k) + rest == after
  {
    hide Scaled, NextBit, Drop, Corr;
    CorrFront(band, x, j, k);
    var a, c := Scaled(x[j], band.al), Corr(band, x, j + 1, k);
    if a > 1 {
      FirstBit(a % 2 == 1, c + rest);
      Reassociate([a % 2 == 1], c, rest);
    } else {
      assert [] + c == c;
    }
  }

  lemma CoarseSize(band: Band, x: seq<int>, z: seq<int>)
    requires Coarse(band, x, z)
    ensures |x| == |z| == 64
  {
  }

  /** With r0 + 1 zeros and more before k, and no nonzero coefficient after them, the decoder stops at the
      last of these zeros. */
  lemma {:induction false} AdvanceRun(band: Band, x: seq<int>, z: seq<int>, k0: nat, k: nat, r0: nat, rest: Bits) returns (j: nat)
    requires LegalBand(band) && Coarse(band, x, z) && band.ss <= k0 <= k <= band.se
    requires Zeros(band, x, k0, k) > r0 && NoNew(band, x, k0, k) && NonzerosFirst(band, x, k0, k, r0)
    ensures k0 <= j < k && Scaled(x[j], band.al) == 0
    ensures Advance(band, Corr(band, x, k0, k) + rest, k0, r0, Mix(band, x, z, k0)) == Position(Mix(band, x, z, j), j, rest)
    ensures Zeros(band, x, j + 1, k) == Zeros(band, x, k0, k) - r0 - 1
    ensures forall i :: j < i < k ==> Scaled(x[i], band.al) == 0
    decreases k - k0
  {
    hide Scaled, Mix, Correct, NextBit, Drop, Coarse;
    CoarseSize(band, x, z);
    MixStep(band, x, z, k0);
    ZerosFront(band, x, k0, k);
    PassOver(band, x, k0, k, rest);
    var a := Scaled(x[k0], band.al);
    if a == 0 && r0 == 0 {
      j := k0;
      AllZeros(band, x, k0, k);
    } else {
      LaterNonzeros(band, x, k0, k, r0);
      j := AdvanceRun(band, x, z, k0 + 1, k, if a == 0 then r0 - 1 else r0, rest);
    }
  }

  /** No newly nonzero coefficient from j to k. */
  predicate NoNew(band: Band, x: seq<int>, j: nat, k: nat)
    requires |x| == 64 && k <= 64
  {
    forall i :: j <= i < k ==> Scaled(x[i], band.al) != 1
  }

  /** At most r zeros come before a nonzero coefficient. */
  predicate NonzerosFirst(band: Band, x: seq<int>, j: nat, k: nat, r: nat)
    requires |x| == 64 && k <= 64
  {
    forall i :: j <= i < k && Scaled(x[i], band.al) > 1 ==> Zeros(band, x, j, i) <= r
  }

  lemma AllZeros(band: Band, x: seq<int>, k0: nat, k: nat)
    requires |x| == 64 && k0 < k <= 64 && Scaled(x[k0], band.al) == 0
    requires NoNew(band, x, k0, k) && NonzerosFirst(band, x, k0, k, 0)
    ensures forall i :: k0 <= i < k ==> Scaled(x[i], band.al) == 0
    ensures Corr(band, x, k0, k) == []
  {
    hide Scaled;
    forall i | k0 <= i < k
      ensures Scaled(x[i], band.al) == 0
    {
      if i > k0 { ZerosFront(band, x, k0, i); }
    }
    NoCorr(band, x, k0, k);
  }

  lemma {:induction false} NoCorr(band: Band, x: seq<int>, k0: nat, k: nat)
    requires |x| == 64 && k <= 64 && forall i :: k0 <= i < k ==> Scaled(x[i], band.al) == 0
    ensures Corr(band, x, k0, k) == []
    decreases k
  {
    hide Scaled;
    if k0 < k { NoCorr(band, x, k0, k - 1); }
  }

  lemma LaterNonzeros(band: Band, x: seq<int>, k0: nat, k: nat, r: nat)
    requires |x| == 64 && k0 < k <= 64 && NonzerosFirst(band, x, k0, k, r)
    ensures Scaled(x[k0], band.al) == 0 && r > 0 ==> NonzerosFirst(band, x, k0 + 1, k, r - 1)
    ensures Scaled(x[k0], band.al) != 0 ==> NonzerosFirst(band, x, k0 + 1, k, r)
  {
    hide Scaled, Zeros;
    forall i | k0 < i < k
      ensures Zeros(band, x, k0, i) == (if Scaled(x[k0], band.al) == 0 then 1 else 0) + Zeros(band, x, k0 + 1, i)
    {
      ZerosFront(band, x, k0, i);
    }
  }

  /** The correction bits from k0 to the end of the band refine the rest of it. */
  lemma {:induction false} CorrectRest(band: Band, x: seq<int>, z: seq<int>, k0: nat, rest: Bits)
    requires LegalBand(band) && Coarse(band, x, z) && band.ss <= k0 <= band.se + 1 && NoNew(band, x, k0, band.se + 1)
    ensures Corrections(band, Corr(band, x, k0, band.se + 1) + rest, k0, Mix(band, x, z, k0))
         == Position(Mix(band, x, z, band.se + 1), band.se + 1, rest)
    decreases 64 - k0
  {
    hide Scaled, Mix, Correct, NextBit, Drop;
    if k0 > band.se {
      assert [] + rest == rest;
    } else {
      MixStep(band, x, z, k0);
      PassOver(band, x, k0, band.se + 1, rest);
      CorrectRest(band, x, z, k0 + 1, rest);
    }
  }

  // ----- Decoding what was coded

  lemma ChunkDecodes(e: EncoderTable, t: Table, c: Chunk, rest: Bits)
    requires Paired(e, t) && LegalEncoder(e) && WellFormed(t) && e.ehufsi[c.symbol] > 0
    ensures var sym := SymbolFrom(t, ChunkBits(e, c) + rest, 1);
      sym.value == c.symbol && Drop(ChunkBits(e, c) + rest, sym.length) == c.bits + rest
  {
    hide ToBits, LegalTree, Encodes, SymbolFrom, Drop;
    var code := ToBits(e.ehufco[c.symbol], e.ehufsi[c.symbol]);
    Reassociate(code, c.bits, rest);
    SymbolDecodes(e, t, c.symbol, c.bits + rest);
  }

  lemma RunCoded(m: nat, be: Bits, rest: Bits)
    requires 1 <= m <= 0x7FFF
    ensures var c := EobChunk(m, be); var r := c.symbol / 16;
      c.symbol % 16 == 0 && r <= 14 && RunLength(c.bits + rest, r) == m && Drop(c.bits + rest, r) == be + rest
  {
    hide ToBits, Peek, Pow2, NBits, Drop;
    RunBits(m);
    var r := NBits(m) - 1;
    var a := ToBits(m, r);
    Reassociate(a, be, rest);
    TakeNumber(a, be + rest);
  }

  lemma RunBits(m: nat)
    requires 1 <= m <= 0x7FFF
    ensures 1 <= NBits(m) <= 15 && Pow2(NBits(m) - 1) + Num(ToBits(m, NBits(m) - 1)) == m
  {
    hide ToBits;
    Pow2Fifteen();
    NBitsBound(m, 15);
    var r := NBits(m) - 1;
    var low := m - Pow2(r);
    assert low < Pow2(r) by { assert Pow2(r + 1) == 2 * Pow2(r); }
    ToBitsLow(1, low, r);
    assert Shl(1, r) == Pow2(r);
    NumToBits(low, r);
  }

  lemma TakeNumber(a: Bits, rest: Bits)
    ensures Peek(a + rest, |a|) == Num(a) && Drop(a + rest, |a|) == rest
  {
    hide Peek, Num;
    PeekNum(a + rest, |a|);
    assert (a + rest)[..|a|] == a;
  }

  /** The encoder is at k, the decoder at k0; the coefficients between await a symbol. */
  predicate Between(band: Band, x: seq<int>, k0: nat, k: nat, w: Awaiting) {
    && LegalBand(band) && |x| == 64 && band.ss <= k0 <= k <= band.se + 1
    && w == Awaiting(Zeros(band, x, k0, k), Corr(band, x, k0, k)) && NoNew(band, x, k0, k)
    && (k <= Eob(band, x) ==> NonzerosFirst(band, x, k0, k, 15))
  }

  lemma NextZero(band: Band, x: seq<int>, k0: nat, k: nat, w: Awaiting)
    requires Between(band, x, k0, k, w) && k <= band.se && Scaled(x[k], band.al) == 0
    ensures Between(band, x, k0, k + 1, Awaiting(w.r + 1, w.br))
  {
    hide Scaled, Eob;
    assert w.br + [] == w.br;
  }

  lemma NextNonzero(band: Band, x: seq<int>, k0: nat, k: nat, w: Awaiting)
    requires Between(band, x, k0, k, w) && k <= band.se && Scaled(x[k], band.al) > 1
    requires !(w.r > 15 && k <= Eob(band, x))
    ensures Between(band, x, k0, k + 1, Awaiting(w.r, w.br + [Scaled(x[k], band.al) % 2 == 1]))
  {
    hide Scaled, Eob;
  }

  lemma StartOver(band: Band, x: seq<int>, k: nat)
    requires LegalBand(band) && |x| == 64 && band.ss <= k <= band.se + 1
    ensures Between(band, x, k, k, Awaiting(0, []))
  {
  }

  /** A run of 16 zeros, with the correction bits up to its end. */
  lemma RunDecodes(e: EncoderTable, t: Table, band: Band, x: seq<int>, z: seq<int>, k0: nat, k: nat, w: Awaiting, after: Bits)
    returns (j: nat)
    requires Paired(e, t) && LegalEncoder(e) && WellFormed(t) && Coarse(band, x, z) && e.ehufsi[0xF0] > 0
    requires Between(band, x, k0, k, w) && k <= Eob(band, x) && k <= band.se && w.r > 15
    ensures Between(band, x, j, k, Awaiting(w.r - 16, []))
    ensures DecodeCoefs(t, band, ChunkBits(e, Chunk(0xF0, w.br)) + after, k0, Mix(band, x, z, k0))
         == DecodeCoefs(t, band, after, j, Mix(band, x, z, j))
  {
    hide Scaled, Mix, SymbolFrom, Drop, ChunkBits, Advance, NextBit, Corr, Zeros, Eob;
    ChunkDecodes(e, t, Chunk(0xF0, w.br), after);
    var i := AdvanceRun(band, x, z, k0, k, 15, after);
    MixStep(band, x, z, i);
    NoCorr(band, x, i + 1, k);
    j := i + 1;
  }

  /** A newly nonzero coefficient, with the correction bits before it. */
  lemma NewDecodes(e: EncoderTable, t: Table, band: Band, x: seq<int>, z: seq<int>, k0: nat, k: nat, w: Awaiting, after: Bits)
    requires Paired(e, t) && LegalEncoder(e) && WellFormed(t) && Coarse(band, x, z) && w.r <= 15 && e.ehufsi[16 * w.r + 1] > 0
    requires Between(band, x, k0, k, w) && k <= band.se && Scaled(x[k], band.al) == 1
    ensures DecodeCoefs(t, band, ChunkBits(e, Chunk(16 * w.r + 1, [x[k] >= 0] + w.br)) + after, k0, Mix(band, x, z, k0))
         == DecodeCoefs(t, band, after, k + 1, Mix(band, x, z, k + 1))
  {
    hide Scaled, Mix, SymbolFrom, Drop, ChunkBits, Advance, NextBit, Corr, Zeros, Eob, Unit;
    var c := Chunk(16 * w.r + 1, [x[k] >= 0] + w.br);
    ChunkDecodes(e, t, c, after);
    Reassociate([x[k] >= 0], w.br, after);
    FirstBit(x[k] >= 0, w.br + after);
    AdvanceToNew(band, x, z, k0, k, after);
    MixStep(band, x, z, k);
  }

  /** The end of a block: nothing, or an EOB run that begins here. */
  function Finish(e: EncoderTable, w: Awaiting, m: nat, rest: Bits): Bits
    requires LegalEncoder(e) && 1 <= m <= 0x7FFF
  {
    if HasTail(w) then ChunkBits(e, EobChunk(m, w.br)) + rest else rest
  }

  lemma EndDecodes(e: EncoderTable, t: Table, band: Band, x: seq<int>, z: seq<int>, k0: nat, w: Awaiting, m: nat, rest: Bits)
    requires Paired(e, t) && LegalEncoder(e) && WellFormed(t) && Coarse(band, x, z) && 1 <= m <= 0x7FFF
    requires HasTail(w) ==> e.ehufsi[EobChunk(m, []).symbol] > 0
    requires Between(band, x, k0, band.se + 1, w)
    ensures DecodeCoefs(t, band, Finish(e, w, m, rest), k0, Mix(band, x, z, k0))
         == Refined(Mix(band, x, z, band.se + 1), if HasTail(w) then m - 1 else 0, rest)
  {
    hide Scaled, Mix, SymbolFrom, Drop, ChunkBits, Advance, NextBit, Corr, Zeros, Eob, RunLength, EobChunk;
    if HasTail(w) {
      NothingAwaits(band, x, k0);
      SameSymbol(m, w.br);
      ChunkDecodes(e, t, EobChunk(m, w.br), rest);
      RunCoded(m, w.br, rest);
      CorrectRest(band, x, z, k0, rest);
    } else {
      SomethingAwaits(band, x, k0);
    }
  }

  lemma SameSymbol(m: nat, br: Bits)
    requires 1 <= m <= 0x7FFF
    ensures EobChunk(m, br).symbol == EobChunk(m, []).symbol
  {
  }

  lemma NothingAwaits(band: Band, x: seq<int>, k0: nat)
    requires |x| == 64 && LegalBand(band)
    ensures k0 > band.se ==> Zeros(band, x, k0, band.se + 1) == 0 && Corr(band, x, k0, band.se + 1) == []
  {
  }

  lemma SomethingAwaits(band: Band, x: seq<int>, k0: nat)
    requires |x| == 64 && LegalBand(band) && NoNew(band, x, k0, band.se + 1)
    ensures k0 <= band.se ==> Zeros(band, x, k0, band.se + 1) > 0 || Corr(band, x, k0, band.se + 1) != []
  {
    hide Scaled;
    if k0 <= band.se {
      ZerosFront(band, x, k0, band.se + 1);
      CorrFront(band, x, k0, band.se + 1);
    }
  }

  /** Decoding a block undoes coding it: every coefficient of the band gets its next bit, whatever the
      length of the EOB run that begins in this block. */
  lemma {:induction false} HeadDecodes(e: EncoderTable, t: Table, band: Band, x: seq<int>, z: seq<int>,
                                       k0: nat, k: nat, w: Awaiting, m: nat, rest: Bits)
    requires Paired(e, t) && LegalEncoder(e) && WellFormed(t) && Coarse(band, x, z) && 1 <= m <= 0x7FFF
    requires Between(band, x, k0, k, w) && CoversChunks(e, Head(band, x, k, w))
    requires HasTail(Tail(band, x, k, w)) ==> e.ehufsi[EobChunk(m, []).symbol] > 0
    ensures var end := Tail(band, x, k, w);
      DecodeCoefs(t, band, ChunksBits(e, Head(band, x, k, w)) + Finish(e, end, m, rest), k0, Mix(band, x, z, k0))
      == Refined(Mix(band, x, z, band.se + 1), if HasTail(end) then m - 1 else 0, rest)
    decreases 64 - k, w.r
  {
    hide Scaled, Mix, Corr, Zeros, Eob, EobChunk, Finish, DecodeCoefs, LegalEncoder, ChunksBits, Paired, Between, CoversChunks;
    BetweenParts(band, x, k0, k, w);
    var end := Tail(band, x, k, w);
    var f := Finish(e, end, m, rest);
    if k > band.se {
      NoChunks(e, f);
      EndDecodes(e, t, band, x, z, k0, w, m, rest);
    } else {
      var a := Scaled(x[k], band.al);
      if a == 0 {
        NextZero(band, x, k0, k, w);
        HeadDecodes(e, t, band, x, z, k0, k + 1, Awaiting(w.r + 1, w.br), m, rest);
      } else if w.r > 15 && k <= Eob(band, x) {
        var more := Head(band, x, k, Awaiting(w.r - 16, []));
        FirstChunk(e, Chunk(0xF0, w.br), more, f);
        var j := RunDecodes(e, t, band, x, z, k0, k, w, ChunksBits(e, more) + f);
        HeadDecodes(e, t, band, x, z, j, k, Awaiting(w.r - 16, []), m, rest);
      } else if a > 1 {
        NextNonzero(band, x, k0, k, w);
        HeadDecodes(e, t, band, x, z, k0, k + 1, Awaiting(w.r, w.br + [a % 2 == 1]), m, rest);
      } else {
        var more := Head(band, x, k + 1, Awaiting(0, []));
        FirstChunk(e, Chunk(16 * w.r + 1, [x[k] >= 0] + w.br), more, f);
        NewDecodes(e, t, band, x, z, k0, k, w, ChunksBits(e, more) + f);
        StartOver(band, x, k + 1);
        HeadDecodes(e, t, band, x, z, k + 1, k + 1, Awaiting(0, []), m, rest);
      }
    }
  }

  lemma BetweenParts(band: Band, x: seq<int>, k0: nat, k: nat, w: Awaiting)
    requires Between(band, x, k0, k, w)
    ensures LegalBand(band) && |x| == 64 && band.ss <= k0 <= k <= band.se + 1
    ensures k <= band.se && Scaled(x[k], band.al) == 1 ==> k <= Eob(band, x)
  {
    hide Scaled, Corr, Zeros;
  }

  lemma NoChunks(e: EncoderTable, f: Bits)
    requires LegalEncoder(e)
    ensures ChunksBits(e, []) + f == f
  {
    assert [] + f == f;
  }

  lemma FirstChunk(e: EncoderTable, c: Chunk, more: seq<Chunk>, f: Bits)
    requires LegalEncoder(e) && CoversChunks(e, [c] + more)
    ensures |e.ehufsi| == 256 && e.ehufsi[c.symbol] > 0 && CoversChunks(e, more)
    ensures ChunksBits(e, [c] + more) + f == ChunkBits(e, c) + (ChunksBits(e, more) + f)
  {
    hide ChunkBits;
    var all := [c] + more;
    assert all[0] == c && all[1..] == more;
    assert forall i :: 0 <= i < |more| ==> all[i + 1] == more[i];
    Reassociate(ChunkBits(e, c), ChunksBits(e, more), f);
  }
}
