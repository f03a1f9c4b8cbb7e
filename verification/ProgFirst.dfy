/** First AC scans of progressive coding (section G.1.2.2 of ITU-T T.81): a band of coefficients after the
    point transform, with EOB runs. */
module ProgFirst {
  import opened ZigZag
  import opened Bytes
  import opened BitStrings
  import opened BitWriter
  import opened HuffTable
  import opened HuffDecode
  import opened HuffBlock
  import opened HuffDecoder
  import opened HuffEncoder
  import opened ProgRefine

  /** The coefficient after the point transform: division by 2^al, rounding toward zero. */
  function Point(v: int, al: nat): int {
    var a: int := Scaled(v, al);
    if v < 0 then -a else a
  }

  /** The coefficients a first scan can code. */
  predicate FirstFits(band: Band, x: seq<int>)
    requires |x| == 64
  {
    forall k :: band.ss <= k <= band.se && k < 64 ==> -32768 <= x[k] <= 32767 && NBits(Scaled(x[k], band.al)) <= MAX_COEF_BITS
  }

  /** The symbol and value bits of a nonzero coefficient after r zeros. */
  function FirstChunk1(r: nat, v: int): Chunk {
    Chunk((16 * r + NBits(Magnitude(v))) % 256, ToBits(Extra(v), NBits(Magnitude(v))))
  }

  /** Figure G.3 from coefficient k on, after r zeros. */
  function FirstHead(band: Band, x: seq<int>, k: nat, r: nat): seq<Chunk>
    requires |x| == 64 && LegalBand(band)
    decreases 64 - k, r
  {
    if k > band.se then []
    else if Scaled(x[k], band.al) == 0 then FirstHead(band, x, k + 1, r + 1)
    else if r > 15 then [Chunk(0xF0, [])] + FirstHead(band, x, k, r - 16)
    else [FirstChunk1(r, Point(x[k], band.al))] + FirstHead(band, x, k + 1, 0)
  }

  /** The zeros after the last nonzero coefficient. */
  function FirstTail(band: Band, x: seq<int>, k: nat, r: nat): nat
    requires |x| == 64 && LegalBand(band)
    decreases 64 - k, r
  {
    if k > band.se then r
    else if Scaled(x[k], band.al) == 0 then FirstTail(band, x, k + 1, r + 1)
    else if r > 15 then FirstTail(band, x, k, r - 16)
    else FirstTail(band, x, k + 1, 0)
  }

  /** Decoding a block from coefficient k on when no EOB run is pending, on any bit string. */
  function DecodeFirst(t: Table, band: Band, bits: Bits, k: nat, z: seq<int>): (d: Refined)
    requires WellFormed(t) && |z| == 64 && band.se < 64
    ensures |d.z| == 64
    decreases 64 - k
  {
    if k > band.se then Refined(z, 0, bits)
    else
      var sym := SymbolFrom(t, bits, 1);
      var r, s, after := sym.value / 16, sym.value % 16, Drop(bits, sym.length);
      if s != 0 then
        var d := DecodeValue(after, s);
        DecodeFirst(t, band, d.rest, k + r + 1, z[Min63(k + r) := Coef(Shl(d.v, band.al))])
      else if r == 15 then DecodeFirst(t, band, after, k + 16, z)
      else Refined(z, RunLength(after, r) - 1, Drop(after, r))
  }

  /** The decoder has nothing of the band yet. */
  predicate Blank(band: Band, z: seq<int>) {
    |z| == 64 && forall j :: band.ss <= j <= band.se && j < 64 ==> z[j] == 0
  }

  lemma PointScales(v: int, al: nat)
    requires -32768 <= v <= 32767
    ensures Magnitude(Point(v, al)) == Scaled(v, al) && Coef(Shl(Point(v, al), al)) == Trunc(v, al)
    ensures Scaled(v, al) == 0 ==> Trunc(v, al) == 0
  {
    hide Shr;
    var a := Scaled(v, al);
    ShlNegative(a, al);
    ShlZero(al);
    ShrBelow(Magnitude(v), al);
    ShlNonNegative(a, al);
  }

  lemma {:induction false} ShrBelow(x: nat, n: nat)
    ensures Shl(Shr(x, n), n) <= x
  {
    if n != 0 {
      ShrBelow(x / 2, n - 1);
    }
  }

  /** The state of the decoder's block when the encoder is at k. */
  lemma FirstMixStep(band: Band, x: seq<int>, z: seq<int>, k: nat)
    requires LegalBand(band) && |x| == 64 && Blank(band, z) && FirstFits(band, x) && band.ss <= k <= band.se
    ensures var m, v := Mix(band, x, z, k), Point(x[k], band.al);
      && (Scaled(x[k], band.al) == 0 ==> Mix(band, x, z, k + 1) == m)
      && (Scaled(x[k], band.al) != 0 ==> v != 0 && Mix(band, x, z, k + 1) == m[k := Coef(Shl(v, band.al))])
  {
    hide Scaled, Trunc, NBits;
    PointScales(x[k], band.al);
    var m, m' := Mix(band, x, z, k), Mix(band, x, z, k + 1);
    assert m' == m[k := Trunc(x[k], band.al)];
    assert m[k := m[k]] == m;
  }

  lemma FirstRunDecodes(e: EncoderTable, t: Table, band: Band, k0: nat, z: seq<int>, after: Bits)
    requires Paired(e, t) && LegalEncoder(e) && WellFormed(t) && e.ehufsi[0xF0] > 0 && k0 <= band.se < 64 && |z| == 64
    ensures DecodeFirst(t, band, ChunkBits(e, Chunk(0xF0, [])) + after, k0, z) == DecodeFirst(t, band, after, k0 + 16, z)
  {
    hide SymbolFrom, Drop, ChunkBits, DecodeValue;
    ChunkDecodes(e, t, Chunk(0xF0, []), after);
    assert [] + after == after;
  }

  lemma FirstValueDecodes(e: EncoderTable, t: Table, band: Band, k0: nat, r: nat, v: int, z: seq<int>, after: Bits)
    requires Paired(e, t) && LegalEncoder(e) && WellFormed(t) && k0 <= band.se < 64 && |z| == 64
    requires r <= 15 && v != 0 && NBits(Magnitude(v)) <= MAX_COEF_BITS && e.ehufsi[FirstChunk1(r, v).symbol] > 0
    ensures DecodeFirst(t, band, ChunkBits(e, FirstChunk1(r, v)) + after, k0, z)
         == DecodeFirst(t, band, after, k0 + r + 1, z[Min63(k0 + r) := Coef(Shl(v, band.al))])
  {
    hide SymbolFrom, Drop, ChunkBits, DecodeValue, NBits, Extra, ToBits, Coef, FirstChunk1, Paired, LegalEncoder, WellFormed, Magnitude, Shl;
    FirstSymbol(r, v);
    ValueDecodes(v, after);
    EncoderHasSize(e);
    ChunkDecodes(e, t, FirstChunk1(r, v), after);
  }

  lemma EncoderHasSize(e: EncoderTable)
    requires LegalEncoder(e)
    ensures |e.ehufsi| == 256
  {
  }

  lemma SplitSymbol(r: nat, n: nat)
    requires n <= 15
    ensures (16 * r + n) / 16 == r && (16 * r + n) % 16 == n
  {
  }

  lemma FirstSymbol(r: nat, v: int)
    requires r <= 15 && v != 0 && NBits(Magnitude(v)) <= MAX_COEF_BITS
    ensures var c, n := FirstChunk1(r, v), NBits(Magnitude(v));
      c.symbol / 16 == r && c.symbol % 16 == n > 0 && c.bits == ToBits(Extra(v), n)
  {
    var n := NBits(Magnitude(v));
    hide NBits, Extra, ToBits, Extend, Pow2;
    ExtendExtra(v);
    SplitSymbol(r, n);
  }

  lemma FirstEndDecodes(e: EncoderTable, t: Table, band: Band, k0: nat, z: seq<int>, w: Awaiting, m: nat, rest: Bits)
    requires Paired(e, t) && LegalEncoder(e) && WellFormed(t) && band.se < 64 && |z| == 64 && 1 <= m <= 0x7FFF && w.br == []
    requires HasTail(w) ==> e.ehufsi[EobChunk(m, []).symbol] > 0
    requires k0 + w.r == band.se + 1
    ensures DecodeFirst(t, band, Finish(e, w, m, rest), k0, z) == Refined(z, if HasTail(w) then m - 1 else 0, rest)
  {
    hide SymbolFrom, Drop, ChunkBits, DecodeValue, EobChunk, RunLength;
    if HasTail(w) {
      ChunkDecodes(e, t, EobChunk(m, []), rest);
      RunCoded(m, [], rest);
      assert [] + rest == rest;
    }
  }

  /** Decoding a block undoes coding it, whatever the length of the EOB run that begins in it. */
  lemma {:induction false} FirstDecodes(e: EncoderTable, t: Table, band: Band, x: seq<int>, z: seq<int>, k: nat, r: nat, m: nat, rest: Bits)
    requires Paired(e, t) && LegalEncoder(e) && WellFormed(t) && LegalBand(band) && |x| == 64 && Blank(band, z) && FirstFits(band, x)
    requires band.ss + r <= k <= band.se + 1 && 1 <= m <= 0x7FFF && CoversChunks(e, FirstHead(band, x, k, r))
    requires FirstTail(band, x, k, r) > 0 ==> e.ehufsi[EobChunk(m, []).symbol] > 0
    ensures var end := Awaiting(FirstTail(band, x, k, r), []);
      DecodeFirst(t, band, ChunksBits(e, FirstHead(band, x, k, r)) + Finish(e, end, m, rest), k - r, Mix(band, x, z, k))
      == Refined(Mix(band, x, z, band.se + 1), if HasTail(end) then m - 1 else 0, rest)
    decreases 64 - k, r
  {
    hide Scaled, Mix, EobChunk, Finish, DecodeFirst, LegalEncoder, ChunksBits, Paired, CoversChunks, FirstChunk1, Blank, Point, Coef, FirstFits, WellFormed, Pow2;
    var end := Awaiting(FirstTail(band, x, k, r), []);
    var f := Finish(e, end, m, rest);
    BlankSize(band, z);
    if k > band.se {
      NoChunks(e, f);
      FirstEndDecodes(e, t, band, k - r, Mix(band, x, z, k), end, m, rest);
    } else {
      FirstMixStep(band, x, z, k);
      if Scaled(x[k], band.al) == 0 {
        FirstDecodes(e, t, band, x, z, k + 1, r + 1, m, rest);
      } else if r > 15 {
        var more := FirstHead(band, x, k, r - 16);
        FirstChunk(e, Chunk(0xF0, []), more, f);
        FirstRunDecodes(e, t, band, k - r, Mix(band, x, z, k), ChunksBits(e, more) + f);
        FirstDecodes(e, t, band, x, z, k, r - 16, m, rest);
      } else {
        var v := Point(x[k], band.al);
        var more := FirstHead(band, x, k + 1, 0);
        FirstChunk(e, FirstChunk1(r, v), more, f);
        FitsAt(band, x, k);
        FirstValueDecodes(e, t, band, k - r, r, v, Mix(band, x, z, k), ChunksBits(e, more) + f);
        FirstDecodes(e, t, band, x, z, k + 1, 0, m, rest);
      }
    }
  }

  lemma BlankSize(band: Band, z: seq<int>)
    requires Blank(band, z)
    ensures |z| == 64
  {
  }

  lemma FitsAt(band: Band, x: seq<int>, k: nat)
    requires |x| == 64 && FirstFits(band, x) && band.ss <= k <= band.se < 64
    ensures NBits(Magnitude(Point(x[k], band.al))) <= MAX_COEF_BITS
  {
    hide NBits, Scaled;
    PointScales(x[k], band.al);
  }
}
