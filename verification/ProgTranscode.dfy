/** Restart intervals of progressive AC scans, from the encoder to the decoder. */
module ProgTranscode {
  import opened Bytes
  import opened BitStrings
  import opened BitReader
  import opened BitWriter
  import opened HuffTable
  import opened HuffDecode
  import opened HuffBlock
  import opened HuffDecoder
  import opened HuffTranscode
  import opened ProgFirst
  import opened ProgRefine
  import opened ProgRun
  import opened ProgWriter
  import opened ProgEncoder
  import opened ProgDecoder
  import opened Segments
  import opened ZigZag

  /** The originals in zigzag order. */
  function Zs(bs: seq<Block>): (zs: seq<seq<int>>)
    ensures |zs| == |bs| && forall i :: 0 <= i < |zs| ==> |zs[i]| == 64 && zs[i] == Z(bs[i])
  {
    seq(|bs|, i requires 0 <= i < |bs| => Z(bs[i]))
  }

  /** All that an AC scan of these blocks emits. */
  function ScanChunks(sc: Scan, bs: seq<Block>): seq<Chunk>
    requires LegalScan(sc)
  {
    Flushed(AcRun(sc, Zs(bs)))
  }

  /** The coefficients that a first scan can code; a refinement can code any. */
  predicate ScanFits(sc: Scan, bs: seq<Block>) {
    sc.first ==> forall i :: 0 <= i < |bs| ==> FirstFits(sc.band, Z(bs[i]))
  }

  /** Coefficients as they are stored. */
  predicate SixteenBit(bs: seq<Block>) {
    forall i, k :: 0 <= i < |bs| && 0 <= k < 64 ==> -32768 <= bs[i][k] <= 32767
  }

  method EncodeBlock(enc: PhuffEncoder, sc: Scan, b: Block) returns (ok: bool)
    requires enc.Valid() && LegalRun(enc.State()) && LegalScan(sc) && forall k :: 0 <= k < 64 ==> -32768 <= b[k] <= 32767
    modifies enc, enc.counts, enc.emitter, enc.bit_buffer
    ensures ok && sc.first ==> FirstFits(sc.band, Z(b))
    ensures ok ==> enc.Valid() && enc.State() == AcStep(sc, old(enc.State()), Z(b))
    ensures !ok && (sc.first ==> FirstFits(sc.band, Z(b))) ==>
      !enc.gather_statistics && !CoversChunks(enc.tbl, AcStep(sc, old(enc.State()), Z(b)).log)
  {
    hide Emitter.Valid, CoversChunks, AcStep, LegalEncoder, FirstFits;
    if sc.first {
      ok := enc.EncodeMcuAcFirst(b, sc);
    } else {
      ok := enc.EncodeMcuAcRefine(b, sc);
    }
  }

  lemma {:induction false} LaterUncovered(e: EncoderTable, sc: Scan, xs: seq<seq<int>>, i: nat)
    requires LegalEncoder(e) && LegalScan(sc) && i <= |xs| && forall j :: 0 <= j < |xs| ==> |xs[j]| == 64
    requires !CoversChunks(e, AcRun(sc, xs[..i]).log)
    ensures !CoversChunks(e, Flushed(AcRun(sc, xs)))
    decreases |xs| - i
  {
    hide CoversChunks, AcStep, LegalEncoder, EobChunk;
    if i < |xs| {
      assert xs[..i + 1][..i] == xs[..i];
      if CoversChunks(e, AcRun(sc, xs[..i + 1]).log) {
        StepKeepsLog(e, sc, AcRun(sc, xs[..i]), xs[i]);
      }
      LaterUncovered(e, sc, xs, i + 1);
    } else {
      assert xs[..i] == xs;
      var s := AcRun(sc, xs);
      if s.eobrun > 0 && CoversChunks(e, Flushed(s)) {
        CoversBoth(e, s.log, [EobChunk(s.eobrun, s.be)]);
      }
    }
  }

  /** What the decoder holds before the scan: nothing of the band, or the band at one bit less precision. */
  predicate ReadyFor(sc: Scan, bs: seq<Block>, held: seq<Block>) {
    && |bs| == |held|
    && forall i :: 0 <= i < |bs| ==> if sc.first then Blank(sc.band, Z(held[i])) else Coarse(sc.band, Z(bs[i]), Z(held[i]))
  }

  method ReadBlock(dec: PhuffDecoder, sc: Scan, b0: Block, ghost bits: Bits) returns (b: Block)
    requires dec.Valid() && At(dec.reader, bits) && LegalScan(sc) && dec.reader.Complete()
    modifies dec, dec.reader
    ensures dec.Valid() && dec.reader.Ahead() == old(dec.reader.Ahead()) && sc.band.se < 64
    ensures var d := DecodeBand(dec.t, sc, bits, old(dec.EOBRUN), Z(b0));
      Z(b) == d.z && dec.EOBRUN == d.eobrun && At(dec.reader, d.rest)
  {
    hide Matches, WellFormed, DecodeRefine, DecodeFirst, Reader.Valid, Reader.Ahead, Reader.Available, Seen, Zig, Alternative;
    var block := new int[64](i requires 0 <= i < 64 => b0[i]);
    assert block[..] == b0;
    var ok;
    if sc.first {
      ok := dec.DecodeMcuAcFirst(block, sc.band, bits);
    } else {
      ok := dec.DecodeMcuAcRefine(block, sc.band, bits);
    }
    b := block[..];
  }

  /** The table has a code for every symbol of the scan. */
  predicate ListsChunks(t: Table, cs: seq<Chunk>)
    requires WellFormed(t)
  {
    forall i :: 0 <= i < |cs| ==> Lists(t, cs[i].symbol)
  }

  lemma ListedIsCovered(e: EncoderTable, t: Table, cs: seq<Chunk>)
    requires Paired(e, t) && WellFormed(t) && LegalEncoder(e)
    ensures CoversChunks(e, cs) <==> ListsChunks(t, cs)
  {
    hide LegalTree, CodeAt, CodesTo;
    forall s | 0 <= s < 256
      ensures e.ehufsi[s] > 0 <==> Lists(t, s)
    {
      if Lists(t, s) { ListedHasCode(e, t, s); }
    }
  }

  /** The decoded blocks: in the band, the originals truncated toward zero at bit al; outside it, what the
      decoder had before. */
  predicate Delivered(band: Band, bs: seq<Block>, held: seq<Block>, result: seq<Block>) {
    && |result| == |bs| == |held|
    && forall i :: 0 <= i < |bs| ==> Z(result[i]) == Mix(band, Z(bs[i]), Z(held[i]), band.se + 1)
  }

  lemma ScanDecodes(e: EncoderTable, t: Table, sc: Scan, bs: seq<Block>, held: seq<Block>, pad: Bits, result: seq<Block>)
    requires Paired(e, t) && WellFormed(t) && LegalEncoder(e) && LegalScan(sc) && ReadyFor(sc, bs, held) && ScanFits(sc, bs)
    requires CoversChunks(e, ScanChunks(sc, bs)) && sc.band.se < 64
    requires |result| == |held| && Zs(result) == DecodeAll(t, sc, ChunksBits(e, ScanChunks(sc, bs)) + pad, Zs(held)).zs
    ensures Delivered(sc.band, bs, held, result)
  {
    hide Paired, LegalEncoder, CoversChunks, Mix, DecodeAll, Coarse, AcStep, ChunksBits, EobChunk, Stands, FirstFits, Blank, Zig;
    var s := AcRun(sc, Zs(bs));
    if s.eobrun > 0 {
      CoversBoth(e, s.log, [EobChunk(s.eobrun, s.be)]);
      SameSymbol(s.eobrun, s.be);
      OneCovered(e, EobChunk(s.eobrun, s.be));
    }
    var rs := RunStands(e, t, sc, Zs(bs), Zs(held));
    StandsFlushed(e, t, sc, s, Zs(held), rs);
    StandsReads(e, t, sc, Flushed(s), Zs(held), rs, pad);
    forall i | 0 <= i < |bs|
      ensures Z(result[i]) == Mix(sc.band, Z(bs[i]), Z(held[i]), sc.band.se + 1)
    {
      assert Zs(result)[i] == rs[i];
    }
  }

  lemma StandsReads(e: EncoderTable, t: Table, sc: Scan, log: seq<Chunk>, zs: seq<seq<int>>, rs: seq<seq<int>>, rest: Bits)
    requires LegalEncoder(e) && WellFormed(t) && LegalScan(sc) && forall i :: 0 <= i < |zs| ==> |zs[i]| == 64
    requires Stands(e, t, sc, Run(log, 0, []), zs, rs)
    ensures DecodeAll(t, sc, ChunksBits(e, log) + rest, zs) == RefinedAll(rs, 0, rest)
  {
    hide DecodeAll, ChunksBits;
  }
}
