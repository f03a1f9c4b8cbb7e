/** A progressive AC scan from a data source that delivers its bytes in pieces: a call for a block that runs out of
    data is made again when more has arrived. */
module ProgSuspend {
  import opened Bytes
  import opened BitStrings
  import opened BitReader
  import opened HuffTable
  import opened HuffDecode
  import opened HuffDecoder
  import opened ProgFirst
  import opened ProgRefine
  import opened ProgRun
  import opened ProgDecoder
  import opened ProgTranscode
  import opened Restarts
  import opened Segments
  import opened ZigZag

  /** The block is as it was, or as a suspended call left it: decoding it gives the same. */
  ghost predicate Restartable(t: Table, sc: Scan, bits: Bits, eobrun: nat, b0: Block, b: Block) {
    && WellFormed(t) && LegalScan(sc) && sc.band.se < 64
    && DecodeBand(t, sc, bits, eobrun, Z(b)) == DecodeBand(t, sc, bits, eobrun, Z(b0))
  }

  // One call for a block.
  method TryBlock(dec: PhuffDecoder, sc: Scan, block: array<int>, ghost b0: Block, ghost bits: Bits) returns (ok: bool)
    requires dec.Valid() && At(dec.reader, bits) && LegalScan(sc) && block.Length == 64
    requires Restartable(dec.t, sc, bits, dec.EOBRUN, b0, block[..])
    modifies dec`EOBRUN, dec.reader, block
    ensures dec.Valid() && (old(dec.reader.Complete()) ==> ok)
    ensures ok ==> dec.reader.Ahead() == old(dec.reader.Ahead())
    ensures ok ==> sc.band.se < 64 && var d := DecodeBand(dec.t, sc, bits, old(dec.EOBRUN), Z(b0));
      Z(block[..]) == d.z && dec.EOBRUN == d.eobrun && At(dec.reader, d.rest)
    ensures !ok ==> dec.EOBRUN == old(dec.EOBRUN) && Restartable(dec.t, sc, bits, dec.EOBRUN, b0, block[..])
    ensures !ok ==> At(dec.reader, bits) && dec.reader.Ahead() == old(dec.reader.Ahead())
  {
    hide Matches, WellFormed, DecodeRefine, DecodeFirst, Reader.Valid, Seen, Zig, Alternative, Between2;
    ghost var z, eobrun := Z(block[..]), dec.EOBRUN;
    if sc.first {
      ok := dec.DecodeMcuAcFirst(block, sc.band, bits);
      if !ok {
        if eobrun > 0 {
          NothingBetween(z, Z(block[..]));
        } else {
          ResumeFirst(dec.t, sc.band, bits, sc.band.ss, z, Z(block[..]));
        }
      }
    } else {
      ok := dec.DecodeMcuAcRefine(block, sc.band, bits);
      if !ok { Resume(dec.t, sc.band, bits, eobrun, z, Z(block[..])); }
    }
  }

  lemma NothingDecoded(t: Table, sc: Scan, bits: Bits)
    requires WellFormed(t) && sc.band.se < 64
    ensures DecodeAll(t, sc, bits, []) == RefinedAll([], 0, bits)
  {
  }

  lemma NothingBetween(z: seq<int>, w: seq<int>)
    requires |z| == |w| == 64 && Between2(z, w, z)
    ensures w == z
  {
  }

  /** Reads an AC scan whose input arrives in pieces, cut anywhere.  The result is that of the whole input. */
  method ReadInPieces(sc: Scan, held: seq<Block>, pieces: seq<seq<byte>>, tbl: DecoderTable, ghost t: Table)
    returns (result: seq<Block>)
    requires LegalScan(sc) && Matches(tbl, t) && WellFormed(t) && NextMark(Flat(pieces), 0).Mark?
    ensures |result| == |held| && sc.band.se < 64
    ensures Zs(result) == DecodeAll(t, sc, ByteBits(Payload(Flat(pieces), 0)), Zs(held)).zs
  {
    hide Matches, WellFormed, DecodeBand, DecodeAll, Reader.Valid, Reader.Ahead, Seen, NextMark, Payload, ByteBits, Flat, LegalScan, Zig, Reader.Complete,
         Restartable, At;
    ScanInRange(sc);
    ghost var all := ByteBits(Payload(Flat(pieces), 0));
    assert pieces[0..] == pieces && [] + Flat(pieces) == Flat(pieces);
    var dec := new PhuffDecoder([], Flat(pieces), tbl, t);
    result := [];
    NothingDecoded(t, sc, all);
    ghost var left := all;
    var i, p := 0, 0;
    while i < |held|
      invariant 0 <= i == |result| <= |held| && p <= |pieces| && dec.Valid() && fresh(dec) && fresh(dec.reader)
      invariant dec.t == t && dec.tbl == tbl && At(dec.reader, left) && dec.reader.Ahead() == NextMark(Flat(pieces), 0)
      invariant dec.reader.future == Flat(pieces[p..])
      invariant DecodeAll(t, sc, all, Zs(held)[..i]) == RefinedAll(Zs(result), dec.EOBRUN, left)
    {
      var b;
      DecodeSnoc(t, sc, all, Zs(held)[..i], Z(held[i]));
      assert Zs(held)[..i + 1] == Zs(held)[..i] + [Z(held[i])];
      ghost var d := DecodeBand(t, sc, left, dec.EOBRUN, Z(held[i]));
      dec, p, b := ReadBlockInPieces(dec, sc, held[i], pieces, p, left);
      left := d.rest;
      assert Zs(result + [b]) == Zs(result) + [Z(b)];
      result := result + [b];
      i := i + 1;
    }
    assert Zs(held)[..i] == Zs(held);
  }

  // Calls for a block, until one is not suspended.
  method ReadBlockInPieces(dec0: PhuffDecoder, sc: Scan, b0: Block, pieces: seq<seq<byte>>, p0: nat, ghost bits: Bits)
    returns (dec: PhuffDecoder, p: nat, b: Block)
    requires p0 <= |pieces| && dec0.Valid() && At(dec0.reader, bits) && LegalScan(sc) && dec0.reader.future == Flat(pieces[p0..])
    requires dec0.reader.Ahead().Mark?
    modifies dec0, dec0.reader
    ensures p0 <= p <= |pieces| && dec.Valid() && dec.reader.future == Flat(pieces[p..]) && dec.t == dec0.t && dec.tbl == dec0.tbl
    ensures (dec == dec0 || fresh(dec)) && (dec.reader == dec0.reader || fresh(dec.reader))
    ensures dec.reader.Ahead() == old(dec0.reader.Ahead()) && sc.band.se < 64
    ensures var d := DecodeBand(dec0.t, sc, bits, old(dec0.EOBRUN), Z(b0));
      Z(b) == d.z && dec.EOBRUN == d.eobrun && At(dec.reader, d.rest)
  {
    hide Matches, WellFormed, DecodeBand, Reader.Valid, Reader.Ahead, NextMark, Flat, Zig, At;
    ScanInRange(sc);
    dec, p := dec0, p0;
    var block := new int[64](i requires 0 <= i < 64 => b0[i]);
    assert block[..] == b0;
    var ok := false;
    while !ok
      invariant p0 <= p <= |pieces| && dec.Valid() && dec.reader.future == Flat(pieces[p..]) && dec.t == dec0.t && dec.tbl == dec0.tbl
      invariant (dec == dec0 || fresh(dec)) && (dec.reader == dec0.reader || fresh(dec.reader)) && fresh(block) && block.Length == 64
      invariant dec.reader.Ahead() == old(dec0.reader.Ahead())
      invariant !ok ==> At(dec.reader, bits) && dec.EOBRUN == old(dec0.EOBRUN)
      invariant !ok ==> Restartable(dec.t, sc, bits, dec.EOBRUN, b0, block[..])
      invariant ok ==> var d := DecodeBand(dec0.t, sc, bits, old(dec0.EOBRUN), Z(b0));
        Z(block[..]) == d.z && dec.EOBRUN == d.eobrun && At(dec.reader, d.rest)
      decreases |pieces| - p, !ok
    {
      ok := TryBlock(dec, sc, block, b0, bits);
      if !ok {
        MorePieces(pieces, p);
        dec := Refill(dec, pieces[p], Flat(pieces[p + 1..]), bits);
        p := p + 1;
      }
    }
    b := block[..];
  }

  // The data source has more bytes.
  method Refill(old_dec: PhuffDecoder, more: seq<byte>, ghost later: seq<byte>, ghost bits: Bits) returns (dec: PhuffDecoder)
    requires old_dec.Valid() && At(old_dec.reader, bits) && old_dec.reader.future == more + later
    ensures fresh(dec) && fresh(dec.reader) && dec.Valid() && At(dec.reader, bits) && dec.reader.future == later
    ensures dec.t == old_dec.t && dec.tbl == old_dec.tbl && dec.EOBRUN == old_dec.EOBRUN
    ensures dec.reader.Ahead() == old_dec.reader.Ahead()
  {
    hide Matches, WellFormed, Seen;
    dec := new PhuffDecoder.Refilled(old_dec, more, later);
  }
}
