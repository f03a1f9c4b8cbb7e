/** Progressive AC scans with restart markers: statistics pass, output pass and decoder. */
module ProgScan {
  import opened Bytes
  import opened BitStrings
  import opened BitReader
  import opened HuffTable
  import opened HuffDecode
  import opened HuffBlock
  import opened HuffDecoder
  import opened HuffTranscode
  import opened ProgFirst
  import opened ProgRefine
  import opened ProgRun
  import opened ProgEncoder
  import opened ProgWriter
  import opened ProgDecoder
  import opened ProgTranscode
  import opened Restarts
  import opened Segments
  import opened ZigZag

  /** All that the restart intervals of a scan emit. */
  function AllChunks(sc: Scan, parts: seq<seq<Block>>): seq<Chunk>
    requires LegalScan(sc)
  {
    if parts == [] then [] else AllChunks(sc, parts[..|parts| - 1]) + ScanChunks(sc, parts[|parts| - 1])
  }

  lemma AllChunksSnoc(sc: Scan, parts: seq<seq<Block>>, p: seq<Block>)
    requires LegalScan(sc)
    ensures AllChunks(sc, parts + [p]) == AllChunks(sc, parts) + ScanChunks(sc, p)
  {
    assert (parts + [p])[..|parts|] == parts;
  }

  /** Every symbol has a code. */
  predicate AllCovered(tbl: EncoderTable, sc: Scan, parts: seq<seq<Block>>)
    requires LegalEncoder(tbl) && LegalScan(sc)
  {
    forall i :: 0 <= i < |parts| ==> CoversChunks(tbl, ScanChunks(sc, parts[i]))
  }

  /** This segment has the bits of this interval. */
  ghost predicate Written(tbl: EncoderTable, sc: Scan, part: seq<Block>, data: seq<byte>) {
    && LegalEncoder(tbl) && LegalScan(sc) && CoversChunks(tbl, ScanChunks(sc, part))
    && exists pad: Bits :: ByteBits(data) == ChunksBits(tbl, ScanChunks(sc, part)) + pad
  }

  ghost predicate WrittenAll(tbl: EncoderTable, sc: Scan, parts: seq<seq<Block>>, datas: seq<seq<byte>>) {
    |parts| == |datas| && forall i :: 0 <= i < |parts| ==> Written(tbl, sc, parts[i], datas[i])
  }

  lemma PartUncovered(tbl: EncoderTable, sc: Scan, parts: seq<seq<Block>>, i: nat)
    requires LegalEncoder(tbl) && LegalScan(sc) && i < |parts| && !CoversChunks(tbl, ScanChunks(sc, parts[i]))
    ensures !AllCovered(tbl, sc, parts)
  {
  }

  lemma WrittenCovered(tbl: EncoderTable, sc: Scan, parts: seq<seq<Block>>, datas: seq<seq<byte>>)
    requires LegalEncoder(tbl) && LegalScan(sc) && WrittenAll(tbl, sc, parts, datas)
    ensures AllCovered(tbl, sc, parts)
  {
    hide CoversChunks, ScanChunks;
  }

  // ----- Encoding

  class AcScanEncoder {
    const sc: Scan
    const interval: nat
    const gather: bool
    const tbl: EncoderTable
    const counts: array<nat>
    var enc: PhuffEncoder
    var restarts_to_go: nat
    var next_restart_num: nat

    ghost var done: seq<seq<Block>>  // the restart intervals that are complete
    ghost var datas: seq<seq<byte>>  // and their data
    ghost var part: seq<Block>  // the blocks of the current one

    ghost predicate Current()
      reads `enc, `done, `datas, `part, enc, enc.counts, enc.emitter, enc.bit_buffer
    {
      && LegalScan(sc) && enc.Valid() && enc.gather_statistics == gather && enc.tbl == tbl && enc.counts == counts
      && enc.State() == AcRun(sc, Zs(part)) && enc.past == AllChunks(sc, done) && ScanFits(sc, part)
      && (!gather ==> enc.emitter.head == HeadOf(datas))
    }

    ghost predicate Counted()
      reads `done, `datas, `part, `restarts_to_go, `next_restart_num
    {
      && (!gather ==> |done| == |datas|) && (done != [] ==> part != []) && (interval == 0 ==> done == [])
      && (interval > 0 ==> restarts_to_go + |part| == interval && Numbered(next_restart_num, |done|))
    }

    ghost predicate Valid()
      reads this, enc, enc.counts, enc.emitter, enc.bit_buffer
    {
      Current() && Counted() && (!gather ==> WrittenAll(tbl, sc, done, datas))
    }

    constructor (sc: Scan, interval: nat, gather: bool, tbl: EncoderTable)
      requires LegalScan(sc) && LegalEncoder(tbl)
      ensures Valid() && fresh(enc) && fresh(counts) && fresh(enc.counts) && fresh(enc.emitter) && fresh(enc.bit_buffer)
      ensures this.sc == sc && this.interval == interval && this.gather == gather && this.tbl == tbl
      ensures done == [] && part == []
    {
      var c := new nat[257](_ => 0);
      this.sc, this.interval, this.gather, this.tbl, counts := sc, interval, gather, tbl, c;
      enc := new PhuffEncoder(gather, tbl, [], c, []);
      restarts_to_go, next_restart_num := interval, 0;
      done, datas, part := [], [], [];
    }

    // Is a restart marker needed?
    predicate Due()
      reads `restarts_to_go
    {
      interval > 0 && restarts_to_go == 0
    }

    // encode_mcu_AC_first, encode_mcu_AC_refine: with the restart marker before the block, if one is due.
    method EncodeMcu(b: Block) returns (ok: bool)
      requires Valid() && forall k :: 0 <= k < 64 ==> -32768 <= b[k] <= 32767
      modifies this, enc, counts, enc.emitter, enc.bit_buffer
      ensures ok ==> Valid() && SameOrFresh(old(enc), old(enc.emitter), old(enc.bit_buffer))
      ensures ok ==>
        done == (if old(Due()) then old(done) + [old(part)] else old(done)) && part == (if old(Due()) then [] else old(part)) + [b]
      ensures !ok && (sc.first ==> FirstFits(sc.band, Z(b))) ==> !gather && Uncovered(old(part), old(Due()), b)
    {
      hide Current, Written, AllCovered, ScanChunks, CoversChunks, FirstFits;
      // Emit restart marker if needed
      if interval > 0 {
        if restarts_to_go == 0 {
          ok := EmitRestart(next_restart_num);
          if !ok {
            return;
          }
        }
      }
      ok := CodeMcu(b);
      if !ok {
        return;
      }
      // Update restart-interval state too
      if interval > 0 {
        if restarts_to_go == 0 {
          NextNumber(next_restart_num, |old(done)|);
          restarts_to_go := interval;
          next_restart_num := (next_restart_num + 1) % 8;
        }
        restarts_to_go := restarts_to_go - 1;
      }
    }

    twostate predicate SameOrFresh(e: PhuffEncoder, em: Emitter, bb: array<bool>)
      reads this
    {
      (enc == e && enc.emitter == em && enc.bit_buffer == bb) || (fresh(enc) && fresh(enc.emitter) && fresh(enc.bit_buffer))
    }

    /** A symbol without a code comes up no later than in block b. */
    ghost predicate Uncovered(before: seq<Block>, due: bool, b: Block)
      requires LegalScan(sc) && LegalEncoder(tbl)
    {
      (due && !CoversChunks(tbl, ScanChunks(sc, before))) || !CoversChunks(tbl, AcRun(sc, Zs((if due then [] else before) + [b])).log)
    }

    method CodeMcu(b: Block) returns (ok: bool)
      requires Current() && forall k :: 0 <= k < 64 ==> -32768 <= b[k] <= 32767
      modifies `part, enc, counts, enc.emitter, enc.bit_buffer
      ensures ok ==> Current() && part == old(part) + [b]
      ensures !ok && (sc.first ==> FirstFits(sc.band, Z(b))) ==>
        !gather && !CoversChunks(tbl, AcRun(sc, Zs(old(part) + [b])).log)
    {
      hide Emitter.Valid, CoversChunks, AcStep, LegalEncoder, FirstFits, Zig, HeadOf, AllChunks;
      RunNext(sc, part, b);
      ok := EncodeBlock(enc, sc, b);
      part := part + [b];
    }

    // emit_restart
    method EmitRestart(num: nat) returns (ok: bool)
      requires Current() && Numbered(num, |done|) && (!gather ==> |done| == |datas|)
      modifies `enc, `done, `datas, `part, enc, counts, enc.emitter
      ensures if ok then Current() && fresh(enc) && fresh(enc.emitter) && fresh(enc.bit_buffer)
              else !gather && !CoversChunks(tbl, ScanChunks(sc, old(part)))
      ensures ok ==> part == [] && done == old(done) + [old(part)]
      ensures ok && !gather ==> |datas| == |old(datas)| + 1 && datas[..|old(datas)|] == old(datas)
                                && Written(tbl, sc, old(part), datas[|old(datas)|])
    {
      hide Emitter.Valid, CoversChunks, AcStep, LegalEncoder, ScanFits, FirstFits, Zig, HeadOf, AllChunks, ScanChunks, Written, Stuff;
      ghost var data;
      ok, data := Flush();
      if !ok {
        return;
      }
      var out := enc.emitter.out;
      if !gather {
        NextNumber(num, |done|);
        NextHead(datas, data);
        out := out + [0xFF] + [0xD0 + num];
        datas := datas + [data];
      }
      AllChunksSnoc(sc, done, part);
      // Re-initialize all AC-related fields to 0
      StartInterval(out);
    }

    method StartInterval(out: seq<byte>)
      requires LegalScan(sc) && Counts(enc) && enc.tbl == tbl && enc.counts == counts && enc.gather_statistics == gather
      requires enc.State() == Run(ScanChunks(sc, part), 0, []) && enc.past == AllChunks(sc, done)
      requires !gather ==> out == HeadOf(datas)
      modifies `enc, `done, `part
      ensures Current() && fresh(enc) && fresh(enc.emitter) && fresh(enc.bit_buffer)
      ensures part == [] && done == old(done) + [old(part)]
    {
      hide Emitter.Valid, CoversChunks, AcStep, LegalEncoder, FirstFits, Zig, HeadOf, AllChunks, ScanChunks, Uses, ChunksBits;
      AllChunksSnoc(sc, done, part);
      enc := new PhuffEncoder(gather, tbl, out, counts, enc.past + enc.log);
      done, part := done + [part], [];
    }

    // finish_pass_phuff and finish_pass_gather_phuff, and the same at the end of a restart interval: flush out any
    // buffered data.
    method Flush() returns (ok: bool, ghost data: seq<byte>)
      requires Current()
      modifies enc`log, enc`EOBRUN, enc`BE, counts, enc.emitter
      ensures if ok then Counts(enc) && enc.State() == Run(ScanChunks(sc, part), 0, []) && enc.past == old(enc.past)
              else !gather && !CoversChunks(tbl, ScanChunks(sc, part))
      ensures ok && !gather ==> enc.emitter.out == HeadOf(datas) + Stuff(data) && Written(tbl, sc, part, data)
    {
      hide TopAligned, CoversChunks, AcStep, LegalEncoder, Flushed, FirstFits, Zig, ChunksBits, ByteBits, Stuff, HeadOf, ScanFits;
      ghost var s := enc.State();
      data := [];
      ok := enc.EmitEobrun();
      if !ok {
        FlushNotCovered(enc.tbl, s);
        return;
      }
      if !gather {
        enc.emitter.FlushBits();
        data := enc.emitter.data;
      }
    }
  }

  /** The encoder is intact, and in the statistics pass everything is counted. */
  ghost predicate Counts(enc: PhuffEncoder)
    reads enc, enc.counts
  {
    && LegalEncoder(enc.tbl) && enc.counts.Length == 257 && enc.bit_buffer.Length == MAX_CORR_BITS && enc.BE <= MAX_CORR_BITS
    && (enc.gather_statistics ==> forall s :: 0 <= s < 257 ==> enc.counts[s] == Uses(enc.past + enc.log, s))
  }

  lemma RunNext(sc: Scan, part: seq<Block>, b: Block)
    requires LegalScan(sc)
    ensures AcRun(sc, Zs(part + [b])) == AcStep(sc, AcRun(sc, Zs(part)), Z(b))
    ensures ScanFits(sc, part) && (sc.first ==> FirstFits(sc.band, Z(b))) ==> ScanFits(sc, part + [b])
  {
    hide AcStep, FirstFits, Zig;
    assert Zs(part + [b])[..|part|] == Zs(part);
  }

  /** Codes, or in the statistics pass counts, the blocks of an AC scan.  Fails exactly if a coefficient is out of
      range or, in the output pass, a symbol has no code. */
  method EncodeScan(se: AcScanEncoder, bs: seq<Block>) returns (ok: bool)
    requires se.Valid() && se.done == [] && se.part == [] && SixteenBit(bs)
    modifies se, se.enc, se.counts, se.enc.emitter, se.enc.bit_buffer
    ensures ok ==> se.Valid() && ScanFits(se.sc, bs) && se.done + [se.part] == Split(bs, se.interval)
    ensures ok ==> se.SameOrFresh(old(se.enc), old(se.enc.emitter), old(se.enc.bit_buffer))
    ensures !ok && ScanFits(se.sc, bs) ==> !se.gather && !AllCovered(se.tbl, se.sc, Split(bs, se.interval))
  {
    hide CoversChunks, AcStep, LegalEncoder, FirstFits, ScanChunks, AllCovered, Split, AcScanEncoder.Current, Written;
    assert [] + bs == bs && [] + Split(bs, se.interval) == Split(bs, se.interval) && bs[0..] == bs;
    var i := 0;
    while i < |bs|
      invariant 0 <= i <= |bs| && se.Valid() && se.SameOrFresh(old(se.enc), old(se.enc.emitter), old(se.enc.bit_buffer))
      invariant Split(bs, se.interval) == se.done + Split(se.part + bs[i..], se.interval)
      invariant se.sc.first ==> forall j :: 0 <= j < i ==> FirstFits(se.sc.band, Z(bs[j]))
    {
      ghost var done, part, due := se.done, se.part, se.Due();
      ScanParts(se);
      ok := se.EncodeMcu(bs[i]);
      if !ok {
        if ScanFits(se.sc, bs) { BlockUncovered(se.tbl, se.sc, bs, se.interval, done, part, due, i); }
        return;
      }
      SplitGoesOn(bs, se.interval, done, part, due, i);
      LastFits(se);
      i := i + 1;
    }
    LastSection(bs, se.interval, se.part);
    ok := true;
  }

  lemma ScanParts(se: AcScanEncoder)
    requires se.Valid()
    ensures LegalScan(se.sc) && LegalEncoder(se.tbl)
  {
  }

  lemma LastFits(se: AcScanEncoder)
    requires se.Valid() && se.part != []
    ensures se.sc.first ==> FirstFits(se.sc.band, Z(se.part[|se.part| - 1]))
  {
  }

  lemma LastSection(bs: seq<Block>, interval: nat, part: seq<Block>)
    requires interval > 0 ==> |part| <= interval
    ensures Split(part + bs[|bs|..], interval) == [part]
  {
    assert part + bs[|bs|..] == part;
  }

  lemma SplitGoesOn(bs: seq<Block>, interval: nat, done: seq<seq<Block>>, part: seq<Block>, due: bool, i: nat)
    requires i < |bs| && Split(bs, interval) == done + Split(part + bs[i..], interval) && (due ==> |part| == interval > 0)
    ensures var done', part' := if due then done + [part] else done, (if due then [] else part) + [bs[i]];
      Split(bs, interval) == done' + Split(part' + bs[i + 1..], interval)
  {
    hide Split;
    assert bs[i..] == [bs[i]] + bs[i + 1..];
    if due {
      SplitFull(part, bs[i..], interval);
      Reassociate(done, [part], Split(bs[i..], interval));
      assert [] + [bs[i]] == [bs[i]];
    } else {
      Reassociate(part, [bs[i]], bs[i + 1..]);
    }
  }

  lemma BlockUncovered(tbl: EncoderTable, sc: Scan, bs: seq<Block>, interval: nat, done: seq<seq<Block>>, part: seq<Block>, due: bool, i: nat)
    requires LegalEncoder(tbl) && LegalScan(sc) && i < |bs| && Split(bs, interval) == done + Split(part + bs[i..], interval)
    requires (due ==> |part| == interval > 0) && (interval > 0 && !due ==> |part| < interval)
    requires (due && !CoversChunks(tbl, ScanChunks(sc, part))) || !CoversChunks(tbl, AcRun(sc, Zs((if due then [] else part) + [bs[i]])).log)
    ensures !AllCovered(tbl, sc, Split(bs, interval))
  {
    hide CoversChunks, AcStep, LegalEncoder, ScanChunks, Split, LegalScan, Zs;
    var n := |done|;
    if due && !CoversChunks(tbl, ScanChunks(sc, part)) {
      SplitFull(part, bs[i..], interval);
      assert Split(bs, interval)[n] == part;
    } else {
      var p := (if due then [] else part) + [bs[i]];
      SplitGoesOn(bs, interval, done, part, due, i);
      SplitStarts(p, bs[i + 1..], interval);
      var f := Split(p + bs[i + 1..], interval)[0];
      assert Split(bs, interval)[if due then n + 1 else n] == f;
      SectionUncovered(tbl, sc, f, p);
    }
  }

  lemma SectionUncovered(tbl: EncoderTable, sc: Scan, f: seq<Block>, p: seq<Block>)
    requires LegalEncoder(tbl) && LegalScan(sc) && |p| <= |f| && f[..|p|] == p && !CoversChunks(tbl, AcRun(sc, Zs(p)).log)
    ensures !CoversChunks(tbl, ScanChunks(sc, f))
  {
    hide CoversChunks, AcStep, LegalEncoder, Zig, LegalScan;
    assert Zs(f)[..|p|] == Zs(p);
    LaterUncovered(tbl, sc, Zs(f), |p|);
  }

  /** The statistics pass counts exactly the symbols the output pass emits. */
  method GatherScan(sc: Scan, interval: nat, bs: seq<Block>, tbl: EncoderTable) returns (ok: bool, counts: array<nat>)
    requires LegalScan(sc) && LegalEncoder(tbl) && SixteenBit(bs)
    ensures fresh(counts) && (ok <==> ScanFits(sc, bs))
    ensures ok ==> counts.Length == 257 && forall s :: 0 <= s < 257 ==> counts[s] == Uses(AllChunks(sc, Split(bs, interval)), s)
  {
    hide LegalEncoder, ScanChunks, Uses, ScanFits, SixteenBit, CoversChunks, AllChunks, Split, Written;
    var se := new AcScanEncoder(sc, interval, true, tbl);
    ok := EncodeScan(se, bs);
    counts := se.counts;
    if ok {
      AllChunksSnoc(sc, se.done, se.part);
      ghost var data;
      ok, data := se.Flush();
    }
  }

  /** Writes the blocks of an AC scan; fails exactly if a coefficient is out of range or a symbol has no code. */
  method WriteScan(sc: Scan, interval: nat, bs: seq<Block>, tbl: EncoderTable) returns (ok: bool, out: seq<byte>, ghost datas: seq<seq<byte>>)
    requires LegalScan(sc) && LegalEncoder(tbl) && SixteenBit(bs)
    ensures ok <==> ScanFits(sc, bs) && AllCovered(tbl, sc, Split(bs, interval))
    ensures ok ==> out == Sections(datas, 0) && WrittenAll(tbl, sc, Split(bs, interval), datas)
  {
    hide LegalEncoder, ScanChunks, CoversChunks, ScanFits, SixteenBit, Split, Written, Stuff, Sections, HeadOf, AllCovered, AcScanEncoder.Current;
    out, datas := [], [];
    var se := new AcScanEncoder(sc, interval, false, tbl);
    ok := EncodeScan(se, bs);
    if ok {
      ghost var data;
      ok, data := se.Flush();
      if ok {
        HeadAndSegment(se.datas, data);
        out, datas := se.enc.emitter.out, se.datas + [data];
        WrittenCovered(tbl, sc, Split(bs, interval), datas);
      } else {
        PartUncovered(tbl, sc, Split(bs, interval), |se.done|);
      }
    }
  }

  // ----- Decoding

  /** What these blocks become when this segment is read into them. */
  ghost predicate SectionRead(t: Table, sc: Scan, held: seq<Block>, data: seq<byte>, result: seq<Block>) {
    && WellFormed(t) && sc.band.se < 64 && |result| == |held|
    && Zs(result) == DecodeAll(t, sc, ByteBits(data), Zs(held)).zs
  }

  ghost predicate SectionsRead(t: Table, sc: Scan, hs: seq<seq<Block>>, datas: seq<seq<byte>>, rs: seq<seq<Block>>) {
    |hs| == |rs| <= |datas| && forall i :: 0 <= i < |hs| ==> SectionRead(t, sc, hs[i], datas[i], rs[i])
  }

  class AcScanDecoder {
    const sc: Scan
    const interval: nat
    const tbl: DecoderTable
    ghost const t: Table
    ghost const datas: seq<seq<byte>>  // the segments
    ghost const marker: byte  // and what follows them
    ghost const tail: seq<byte>
    var dec: PhuffDecoder
    var restarts_to_go: nat
    var next_restart_num: nat

    ghost var hs: seq<seq<Block>>  // the restart intervals that are complete: before the scan
    ghost var rs: seq<seq<Block>>  // and after it
    ghost var hpart: seq<Block>  // the blocks of the current one
    ghost var rpart: seq<Block>
    ghost var left: Bits

    ghost predicate Current()
      reads `dec, `hpart, `rpart, `left, `rs, dec, dec.reader
    {
      && LegalScan(sc) && sc.band.se < 64 && Matches(tbl, t) && WellFormed(t) && 0 < marker < 0xFF && |rs| < |datas|
      && dec.Valid() && dec.t == t && dec.tbl == tbl && At(dec.reader, left) && dec.reader.future == []
      && dec.reader.Ahead() == MarkAfter(datas[|rs|..], |rs|, marker, tail)
      && DecodeAll(t, sc, ByteBits(datas[|rs|]), Zs(hpart)) == RefinedAll(Zs(rpart), dec.EOBRUN, left)
    }

    ghost predicate Counted()
      reads `hpart, `rpart, `rs, `restarts_to_go, `next_restart_num
    {
      && |rpart| == |hpart| && (interval == 0 ==> rs == [])
      && (interval > 0 ==> restarts_to_go + |hpart| == interval && Numbered(next_restart_num, |rs|))
    }

    ghost predicate Valid()
      reads this, dec, dec.reader
    {
      Current() && Counted() && SectionsRead(t, sc, hs, datas, rs)
    }

    constructor (sc: Scan, interval: nat, tbl: DecoderTable, input: seq<byte>, ghost t: Table, ghost datas: seq<seq<byte>>,
                 ghost marker: byte, ghost tail: seq<byte>)
      requires LegalScan(sc) && Matches(tbl, t) && WellFormed(t) && datas != [] && 0 < marker < 0xFF
      requires input == Sections(datas, 0) + [0xFF, marker] + tail
      ensures Valid() && fresh(dec) && fresh(dec.reader) && hs == rs == [] && hpart == rpart == []
      ensures this.sc == sc && this.interval == interval && this.datas == datas && this.t == t
    {
      hide Matches, WellFormed, DecodeBand, Reader.Valid, Reader.Ahead, Reader.Available, Seen, NextMark, Payload, ByteBits, Sections, MarkAfter;
      ScanInRange(sc);
      FirstNumber();
      ReadSections(datas, 0, marker, tail);
      assert datas[0..] == datas;
      this.sc, this.interval, this.tbl, this.t, this.datas, this.marker, this.tail := sc, interval, tbl, t, datas, marker, tail;
      dec := new PhuffDecoder(input, [], tbl, t);
      restarts_to_go, next_restart_num := interval, 0;
      hs, rs, hpart, rpart, left := [], [], [], [], ByteBits(datas[0]);
    }

    predicate Due()
      reads `restarts_to_go
    {
      interval > 0 && restarts_to_go == 0
    }

    // decode_mcu_AC_first, decode_mcu_AC_refine: with the restart marker before the block, if one is due.
    method DecodeMcu(b0: Block) returns (b: Block)
      requires Valid() && (Due() ==> |rs| + 1 < |datas|)
      modifies this, dec, dec.reader
      ensures Valid() && ((dec == old(dec) && dec.reader == old(dec.reader)) || (fresh(dec) && fresh(dec.reader)))
      ensures hs == (if old(Due()) then old(hs) + [old(hpart)] else old(hs)) && hpart == (if old(Due()) then [] else old(hpart)) + [b0]
      ensures rs == (if old(Due()) then old(rs) + [old(rpart)] else old(rs)) && rpart == (if old(Due()) then [] else old(rpart)) + [b]
    {
      hide Current, SectionRead;
      // Process restart marker if needed
      if interval > 0 {
        if restarts_to_go == 0 {
          var ok := ProcessRestart();
        }
      }
      b := DecodeNext(b0);
      // Account for restart interval
      if interval > 0 {
        restarts_to_go := restarts_to_go - 1;
      }
    }

    method DecodeNext(b0: Block) returns (b: Block)
      requires Current()
      modifies `hpart, `rpart, `left, dec, dec.reader
      ensures Current() && hpart == old(hpart) + [b0] && rpart == old(rpart) + [b]
    {
      hide Matches, WellFormed, DecodeBand, DecodeAll, Reader.Valid, Reader.Ahead, Reader.Available, Seen, NextMark, ByteBits, LegalScan, Zig, MarkAfter;
      ghost var d := DecodeBand(t, sc, left, dec.EOBRUN, Z(b0));
      DecodeSnoc(t, sc, ByteBits(datas[|rs|]), Zs(hpart), Z(b0));
      ZsSnoc(hpart, b0);
      b := ReadBlock(dec, sc, b0, left);
      ZsSnoc(rpart, b);
      left, hpart, rpart := d.rest, hpart + [b0], rpart + [b];
    }

    // process_restart
    method ProcessRestart() returns (ok: bool)
      requires Current() && Counted() && interval > 0 && SectionsRead(t, sc, hs, datas, rs) && |rs| + 1 < |datas|
      modifies this, dec.reader
      ensures ok && Current() && Counted() && SectionsRead(t, sc, hs, datas, rs) && fresh(dec) && fresh(dec.reader)
      ensures hs == old(hs) + [old(hpart)] && rs == old(rs) + [old(rpart)] && hpart == rpart == [] && restarts_to_go == interval
    {
      hide Matches, WellFormed, DecodeBand, Reader.Valid, Reader.Available, Seen, NextMark, Payload, ByteBits, LegalScan, Zig, MarkAfter, Sections;
      ghost var k := |rs|;
      NextNumber(next_restart_num, k);
      NextMarkIs(datas, k, marker, tail);
      ReadSections(datas[k + 1..], k + 1, marker, tail);
      dec.reader.Arrived();
      // Throw away any unused bits remaining in bit buffer
      dec.reader.bits_left := 0;
      var rest;
      ok, rest := ReadRestartMarker(dec.reader.unread, dec.reader.unread_marker, next_restart_num);
      StartInterval(rest);
    }

    method StartInterval(rest: seq<byte>)
      requires LegalScan(sc) && sc.band.se < 64 && Matches(tbl, t) && WellFormed(t) && 0 < marker < 0xFF && |rs| + 1 < |datas|
      requires Payload(rest, 0) == datas[|rs| + 1] && NextMark(rest, 0) == MarkAfter(datas[|rs| + 1..], |rs| + 1, marker, tail)
      requires Numbered(next_restart_num, |rs|) && interval > 0
      modifies this
      ensures Current() && Counted() && fresh(dec) && fresh(dec.reader)
      ensures hs == old(hs) + [old(hpart)] && rs == old(rs) + [old(rpart)] && hpart == rpart == [] && restarts_to_go == interval
    {
      hide Matches, WellFormed, Reader.Valid, Reader.Available, Seen, NextMark, Payload, ByteBits, LegalScan, MarkAfter, Numbered, At, Reader.Ahead;
      NextNumber(next_restart_num, |rs|);
      next_restart_num := (next_restart_num + 1) % 8;
      // Re-init EOB run count, and reset restart counter
      dec := new PhuffDecoder(rest, [], tbl, t);
      restarts_to_go := interval;
      hs, rs, hpart, rpart, left := hs + [hpart], rs + [rpart], [], [], ByteBits(datas[|rs| + 1]);
    }
  }

  lemma ZsSnoc(bs: seq<Block>, b: Block)
    ensures Zs(bs + [b]) == Zs(bs) + [Z(b)]
  {
  }

  lemma NextMarkIs(datas: seq<seq<byte>>, k: nat, marker: byte, tail: seq<byte>)
    requires k + 1 < |datas|
    ensures MarkAfter(datas[k..], k, marker, tail) == Mark(RestartCode(k), Sections(datas[k + 1..], k + 1) + [0xFF, marker] + tail)
    ensures datas[k + 1..] != [] && datas[k + 1..][0] == datas[k + 1]
  {
    assert datas[k..][1..] == datas[k + 1..];
  }

  /** Reads an AC scan into the blocks. */
  method ReadScan(sc: Scan, interval: nat, held: seq<Block>, input: seq<byte>, tbl: DecoderTable, ghost t: Table,
                  ghost datas: seq<seq<byte>>, ghost marker: byte, ghost tail: seq<byte>)
    returns (result: seq<Block>, ghost rs: seq<seq<Block>>)
    requires LegalScan(sc) && Matches(tbl, t) && WellFormed(t) && 0 < marker < 0xFF
    requires input == Sections(datas, 0) + [0xFF, marker] + tail && |datas| == |Split(held, interval)|
    ensures result == Flat(rs) && |rs| == |datas| && SectionsRead(t, sc, Split(held, interval), datas, rs)
  {
    hide Matches, WellFormed, LegalScan, Sections, Split, Flat, AcScanDecoder.Current, SectionRead;
    var sd := new AcScanDecoder(sc, interval, tbl, input, t, datas, marker, tail);
    result := [];
    assert [] + held == held && [] + Split(held, interval) == Split(held, interval) && held[0..] == held;
    NothingFlat();
    var i := 0;
    while i < |held|
      invariant 0 <= i <= |held| && sd.Valid() && fresh(sd) && fresh(sd.dec) && fresh(sd.dec.reader)
      invariant sd.sc == sc && sd.interval == interval && sd.datas == datas && sd.t == t && result == Flat(sd.rs) + sd.rpart
      invariant Split(held, interval) == sd.hs + Split(sd.hpart + held[i..], interval)
    {
      ghost var hs, hpart, due := sd.hs, sd.hpart, sd.Due();
      FlatSnoc(sd.rs, sd.rpart);
      Reassociate(Flat(sd.rs), sd.rpart, []);
      SplitGoesOn(held, interval, hs, hpart, due, i);
      SplitLonger(held, interval, hs, hpart, due, i);
      ghost var rpart := sd.rpart;
      var b := sd.DecodeMcu(held[i]);
      Reassociate(Flat(sd.rs), if due then [] else rpart, [b]);
      result := result + [b];
      i := i + 1;
    }
    LastSection(held, interval, sd.hpart);
    FlatSnoc(sd.rs, sd.rpart);
    rs := sd.rs + [sd.rpart];
    LastRead(sd);
  }

  lemma NothingFlat()
    ensures Flat<Block>([]) == []
  {
  }

  lemma SplitLonger(bs: seq<Block>, interval: nat, done: seq<seq<Block>>, part: seq<Block>, due: bool, i: nat)
    requires i < |bs| && Split(bs, interval) == done + Split(part + bs[i..], interval) && (due ==> |part| == interval > 0)
    ensures due ==> |done| + 1 < |Split(bs, interval)|
  {
    if due {
      hide Split;
      SplitFull(part, bs[i..], interval);
    }
  }

  lemma LastRead(sd: AcScanDecoder)
    requires sd.Valid()
    ensures SectionsRead(sd.t, sd.sc, sd.hs + [sd.hpart], sd.datas, sd.rs + [sd.rpart])
  {
    hide DecodeAll, ByteBits, Matches, WellFormed, Zs;
  }

  // ----- Both

  lemma SectionDelivered(e: EncoderTable, t: Table, sc: Scan, bs: seq<Block>, held: seq<Block>, data: seq<byte>, result: seq<Block>)
    requires Paired(e, t) && WellFormed(t) && ReadyFor(sc, bs, held) && ScanFits(sc, bs)
    requires Written(e, sc, bs, data) && SectionRead(t, sc, held, data, result)
    ensures Delivered(sc.band, bs, held, result)
  {
    hide Paired, WellFormed, CoversChunks, ChunksBits, ScanChunks, DecodeAll, ReadyFor, ScanFits, Delivered, ByteBits, LegalEncoder;
    var pad: Bits :| ByteBits(data) == ChunksBits(e, ScanChunks(sc, bs)) + pad;
    ScanDecodes(e, t, sc, bs, held, pad, result);
  }

  lemma {:induction false} AllDelivered(e: EncoderTable, t: Table, sc: Scan, bs: seq<Block>, held: seq<Block>, interval: nat,
                                        datas: seq<seq<byte>>, rs: seq<seq<Block>>)
    requires Paired(e, t) && WellFormed(t) && LegalScan(sc) && ReadyFor(sc, bs, held) && ScanFits(sc, bs)
    requires WrittenAll(e, sc, Split(bs, interval), datas) && SectionsRead(t, sc, Split(held, interval), datas, rs) && |rs| == |datas|
    ensures Delivered(sc.band, bs, held, Flat(rs))
    decreases |bs|
  {
    hide Paired, WellFormed, Written, SectionRead, Mix, Blank, Coarse, FirstFits, Zig;
    if Goes(bs, interval) {
      var b, h := bs[..interval], held[..interval];
      SectionDelivered(e, t, sc, b, h, datas[0], rs[0]);
      AllDelivered(e, t, sc, bs[interval..], held[interval..], interval, datas[1..], rs[1..]);
      DeliveredBoth(sc.band, bs, held, interval, rs[0], Flat(rs[1..]));
    } else {
      SectionDelivered(e, t, sc, bs, held, datas[0], rs[0]);
      assert rs == [rs[0]] && rs[1..] == [] && rs[0] + [] == rs[0];
      NothingFlat();
    }
  }

  lemma DeliveredBoth(band: Band, bs: seq<Block>, held: seq<Block>, n: nat, a: seq<Block>, b: seq<Block>)
    requires |bs| == |held| > n && LegalBand(band) && Delivered(band, bs[..n], held[..n], a) && Delivered(band, bs[n..], held[n..], b)
    ensures Delivered(band, bs, held, a + b)
  {
    hide Mix, Zig;
    forall i | 0 <= i < |bs|
      ensures Z((a + b)[i]) == Mix(band, Z(bs[i]), Z(held[i]), band.se + 1)
    {
      if i >= n { assert bs[i] == bs[n..][i - n] && held[i] == held[n..][i - n]; }
    }
  }

  lemma {:induction false} SplitSizes(a: seq<Block>, b: seq<Block>, interval: nat)
    requires |a| == |b|
    ensures |Split(a, interval)| == |Split(b, interval)|
    decreases |a|
  {
    if Goes(a, interval) { SplitSizes(a[interval..], b[interval..], interval); }
  }

  /** The table has a code for every symbol of the scan. */
  predicate ListsAll(t: Table, sc: Scan, parts: seq<seq<Block>>)
    requires WellFormed(t) && LegalScan(sc)
  {
    forall i :: 0 <= i < |parts| ==> ListsChunks(t, ScanChunks(sc, parts[i]))
  }

  lemma AllListed(e: EncoderTable, t: Table, sc: Scan, parts: seq<seq<Block>>)
    requires Paired(e, t) && WellFormed(t) && LegalEncoder(e) && LegalScan(sc)
    ensures AllCovered(e, sc, parts) <==> ListsAll(t, sc, parts)
  {
    hide Paired, LegalEncoder, CoversChunks, ListsChunks, ScanChunks, WellFormed;
    forall i | 0 <= i < |parts|
      ensures CoversChunks(e, ScanChunks(sc, parts[i])) <==> ListsChunks(t, ScanChunks(sc, parts[i]))
    {
      ListedIsCovered(e, t, ScanChunks(sc, parts[i]));
    }
  }

  /** An AC scan of any sequence of blocks, with EOB runs across blocks, in restart intervals of any length or
      without restarts.  A first scan gives the decoder the coefficients of the band at precision al; if the decoder
      holds them at precision al + 1, a refinement scan does. */
  method TranscodeAcScan(sc: Scan, interval: nat, bs: seq<Block>, held: seq<Block>, t: Table, marker: byte, tail: seq<byte>)
    returns (ok: bool, result: seq<Block>)
    requires LegalScan(sc) && SixteenBit(bs) && ReadyFor(sc, bs, held) && WellFormed(t) && 0 < marker < 0xFF
    ensures ok <==> LegalAc(t) && ScanFits(sc, bs) && ListsAll(t, sc, Split(bs, interval))
    ensures ok ==> Delivered(sc.band, bs, held, result)
  {
    hide Paired, LegalEncoder, AllCovered, ListsAll, LegalAc, Delivered, Matches, LegalScan, WellFormed, ScanFits, SixteenBit, Sections,
         Split, Flat, Written, SectionRead;
    result := held;
    var e, d;
    ok, e, d := BuildTable(t, false);
    if !ok {
      return;
    }
    PairedParts(e, t);
    AllListed(e, t, sc, Split(bs, interval));
    SplitSizes(bs, held, interval);
    var out;
    ghost var datas, rs;
    ok, out, datas := WriteScan(sc, interval, bs, e);
    if !ok {
      return;
    }
    result, rs := ReadScan(sc, interval, held, out + [0xFF, marker] + tail, d, t, datas, marker, tail);
    AllDelivered(e, t, sc, bs, held, interval, datas, rs);
  }
}
