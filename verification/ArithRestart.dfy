/** Whole arithmetic scans (sequential mode), with restart markers. */
module ArithRestart {
  import opened Bytes
  import opened Segments
  import opened Restarts
  import opened ArithTable
  import opened ArithCode
  import opened ArithEncoder
  import opened ArithDecoder
  import opened ArithMcu
  import opened ArithMcuEncoder
  import opened ArithMcuDecoder
  import opened ArithScan
  import opened ZigZag

  // ----- Restart intervals

  type Mcus = seq<seq<Block>>

  /** The predictions after some MCUs. */
  function DcAfterAll(scan: Scan, dc: DcState, mcus: Mcus): (r: DcState)
    requires ValidScan(scan) && ValidDc(scan, dc) && LegalMcus(|scan.membership|, mcus)
    ensures ValidDc(scan, r)
    decreases |mcus|
  {
    if mcus == [] then dc else DcAfterAll(scan, DcAfter(scan, dc, scan.membership, mcus[0]), mcus[1..])
  }

  lemma {:induction false} ScanCodeSnoc(scan: Scan, dc: DcState, p: Mcus, m: seq<Block>)
    requires ValidScan(scan) && ValidDc(scan, dc) && LegalMcus(|scan.membership|, p) && LegalMcu(|scan.membership|, m)
    ensures LegalMcus(|scan.membership|, p + [m])
    ensures ScanCode(scan, dc, p + [m]) == ScanCode(scan, dc, p) + BlocksCode(scan, DcAfterAll(scan, dc, p), scan.membership, m)
    ensures DcAfterAll(scan, dc, p + [m]) == DcAfter(scan, DcAfterAll(scan, dc, p), scan.membership, m)
    decreases |p|
  {
    hide IsOrder, ValidDc, BlocksCode, DcAfter, LegalBlock;
    if p == [] {
      OneMcu(scan, dc, m);
    } else {
      var next := DcAfter(scan, dc, scan.membership, p[0]);
      ScanCodeSnoc(scan, next, p[1..], m);
      assert (p + [m])[1..] == p[1..] + [m];
      Reassociate(BlocksCode(scan, dc, scan.membership, p[0]), ScanCode(scan, next, p[1..]),
                  BlocksCode(scan, DcAfterAll(scan, dc, p), scan.membership, m));
    }
  }

  lemma OneMcu(scan: Scan, dc: DcState, m: seq<Block>)
    requires ValidScan(scan) && ValidDc(scan, dc) && LegalMcu(|scan.membership|, m)
    ensures [] + [m] == [m] && LegalMcus(|scan.membership|, [m])
    ensures ScanCode(scan, dc, [m]) == ScanCode(scan, dc, []) + BlocksCode(scan, dc, scan.membership, m)
    ensures DcAfterAll(scan, dc, [m]) == DcAfter(scan, dc, scan.membership, m) && DcAfterAll(scan, dc, []) == dc
  {
    hide ValidScan, ValidDc, BlocksCode, DcAfter, LegalMcu;
    assert [m][1..] == [];
  }

  lemma NoMcus(scan: Scan)
    requires ValidScan(scan)
    ensures ScanCode(scan, StartDc(scan), []) == [] && DcAfterAll(scan, StartDc(scan), []) == StartDc(scan)
  {
  }

  /** This segment codes these MCUs, from a fresh start. */
  ghost predicate Coded(scan: Scan, part: Mcus, data: seq<byte>) {
    && ValidScan(scan) && LegalMcus(|scan.membership|, part)
    && var code := ScanCode(scan, StartDc(scan), part);
       Legal(StartStats(scan), code) && Contains(Run(Coder(START, StartStats(scan)), code).iv, 65536.0 * Fraction(data))
  }

  ghost predicate CodedAll(scan: Scan, parts: seq<Mcus>, datas: seq<seq<byte>>) {
    |parts| == |datas| && forall i :: 0 <= i < |parts| ==> Coded(scan, parts[i], datas[i])
  }

  // ----- Encoding

  class ArithScanEncoder {
    const scan: Scan
    const interval: nat
    const e: Encoder
    var me: McuEncoder
    var restarts_to_go: nat
    var next_restart_num: nat

    ghost var done: seq<Mcus>  // the restart intervals that are complete
    ghost var datas: seq<seq<byte>>  // and their data
    ghost var part: Mcus  // the MCUs of the current one

    /** The current interval holds some MCUs. */
    ghost predicate Current()
      reads `me, `part, `datas, me, e
    {
      && ValidScan(scan) && me.arith == e && me.scan == scan && me.Valid() && me.head == HeadOf(datas)
      && me.start == Coder(START, StartStats(scan)) && LegalMcus(|scan.membership|, part)
      && me.log == ScanCode(scan, StartDc(scan), part) && me.Dc() == DcAfterAll(scan, StartDc(scan), part)
    }

    ghost predicate Counted()
      reads this
    {
      && |done| == |datas| && (done != [] ==> part != []) && (interval == 0 ==> done == [])
      && (interval > 0 ==> restarts_to_go + |part| == interval && Numbered(next_restart_num, |done|))
      && forall i :: 0 <= i < |done| ==> |done[i]| == interval && done[i] != []
    }

    ghost predicate Valid()
      reads this, me, e
    {
      Current() && Counted() && CodedAll(scan, done, datas)
    }

    constructor (scan: Scan, interval: nat)
      requires ValidScan(scan)
      ensures Valid() && fresh(e) && fresh(me) && this.scan == scan && this.interval == interval && Flat(done) + part == []
    {
      var encoder := new Encoder(StartStats(scan));
      StateStats(encoder);
      ScanBinsAllocated(scan);
      NoMcus(scan);
      this.scan, this.interval, e := scan, interval, encoder;
      me := new McuEncoder(encoder, scan);
      restarts_to_go, next_restart_num := interval, 0;
      done, datas, part := [], [], [];
    }

    // emit_restart: emit a restart marker & resynchronize predictions.
    method EmitRestart(restart_num: nat)
      requires Current() && Numbered(restart_num, |datas|)
      modifies this`me, this`datas, this`part, e
      ensures Current() && fresh(me) && part == []
      ensures |datas| == |old(datas)| + 1 && datas[..|old(datas)|] == old(datas)
      ensures Coded(scan, old(part), datas[|old(datas)|])
    {
      hide Encoder.Valid, Stuff, Fraction, Run, ScanCode, Contains, Legal, HeadOf, StartStats, McuEncoder.Valid, DcAfterAll;
      FinishScan(me);
      ghost var data := e.emitted;
      e.EmitByte(0xFF);
      e.EmitByte(0xD0 + restart_num);
      NextNumber(restart_num, |datas|);
      NextHead(datas, data);
      datas := datas + [data];
      StartInterval();
    }

    // Reset arithmetic encoding variables, statistics areas and predictions.
    method StartInterval()
      requires ValidScan(scan) && e.out == HeadOf(datas)
      modifies this`me, this`part, e
      ensures Current() && fresh(me) && part == []
    {
      hide Encoder.Valid, HeadOf, StartStats, DcAfterAll, ScanCode;
      e.Restart(StartStats(scan));
      StateStats(e);
      ScanBinsAllocated(scan);
      NoMcus(scan);
      me := new McuEncoder(e, scan);
      part := [];
    }

    // encode_mcu
    method EncodeMcu(mcu: seq<Block>)
      requires Valid() && LegalMcu(|scan.membership|, mcu)
      modifies this, me, e
      ensures Valid() && (me == old(me) || fresh(me))
      ensures Flat(done) + part == old(Flat(done) + part) + [mcu] && part != []
    {
      hide Current, Flat, Coded;
      // Emit restart marker if needed
      if interval > 0 {
        if restarts_to_go == 0 {
          NextNumber(next_restart_num, |done|);
          FlatSnoc(done, part);
          EmitRestart(next_restart_num);
          done := done + [old(part)];
          restarts_to_go := interval;
          next_restart_num := (next_restart_num + 1) % 8;
        }
        restarts_to_go := restarts_to_go - 1;
      }
      CodeMcu(mcu);
    }

    method CodeMcu(mcu: seq<Block>)
      requires Current() && LegalMcu(|scan.membership|, mcu)
      modifies this`part, me, e
      ensures Current() && part == old(part) + [mcu]
    {
      hide McuEncoder.Valid, ScanCode, BlocksCode, DcAfter, DcAfterAll, HeadOf, StartStats;
      ScanCodeSnoc(scan, StartDc(scan), part, mcu);
      ghost var code := me.log;
      me.EncodeMcu(mcu);
      part := part + [mcu];
    }

    // finish_pass
    method Finish() returns (ghost parts: seq<Mcus>, ghost all: seq<seq<byte>>)
      requires Valid()
      modifies e
      ensures CodedAll(scan, parts, all) && Flat(parts) == Flat(done) + part && Chunked(parts, interval)
      ensures e.out == Sections(all, 0)
    {
      hide McuEncoder.Valid, ScanCode, Flat, Fraction, Run, Legal, Contains, HeadOf, Stuff, Sections, StartStats;
      FlatSnoc(done, part);
      FinishScan(me);
      HeadAndSegment(datas, e.emitted);
      parts, all := done + [part], datas + [e.emitted];
    }
  }

  // ----- Decoding

  /** The decoder of a scan; what it does is specified for the segments of an encoder. */
  class ArithScanDecoder {
    const scan: Scan
    const interval: nat
    var md: McuDecoder
    var restarts_to_go: nat
    var next_restart_num: nat

    ghost const marker: byte  // what follows the last segment
    ghost const tail: seq<byte>
    ghost var dc: DcState
    ghost var todo: Mcus  // the MCUs left in this restart interval
    ghost var parts: seq<Mcus>  // the intervals after it
    ghost var datas: seq<seq<byte>>  // and their data
    ghost var k: nat  // the number of this interval

    ghost predicate Counted()
      reads this
    {
      && |parts| == |datas| && (interval == 0 ==> parts == [])
      && (parts != [] ==> Chunked(parts, interval) && forall i :: 0 <= i < |parts| ==> parts[i] != [])
      && (interval > 0 ==> Numbered(next_restart_num, k) && |todo| <= restarts_to_go && (parts != [] ==> restarts_to_go == |todo|))
    }

    ghost predicate Valid()
      reads this, md, md.arith
    {
      && 0 < marker < 0xFF && Stands(md, scan, dc, todo) && Counted() && CodedAll(scan, parts, datas)
      && md.arith.ending == MarkAfter([[]] + datas, k, marker, tail)
    }

    ghost function Left(): Mcus
      reads this
    {
      todo + Flat(parts)
    }

    constructor (scan: Scan, interval: nat, source: seq<byte>, ghost parts: seq<Mcus>, ghost datas: seq<seq<byte>>,
                 ghost marker: byte, ghost tail: seq<byte>)
      requires ValidScan(scan) && Chunked(parts, interval) && CodedAll(scan, parts, datas) && 0 < marker < 0xFF
      requires source == Sections(datas, 0) + [0xFF, marker] + tail
      ensures Valid() && fresh(md) && fresh(md.arith) && Left() == Flat(parts)
    {
      hide *;
      FirstPart(scan, interval, parts, datas);
      ReadSections(datas, 0, marker, tail);
      var decoder := StartDecoder(scan, source, parts[0], datas[0]);
      this.scan, this.interval, this.marker, this.tail := scan, interval, marker, tail;
      md := decoder;
      restarts_to_go, next_restart_num := interval, 0;
      dc, todo, this.parts, this.datas, k := StartDc(scan), parts[0], parts[1..], datas[1..], 0;
      new;
      FirstNumber();
      Begins(parts, datas);
    }

    // process_restart: advance past the restart marker & resynchronize decoder.
    method ProcessRestart() returns (ok: bool)
      requires Valid() && todo == [] && parts != [] && interval > 0
      modifies this
      ensures ok && Valid() && Left() == old(Left()) && todo != [] && restarts_to_go == interval
      ensures fresh(md) && fresh(md.arith)
    {
      hide Stands, Coded, MarkAfter, Payload, NextMark, RestartCode;
      NextNumber(next_restart_num, k);
      FirstPart(scan, interval, parts, datas);
      MarkBefore(datas, k, marker, tail);
      ReadSections(datas, k + 1, marker, tail);
      StandsValid(md, scan, dc, todo);
      var rest;
      ok, rest := ReadRestartMarker(md.arith.unread, md.arith.marker, next_restart_num);
      assert Left() == Flat(parts);
      StartInterval(rest, parts, datas);
    }

    method StartInterval(rest: seq<byte>, ghost all: seq<Mcus>, ghost allDatas: seq<seq<byte>>)
      requires 0 < marker < 0xFF && Chunked(all, interval) && CodedAll(scan, all, allDatas) && all != [] && all[0] != []
      requires allDatas != [] && Payload(rest, 0) == allDatas[0] && NextMark(rest, 0) == MarkAfter(allDatas, k + 1, marker, tail)
      requires Numbered(next_restart_num, k) && interval > 0
      modifies this
      ensures Valid() && Left() == Flat(all) && todo != [] && restarts_to_go == interval
      ensures fresh(md) && fresh(md.arith)
    {
      hide *;
      NextNumber(next_restart_num, k);
      FirstPart(scan, interval, all, allDatas);
      next_restart_num := (next_restart_num + 1) % 8;
      restarts_to_go := interval;  // Reset restart counter
      dc, todo, parts, datas, k := StartDc(scan), all[0], all[1..], allDatas[1..], k + 1;
      md := StartDecoder(scan, rest, todo, allDatas[0]);
      Begins(all, allDatas);
    }

    // decode_mcu
    method DecodeMcu() returns (mcu: seq<Block>)
      requires Valid() && Left() != []
      modifies this, md, md.arith
      ensures Valid() && old(Left()) == [mcu] + Left()
      ensures (md == old(md) && md.arith == old(md.arith)) || (fresh(md) && fresh(md.arith))
    {
      hide Stands, CodedAll, MarkAfter, Chunked;
      // Process restart marker if needed
      if interval > 0 {
        if restarts_to_go == 0 {
          var ok := ProcessRestart();
        }
        restarts_to_go := restarts_to_go - 1;
      }
      mcu := DecodeNext();
    }

    method DecodeNext() returns (mcu: seq<Block>)
      requires Stands(md, scan, dc, todo) && todo != []
      modifies `todo, `dc, md, md.arith
      ensures Stands(md, scan, dc, todo) && old(todo) == [mcu] + todo
    {
      hide McuDecoder.Valid, BlocksCode, DcAfter, IsOrder;
      ghost var next := DcAfter(scan, dc, scan.membership, todo[0]);
      mcu := DecodeOneMcu(md, dc, todo[0], ScanCode(scan, next, todo[1..]));
      dc, todo := next, todo[1..];
    }

    /** At the start of an interval. */
    lemma Begins(all: seq<Mcus>, allDatas: seq<seq<byte>>)
      requires 0 < marker < 0xFF && Stands(md, scan, dc, todo) && Chunked(all, interval) && CodedAll(scan, all, allDatas)
      requires todo == all[0] && parts == all[1..] && datas == allDatas[1..]
      requires restarts_to_go == interval && Numbered(next_restart_num, k)
      requires md.arith.ending == MarkAfter(allDatas, k, marker, tail)
      ensures Valid() && Left() == Flat(all)
    {
      hide Stands, Coded;
      assert ([[]] + datas)[1..] == datas;
    }
  }

  lemma MarkBefore(datas: seq<seq<byte>>, k: nat, marker: byte, tail: seq<byte>)
    requires datas != []
    ensures MarkAfter([[]] + datas, k, marker, tail) == Mark(RestartCode(k), Sections(datas, k + 1) + [0xFF, marker] + tail)
  {
    assert ([[]] + datas)[1..] == datas;
  }

  lemma StandsValid(md: McuDecoder, scan: Scan, dc: DcState, todo: Mcus)
    requires Stands(md, scan, dc, todo)
    ensures NextMark(md.arith.unread, md.arith.marker) == md.arith.ending && ValidScan(scan)
  {
  }

  /** The MCU decoder is about to decode these MCUs. */
  ghost predicate Stands(md: McuDecoder, scan: Scan, dc: DcState, todo: Mcus)
    reads md, md.arith
  {
    && ValidScan(scan) && md.scan == scan && md.Valid() && md.complete && !md.error && ValidDc(scan, dc) && md.SameDc(dc)
    && LegalMcus(|scan.membership|, todo) && md.live && md.script == ScanCode(scan, dc, todo)
  }

  lemma FirstPart(scan: Scan, interval: nat, parts: seq<Mcus>, datas: seq<seq<byte>>)
    requires Chunked(parts, interval) && CodedAll(scan, parts, datas)
    ensures parts != [] && datas != [] && |parts| == |datas| && Coded(scan, parts[0], datas[0])
  {
  }

  // Start a segment: new registers, statistics areas and predictions.
  method StartDecoder(scan: Scan, source: seq<byte>, ghost part: Mcus, ghost data: seq<byte>) returns (md: McuDecoder)
    requires Coded(scan, part, data) && Payload(source, 0) == data && NextMark(source, 0).Mark?
    ensures fresh(md) && fresh(md.arith) && Stands(md, scan, StartDc(scan), part) && md.arith.ending == NextMark(source, 0)
  {
    hide Payload, NextMark, Fraction, Run, Legal, Contains, ScanCode, StartStats, Follows, Decoder.Valid, Decoder.Exact;
    SegmentFollows(StartStats(scan), ScanCode(scan, StartDc(scan), part), data);
    ScanBinsAllocated(scan);
    var d := new Decoder(source, StartStats(scan));
    md := new McuDecoder(d, scan, ScanCode(scan, StartDc(scan), part));
  }

  // ----- Both

  /** Arithmetic coding of any sequence of MCUs with legal coefficients, in restart intervals of any length or
      without restarts, is undone by the decoder. */
  method TranscodeScan(scan: Scan, interval: nat, mcus: Mcus, marker: byte, tail: seq<byte>) returns (decoded: Mcus)
    requires ValidScan(scan) && LegalMcus(|scan.membership|, mcus) && 0 < marker < 0xFF
    ensures decoded == mcus
  {
    var out;
    ghost var parts, datas;
    out, parts, datas := EncodeScan(scan, interval, mcus);
    decoded := DecodeScan(scan, interval, out + [0xFF, marker] + tail, |mcus|, mcus, parts, datas, marker, tail);
  }

  method EncodeScan(scan: Scan, interval: nat, mcus: Mcus) returns (out: seq<byte>, ghost parts: seq<Mcus>, ghost datas: seq<seq<byte>>)
    requires ValidScan(scan) && LegalMcus(|scan.membership|, mcus)
    ensures Flat(parts) == mcus && Chunked(parts, interval) && CodedAll(scan, parts, datas) && out == Sections(datas, 0)
  {
    hide Flat, Chunked, CodedAll, Sections, ValidScan, ArithScanEncoder.Valid;
    var se := new ArithScanEncoder(scan, interval);
    var i := 0;
    while i < |mcus|
      invariant 0 <= i <= |mcus| && se.Valid() && fresh(se) && fresh(se.me) && fresh(se.e)
      invariant se.scan == scan && se.interval == interval && Flat(se.done) + se.part == mcus[..i]
    {
      se.EncodeMcu(mcus[i]);
      assert mcus[..i + 1] == mcus[..i] + [mcus[i]];
      i := i + 1;
    }
    assert mcus[..i] == mcus;
    parts, datas := se.Finish();
    out := se.e.out;
  }

  method DecodeScan(scan: Scan, interval: nat, source: seq<byte>, count: nat, ghost mcus: Mcus, ghost parts: seq<Mcus>,
                    ghost datas: seq<seq<byte>>, ghost marker: byte, ghost tail: seq<byte>) returns (decoded: Mcus)
    requires ValidScan(scan) && Chunked(parts, interval) && CodedAll(scan, parts, datas) && 0 < marker < 0xFF
    requires source == Sections(datas, 0) + [0xFF, marker] + tail && Flat(parts) == mcus && count == |mcus|
    ensures decoded == mcus
  {
    hide Flat, Chunked, CodedAll, Sections, ValidScan, ArithScanDecoder.Valid, ArithScanDecoder.Left;
    var sd := new ArithScanDecoder(scan, interval, source, parts, datas, marker, tail);
    decoded := [];
    var i := 0;
    while i < count
      invariant 0 <= i == |decoded| <= count && sd.Valid() && fresh(sd) && fresh(sd.md) && fresh(sd.md.arith)
      invariant decoded + sd.Left() == mcus
    {
      var mcu := sd.DecodeMcu();
      Reassociate(decoded, [mcu], sd.Left());
      decoded := decoded + [mcu];
      i := i + 1;
    }
  }
}
