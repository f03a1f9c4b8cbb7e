/** Arithmetic coding of whole scans: what the encoder writes, the decoder reads back. */
module ArithScan {
  import opened Bytes
  import opened Segments
  import opened ArithTable
  import opened ArithCode
  import opened ArithEncoder
  import opened ArithDecoder
  import opened ArithMcu
  import opened ArithMcuEncoder
  import opened ArithMcuDecoder
  import opened ZigZag

  /** The data of an entropy-coded segment make a decoder follow the encoder. */
  lemma SegmentFollows(stats: Stats, ds: seq<Decision>, data: seq<byte>)
    requires Legal(stats, ds) && Contains(Run(Coder(START, stats), ds).iv, 65536.0 * Fraction(data))
    ensures Follows(Window(65536.0 * Fraction(data), 0x10000), stats, ds)
  {
    hide Run, Fraction, Legal, Contains, Follows, Lookup;
    StartTracks(65536.0 * Fraction(data));
    FollowsRun(Coder(START, stats), ds, 65536.0 * Fraction(data), Window(65536.0 * Fraction(data), 0x10000));
  }

  /** Encodes a sequence of decisions into one segment. */
  method EncodeDecisions(stats: Stats, ds: seq<Decision>)
    returns (out: seq<byte>, ghost data: seq<byte>, encoded: Stats)
    requires Legal(stats, ds)
    ensures out == Stuff(data) && Escaped(out) && NoTrailingZero(out)
    ensures Contains(Run(Coder(START, stats), ds).iv, 65536.0 * Fraction(data))
    ensures forall s :: Contains(Run(Coder(START, stats), ds).iv, 65536.0 * Fraction(s)) ==> |data| <= |s|
    ensures encoded == Run(Coder(START, stats), ds).stats
  {
    hide *;
    var e := new Encoder(stats);
    EncodeAll(e, stats, ds);
    encoded := e.stats;
    FinishSegment(e);
    out, data := e.out, e.emitted;
    NothingBefore(data);
    StuffedShape(data);
    ShortestData(stats, ds, data);
  }

  lemma ShortestData(stats: Stats, ds: seq<Decision>, data: seq<byte>)
    requires Legal(stats, ds) && Roundest(Run(Coder(START, stats), ds).iv, 65536.0 * Fraction(data))
    requires data == [] || data[|data| - 1] != 0
    ensures forall s :: Contains(Run(Coder(START, stats), ds).iv, 65536.0 * Fraction(s)) ==> |data| <= |s|
  {
    hide Run, Fraction, Contains, Roundest, Legal;
    var iv := Run(Coder(START, stats), ds).iv;
    forall s | Contains(iv, 65536.0 * Fraction(s))
      ensures |data| <= |s|
    {
      Shortest(iv, data, s);
    }
  }

  lemma NothingBefore(data: seq<byte>)
    ensures [] + Stuff(data) == Stuff(data)
  {
  }

  method EncodeAll(e: Encoder, stats: Stats, ds: seq<Decision>)
    requires e.Valid() && e.State() == Coder(START, stats) && Legal(stats, ds)
    modifies e
    ensures e.Valid() && e.State() == Run(Coder(START, stats), ds)
    ensures e.head == old(e.head) && e.stats == Run(Coder(START, stats), ds).stats && e.State().iv == Run(Coder(START, stats), ds).iv
  {
    hide Run, Legal, Encoder.State, Encoder.Output, Registers;
    StateStats(e);
    assert ds[0..] == ds;
    var i := 0;
    while i < |ds|
      invariant 0 <= i <= |ds| && e.Valid() && e.State().iv.width >= 0x8000 && e.head == old(e.head)
      invariant Legal(e.State().stats, ds[i..]) && Run(e.State(), ds[i..]) == Run(Coder(START, stats), ds)
    {
      assert ds[i..][1..] == ds[i + 1..] && ds[i..][0] == ds[i];
      EncodeOne(e, ds[i].bin, ds[i].bit, ds[i..]);
      i := i + 1;
    }
    NoDecisions(e.State(), ds[i..]);
    StateStats(e);
  }

  method EncodeOne(e: Encoder, bin: Bin, bit: bool, ghost ds: seq<Decision>)
    requires e.Valid() && ds != [] && ds[0] == Decision(bin, bit)
    requires e.State().iv.width >= 0x8000 && Legal(e.State().stats, ds)
    modifies e
    ensures e.Valid() && e.State().iv.width >= 0x8000 && e.head == old(e.head)
    ensures Legal(e.State().stats, ds[1..]) && Run(e.State(), ds[1..]) == Run(old(e.State()), ds)
  {
    hide Run, Legal, Step, Encoder.State, Encoder.Output, Registers;
    RunHead(e.State(), ds);
    StateStats(e);
    e.Encode(bin, bit);
  }

  lemma StateStats(e: Encoder)
    requires e.Valid()
    ensures e.State().stats == e.stats && e.State().iv.width >= 0x8000
  {
  }

  lemma NoDecisions(s: Coder, ds: seq<Decision>)
    requires s.iv.width >= 0x8000 && ds == []
    ensures Legal(s.stats, ds) && Run(s, ds) == s
  {
  }

  lemma RunHead(s: Coder, ds: seq<Decision>)
    requires s.iv.width >= 0x8000 && ds != [] && Legal(s.stats, ds)
    ensures ds[0].bin in s.stats && Legal(Step(s, ds[0]).stats, ds[1..])
    ensures Run(s, ds) == Run(Step(s, ds[0]), ds[1..])
  {
    hide Step;
  }

  // The end of a segment: the bytes since its start
  method FinishSegment(e: Encoder)
    requires e.Valid()
    modifies e
    ensures e.out == old(e.head) + Stuff(e.emitted) && (e.emitted == [] || e.emitted[|e.emitted| - 1] != 0)
    ensures Contains(old(e.State()).iv, 65536.0 * Fraction(e.emitted)) && Roundest(old(e.State()).iv, 65536.0 * Fraction(e.emitted))
  {
    hide Fraction, Stuff, Contains, Roundest, Encoder.Valid;
    e.Finish();
  }

  /** The decoder stands where the encoder stood in state s. */
  ghost predicate InStep(d: Decoder, s: Coder, x: real)
    reads d
  {
    && d.Valid() && Terminated(d.unread, d.marker)
    && d.stats == s.stats && Tracks(d.Exact(), s.iv, x)
  }

  /** Arithmetic coding of any sequence of decisions is undone by the decoder, which ends up with the
      same statistics. */
  method TranscodeDecisions(stats: Stats, ds: seq<Decision>, marker: byte, tail: seq<byte>)
    returns (bits: seq<bool>, encoded: Stats, decoded: Stats)
    requires Legal(stats, ds) && 0 < marker < 0xFF
    ensures bits == Bits(ds) && encoded == decoded == Run(Coder(START, stats), ds).stats
  {
    var out;
    ghost var data;
    out, data, encoded := EncodeDecisions(stats, ds);
    bits, decoded := DecodeDecisions(stats, Bins(ds), out + [0xFF, marker] + tail, ds, data, marker, tail);
  }

  /** Decodes the decisions in the given bins. */
  method DecodeDecisions(stats: Stats, bins: seq<Bin>, source: seq<byte>,
                         ghost ds: seq<Decision>, ghost data: seq<byte>, ghost marker: byte, ghost tail: seq<byte>)
    returns (bits: seq<bool>, decoded: Stats)
    requires Legal(stats, ds) && bins == Bins(ds)
    requires 0 < marker < 0xFF && source == Stuff(data) + [0xFF, marker] + tail
    requires Contains(Run(Coder(START, stats), ds).iv, 65536.0 * Fraction(data))
    ensures bits == Bits(ds) && decoded == Run(Coder(START, stats), ds).stats
  {
    hide Lookup, DecodeBit, Payload, Fraction, Half, Renorm, Stuff, NextMark, Decoder.Valid, Contains, Tracks, Step, Bits, Legal, Bins;
    ghost var x := 65536.0 * Fraction(data);
    PayloadOfStuffed(data, marker, tail);
    StartTracks(x);
    var d := new Decoder(source, stats);
    bits := DecodeAll(d, bins, ds, Coder(START, stats), x);
    decoded := d.stats;
  }

  method DecodeAll(d: Decoder, bins: seq<Bin>, ghost ds: seq<Decision>, ghost start: Coder, ghost x: real) returns (bits: seq<bool>)
    requires bins == Bins(ds) && InStep(d, start, x) && start.iv.width >= 0x8000 && Legal(start.stats, ds)
    requires Contains(Run(start, ds).iv, x)
    modifies d
    ensures bits == Bits(ds) && d.stats == Run(start, ds).stats
  {
    hide Contains, Step, InStep;
    ghost var now := start;
    bits := [];
    var i := 0;
    while i < |bins|
      invariant 0 <= i <= |ds| && InStep(d, now, x)
      invariant now.iv.width >= 0x8000 && Legal(now.stats, ds[i..])
      invariant Run(now, ds[i..]) == Run(start, ds)
      invariant bits == Bits(ds[..i])
    {
      assert ds[i..][0] == ds[i] && ds[i..][1..] == ds[i + 1..];
      RunContains(Step(now, ds[i]), ds[i + 1..], x);
      var bit := DecodeOne(d, bins[i], now, ds[i], x);
      now := Step(now, ds[i]);
      bits := bits + [bit];
      i := i + 1;
    }
    assert ds[..|ds|] == ds;
    StatsInStep(d, now, x);
  }

  lemma StatsInStep(d: Decoder, s: Coder, x: real)
    requires InStep(d, s, x)
    ensures d.stats == s.stats
  {
  }

  method DecodeOne(d: Decoder, bin: Bin, ghost s: Coder, ghost next: Decision, ghost x: real) returns (bit: bool)
    requires s.iv.width >= 0x8000 && next.bin in s.stats && bin == next.bin
    requires InStep(d, s, x) && Contains(Step(s, next).iv, x)
    modifies d
    ensures bit == next.bit && InStep(d, Step(s, next), x)
  {
    hide Lookup, DecodeBit, Payload, Fraction, Half, Renorm, Normalize, Contains, Terminated, Decoder.Valid, Decoder.Exact, Tracks;
    var ok;
    assert d.Exact().a > 0;
    DecodeStep(s.iv, Lookup(s.stats[bin]), next.bit, x, d.Exact());
    ok, bit := d.Decode(bin);
  }

  lemma ScanBinsAllocated(scan: Scan)
    ensures Allocated(scan, StartStats(scan).Keys)
  {
  }

  method FinishScan(me: McuEncoder)
    requires me.Valid()
    modifies me.arith
    ensures Legal(me.start.stats, me.log) && me.start.iv.width >= 0x8000
    ensures me.arith.out == me.head + Stuff(me.arith.emitted)
    ensures me.arith.emitted == [] || me.arith.emitted[|me.arith.emitted| - 1] != 0
    ensures Contains(Run(me.start, me.log).iv, 65536.0 * Fraction(me.arith.emitted))
  {
    hide Fraction, Stuff, Run, Legal, Contains, Encoder.Valid, Allocated;
    me.arith.Finish();
  }

  method DecodeOneMcu(md: McuDecoder, ghost dc: DcState, ghost mcu: seq<Block>, ghost rest: seq<Decision>)
    returns (decoded: seq<Block>)
    requires md.Valid() && md.complete && !md.error && ValidDc(md.scan, dc) && md.SameDc(dc) && LegalMcu(|md.scan.membership|, mcu)
    requires md.live && md.script == BlocksCode(md.scan, dc, md.scan.membership, mcu) + rest
    modifies md, md.arith
    ensures md.Valid() && !md.error && md.SameDc(DcAfter(md.scan, dc, md.scan.membership, mcu))
    ensures md.live && md.script == rest
    ensures decoded == mcu
  {
    hide BlocksCode, DcAfter, Decoder.Valid, Follows, Terminated, Allocated, IsOrder;
    var blocks := ZeroBlocks(|md.scan.membership|);
    var ok := md.DecodeMcu(blocks, dc, mcu, rest);
    assert [] + rest == rest;
    decoded := seq(|blocks|, i requires 0 <= i < |blocks| reads blocks => blocks[i][..]);
  }

  method ZeroBlocks(n: nat) returns (blocks: seq<array<int>>)
    ensures |blocks| == n && fresh(blocks) && Zeroed(blocks)
  {
    blocks := [];
    for i := 0 to n
      invariant |blocks| == i && fresh(blocks) && Zeroed(blocks)
    {
      var b := new int[64](_ => 0);
      blocks := blocks + [b];
    }
  }
}
