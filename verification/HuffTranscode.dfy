/** Sequential Huffman coding of whole scans: what the encoder writes, the decoder reads back. */
module HuffTranscode {
  import opened Bytes
  import opened Restarts
  import opened BitStrings
  import opened BitReader
  import opened BitWriter
  import opened HuffTable
  import opened HuffDecode
  import opened HuffBlock
  import opened HuffEncoder
  import opened HuffDecoder
  import opened HuffPlan
  import opened HuffScanEncoder
  import opened HuffScanDecoder
  import opened Segments
  import opened ZigZag

  // ----- Encoding

  /** The restart intervals of a plan, MCU by MCU. */
  lemma PlanIntervals(e: Encoders, n: nat, c: Coding, last: seq<int>, togo: nat, mcus: seq<seq<Block>>)
    requires LegalEncoders(e, n) && ValidCoding(c, n) && LegalLast(c, last) && LegalMcus(|c.membership|, mcus) && mcus != []
    ensures LegalMcu(|c.membership|, mcus[0]) && Members(c, c.membership) && LegalMcus(|c.membership|, mcus[1..])
    ensures var due := RestartDue(c, togo);
      var start := if due then NoPrediction(c) else last;
      var blocks := Intervals(e, n, BlockSteps(c, n, start, c.membership, mcus[0]));
      var rest := Plan(c, n, LastAfter(c, start, c.membership, mcus[0]), ToGo(c, togo), mcus[1..]);
      Intervals(e, n, Plan(c, n, last, togo, mcus))
      == Glue(if due then [[], []] else [[]], Glue(blocks, Intervals(e, n, rest)))
  {
    hide BlockSteps, LastAfter, Glue, LegalEncoders, ToGo;
    var due := RestartDue(c, togo);
    var start := if due then NoPrediction(c) else last;
    var steps := BlockSteps(c, n, start, c.membership, mcus[0]);
    var rest := Plan(c, n, LastAfter(c, start, c.membership, mcus[0]), ToGo(c, togo), mcus[1..]);
    IntervalsConcat(e, n, steps, rest);
    RestartIntervals(e, n, due, steps + rest);
  }

  lemma RestartIntervals(e: Encoders, n: nat, due: bool, plan: seq<Step>)
    requires LegalEncoders(e, n) && LegalPlan(plan, n)
    ensures LegalPlan((if due then [Restart] else []) + plan, n)
    ensures Intervals(e, n, (if due then [Restart] else []) + plan) == Glue(if due then [[], []] else [[]], Intervals(e, n, plan))
  {
    hide LegalEncoders, StepBits, LegalStep;
    if due {
      assert ([Restart] + plan)[1..] == plan;
      assert LegalStep(Restart, n) by { RestartLegal(n); }
      GlueEmpty(Intervals(e, n, plan));
      assert Glue([[], []], Intervals(e, n, plan)) == [[]] + Intervals(e, n, plan);
    } else {
      assert [] + plan == plan;
      GlueEmpty(Intervals(e, n, plan));
    }
  }

  lemma RestartLegal(n: nat)
    ensures LegalStep(Restart, n)
  {
  }

  /** Codes all MCUs of a scan. */
  method EncodeScan(coding: Coding, n: nat, encoders: Encoders, mcus: seq<seq<Block>>)
    returns (out: seq<byte>, ghost datas: seq<seq<byte>>)
    requires ValidCoding(coding, n) && LegalEncoders(encoders, n) && LegalMcus(|coding.membership|, mcus)
    ensures out == Sections(datas, 0) && datas != []
    ensures PaddedAll(Intervals(encoders, n, Plan(coding, n, NoPrediction(coding), coding.interval, mcus)), datas)
  {
    hide Plan, Intervals, Glue, PaddedAll, Sections, LegalEncoders, ValidCoding, LegalMcu, BlockSteps, LastAfter;
    CodingParts(coding, n);
    var se := new ScanEncoder(coding, n, encoders);
    ghost var goal := Intervals(encoders, n, Plan(coding, n, NoPrediction(coding), coding.interval, mcus));
    GlueEmpty(goal);
    var i := 0;
    while i < |mcus|
      invariant 0 <= i <= |mcus| && se.Valid() && fresh(se) && fresh(se.writer)
      invariant se.coding == coding && se.n == n && se.encoders == encoders
      invariant Glue(se.Logged(), Intervals(encoders, n, Plan(coding, n, se.last_dc_val, se.restarts_to_go, mcus[i..]))) == goal
    {
      hide ScanEncoder.Valid, ScanEncoder.Logged;
      EncodeNextMcu(se, mcus, i);
      i := i + 1;
    }
    assert mcus[i..] == [];
    NoPlan(encoders, n, coding, se.last_dc_val, se.restarts_to_go, se.Logged());
    datas := se.Finish();
    PaddedSome(goal, datas);
    out := se.writer.out;
  }

  lemma PaddedSome(bits: seq<Bits>, datas: seq<seq<byte>>)
    requires PaddedAll(bits, datas)
    ensures |bits| == |datas|
  {
  }

  lemma NoPlan(e: Encoders, n: nat, c: Coding, last: seq<int>, togo: nat, logged: seq<Bits>)
    requires LegalEncoders(e, n) && ValidCoding(c, n) && LegalLast(c, last) && |logged| > 0
    ensures Glue(logged, Intervals(e, n, Plan(c, n, last, togo, []))) == logged
  {
    GlueEmpty(logged);
  }

  method EncodeNextMcu(se: ScanEncoder, mcus: seq<seq<Block>>, i: nat)
    requires se.Valid() && LegalMcus(|se.coding.membership|, mcus) && i < |mcus|
    modifies se, se.writer
    ensures se.Valid()
    ensures Glue(se.Logged(), Intervals(se.encoders, se.n, Plan(se.coding, se.n, se.last_dc_val, se.restarts_to_go, mcus[i + 1..])))
         == Glue(old(se.Logged()),
                 Intervals(se.encoders, se.n, Plan(se.coding, se.n, old(se.last_dc_val), old(se.restarts_to_go), mcus[i..])))
  {
    hide Plan, Intervals, Glue, PaddedAll, LegalEncoders, ValidCoding, BlockSteps, LastAfter, ToGo, RestartDue,
         ScanEncoder.Logged;
    ghost var logged, last, togo := se.Logged(), se.last_dc_val, se.restarts_to_go;
    assert mcus[i..][0] == mcus[i] && mcus[i..][1..] == mcus[i + 1..];
    PlanIntervals(se.encoders, se.n, se.coding, last, togo, mcus[i..]);
    CodingParts(se.coding, se.n);
    se.EncodeMcu(mcus[i]);
    ghost var due := RestartDue(se.coding, togo);
    ghost var start := if due then NoPrediction(se.coding) else last;
    ghost var r: seq<Bits> := if due then [[], []] else [[]];
    ghost var blocks := Intervals(se.encoders, se.n, BlockSteps(se.coding, se.n, start, se.coding.membership, mcus[i]));
    ghost var rest := Intervals(se.encoders, se.n, Plan(se.coding, se.n, se.last_dc_val, se.restarts_to_go, mcus[i + 1..]));
    GlueAssociates(Glue(logged, r), blocks, rest);
    GlueAssociates(logged, r, Glue(blocks, rest));
  }

  // ----- Decoding

  /** The bits left in the current restart interval, and the data of the later ones. */
  ghost predicate Holds(bits: Bits, datas: seq<seq<byte>>, segs: seq<Bits>)
    requires |segs| > 0
  {
    |datas| == |segs| && PaddedAll(segs[1..], datas[1..]) && exists pad: Bits :: bits == segs[0] + pad
  }

  lemma HoldsNext(bits: Bits, datas: seq<seq<byte>>, segs: seq<Bits>)
    requires |segs| > 0 && Holds(bits, datas, [[]] + segs)
    ensures |datas| >= 2 && Holds(ByteBits(datas[1]), datas[1..], segs)
  {
    hide ByteBits;
    var all := [[]] + segs;
    assert all[1..] == segs;
    assert Padded(segs[0], datas[1..][0]);
    var pad := Padding((8 - |segs[0]| % 8) % 8);
    assert ByteBits(datas[1]) == segs[0] + pad;
    assert datas[1..][1..] == datas[2..];
    forall i | 0 <= i < |segs[1..]|
      ensures Padded(segs[1..][i], datas[2..][i])
    {
      assert Padded(all[1..][i + 1], datas[1..][i + 1]);
    }
  }

  lemma HoldsStart(segs: seq<Bits>, datas: seq<seq<byte>>)
    requires datas != [] && PaddedAll(segs, datas)
    ensures |segs| > 0 && Holds(ByteBits(datas[0]), datas, segs)
  {
    hide ByteBits;
    assert Padded(segs[0], datas[0]);
    var pad := Padding((8 - |segs[0]| % 8) % 8);
    assert ByteBits(datas[0]) == segs[0] + pad;
  }

  /** Decoding undoes coding for the blocks of an MCU. */
  lemma {:induction false} BlocksDecode(e: Encoders, t: Tables, n: nat, c: Coding, last: seq<int>, cis: seq<nat>, bs: seq<Block>, rest: Bits)
    requires PairedAll(e, t, n) && ValidCoding(c, n) && LegalLast(c, last)
    requires Members(c, cis) && |cis| == |bs| && LegalBlocks(bs) && Covered(e, n, BlockSteps(c, n, last, cis, bs))
    ensures LegalTables(t, n)
    ensures var segs := Intervals(e, n, BlockSteps(c, n, last, cis, bs));
      |segs| == 1 && DecodeBlocks(t, c, n, segs[0] + rest, last, cis) == DecodedBlocks(bs, LastAfter(c, last, cis, bs), rest)
    decreases |bs|
  {
    hide Paired, DcSymbols, LegalEncoder, StepBits, DecodeBlock, StepCovered, WellFormed, PairedAll, LegalTables;
    TablesPaired(e, t, n);
    if bs == [] {
      assert [] + rest == rest;
    } else {
      var ci := cis[0];
      var step, next := Code(c.dcTbl[ci], c.acTbl[ci], bs[0][0] - last[ci], bs[0]), NextLast(c, last, ci, bs[0]);
      var steps := BlockSteps(c, n, next, cis[1..], bs[1..]);
      assert BlockSteps(c, n, last, cis, bs)[1..] == steps;
      CoveredRest(e, n, step, steps);
      BlocksDecode(e, t, n, c, next, cis[1..], bs[1..], rest);
      var segs := Intervals(e, n, steps);
      Reassociate(StepBits(e, n, step), segs[0], rest);
      StepDecodes(e, t, n, step, last[ci], segs[0] + rest);
    }
  }

  lemma TablesPaired(e: Encoders, t: Tables, n: nat)
    requires PairedAll(e, t, n)
    ensures LegalTables(t, n) && LegalEncoders(e, n)
  {
    hide Encodes, LegalTree, LegalEncoder, WellFormed;
    forall i | 0 <= i < n
      ensures WellFormed(t.dc[i]) && WellFormed(t.ac[i])
    {
      PairedParts(e.dc[i], t.dc[i]);
      PairedParts(e.ac[i], t.ac[i]);
    }
  }

  lemma CoveredRest(e: Encoders, n: nat, step: Step, steps: seq<Step>)
    requires LegalEncoders(e, n) && LegalPlan([step] + steps, n) && Covered(e, n, [step] + steps) && LegalPlan(steps, n)
    ensures LegalStep(step, n) && StepCovered(e, n, step) && Covered(e, n, steps)
  {
    hide StepCovered, LegalEncoders, LegalStep;
    assert ([step] + steps)[0] == step;
    assert forall i :: 0 <= i < |steps| ==> ([step] + steps)[i + 1] == steps[i];
  }

  lemma StepDecodes(e: Encoders, t: Tables, n: nat, step: Step, last: int, rest: Bits)
    requires PairedAll(e, t, n) && LegalEncoders(e, n) && LegalTables(t, n)
    requires LegalStep(step, n) && step.Code? && StepCovered(e, n, step)
    requires step.diff == step.b[0] - last
    ensures DecodeBlock(t.dc[step.dcTbl], t.ac[step.acTbl], StepBits(e, n, step) + rest, last)
         == DecodedBlock(step.b, step.b[0], rest)
  {
    hide Paired, DcSymbols, BlockBits, DecodeBlock, WellFormed, LegalEncoder, AcItems, DcItem, Magnitude, LegalBlock;
    BlockDecodes(e.dc[step.dcTbl], e.ac[step.acTbl], t.dc[step.dcTbl], t.ac[step.acTbl], step.b, last, rest);
  }

  lemma HoldsAfter(b: Bits, rest: seq<Bits>, bits: Bits, datas: seq<seq<byte>>) returns (left: Bits)
    requires |rest| > 0 && Holds(bits, datas, Glue([b], rest))
    ensures bits == b + left && Holds(left, datas, rest)
  {
    hide ByteBits, PaddedAll;
    var segs := Glue([b], rest);
    assert segs[0] == b + rest[0] && segs[1..] == rest[1..];
    var pad: Bits :| bits == segs[0] + pad;
    Reassociate(b, rest[0], pad);
    left := rest[0] + pad;
  }

  /** Decoding undoes coding for the next MCU of a scan. */
  lemma McuDecodes(e: Encoders, t: Tables, n: nat, c: Coding, last: seq<int>, togo: nat, mcus: seq<seq<Block>>,
                   bits: Bits, datas: seq<seq<byte>>) returns (left: Bits)
    requires PairedAll(e, t, n) && LegalEncoders(e, n) && LegalTables(t, n)
    requires ValidCoding(c, n) && LegalLast(c, last) && LegalMcus(|c.membership|, mcus) && mcus != []
    requires var plan := Plan(c, n, last, togo, mcus); Covered(e, n, plan) && Holds(bits, datas, Intervals(e, n, plan))
    ensures LegalMcu(|c.membership|, mcus[0]) && Members(c, c.membership) && LegalMcus(|c.membership|, mcus[1..])
    ensures var due := RestartDue(c, togo);
      && (due ==> |datas| >= 2)
      && var from := if due then ByteBits(datas[1]) else bits;
         var start := if due then NoPrediction(c) else last;
         var next := LastAfter(c, start, c.membership, mcus[0]);
         var rest := Plan(c, n, next, ToGo(c, togo), mcus[1..]);
         && DecodeBlocks(t, c, n, from, start, c.membership) == DecodedBlocks(mcus[0], next, left)
         && Covered(e, n, rest) && Holds(left, if due then datas[1..] else datas, Intervals(e, n, rest))
  {
    hide BlockSteps, LastAfter, Glue, LegalEncoders, ToGo, Holds, PairedAll, Intervals, Covered, DecodeBlocks, ByteBits, LegalTables;
    PlanIntervals(e, n, c, last, togo, mcus);
    var due := RestartDue(c, togo);
    var start := if due then NoPrediction(c) else last;
    var steps := BlockSteps(c, n, start, c.membership, mcus[0]);
    var next := LastAfter(c, start, c.membership, mcus[0]);
    var rest := Plan(c, n, next, ToGo(c, togo), mcus[1..]);
    CoveredParts(e, n, due, steps, rest);
    var segs := Intervals(e, n, steps);
    var all := Glue(segs, Intervals(e, n, rest));
    GlueEmpty(all);
    var from, datas' := bits, datas;
    if due {
      GlueRestart(all);
      HoldsNext(bits, datas, all);
      from, datas' := ByteBits(datas[1]), datas[1..];
    }
    BlocksDecode(e, t, n, c, start, c.membership, mcus[0], []);
    assert segs == [segs[0]];
    left := HoldsAfter(segs[0], Intervals(e, n, rest), from, datas');
    BlocksDecode(e, t, n, c, start, c.membership, mcus[0], left);
  }

  lemma GlueRestart(all: seq<Bits>)
    requires |all| > 0
    ensures Glue([[], []], all) == [[]] + all
  {
    assert [] + all[0] == all[0];
  }

  lemma CoveredParts(e: Encoders, n: nat, due: bool, steps: seq<Step>, rest: seq<Step>)
    requires LegalEncoders(e, n) && LegalPlan(steps, n) && LegalPlan(rest, n)
    requires LegalPlan((if due then [Restart] else []) + (steps + rest), n)
    requires Covered(e, n, (if due then [Restart] else []) + (steps + rest))
    ensures Covered(e, n, steps) && Covered(e, n, rest)
  {
    hide LegalEncoders, LegalStep, StepCovered;
    var plan := (if due then [Restart] else []) + (steps + rest);
    var d := if due then 1 else 0;
    assert forall i :: 0 <= i < |steps| ==> plan[d + i] == steps[i];
    assert forall i :: 0 <= i < |rest| ==> plan[d + |steps| + i] == rest[i];
  }

  /** The decoder stands before these MCUs, the first k segments being behind it. */
  ghost predicate OnTrack(sd: ScanDecoder, e: Encoders, mcus: seq<seq<Block>>, bits: Bits, datas: seq<seq<byte>>, k: nat,
                          marker: byte, tail: seq<byte>)
    reads sd, sd.reader
  {
    && sd.Valid() && LegalEncoders(e, sd.n) && PairedAll(e, sd.t, sd.n) && LegalLast(sd.coding, sd.last_dc_val)
    && LegalMcus(|sd.coding.membership|, mcus) && At(sd.reader, bits) && sd.next_restart_num == k % 8
    && sd.reader.Ahead() == MarkAfter(datas, k, marker, tail)
    && var plan := Plan(sd.coding, sd.n, sd.last_dc_val, sd.restarts_to_go, mcus);
       Covered(e, sd.n, plan) && Holds(bits, datas, Intervals(e, sd.n, plan))
  }

  method DecodeOneMcu(sd: ScanDecoder, ghost e: Encoders, ghost mcus: seq<seq<Block>>, ghost bits: Bits,
                      ghost datas: seq<seq<byte>>, ghost k: nat, ghost marker: byte, ghost tail: seq<byte>)
    returns (mcu: seq<Block>, ghost left: Bits, ghost datas': seq<seq<byte>>, ghost k': nat)
    requires mcus != [] && 0 < marker < 0xFF && OnTrack(sd, e, mcus, bits, datas, k, marker, tail)
    modifies sd, sd.reader
    ensures mcu == mcus[0] && OnTrack(sd, e, mcus[1..], left, datas', k', marker, tail)
  {
    hide Plan, Intervals, LegalEncoders, ValidCoding, At, ToGo, PairedAll, Covered, Holds, LegalMcus, DecodeBlocks, NextMark,
         Sections, LastAfter, MatchesAll, Payload, ByteBits, LegalTables, Reader.Valid;
    TablesPaired(e, sd.t, sd.n);
    ghost var c, last, togo := sd.coding, sd.last_dc_val, sd.restarts_to_go;
    left := McuDecodes(e, sd.t, sd.n, c, last, togo, mcus, bits, datas);
    RestartByte(k);
    datas', k' := datas, k;
    if RestartDue(c, togo) {
      ReadSections(datas[1..], k + 1, marker, tail);
      datas', k' := datas[1..], k + 1;
    }
    var ok;
    ok, mcu := sd.DecodeMcu(bits);
  }

  /** Decodes count MCUs. */
  method DecodeScan(coding: Coding, n: nat, tables: DecoderTables, input: seq<byte>, count: nat, ghost t: Tables,
                    ghost e: Encoders, ghost mcus: seq<seq<Block>>, ghost datas: seq<seq<byte>>, ghost marker: byte, ghost tail: seq<byte>)
    returns (decoded: seq<seq<Block>>)
    requires ValidCoding(coding, n) && MatchesAll(tables, t, n) && LegalMcus(|coding.membership|, mcus) && count == |mcus|
    requires LegalEncoders(e, n) && PairedAll(e, t, n)
    requires Covered(e, n, Plan(coding, n, NoPrediction(coding), coding.interval, mcus))
    requires 0 < marker < 0xFF && input == Sections(datas, 0) + [0xFF, marker] + tail && datas != []
    requires PaddedAll(Intervals(e, n, Plan(coding, n, NoPrediction(coding), coding.interval, mcus)), datas)
    ensures decoded == mcus
  {
    hide Plan, Intervals, LegalEncoders, ValidCoding, At, PairedAll, Covered, Holds, LegalMcus, NextMark,
         Sections, MatchesAll, Payload, ByteBits, LegalTables, Reader.Valid, PaddedAll;
    CodingParts(coding, n);
    var sd := new ScanDecoder(coding, n, tables, input, t);
    ghost var bits, left, k := ByteBits(datas[0]), datas, 0;
    ReadSections(datas, 0, marker, tail);
    HoldsStart(Intervals(e, n, Plan(coding, n, NoPrediction(coding), coding.interval, mcus)), datas);
    assert mcus[0..] == mcus;
    decoded := [];
    var i := 0;
    while i < count
      invariant 0 <= i <= count && fresh(sd) && fresh(sd.reader) && decoded == mcus[..i]
      invariant OnTrack(sd, e, mcus[i..], bits, left, k, marker, tail)
    {
      hide OnTrack;
      var mcu;
      assert mcus[i..][1..] == mcus[i + 1..];
      mcu, bits, left, k := DecodeOneMcu(sd, e, mcus[i..], bits, left, k, marker, tail);
      decoded := decoded + [mcu];
      i := i + 1;
    }
  }

  // ----- Both

  method BuildTables(t: Tables, n: nat) returns (ok: bool, e: Encoders, d: DecoderTables)
    requires LegalTables(t, n)
    ensures ok <==> AllLegal(t, n)
    ensures ok ==> LegalEncoders(e, n) && PairedAll(e, t, n) && MatchesAll(d, t, n)
  {
    hide LegalTree, LegalSymbols, Encodes, Decodes, WellFormed;
    e, d := Encoders([], []), DecoderTables([], []);
    for i := 0 to n
      invariant |e.dc| == |e.ac| == |d.dc| == |d.ac| == i
      invariant forall j :: 0 <= j < i ==> LegalDc(t.dc[j]) && LegalAc(t.ac[j])
      invariant forall j :: 0 <= j < i ==> Paired(e.dc[j], t.dc[j]) && Matches(d.dc[j], t.dc[j]) && DcSymbols(t.dc[j])
      invariant forall j :: 0 <= j < i ==> Paired(e.ac[j], t.ac[j]) && Matches(d.ac[j], t.ac[j])
    {
      var dce, dcd, ace, acd;
      ok, dce, dcd := BuildTable(t.dc[i], true);
      if !ok {
        return;
      }
      ok, ace, acd := BuildTable(t.ac[i], false);
      if !ok {
        return;
      }
      e := Encoders(e.dc + [dce], e.ac + [ace]);
      d := DecoderTables(d.dc + [dcd], d.ac + [acd]);
    }
    ok := true;
  }

  /** The tables both builders accept. */
  predicate LegalDc(t: Table)
    requires WellFormed(t)
  {
    LegalTree(t.bits) && LegalSymbols(t, true, CodesTo(t.bits, 16))
  }

  predicate LegalAc(t: Table)
    requires WellFormed(t)
  {
    LegalTree(t.bits) && LegalSymbols(t, false, CodesTo(t.bits, 16))
  }

  ghost predicate AllLegal(t: Tables, n: nat)
    requires LegalTables(t, n)
  {
    forall i :: 0 <= i < n ==> LegalDc(t.dc[i]) && LegalAc(t.ac[i])
  }

  method BuildTable(t: Table, isDC: bool) returns (ok: bool, e: EncoderTable, d: DecoderTable)
    requires WellFormed(t)
    ensures ok <==> if isDC then LegalDc(t) else LegalAc(t)
    ensures ok ==> Paired(e, t) && Matches(d, t) && (isDC ==> DcSymbols(t))
  {
    hide Encodes, Decodes;
    d := DecoderTable([], [], [], []);
    ok, e := MakeEncoderTable(t, isDC);
    if ok {
      ok, d := MakeDecoderTable(t, isDC);
      EncoderIsLegal(e, t);
    }
  }

  /** The tables have codes for all symbols of a plan. */
  ghost predicate Sufficient(t: Tables, n: nat, plan: seq<Step>)
    requires LegalTables(t, n) && LegalPlan(plan, n)
  {
    && (forall tbl, s :: 0 <= tbl < n && 0 <= s < 256 && DcUses(plan, n, tbl, s) > 0 ==> Lists(t.dc[tbl], s))
    && forall tbl, s :: 0 <= tbl < n && 0 <= s < 256 && AcUses(plan, n, tbl, s) > 0 ==> Lists(t.ac[tbl], s)
  }

  lemma ListedHasCode(e: EncoderTable, t: Table, symbol: int)
    requires Paired(e, t) && WellFormed(t) && 0 <= symbol < 256 && Lists(t, symbol)
    ensures LegalEncoder(e) && e.ehufsi[symbol] > 0
  {
    hide CodeAt, LegalTree;
    var p :| 0 <= p < Min256(CodesTo(t.bits, 16)) && t.vals[p] == symbol;
    assert HasLength(t.bits, p, LengthOf(t.bits, p, 1));
  }

  lemma SufficientCovers(e: Encoders, t: Tables, n: nat, plan: seq<Step>)
    requires PairedAll(e, t, n) && LegalEncoders(e, n) && LegalTables(t, n) && LegalPlan(plan, n) && Sufficient(t, n, plan)
    ensures Covered(e, n, plan)
  {
    hide Paired, LegalEncoder, DcSymbols, WellFormed, Lists, LegalStep, StepCovered, DcUses, AcUses;
    forall tbl, s | 0 <= tbl < n && 0 <= s < 256 && DcUses(plan, n, tbl, s) > 0
      ensures LegalEncoder(e.dc[tbl]) && |e.dc[tbl].ehufsi| == 256 && e.dc[tbl].ehufsi[s] > 0
    {
      ListedHasCode(e.dc[tbl], t.dc[tbl], s);
      EncoderSized(e.dc[tbl]);
    }
    forall tbl, s | 0 <= tbl < n && 0 <= s < 256 && AcUses(plan, n, tbl, s) > 0
      ensures LegalEncoder(e.ac[tbl]) && |e.ac[tbl].ehufsi| == 256 && e.ac[tbl].ehufsi[s] > 0
    {
      ListedHasCode(e.ac[tbl], t.ac[tbl], s);
      EncoderSized(e.ac[tbl]);
    }
    CountedIsCovered(e, n, plan);
  }

  lemma EncoderSized(e: EncoderTable)
    requires LegalEncoder(e)
    ensures |e.ehufsi| == 256
  {
  }

  /** Sequential Huffman coding of any sequence of MCUs with legal coefficients, with or without restart
      intervals, is undone by the decoder, provided that every symbol needed has a code. */
  method TranscodeScan(coding: Coding, n: nat, t: Tables, mcus: seq<seq<Block>>, marker: byte, tail: seq<byte>)
    returns (ok: bool, decoded: seq<seq<Block>>)
    requires ValidCoding(coding, n) && LegalTables(t, n) && LegalMcus(|coding.membership|, mcus) && 0 < marker < 0xFF
    requires Sufficient(t, n, Plan(coding, n, NoPrediction(coding), coding.interval, mcus))
    ensures ok <==> AllLegal(t, n)
    ensures ok ==> decoded == mcus
  {
    hide Plan, Intervals, LegalEncoders, PairedAll, Covered, LegalMcus, Sections, MatchesAll, LegalTables, PaddedAll, Sufficient,
         AllLegal;
    var e, d;
    decoded := [];
    ok, e, d := BuildTables(t, n);
    if ok {
      var out;
      ghost var datas;
      CodingParts(coding, n);
      ghost var plan := Plan(coding, n, NoPrediction(coding), coding.interval, mcus);
      SufficientCovers(e, t, n, plan);
      out, datas := EncodeScan(coding, n, e, mcus);
      decoded := DecodeScan(coding, n, d, out + [0xFF, marker] + tail, |mcus|, t, e, mcus, datas, marker, tail);
    }
  }
}
