/** What a sequential Huffman scan consists of: blocks with their DC differences, in restart intervals.
    The output pass, the statistics pass and the decoder all follow the same plan. */
module HuffPlan {
  import opened Bytes
  import opened BitStrings
  import opened HuffTable
  import opened HuffDecode
  import opened HuffBlock
  import opened HuffEncoder
  import opened HuffDecoder
  import opened ZigZag

  /** The scan parameters the coders read: the component each block of an MCU belongs to, the tables of
      each component, and the restart interval (0 for none). */
  datatype Coding = Coding(membership: seq<nat>, dcTbl: seq<nat>, acTbl: seq<nat>, interval: nat)

  /** Table numbers are below n. */
  predicate ValidCoding(c: Coding, n: nat) {
    && |c.dcTbl| == |c.acTbl|
    && (forall i :: 0 <= i < |c.membership| ==> c.membership[i] < |c.dcTbl|)
    && forall i :: 0 <= i < |c.dcTbl| ==> c.dcTbl[i] < n && c.acTbl[i] < n
  }

  datatype Step = Restart | Code(dcTbl: nat, acTbl: nat, diff: int, b: Block)

  predicate LegalStep(step: Step, n: nat) {
    step.Code? ==> step.dcTbl < n && step.acTbl < n && Magnitude(step.diff) < 32768 && LegalBlock(step.b)
  }

  predicate LegalPlan(plan: seq<Step>, n: nat) {
    forall i :: 0 <= i < |plan| ==> LegalStep(plan[i], n)
  }

  predicate LegalLast(c: Coding, last: seq<int>) {
    |last| == |c.dcTbl| && forall i :: 0 <= i < |last| ==> -16384 <= last[i] <= 16383
  }

  predicate Members(c: Coding, cis: seq<nat>) {
    forall i :: 0 <= i < |cis| ==> cis[i] < |c.dcTbl|
  }

  /** The predictions after a block. */
  function NextLast(c: Coding, last: seq<int>, ci: nat, b: Block): (r: seq<int>)
    requires LegalLast(c, last) && ci < |c.dcTbl| && LegalBlock(b)
    ensures LegalLast(c, r)
  {
    last[ci := b[0]]
  }

  function BlockSteps(c: Coding, n: nat, last: seq<int>, cis: seq<nat>, bs: seq<Block>): (r: seq<Step>)
    requires ValidCoding(c, n) && LegalLast(c, last) && Members(c, cis) && |cis| == |bs| && LegalBlocks(bs)
    ensures LegalPlan(r, n)
    decreases |bs|
  {
    if bs == [] then []
    else
      var ci := cis[0];
      [Code(c.dcTbl[ci], c.acTbl[ci], bs[0][0] - last[ci], bs[0])]
      + BlockSteps(c, n, NextLast(c, last, ci, bs[0]), cis[1..], bs[1..])
  }

  function LastAfter(c: Coding, last: seq<int>, cis: seq<nat>, bs: seq<Block>): (r: seq<int>)
    requires LegalLast(c, last) && Members(c, cis) && |cis| == |bs| && LegalBlocks(bs)
    ensures LegalLast(c, r)
    decreases |bs|
  {
    if bs == [] then last else LastAfter(c, NextLast(c, last, cis[0], bs[0]), cis[1..], bs[1..])
  }

  function NoPrediction(c: Coding): (last: seq<int>)
    requires |c.dcTbl| == |c.acTbl|
    ensures LegalLast(c, last)
  {
    seq(|c.dcTbl|, _ => 0)
  }

  /** Is a restart due before the next MCU? */
  predicate RestartDue(c: Coding, togo: nat) {
    c.interval > 0 && togo == 0
  }

  // MCUs left in the restart interval after the next one.
  function ToGo(c: Coding, togo: nat): nat {
    if c.interval == 0 then togo else if togo == 0 then c.interval - 1 else togo - 1
  }

  function Plan(c: Coding, n: nat, last: seq<int>, togo: nat, mcus: seq<seq<Block>>): (r: seq<Step>)
    requires ValidCoding(c, n) && LegalLast(c, last) && LegalMcus(|c.membership|, mcus)
    ensures LegalPlan(r, n)
    decreases |mcus|
  {
    if mcus == [] then []
    else
      var start := if RestartDue(c, togo) then NoPrediction(c) else last;
      (if RestartDue(c, togo) then [Restart] else [])
      + (BlockSteps(c, n, start, c.membership, mcus[0])
         + Plan(c, n, LastAfter(c, start, c.membership, mcus[0]), ToGo(c, togo), mcus[1..]))
  }

  // ----- The bits of a plan

  datatype Encoders = Encoders(dc: seq<EncoderTable>, ac: seq<EncoderTable>)

  predicate LegalEncoders(e: Encoders, n: nat) {
    && |e.dc| == |e.ac| == n
    && forall i :: 0 <= i < n ==> LegalEncoder(e.dc[i]) && LegalEncoder(e.ac[i])
  }

  function StepBits(e: Encoders, n: nat, step: Step): Bits
    requires LegalEncoders(e, n) && LegalStep(step, n) && step.Code?
  {
    BlockBits(e.dc[step.dcTbl], e.ac[step.acTbl], step.diff, step.b)
  }

  /** The bits of each restart interval. */
  function Intervals(e: Encoders, n: nat, plan: seq<Step>): (r: seq<Bits>)
    requires LegalEncoders(e, n) && LegalPlan(plan, n)
    ensures |r| > 0
    decreases |plan|
  {
    if plan == [] then [[]]
    else
      var rest := Intervals(e, n, plan[1..]);
      if plan[0].Restart? then [[]] + rest else [StepBits(e, n, plan[0]) + rest[0]] + rest[1..]
  }

  /** Every symbol needed has a code. */
  predicate StepCovered(e: Encoders, n: nat, step: Step)
    requires LegalEncoders(e, n) && LegalStep(step, n)
  {
    step.Code? ==> Covers(e.dc[step.dcTbl], [DcItem(step.diff)]) && Covers(e.ac[step.acTbl], AcItems(step.b, 1, 0))
  }

  predicate Covered(e: Encoders, n: nat, plan: seq<Step>)
    requires LegalEncoders(e, n) && LegalPlan(plan, n)
  {
    forall i :: 0 <= i < |plan| ==> StepCovered(e, n, plan[i])
  }

  // ----- The symbols of a plan

  /** How often a symbol of DC table tbl is used. */
  function DcUses(plan: seq<Step>, n: nat, tbl: nat, symbol: int): nat
    requires LegalPlan(plan, n)
  {
    if plan == [] then 0
    else
      (if plan[0].Code? && plan[0].dcTbl == tbl then Tally([DcItem(plan[0].diff)], symbol) else 0)
      + DcUses(plan[1..], n, tbl, symbol)
  }

  /** How often a symbol of AC table tbl is used. */
  function AcUses(plan: seq<Step>, n: nat, tbl: nat, symbol: int): nat
    requires LegalPlan(plan, n)
  {
    if plan == [] then 0
    else
      (if plan[0].Code? && plan[0].acTbl == tbl then Tally(AcItems(plan[0].b, 1, 0), symbol) else 0)
      + AcUses(plan[1..], n, tbl, symbol)
  }

  lemma {:induction false} UsedSymbolsCover(e: EncoderTable, items: seq<Item>)
    requires LegalEncoder(e) && forall s :: 0 <= s < 256 && Tally(items, s) > 0 ==> e.ehufsi[s] > 0
    ensures Covers(e, items)
  {
    if items != [] {
      var front := items[..|items| - 1];
      forall s | 0 <= s < 256 && Tally(front, s) > 0
        ensures e.ehufsi[s] > 0
      {
        assert Tally(items, s) > 0;
      }
      UsedSymbolsCover(e, front);
      assert Tally(items, items[|items| - 1].symbol) > 0;
      assert forall i :: 0 <= i < |front| ==> items[i] == front[i];
    }
  }

  /** Tables with codes for all symbols that the statistics pass counts have codes for all symbols that the
      output pass emits. */
  lemma {:induction false} CountedIsCovered(e: Encoders, n: nat, plan: seq<Step>)
    requires LegalEncoders(e, n) && LegalPlan(plan, n)
    requires forall tbl, s :: 0 <= tbl < n && 0 <= s < 256 && DcUses(plan, n, tbl, s) > 0 ==> e.dc[tbl].ehufsi[s] > 0
    requires forall tbl, s :: 0 <= tbl < n && 0 <= s < 256 && AcUses(plan, n, tbl, s) > 0 ==> e.ac[tbl].ehufsi[s] > 0
    ensures Covered(e, n, plan)
  {
    hide AcItems, DcItem, Tally;
    if plan != [] {
      var step, rest := plan[0], plan[1..];
      forall tbl, s | 0 <= tbl < n && 0 <= s < 256 && DcUses(rest, n, tbl, s) > 0
        ensures e.dc[tbl].ehufsi[s] > 0
      {
        assert DcUses(plan, n, tbl, s) > 0;
      }
      forall tbl, s | 0 <= tbl < n && 0 <= s < 256 && AcUses(rest, n, tbl, s) > 0
        ensures e.ac[tbl].ehufsi[s] > 0
      {
        assert AcUses(plan, n, tbl, s) > 0;
      }
      CountedIsCovered(e, n, rest);
      if step.Code? {
        forall s | 0 <= s < 256 && Tally([DcItem(step.diff)], s) > 0
          ensures e.dc[step.dcTbl].ehufsi[s] > 0
        {
          assert DcUses(plan, n, step.dcTbl, s) > 0;
        }
        forall s | 0 <= s < 256 && Tally(AcItems(step.b, 1, 0), s) > 0
          ensures e.ac[step.acTbl].ehufsi[s] > 0
        {
          assert AcUses(plan, n, step.acTbl, s) > 0;
        }
        UsedSymbolsCover(e.dc[step.dcTbl], [DcItem(step.diff)]);
        UsedSymbolsCover(e.ac[step.acTbl], AcItems(step.b, 1, 0));
      }
      assert forall i :: 0 < i < |plan| ==> plan[i] == rest[i - 1];
    }
  }

  // ----- Decoding a block

  datatype Tables = Tables(dc: seq<Table>, ac: seq<Table>)

  /** Encoders that were derived from these tables. */
  ghost predicate PairedAll(e: Encoders, t: Tables, n: nat) {
    && LegalEncoders(e, n) && |t.dc| == |t.ac| == n
    && forall i :: 0 <= i < n ==> Paired(e.dc[i], t.dc[i]) && DcSymbols(t.dc[i]) && Paired(e.ac[i], t.ac[i])
  }

  /** Decoding a block undoes coding it. */
  lemma BlockDecodes(dce: EncoderTable, ace: EncoderTable, dc: Table, ac: Table, b: Block, last: int, rest: Bits)
    requires Paired(dce, dc) && Paired(ace, ac) && LegalBlock(b) && Magnitude(b[0] - last) < 32768
    requires LegalEncoder(dce) && Covers(dce, [DcItem(b[0] - last)])
    requires LegalEncoder(ace) && Covers(ace, AcItems(b, 1, 0))
    ensures WellFormed(dc) && WellFormed(ac)
    ensures DecodeBlock(dc, ac, BlockBits(dce, ace, b[0] - last, b) + rest, last) == DecodedBlock(b, b[0], rest)
  {
    hide LegalTree, Encodes, ItemBits, ItemsBits, AcItems, DecodeDc, DecodeAc, Magnitude, DcItem, NaturalAt, LegalEncoder;
    var diff := b[0] - last;
    var x, y := ItemBits(dce, DcItem(diff)), ItemsBits(ace, AcItems(b, 1, 0));
    Reassociate(x, y, rest);
    assert [DcItem(diff)][0] == DcItem(diff);
    DcDecodes(dce, dc, diff, y + rest);
    FirstPartial(b);
    AcDecodes(ace, ac, b, 1, 0, ZeroBlock()[0 := b[0]], rest);
  }

  lemma FirstPartial(b: Block)
    requires LegalBlock(b)
    ensures Coef(b[0]) == b[0] && Partial(b, 1, ZeroBlock()[0 := b[0]])
  {
    hide NaturalAt;
    StartsWithDc();
    NaturalOrderIsOrder();
    assert forall j :: 0 <= j < 64 ==> NaturalOrder()[j] == NaturalAt(j);
  }

  // ----- Where the restarts are

  /** After the MCUs that are to go there is a restart, if there are more; from there on it is a scan of its own.  No other
      restart comes before it. */
  lemma {:induction false} RestartLaw(c: Coding, n: nat, last: seq<int>, togo: nat, mcus: seq<seq<Block>>)
    requires ValidCoding(c, n) && LegalLast(c, last) && LegalMcus(|c.membership|, mcus) && c.interval > 0
    ensures Plan(c, n, last, togo, mcus) ==
      if |mcus| <= togo then Unbroken(c, n, last, mcus)
      else Unbroken(c, n, last, mcus[..togo]) + ([Restart] + Plan(c, n, NoPrediction(c), c.interval, mcus[togo..]))
    decreases |mcus|
  {
    hide BlockSteps, LastAfter, LegalMcu;
    if mcus == [] {
      assert togo == 0 ==> mcus[..togo] == [];
    } else if togo == 0 {
      assert mcus[..0] == [] && mcus[0..] == mcus;
    } else {
      McuLegal(c, mcus[0]);
      var start := BlockSteps(c, n, last, c.membership, mcus[0]);
      var next := LastAfter(c, last, c.membership, mcus[0]);
      RestartLaw(c, n, next, togo - 1, mcus[1..]);
      if |mcus| > togo {
        assert mcus[1..][..togo - 1] == mcus[..togo][1..] && mcus[1..][togo - 1..] == mcus[togo..];
        Reassociate(start, Unbroken(c, n, next, mcus[1..][..togo - 1]), [Restart] + Plan(c, n, NoPrediction(c), c.interval, mcus[togo..]));
      }
    }
  }

  lemma McuLegal(c: Coding, mcu: seq<Block>)
    requires LegalMcu(|c.membership|, mcu)
    ensures |mcu| == |c.membership| && LegalBlocks(mcu)
  {
  }

  /** MCUs without restarts. */
  function Unbroken(c: Coding, n: nat, last: seq<int>, mcus: seq<seq<Block>>): seq<Step>
    requires ValidCoding(c, n) && LegalLast(c, last) && LegalMcus(|c.membership|, mcus)
    decreases |mcus|
  {
    if mcus == [] then []
    else BlockSteps(c, n, last, c.membership, mcus[0]) + Unbroken(c, n, LastAfter(c, last, c.membership, mcus[0]), mcus[1..])
  }
}
