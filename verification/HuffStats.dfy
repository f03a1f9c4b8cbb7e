/** The statistics pass: counting the symbols that the output pass would emit. */
module HuffStats {
  import opened HuffTable
  import opened HuffBlock
  import opened HuffEncoder
  import opened HuffPlan
  import opened ZigZag

  // ----- Uses of symbols over plans

  lemma {:induction false} UsesConcat(p: seq<Step>, q: seq<Step>, n: nat, tbl: nat, s: int)
    requires LegalPlan(p, n) && LegalPlan(q, n)
    ensures LegalPlan(p + q, n)
    ensures DcUses(p + q, n, tbl, s) == DcUses(p, n, tbl, s) + DcUses(q, n, tbl, s)
    ensures AcUses(p + q, n, tbl, s) == AcUses(p, n, tbl, s) + AcUses(q, n, tbl, s)
  {
    hide LegalStep, Tally, DcItem, AcItems;
    if p == [] {
      assert p + q == q;
    } else {
      UsesConcat(p[1..], q, n, tbl, s);
      assert (p + q)[1..] == p[1..] + q;
    }
  }

  /** How often the symbol of one step is used. */
  function StepDc(step: Step, n: nat, tbl: nat, s: int): nat
    requires LegalStep(step, n)
  {
    if step.Code? && step.dcTbl == tbl then Tally([DcItem(step.diff)], s) else 0
  }

  function StepAc(step: Step, n: nat, tbl: nat, s: int): nat
    requires LegalStep(step, n)
  {
    if step.Code? && step.acTbl == tbl then Tally(AcItems(step.b, 1, 0), s) else 0
  }

  lemma UsesSnoc(p: seq<Step>, step: Step, n: nat, tbl: nat, s: int)
    requires LegalPlan(p, n) && LegalStep(step, n)
    ensures LegalPlan(p + [step], n)
    ensures DcUses(p + [step], n, tbl, s) == DcUses(p, n, tbl, s) + StepDc(step, n, tbl, s)
    ensures AcUses(p + [step], n, tbl, s) == AcUses(p, n, tbl, s) + StepAc(step, n, tbl, s)
  {
    hide LegalStep, Tally, DcItem, AcItems;
    UsesConcat(p, [step], n, tbl, s);
    assert [step][1..] == [];
  }

  /** The coefficients of the block are in the range the pass accepts. */
  predicate StepFits(step: Step) {
    step.Code? ==> NBits(Magnitude(step.diff)) <= MAX_COEF_BITS + 1 && AcFits(step.b, 64)
  }

  lemma FitsStep(step: Step, last: int)
    requires step.Code? && step.diff == step.b[0] - last && CoefsFit(step.b, last)
    ensures StepFits(step)
  {
  }

  predicate PlanFits(plan: seq<Step>) {
    forall i :: 0 <= i < |plan| ==> StepFits(plan[i])
  }

  // ----- The pass

  class StatsPass {
    const coding: Coding
    const n: nat
    const dc_counts: seq<array<nat>>
    const ac_counts: seq<array<nat>>
    var last_dc_val: seq<int>
    var restarts_to_go: nat

    ghost var plan: seq<Step>

    ghost predicate Allocated() {
      && |dc_counts| == |ac_counts| == n && ValidCoding(coding, n)
      && (forall i :: 0 <= i < n ==> dc_counts[i].Length == ac_counts[i].Length == 257)
      && (forall i, j :: 0 <= i < j < n ==> dc_counts[i] != dc_counts[j] && ac_counts[i] != ac_counts[j])
      && forall i, j :: 0 <= i < n && 0 <= j < n ==> dc_counts[i] != ac_counts[j]
    }

    /** The counts are those of the plan followed so far. */
    ghost predicate Valid()
      reads this, dc_counts, ac_counts
    {
      && Allocated() && LegalLast(coding, last_dc_val) && LegalPlan(plan, n) && PlanFits(plan)
      && (forall tbl, s :: 0 <= tbl < n && 0 <= s < 257 ==> dc_counts[tbl][s] == DcUses(plan, n, tbl, s))
      && forall tbl, s :: 0 <= tbl < n && 0 <= s < 257 ==> ac_counts[tbl][s] == AcUses(plan, n, tbl, s)
    }

    // start_pass_huff with gather_statistics
    constructor (coding: Coding, n: nat)
      requires ValidCoding(coding, n)
      ensures Valid() && plan == [] && this.coding == coding && this.n == n
      ensures last_dc_val == NoPrediction(coding) && restarts_to_go == coding.interval
      ensures forall i :: 0 <= i < n ==> fresh(dc_counts[i]) && fresh(ac_counts[i])
    {
      var dcs: seq<array<nat>>, acs: seq<array<nat>> := [], [];
      for i := 0 to n
        invariant |dcs| == |acs| == i
        invariant forall j :: 0 <= j < i ==> fresh(dcs[j]) && fresh(acs[j])
        invariant forall j :: 0 <= j < i ==> dcs[j].Length == acs[j].Length == 257
        invariant forall j, s :: 0 <= j < i && 0 <= s < 257 ==> dcs[j][s] == acs[j][s] == 0
        invariant forall j, k :: 0 <= j < k < i ==> dcs[j] != dcs[k] && acs[j] != acs[k]
        invariant forall j, k :: 0 <= j < i && 0 <= k < i ==> dcs[j] != acs[k]
      {
        var d, a := new nat[257](_ => 0), new nat[257](_ => 0);
        dcs, acs := dcs + [d], acs + [a];
      }
      this.coding, this.n, dc_counts, ac_counts := coding, n, dcs, acs;
      last_dc_val, restarts_to_go, plan := NoPrediction(coding), coding.interval, [];
    }

    // htest_one_block and the prediction after it
    method GatherBlock(block: Block, ci: nat) returns (ok: bool)
      requires Valid() && LegalBlock(block) && ci < |coding.dcTbl|
      modifies this`last_dc_val, this`plan, dc_counts, ac_counts
      ensures Magnitude(block[0] - old(last_dc_val)[ci]) < 32768
      ensures ok <==> CoefsFit(block, old(last_dc_val)[ci])
      ensures ok ==> Valid() && last_dc_val == NextLast(coding, old(last_dc_val), ci, block)
      ensures ok ==> plan == old(plan) + [Code(coding.dcTbl[ci], coding.acTbl[ci], block[0] - old(last_dc_val)[ci], block)]
    {
      hide DcUses, AcUses, AcItems, Tally, CoefsFit, NextLast, DcItem, LegalPlan;
      ghost var dt, at := coding.dcTbl[ci], coding.acTbl[ci];
      ghost var step := Code(dt, at, block[0] - last_dc_val[ci], block);
      ok := HtestOneBlock(block, last_dc_val[ci], dc_counts[coding.dcTbl[ci]], ac_counts[coding.acTbl[ci]]);
      if !ok {
        return;
      }
      forall tbl, s | 0 <= tbl < n && 0 <= s < 257
        ensures LegalPlan(plan + [step], n)
        ensures dc_counts[tbl][s] == DcUses(plan + [step], n, tbl, s)
        ensures ac_counts[tbl][s] == AcUses(plan + [step], n, tbl, s)
      {
        UsesSnoc(plan, step, n, tbl, s);
      }
      assert LegalPlan(plan + [step], n) by { UsesSnoc(plan, step, n, 0, 0); }
      FitsStep(step, last_dc_val[ci]);
      plan := plan + [step];
      last_dc_val := NextLast(coding, last_dc_val, ci, block);
    }

    /** All coefficients of these blocks are in the range the pass accepts. */
    static predicate BlocksFit(c: Coding, n: nat, last: seq<int>, cis: seq<nat>, bs: seq<Block>)
      requires ValidCoding(c, n) && LegalLast(c, last) && Members(c, cis) && |cis| == |bs| && LegalBlocks(bs)
      decreases |bs|
    {
      bs != [] ==> CoefsFit(bs[0], last[cis[0]]) && BlocksFit(c, n, NextLast(c, last, cis[0], bs[0]), cis[1..], bs[1..])
    }

    method GatherBlocks(mcu: seq<Block>) returns (ok: bool)
      requires Valid() && LegalMcu(|coding.membership|, mcu)
      modifies this`last_dc_val, this`plan, dc_counts, ac_counts
      ensures Members(coding, coding.membership)
      ensures ok <==> BlocksFit(coding, n, old(last_dc_val), coding.membership, mcu)
      ensures ok ==> Valid() && last_dc_val == LastAfter(coding, old(last_dc_val), coding.membership, mcu)
      ensures ok ==> plan == old(plan) + BlockSteps(coding, n, old(last_dc_val), coding.membership, mcu)
    {
      hide DcUses, AcUses, CoefsFit, LegalPlan, BlocksFit, Valid, LegalBlock;
      Start();
      ghost var cis, last, before := coding.membership, last_dc_val, plan;
      assert cis[0..] == cis && mcu[0..] == mcu;
      var blkn := 0;
      while blkn < |mcu|
        invariant 0 <= blkn <= |mcu| && Valid() && LegalLast(coding, last_dc_val)
        invariant BlocksFit(coding, n, last_dc_val, cis[blkn..], mcu[blkn..]) == BlocksFit(coding, n, last, cis, mcu)
        invariant LastAfter(coding, last_dc_val, cis[blkn..], mcu[blkn..]) == LastAfter(coding, last, cis, mcu)
        invariant plan + BlockSteps(coding, n, last_dc_val, cis[blkn..], mcu[blkn..])
               == before + BlockSteps(coding, n, last, cis, mcu)
      {
        assert cis[blkn..][1..] == cis[blkn + 1..] && mcu[blkn..][1..] == mcu[blkn + 1..];
        NextBlock(coding, n, last_dc_val, cis[blkn..], mcu[blkn..], plan);
        ok := GatherBlock(mcu[blkn], coding.membership[blkn]);
        if !ok {
          return;
        }
        StillLegal();
        blkn := blkn + 1;
      }
      assert cis[blkn..] == [] && mcu[blkn..] == [];
      NoBlocks(coding, n, last_dc_val, plan);
      ok := true;
    }

    lemma Start()
      requires Valid()
      ensures ValidCoding(coding, n) && Members(coding, coding.membership) && LegalLast(coding, last_dc_val)
    {
      hide DcUses, AcUses;
    }

    lemma StillLegal()
      requires Valid()
      ensures LegalLast(coding, last_dc_val)
    {
      hide DcUses, AcUses;
    }

    // encode_mcu_gather: trial-encode one MCU.
    method GatherMcu(mcu: seq<Block>) returns (ok: bool)
      requires Valid() && LegalMcu(|coding.membership|, mcu)
      modifies this, dc_counts, ac_counts
      ensures Members(coding, coding.membership) && ValidCoding(coding, n) && LegalLast(coding, old(last_dc_val))
      ensures var due := RestartDue(coding, old(restarts_to_go));
        var start := if due then NoPrediction(coding) else old(last_dc_val);
        && (ok <==> BlocksFit(coding, n, start, coding.membership, mcu))
        && (ok ==> Valid() && last_dc_val == LastAfter(coding, start, coding.membership, mcu)
                   && restarts_to_go == ToGo(coding, old(restarts_to_go))
                   && plan == old(plan) + (if due then [Restart] else []) + BlockSteps(coding, n, start, coding.membership, mcu))
    {
      hide DcUses, AcUses, BlocksFit, BlockSteps, LastAfter, LegalMcu, LegalPlan;
      Start();
      assert plan + [] == plan;
      // Take care of restart intervals if needed
      if coding.interval != 0 {
        if restarts_to_go == 0 {
          RestartCounts();
          plan := plan + [Restart];
          // Re-initialize DC predictions to 0
          last_dc_val := NoPrediction(coding);
          restarts_to_go := coding.interval;
        }
        restarts_to_go := restarts_to_go - 1;
      }
      ok := GatherBlocks(mcu);
    }

    lemma RestartCounts()
      requires LegalPlan(plan, n)
      ensures LegalPlan(plan + [Restart], n)
      ensures forall tbl: nat, s :: DcUses(plan + [Restart], n, tbl, s) == DcUses(plan, n, tbl, s)
      ensures forall tbl: nat, s :: AcUses(plan + [Restart], n, tbl, s) == AcUses(plan, n, tbl, s)
    {
      hide DcUses, AcUses, LegalPlan;
      UsesSnoc(plan, Restart, n, 0, 0);
      forall tbl: nat, s
        ensures DcUses(plan + [Restart], n, tbl, s) == DcUses(plan, n, tbl, s)
        ensures AcUses(plan + [Restart], n, tbl, s) == AcUses(plan, n, tbl, s)
      {
        UsesSnoc(plan, Restart, n, tbl, s);
      }
    }
  }

  lemma NextBlock(c: Coding, n: nat, last: seq<int>, cis: seq<nat>, bs: seq<Block>, plan: seq<Step>)
    requires ValidCoding(c, n) && LegalLast(c, last) && Members(c, cis) && |cis| == |bs| > 0 && LegalBlocks(bs)
    ensures LegalBlock(bs[0]) && cis[0] < |c.dcTbl|
    ensures var ci := cis[0];
      var next, step := NextLast(c, last, ci, bs[0]), Code(c.dcTbl[ci], c.acTbl[ci], bs[0][0] - last[ci], bs[0]);
      && StatsPass.BlocksFit(c, n, last, cis, bs) == (CoefsFit(bs[0], last[ci]) && StatsPass.BlocksFit(c, n, next, cis[1..], bs[1..]))
      && LastAfter(c, last, cis, bs) == LastAfter(c, next, cis[1..], bs[1..])
      && plan + BlockSteps(c, n, last, cis, bs) == (plan + [step]) + BlockSteps(c, n, next, cis[1..], bs[1..])
  {
    hide CoefsFit;
  }

  lemma NoBlocks(c: Coding, n: nat, last: seq<int>, plan: seq<Step>)
    requires ValidCoding(c, n) && LegalLast(c, last)
    ensures StatsPass.BlocksFit(c, n, last, [], []) && LastAfter(c, last, [], []) == last
    ensures plan + BlockSteps(c, n, last, [], []) == plan
  {
  }
}
