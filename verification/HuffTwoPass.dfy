/** Two-pass Huffman coding: the tables are made for the counted symbols, and serve to code the scan. */
module HuffTwoPass {
  import opened Bytes
  import opened Sums
  import opened HuffOptimal
  import opened HuffBuild
  import opened HuffGen
  import opened HuffTable
  import opened HuffBlock
  import opened HuffEncoder
  import opened HuffPlan
  import opened HuffStats
  import opened HuffScanDecoder
  import opened HuffScanEncoder
  import opened HuffTranscode
  import opened ZigZag

  // ----- The counts of a plan

  function DcCounts(plan: seq<Step>, n: nat, tbl: nat): (w: seq<nat>)
    requires LegalPlan(plan, n)
    ensures |w| == N
  {
    seq(N, s => DcUses(plan, n, tbl, s))
  }

  function AcCounts(plan: seq<Step>, n: nat, tbl: nat): (w: seq<nat>)
    requires LegalPlan(plan, n)
    ensures |w| == N
  {
    seq(N, s => AcUses(plan, n, tbl, s))
  }

  lemma {:induction false} SmallSymbolsOnly(items: seq<Item>, limit: nat, s: int)
    requires forall i :: 0 <= i < |items| ==> items[i].symbol % 16 <= limit
    requires 0 <= s && s % 16 > limit
    ensures Tally(items, s) == 0
  {
    if items != [] { SmallSymbolsOnly(items[..|items| - 1], limit, s); }
  }

  lemma {:induction false} AcSymbolsSmall(b: Block, k: nat, r: nat)
    requires LegalBlock(b) && 1 <= k <= 64 && AcFits(b, 64)
    ensures forall i :: 0 <= i < |AcItems(b, k, r)| ==> AcItems(b, k, r)[i].symbol % 16 <= MAX_COEF_BITS
    decreases 64 - k, r
  {
    hide NaturalAt, NBits, Extra;
    if k < 64 {
      if b[NaturalAt(k)] == 0 {
        AcSymbolsSmall(b, k + 1, r + 1);
      } else if r > 15 {
        AcSymbolsSmall(b, k, r - 16);
      } else {
        AcSymbolsSmall(b, k + 1, 0);
        SymbolParts(r, b[NaturalAt(k)]);
      }
    }
  }

  /** Symbols 0xFE and 0xFF never occur, so a table of counts has at most 254 used symbols. */
  lemma {:induction false} LastSymbolsUnused(plan: seq<Step>, n: nat, tbl: nat, s: int)
    requires LegalPlan(plan, n) && PlanFits(plan) && 254 <= s <= 255
    ensures DcUses(plan, n, tbl, s) == 0 && AcUses(plan, n, tbl, s) == 0
  {
    hide AcItems, Tally, LegalStep, StepFits, DcItem;
    if plan != [] {
      LastSymbolsUnused(plan[1..], n, tbl, s);
      assert StepFits(plan[0]) && LegalStep(plan[0], n);
      if plan[0].Code? {
        StepSymbolsSmall(plan[0], n, s);
      }
    }
  }

  lemma StepSymbolsSmall(step: Step, n: nat, s: int)
    requires LegalStep(step, n) && StepFits(step) && step.Code? && 254 <= s <= 255
    ensures Tally([DcItem(step.diff)], s) == 0 && Tally(AcItems(step.b, 1, 0), s) == 0
  {
    hide AcItems, Tally, LegalBlock, Magnitude, AcFits, NBits, DcItem;
    AcSymbolsSmall(step.b, 1, 0);
    SmallSymbolsOnly(AcItems(step.b, 1, 0), MAX_COEF_BITS, s);
    DcItemSmall(step.diff);
    TallyOne(DcItem(step.diff), s);
  }

  lemma DcItemSmall(diff: int)
    requires Magnitude(diff) < 32768 && NBits(Magnitude(diff)) <= MAX_COEF_BITS + 1
    ensures DcItem(diff).symbol <= MAX_COEF_BITS + 1
  {
  }

  lemma {:induction false} UsedAtMost(w: seq<nat>)
    ensures Used(w) <= |w|
  {
    if w != [] { UsedAtMost(w[..|w| - 1]); }
  }

  lemma AtMost254(w: seq<nat>)
    requires |w| == N && w[254] == 0 && w[255] == 0
    ensures RealSymbols(w) <= 254
  {
    UsedAtMost(w[..254]);
    assert w[..256][..255] == w[..255] && w[..255][..254] == w[..254];
    assert Used(w[..255]) == Used(w[..254]) && Used(w[..256]) == Used(w[..255]);
  }

  lemma {:induction false} AtLeastOne(w: seq<nat>, s: nat)
    requires s < |w| && w[s] > 0
    ensures Used(w) >= 1
  {
    if s < |w| - 1 { AtLeastOne(w[..|w| - 1], s); }
  }

  /** Every block uses a symbol of its DC table and one of its AC table. */
  lemma {:induction false} StepUses(plan: seq<Step>, n: nat, i: nat)
    requires LegalPlan(plan, n) && i < |plan| && plan[i].Code?
    ensures exists s :: 0 <= s < 256 && DcUses(plan, n, plan[i].dcTbl, s) > 0
    ensures exists s :: 0 <= s < 256 && AcUses(plan, n, plan[i].acTbl, s) > 0
  {
    hide AcItems, DcItem, Tally;
    if i == 0 {
      assert LegalStep(plan[0], n);
      StepSymbols(plan[0], n);
      var s :| 0 <= s < 256 && Tally([DcItem(plan[0].diff)], s) > 0;
      assert DcUses(plan, n, plan[i].dcTbl, s) > 0;
      var r :| 0 <= r < 256 && Tally(AcItems(plan[0].b, 1, 0), r) > 0;
      assert AcUses(plan, n, plan[i].acTbl, r) > 0;
    } else {
      StepUses(plan[1..], n, i - 1);
      var s :| 0 <= s < 256 && DcUses(plan[1..], n, plan[i].dcTbl, s) > 0;
      assert DcUses(plan, n, plan[i].dcTbl, s) > 0;
      var r :| 0 <= r < 256 && AcUses(plan[1..], n, plan[i].acTbl, r) > 0;
      assert AcUses(plan, n, plan[i].acTbl, r) > 0;
    }
  }

  lemma StepSymbols(step: Step, n: nat)
    requires LegalStep(step, n) && step.Code?
    ensures exists s :: 0 <= s < 256 && Tally([DcItem(step.diff)], s) > 0
    ensures exists s :: 0 <= s < 256 && Tally(AcItems(step.b, 1, 0), s) > 0
  {
    var d := DcItem(step.diff);
    assert [d][0] == d;
    assert Tally([d], d.symbol) > 0;
    SomeItem(step.b, 1, 0);
    var items := AcItems(step.b, 1, 0);
    assert Tally(items, items[|items| - 1].symbol) > 0;
  }

  lemma {:induction false} SomeItem(b: Block, k: nat, r: nat)
    requires LegalBlock(b) && 1 <= k <= 64 && (k == 64 ==> r > 0)
    ensures AcItems(b, k, r) != []
    decreases 64 - k, r
  {
    hide NaturalAt;
    if k < 64 && b[NaturalAt(k)] == 0 { SomeItem(b, k + 1, r + 1); }
  }

  /** The blocks of an MCU are in the plan. */
  lemma {:induction false} BlocksInPlan(c: Coding, n: nat, last: seq<int>, cis: seq<nat>, bs: seq<Block>, j: nat)
    requires ValidCoding(c, n) && LegalLast(c, last) && Members(c, cis) && |cis| == |bs| && LegalBlocks(bs) && j < |cis|
    ensures var steps := BlockSteps(c, n, last, cis, bs);
      j < |steps| && steps[j].Code? && steps[j].dcTbl == c.dcTbl[cis[j]] && steps[j].acTbl == c.acTbl[cis[j]]
    decreases |bs|
  {
    if j > 0 { BlocksInPlan(c, n, NextLast(c, last, cis[0], bs[0]), cis[1..], bs[1..], j - 1); }
  }

  /** A table is in use if a component of the scan has it. */
  predicate DcInUse(c: Coding, tbl: nat)
    requires |c.dcTbl| == |c.acTbl|
  {
    tbl in c.dcTbl
  }

  predicate AcInUse(c: Coding, tbl: nat)
    requires |c.dcTbl| == |c.acTbl|
  {
    tbl in c.acTbl
  }

  /** Every component of the scan has a block in each MCU. */
  predicate AllPresent(c: Coding) {
    forall ci :: 0 <= ci < |c.dcTbl| ==> ci in c.membership
  }

  /** The counts of a table in use fit the table generator. */
  lemma CountsUsable(c: Coding, n: nat, mcus: seq<seq<Block>>, tbl: nat)
    requires ValidCoding(c, n) && LegalMcus(|c.membership|, mcus) && mcus != [] && AllPresent(c)
    requires PlanFits(Plan(c, n, NoPrediction(c), c.interval, mcus))
    ensures var plan := Plan(c, n, NoPrediction(c), c.interval, mcus);
      && (DcInUse(c, tbl) ==> 1 <= RealSymbols(DcCounts(plan, n, tbl)) <= 254)
      && (AcInUse(c, tbl) ==> 1 <= RealSymbols(AcCounts(plan, n, tbl)) <= 254)
  {
    hide DcUses, AcUses, BlockSteps, PlanFits, Used, LastAfter;
    var plan := Plan(c, n, NoPrediction(c), c.interval, mcus);
    LastSymbolsUnused(plan, n, tbl, 254);
    LastSymbolsUnused(plan, n, tbl, 255);
    AtMost254(DcCounts(plan, n, tbl));
    AtMost254(AcCounts(plan, n, tbl));
    if DcInUse(c, tbl) {
      var ci :| 0 <= ci < |c.dcTbl| && c.dcTbl[ci] == tbl;
      var i := ComponentStep(c, n, mcus, ci);
      StepUses(plan, n, i);
      var s :| 0 <= s < 256 && DcUses(plan, n, tbl, s) > 0;
      AtLeastOne(DcCounts(plan, n, tbl)[..256], s);
    }
    if AcInUse(c, tbl) {
      var ci :| 0 <= ci < |c.acTbl| && c.acTbl[ci] == tbl;
      var i := ComponentStep(c, n, mcus, ci);
      StepUses(plan, n, i);
      var s :| 0 <= s < 256 && AcUses(plan, n, tbl, s) > 0;
      AtLeastOne(AcCounts(plan, n, tbl)[..256], s);
    }
  }

  lemma ComponentStep(c: Coding, n: nat, mcus: seq<seq<Block>>, ci: nat) returns (i: nat)
    requires ValidCoding(c, n) && LegalMcus(|c.membership|, mcus) && mcus != [] && AllPresent(c) && ci < |c.dcTbl|
    ensures var plan := Plan(c, n, NoPrediction(c), c.interval, mcus);
      i < |plan| && plan[i].Code? && plan[i].dcTbl == c.dcTbl[ci] && plan[i].acTbl == c.acTbl[ci]
  {
    hide BlockSteps, LastAfter;
    var plan := Plan(c, n, NoPrediction(c), c.interval, mcus);
    var start := NoPrediction(c);
    assert LegalMcu(|c.membership|, mcus[0]);
    var steps := BlockSteps(c, n, start, c.membership, mcus[0]);
    assert ci in c.membership;
    var j :| 0 <= j < |c.membership| && c.membership[j] == ci;
    BlocksInPlan(c, n, start, c.membership, mcus[0], j);
    assert !RestartDue(c, c.interval);
    assert plan == [] + (steps + Plan(c, n, LastAfter(c, start, c.membership, mcus[0]), ToGo(c, c.interval), mcus[1..]));
    i := j;
  }

  // ----- The two passes

  /** The coefficients of all MCUs are in the range the statistics pass accepts. */
  predicate ScanFits(c: Coding, n: nat, last: seq<int>, togo: nat, mcus: seq<seq<Block>>)
    requires ValidCoding(c, n) && LegalLast(c, last) && LegalMcus(|c.membership|, mcus)
    decreases |mcus|
  {
    mcus != [] ==>
      var start := if RestartDue(c, togo) then NoPrediction(c) else last;
      && StatsPass.BlocksFit(c, n, start, c.membership, mcus[0])
      && ScanFits(c, n, LastAfter(c, start, c.membership, mcus[0]), ToGo(c, togo), mcus[1..])
  }

  lemma NextMcu(c: Coding, n: nat, last: seq<int>, togo: nat, mcus: seq<seq<Block>>, before: seq<Step>)
    requires ValidCoding(c, n) && LegalLast(c, last) && LegalMcus(|c.membership|, mcus) && mcus != []
    ensures LegalMcu(|c.membership|, mcus[0]) && LegalMcus(|c.membership|, mcus[1..]) && Members(c, c.membership)
    ensures var due := RestartDue(c, togo);
      var start := if due then NoPrediction(c) else last;
      var next := LastAfter(c, start, c.membership, mcus[0]);
      && ScanFits(c, n, last, togo, mcus)
         == (StatsPass.BlocksFit(c, n, start, c.membership, mcus[0]) && ScanFits(c, n, next, ToGo(c, togo), mcus[1..]))
      && before + Plan(c, n, last, togo, mcus)
         == (before + (if due then [Restart] else []) + BlockSteps(c, n, start, c.membership, mcus[0]))
            + Plan(c, n, next, ToGo(c, togo), mcus[1..])
  {
    hide BlockSteps, LastAfter, StatsPass.BlocksFit;
    var due := RestartDue(c, togo);
    var start := if due then NoPrediction(c) else last;
    var next := LastAfter(c, start, c.membership, mcus[0]);
    var r, steps, rest := if due then [Restart] else [], BlockSteps(c, n, start, c.membership, mcus[0]), Plan(c, n, next, ToGo(c, togo), mcus[1..]);
    Reassociate(before, r, steps + rest);
    Reassociate(before + r, steps, rest);
  }

  /** The statistics pass over a scan: it counts exactly the symbols of the plan the output pass follows. */
  method GatherScan(sp: StatsPass, mcus: seq<seq<Block>>) returns (ok: bool)
    requires sp.Valid() && sp.plan == [] && LegalMcus(|sp.coding.membership|, mcus)
    requires sp.last_dc_val == NoPrediction(sp.coding) && sp.restarts_to_go == sp.coding.interval
    modifies sp, sp.dc_counts, sp.ac_counts
    ensures ValidCoding(sp.coding, sp.n)
    ensures ok <==> ScanFits(sp.coding, sp.n, NoPrediction(sp.coding), sp.coding.interval, mcus)
    ensures ok ==> sp.Valid() && sp.plan == Plan(sp.coding, sp.n, NoPrediction(sp.coding), sp.coding.interval, mcus)
  {
    hide DcUses, AcUses, Plan, ScanFits, StatsPass.Valid, StatsPass.BlocksFit, BlockSteps, LastAfter;
    sp.Start();
    ghost var c, n := sp.coding, sp.n;
    ghost var whole, fits := Plan(c, n, sp.last_dc_val, sp.restarts_to_go, mcus), ScanFits(c, n, sp.last_dc_val, sp.restarts_to_go, mcus);
    assert [] + whole == whole && mcus[0..] == mcus;
    var i := 0;
    while i < |mcus|
      invariant 0 <= i <= |mcus| && sp.Valid() && LegalLast(c, sp.last_dc_val)
      invariant sp.plan + Plan(c, n, sp.last_dc_val, sp.restarts_to_go, mcus[i..]) == whole
      invariant ScanFits(c, n, sp.last_dc_val, sp.restarts_to_go, mcus[i..]) == fits
    {
      NextMcu(c, n, sp.last_dc_val, sp.restarts_to_go, mcus[i..], sp.plan);
      assert mcus[i..][1..] == mcus[i + 1..];
      ok := sp.GatherMcu(mcus[i]);
      if !ok {
        return;
      }
      sp.StillLegal();
      i := i + 1;
    }
    assert mcus[i..] == [];
    NoMcus(c, n, sp.last_dc_val, sp.restarts_to_go, sp.plan);
    ok := true;
  }

  lemma NoMcus(c: Coding, n: nat, last: seq<int>, togo: nat, plan: seq<Step>)
    requires ValidCoding(c, n) && LegalLast(c, last)
    ensures plan + Plan(c, n, last, togo, []) == plan && ScanFits(c, n, last, togo, [])
  {
  }

  /** The table lists exactly the symbols of these counts. */
  ghost predicate Optimized(t: Table, w: seq<nat>, isDC: bool)
    requires |w| == N
  {
    && WellFormed(t) && (if isDC then LegalDc(t) else LegalAc(t))
    && forall s :: 0 <= s < 256 ==> (Lists(t, s) <==> w[s] > 0)
  }

  method OptimizeTable(freq: array<nat>, isDC: bool) returns (ok: bool, t: Table)
    requires freq.Length == N && 1 <= RealSymbols(freq[..]) <= 254 && Sum(WithPseudo(freq[..])) <= MAX_COUNT
    requires isDC ==> forall s :: 16 <= s < 256 ==> freq[s] == 0
    modifies freq
    ensures Sum(WithPseudo(old(freq[..]))) < 9227465 ==> ok
    ensures ok ==> Optimized(t, old(freq[..]), isDC)
  {
    hide Cost, HuffmanCost, KraftUsed, Used, Sum;
    ghost var before := freq[..];
    ghost var size;
    ok, t, size := GenOptimalTable(freq);
    if ok {
      ListedSymbols(t, before, size, isDC);
    }
  }

  lemma ListedSymbols(t: Table, freq: seq<nat>, size: seq<nat>, isDC: bool)
    requires |freq| == |size| == N && WellFormed(t) && ListsCounted(t, WithPseudo(freq), size)
    requires LegalTree(t.bits) && LegalSymbols(t, false, CodesTo(t.bits, 16))
    requires isDC ==> forall s :: 16 <= s < 256 ==> freq[s] == 0
    ensures Optimized(t, freq, isDC)
  {
    hide LegalTree, CodesTo, Used;
    var n := CodesTo(t.bits, 16);
    forall p | 0 <= p < n && isDC
      ensures t.vals[p] <= 15
    {
      assert t.vals[..Min256(n)][p] == t.vals[p];
      assert Lists(t, t.vals[p]);
    }
  }

  // ----- Tables not in use have no counts

  ghost predicate OnlyTables(c: Coding, plan: seq<Step>) {
    forall i :: 0 <= i < |plan| && plan[i].Code? ==> plan[i].dcTbl in c.dcTbl && plan[i].acTbl in c.acTbl
  }

  lemma {:induction false} BlocksOnly(c: Coding, n: nat, last: seq<int>, cis: seq<nat>, bs: seq<Block>)
    requires ValidCoding(c, n) && LegalLast(c, last) && Members(c, cis) && |cis| == |bs| && LegalBlocks(bs)
    ensures OnlyTables(c, BlockSteps(c, n, last, cis, bs))
    decreases |bs|
  {
    if bs != [] { BlocksOnly(c, n, NextLast(c, last, cis[0], bs[0]), cis[1..], bs[1..]); }
  }

  lemma {:induction false} PlanOnly(c: Coding, n: nat, last: seq<int>, togo: nat, mcus: seq<seq<Block>>)
    requires ValidCoding(c, n) && LegalLast(c, last) && LegalMcus(|c.membership|, mcus)
    ensures OnlyTables(c, Plan(c, n, last, togo, mcus))
    decreases |mcus|
  {
    hide BlockSteps, LastAfter;
    if mcus != [] {
      var start := if RestartDue(c, togo) then NoPrediction(c) else last;
      assert LegalMcu(|c.membership|, mcus[0]);
      BlocksOnly(c, n, start, c.membership, mcus[0]);
      PlanOnly(c, n, LastAfter(c, start, c.membership, mcus[0]), ToGo(c, togo), mcus[1..]);
    }
  }

  lemma {:induction false} UnusedTable(c: Coding, n: nat, plan: seq<Step>, tbl: nat, s: int)
    requires LegalPlan(plan, n) && OnlyTables(c, plan)
    ensures tbl !in c.dcTbl ==> DcUses(plan, n, tbl, s) == 0
    ensures tbl !in c.acTbl ==> AcUses(plan, n, tbl, s) == 0
  {
    hide LegalStep, Tally;
    if plan != [] { UnusedTable(c, n, plan[1..], tbl, s); }
  }

  // ----- Making the tables

  /** The tables made so far are optimized; the counts of the others are untouched. */
  ghost predicate DcMade(t: seq<Table>, t0: seq<Table>, made: seq<bool>, counts: seq<array<nat>>, plan: seq<Step>, n: nat)
    reads counts
    requires LegalPlan(plan, n) && |t| == |t0| == |made| == |counts| == n
  {
    forall i :: 0 <= i < n ==>
      if made[i] then Optimized(t[i], DcCounts(plan, n, i), true)
      else t[i] == t0[i] && counts[i][..] == DcCounts(plan, n, i)
  }

  ghost predicate AcMade(t: seq<Table>, t0: seq<Table>, made: seq<bool>, counts: seq<array<nat>>, plan: seq<Step>, n: nat)
    reads counts
    requires LegalPlan(plan, n) && |t| == |t0| == |made| == |counts| == n
  {
    forall i :: 0 <= i < n ==>
      if made[i] then Optimized(t[i], AcCounts(plan, n, i), false)
      else t[i] == t0[i] && counts[i][..] == AcCounts(plan, n, i)
  }

  /** The total of the counts of each table does not exceed what the generator can take. */
  ghost predicate TotalsBelow(c: Coding, n: nat, plan: seq<Step>, limit: int)
    requires LegalPlan(plan, n)
  {
    && (forall tbl :: 0 <= tbl < n ==> Sum(DcCounts(plan, n, tbl)) < limit)
    && forall tbl :: 0 <= tbl < n ==> Sum(AcCounts(plan, n, tbl)) < limit
  }

  lemma PseudoTotal(w: seq<nat>)
    requires |w| == N
    ensures Sum(WithPseudo(w)) <= Sum(w) + 1
  {
    SumUpdate(w, 256, 1);
  }

  lemma {:induction false} HighDcUnused(plan: seq<Step>, n: nat, tbl: nat, s: int)
    requires LegalPlan(plan, n) && PlanFits(plan) && s >= 16
    ensures DcUses(plan, n, tbl, s) == 0
  {
    hide AcItems, LegalBlock, Magnitude;
    if plan != [] {
      HighDcUnused(plan[1..], n, tbl, s);
      assert StepFits(plan[0]) && LegalStep(plan[0], n);
      if plan[0].Code? {
        DcItemSmall(plan[0].diff);
        TallyOne(DcItem(plan[0].diff), s);
      }
    }
  }

  lemma TallyOne(item: Item, s: int)
    ensures Tally([item], s) == if item.symbol == s then 1 else 0
  {
    assert [item][..0] == [];
  }

  /** The tables of a scan: those in use optimized for the plan, the others as they were. */
  ghost predicate Finished(c: Coding, n: nat, t: Tables, t0: Tables, plan: seq<Step>)
    requires LegalPlan(plan, n)
  {
    && |t.dc| == |t.ac| == |t0.dc| == |t0.ac| == n
    && (forall i :: 0 <= i < n ==> if i in c.dcTbl then Optimized(t.dc[i], DcCounts(plan, n, i), true) else t.dc[i] == t0.dc[i])
    && forall i :: 0 <= i < n ==> if i in c.acTbl then Optimized(t.ac[i], AcCounts(plan, n, i), false) else t.ac[i] == t0.ac[i]
  }

  // One table of finish_pass_gather, unless it is done already.
  method FinishDc(sp: StatsPass, tbl: nat, t: seq<Table>, made: seq<bool>, ghost t0: seq<Table>, ghost ac: seq<Table>,
                  ghost acMade: seq<bool>, ghost ac0: seq<Table>)
    returns (ok: bool, t': seq<Table>, made': seq<bool>)
    requires sp.Allocated() && LegalPlan(sp.plan, sp.n) && PlanFits(sp.plan) && tbl < sp.n
    requires |t| == |t0| == |made| == |ac| == |ac0| == |acMade| == sp.n
    requires DcMade(t, t0, made, sp.dc_counts, sp.plan, sp.n) && AcMade(ac, ac0, acMade, sp.ac_counts, sp.plan, sp.n)
    requires 1 <= RealSymbols(DcCounts(sp.plan, sp.n, tbl)) <= 254 && Sum(DcCounts(sp.plan, sp.n, tbl)) < MAX_COUNT
    modifies sp.dc_counts
    ensures Sum(DcCounts(sp.plan, sp.n, tbl)) < 9227464 ==> ok
    ensures |t'| == |made'| == sp.n
    ensures ok ==> DcMade(t', t0, made', sp.dc_counts, sp.plan, sp.n) && AcMade(ac, ac0, acMade, sp.ac_counts, sp.plan, sp.n)
    ensures ok ==> made' == made[tbl := true]
  {
    hide DcUses, AcUses, LegalPlan, PlanFits, Optimized, Used, Sum;
    ok, t', made' := true, t, made;
    if !made[tbl] {
      ghost var w := DcCounts(sp.plan, sp.n, tbl);
      PseudoTotal(w);
      forall s | 16 <= s < 256
        ensures w[s] == 0
      {
        HighDcUnused(sp.plan, sp.n, tbl, s);
      }
      assert sp.dc_counts[tbl][..] == w;
      var table;
      ok, table := OptimizeTable(sp.dc_counts[tbl], true);
      t', made' := t[tbl := table], made[tbl := true];
    }
  }

  method FinishAc(sp: StatsPass, tbl: nat, t: seq<Table>, made: seq<bool>, ghost t0: seq<Table>, ghost dc: seq<Table>,
                  ghost dcMade: seq<bool>, ghost dc0: seq<Table>)
    returns (ok: bool, t': seq<Table>, made': seq<bool>)
    requires sp.Allocated() && LegalPlan(sp.plan, sp.n) && PlanFits(sp.plan) && tbl < sp.n
    requires |t| == |t0| == |made| == |dc| == |dc0| == |dcMade| == sp.n
    requires AcMade(t, t0, made, sp.ac_counts, sp.plan, sp.n) && DcMade(dc, dc0, dcMade, sp.dc_counts, sp.plan, sp.n)
    requires 1 <= RealSymbols(AcCounts(sp.plan, sp.n, tbl)) <= 254 && Sum(AcCounts(sp.plan, sp.n, tbl)) < MAX_COUNT
    modifies sp.ac_counts
    ensures Sum(AcCounts(sp.plan, sp.n, tbl)) < 9227464 ==> ok
    ensures |t'| == |made'| == sp.n
    ensures ok ==> AcMade(t', t0, made', sp.ac_counts, sp.plan, sp.n) && DcMade(dc, dc0, dcMade, sp.dc_counts, sp.plan, sp.n)
    ensures ok ==> made' == made[tbl := true]
  {
    hide DcUses, AcUses, LegalPlan, PlanFits, Optimized, Used, Sum;
    ok, t', made' := true, t, made;
    if !made[tbl] {
      ghost var w := AcCounts(sp.plan, sp.n, tbl);
      PseudoTotal(w);
      assert sp.ac_counts[tbl][..] == w;
      var table;
      ok, table := OptimizeTable(sp.ac_counts[tbl], false);
      t', made' := t[tbl := table], made[tbl := true];
    }
  }

  lemma PrefixSnoc(s: seq<nat>, i: nat)
    requires i < |s|
    ensures s[..i + 1] == s[..i] + [s[i]]
  {
  }

  /** finish_pass_gather: creates the new tables for the counts of the scan. */
  method FinishPass(sp: StatsPass, t0: Tables, ghost mcus: seq<seq<Block>>) returns (ok: bool, t: Tables)
    requires sp.Valid() && |t0.dc| == |t0.ac| == sp.n && mcus != [] && AllPresent(sp.coding) && LegalMcus(|sp.coding.membership|, mcus)
    requires sp.plan == Plan(sp.coding, sp.n, NoPrediction(sp.coding), sp.coding.interval, mcus)
    requires TotalsBelow(sp.coding, sp.n, sp.plan, MAX_COUNT)
    modifies sp.dc_counts, sp.ac_counts
    ensures TotalsBelow(sp.coding, sp.n, sp.plan, 9227464) ==> ok
    ensures ok ==> LegalPlan(sp.plan, sp.n) && Finished(sp.coding, sp.n, t, t0, sp.plan)
  {
    hide DcUses, AcUses, LegalPlan, PlanFits, Optimized, Used, Sum, Plan, LegalMcu, DcMade, AcMade;
    var c, n := sp.coding, sp.n;
    ghost var plan := sp.plan;
    var did_dc, did_ac := seq(n, _ => false), seq(n, _ => false);
    t := t0;
    NothingMade(sp, t0, did_dc, did_ac);
    var ci := 0;
    while ci < |c.dcTbl|
      invariant 0 <= ci <= |c.dcTbl| && sp.plan == plan
      invariant |t.dc| == |t.ac| == |did_dc| == |did_ac| == n
      invariant DcMade(t.dc, t0.dc, did_dc, sp.dc_counts, plan, n) && AcMade(t.ac, t0.ac, did_ac, sp.ac_counts, plan, n)
      invariant forall i :: 0 <= i < n ==> (did_dc[i] <==> i in c.dcTbl[..ci]) && (did_ac[i] <==> i in c.acTbl[..ci])
    {
      var dctbl, actbl := c.dcTbl[ci], c.acTbl[ci];
      CountsUsable(c, n, mcus, dctbl);
      CountsUsable(c, n, mcus, actbl);
      var dc, ac;
      ok, dc, did_dc := FinishDc(sp, dctbl, t.dc, did_dc, t0.dc, t.ac, did_ac, t0.ac);
      if !ok {
        return;
      }
      ok, ac, did_ac := FinishAc(sp, actbl, t.ac, did_ac, t0.ac, dc, did_dc, t0.dc);
      if !ok {
        return;
      }
      t := Tables(dc, ac);
      PrefixSnoc(c.dcTbl, ci);
      PrefixSnoc(c.acTbl, ci);
      ci := ci + 1;
    }
    assert c.dcTbl[..ci] == c.dcTbl && c.acTbl[..ci] == c.acTbl;
    AllMade(sp, t, t0, did_dc, did_ac);
    ok := true;
  }

  lemma NothingMade(sp: StatsPass, t0: Tables, did_dc: seq<bool>, did_ac: seq<bool>)
    requires sp.Valid() && |t0.dc| == |t0.ac| == |did_dc| == |did_ac| == sp.n
    requires forall i :: 0 <= i < sp.n ==> !did_dc[i] && !did_ac[i]
    ensures DcMade(t0.dc, t0.dc, did_dc, sp.dc_counts, sp.plan, sp.n)
    ensures AcMade(t0.ac, t0.ac, did_ac, sp.ac_counts, sp.plan, sp.n)
  {
    hide DcUses, AcUses, LegalPlan, PlanFits, Optimized;
  }

  lemma AllMade(sp: StatsPass, t: Tables, t0: Tables, did_dc: seq<bool>, did_ac: seq<bool>)
    requires LegalPlan(sp.plan, sp.n) && |t0.dc| == |t0.ac| == |did_dc| == |did_ac| == sp.n == |t.dc| == |t.ac| == |sp.dc_counts| == |sp.ac_counts|
    requires DcMade(t.dc, t0.dc, did_dc, sp.dc_counts, sp.plan, sp.n) && AcMade(t.ac, t0.ac, did_ac, sp.ac_counts, sp.plan, sp.n)
    requires forall i :: 0 <= i < sp.n ==> (did_dc[i] <==> i in sp.coding.dcTbl) && (did_ac[i] <==> i in sp.coding.acTbl)
    ensures Finished(sp.coding, sp.n, t, t0, sp.plan)
  {
    hide DcUses, AcUses, LegalPlan, PlanFits, Optimized;
  }

  /** The optimized tables have a code for every symbol the output pass emits, and are accepted by both
      table builders. */
  lemma OptimizedSuffice(c: Coding, n: nat, t: Tables, t0: Tables, mcus: seq<seq<Block>>)
    requires ValidCoding(c, n) && LegalMcus(|c.membership|, mcus) && LegalTables(t0, n) && AllLegal(t0, n)
    requires Finished(c, n, t, t0, Plan(c, n, NoPrediction(c), c.interval, mcus))
    ensures LegalTables(t, n) && AllLegal(t, n)
    ensures Sufficient(t, n, Plan(c, n, NoPrediction(c), c.interval, mcus))
  {
    hide DcUses, AcUses, LegalDc, LegalAc, WellFormed, Lists, Plan;
    var plan := Plan(c, n, NoPrediction(c), c.interval, mcus);
    PlanOnly(c, n, NoPrediction(c), c.interval, mcus);
    forall tbl, s | 0 <= tbl < n && 0 <= s < 256 && DcUses(plan, n, tbl, s) > 0
      ensures Lists(t.dc[tbl], s)
    {
      UnusedTable(c, n, plan, tbl, s);
      assert DcCounts(plan, n, tbl)[s] > 0;
    }
    forall tbl, s | 0 <= tbl < n && 0 <= s < 256 && AcUses(plan, n, tbl, s) > 0
      ensures Lists(t.ac[tbl], s)
    {
      UnusedTable(c, n, plan, tbl, s);
      assert AcCounts(plan, n, tbl)[s] > 0;
    }
  }

  datatype Outcome = BadCoefficient | CodeTooLong | Done(mcus: seq<seq<Block>>)

  /** Two passes over a scan: gather statistics, make the optimal tables, code the scan with them and decode
      it.  Decoding gives back the MCUs.  The first pass fails exactly if a coefficient is out of its range;
      making the tables can only fail if a table is used millions of times. */
  method TwoPassScan(coding: Coding, n: nat, t0: Tables, mcus: seq<seq<Block>>, marker: byte, tail: seq<byte>)
    returns (r: Outcome)
    requires ValidCoding(coding, n) && LegalTables(t0, n) && AllLegal(t0, n) && 0 < marker < 0xFF
    requires LegalMcus(|coding.membership|, mcus) && mcus != [] && AllPresent(coding)
    requires TotalsBelow(coding, n, Plan(coding, n, NoPrediction(coding), coding.interval, mcus), MAX_COUNT)
    ensures r.BadCoefficient? <==> !ScanFits(coding, n, NoPrediction(coding), coding.interval, mcus)
    ensures r.CodeTooLong? ==> !TotalsBelow(coding, n, Plan(coding, n, NoPrediction(coding), coding.interval, mcus), 9227464)
    ensures r.Done? ==> r.mcus == mcus
  {
    hide Plan, ScanFits, TotalsBelow, LegalMcu, LegalTables, AllLegal, Sufficient, Finished;
    CodingParts(coding, n);
    var sp := new StatsPass(coding, n);
    var ok := GatherScan(sp, mcus);
    if !ok {
      return BadCoefficient;
    }
    var t;
    TablesSized(t0, n);
    ok, t := FinishPass(sp, t0, mcus);
    if !ok {
      return CodeTooLong;
    }
    OptimizedSuffice(coding, n, t, t0, mcus);
    var decoded;
    ok, decoded := TranscodeScan(coding, n, t, mcus, marker, tail);
    r := Done(decoded);
  }

  lemma TablesSized(t: Tables, n: nat)
    requires LegalTables(t, n)
    ensures |t.dc| == |t.ac| == n
  {
  }

  /** The source's comment on coefficients holds for all legal 8-bit values but one: -1024 takes 11 bits,
      and the statistics pass rejects it as an AC coefficient. */
  lemma LegalCoefFits(v: int)
    requires -1024 <= v <= 1023
    ensures NBits(Magnitude(v)) <= MAX_COEF_BITS <==> v != -1024
  {
    ShlEight(1);
    assert Pow2(10) == 2 * Pow2(9) == 4 * Pow2(8) == 1024;
    if v != -1024 {
      NBitsBound(Magnitude(v), 10);
    } else {
      NBitsAbove(1024, 10);
    }
  }

  lemma {:induction false} NBitsAbove(u: nat, n: nat)
    requires u >= Pow2(n)
    ensures NBits(u) > n
  {
    if n > 0 { NBitsAbove(u / 2, n - 1); }
  }
}
