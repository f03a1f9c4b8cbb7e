/** Statistics and tables: every scan that writes a Huffman table has had its statistics gathered right before. */
module PassTables {
  import opened MarkerProg
  import opened MarkerSegments
  import opened MarkerStream
  import opened MarkerWriter
  import opened PassMachine
  import opened ProgScript

  /** The scan codes DC differences, or AC coefficients; a refinement of DC coefficients does neither. */
  predicate NeedsTable(s: ScanInfo) {
    (s.ss == 0 && s.ah == 0) || s.se != 0
  }

  predicate ValidScript(ncomps: nat, scans: seq<ScanInfo>) {
    ValidProgressive(ncomps, scans) || ValidSequential(ncomps, scans)
  }

  /** The statistics of scan k are at p, and what follows are its headers and its data. */
  predicate GatheredAt(log: seq<Event>, p: nat, k: nat) {
    && p < |log| && log[p] == Gather(k)
    && if k == 0 then p + 3 < |log| && log[p + 1] == FrameHeader && log[p + 2] == ScanHeader(0) && log[p + 3] == Data(0)
       else p + 2 < |log| && log[p + 1] == ScanHeader(k) && log[p + 2] == Data(k)
  }

  /** The statistics of scan k are gathered once, right before its headers. */
  ghost predicate GatheredOnce(log: seq<Event>, k: nat) {
    exists p: nat :: GatheredAt(log, p, k) && forall q :: 0 <= q < |log| && log[q] == Gather(k) ==> q == p
  }

  // ----- Scripts

  lemma {:induction false} LegalScans(ncomps: nat, p: Bitpos, scans: seq<ScanInfo>, k: nat)
    requires LegalBitpos(ncomps, p) && LegalFrom(ncomps, p, scans) && k < |scans|
    ensures LegalParameters(scans[k]) && LegalComps(ncomps, scans[k].comps)
    decreases k
  {
    hide Follows, AfterScan;
    if k > 0 { LegalScans(ncomps, AfterScan(ncomps, p, scans[0]), scans[1..], k - 1); }
  }

  lemma ValidScan(ncomps: nat, scans: seq<ScanInfo>, k: nat)
    requires ValidScript(ncomps, scans) && k < |scans|
    ensures var s := scans[k];
      && 0 < |s.comps| && (NeedsTable(s) <==> s.ss != 0 || s.ah == 0)
      && (k == 0 ==> NeedsTable(s))
  {
    if ValidSequential(ncomps, scans) {
      assert SequentialScan(ncomps, scans[k]);
    } else {
      LegalScans(ncomps, Unsent(ncomps), scans, k);
      if k == 0 { FirstIsFirst(ncomps, scans[0]); }
    }
  }

  /** The first scan of a progressive script is a first scan of DC coefficients. */
  lemma FirstIsFirst(ncomps: nat, s: ScanInfo)
    requires LegalScanInfo(ncomps, Unsent(ncomps), s)
    ensures s.ss == 0 && s.ah == 0
  {
    var c := s.comps[0];
    assert Follows(Unsent(ncomps), s, c);
    assert NextPrecision(Unsent(ncomps)[c][s.ss], s.ah, s.al);
  }

  // ----- The log

  lemma {:induction false} EventsGrow(c: Config, k: nat, n: nat)
    requires k <= n <= |c.scans|
    ensures c.Events(k) <= c.Events(n)
    decreases n
  {
    hide Config.ScanEvents;
    if k < n { EventsGrow(c, k, n - 1); }
  }

  lemma {:induction false} GatheredIn(c: Config, k: nat, n: nat, q: nat)
    requires k < |c.scans| && n <= |c.scans| && q < |c.Events(n)| && c.Events(n)[q] == Gather(k)
    ensures k < n && q == |c.Events(k)| && c.Optimizes(k)
    decreases n
  {
    hide Config.Optimizes;
    var before := c.Events(n - 1);
    if q < |before| {
      GatheredIn(c, k, n - 1, q);
    } else {
      assert c.Events(n)[q] == c.ScanEvents(n - 1)[q - |before|];
      GatherFirst(c, n - 1, q - |before|, k);
    }
  }

  lemma GatherFirst(c: Config, n: nat, i: nat, k: nat)
    requires n < |c.scans| && i < |c.ScanEvents(n)| && c.ScanEvents(n)[i] == Gather(k)
    ensures i == 0 && n == k && c.Optimizes(n)
  {
    hide Config.Optimizes;
  }

  lemma EventsAt(c: Config, k: nat, i: nat)
    requires k < |c.scans| && i < |c.ScanEvents(k)|
    ensures var log := c.Events(|c.scans|) + [Trailer];
      |c.Events(k)| + i < |log| && log[|c.Events(k)| + i] == c.ScanEvents(k)[i]
  {
    hide Config.ScanEvents;
    EventsGrow(c, k + 1, |c.scans|);
    var all := c.Events(|c.scans|);
    assert c.Events(k + 1) == c.Events(k) + c.ScanEvents(k);
    assert all[|c.Events(k)| + i] == c.Events(k + 1)[|c.Events(k)| + i];
  }

  lemma OptimizedOnce(c: Config, k: nat)
    requires k < |c.scans|
    ensures var log := c.Events(|c.scans|) + [Trailer];
      if c.Optimizes(k) then GatheredOnce(log, k) else Gather(k) !in log
  {
    hide Config.Optimizes;
    var log, p := c.Events(|c.scans|) + [Trailer], |c.Events(k)|;
    forall q | 0 <= q < |log| && log[q] == Gather(k)
      ensures q == p && c.Optimizes(k)
    {
      GatheredIn(c, k, |c.scans|, q);
    }
    if c.Optimizes(k) {
      EventsAt(c, k, 0);
      EventsAt(c, k, 1);
      EventsAt(c, k, 2);
      if k == 0 { EventsAt(c, k, 3); }
      assert GatheredAt(log, p, k);
    }
  }

  /** In every compression with optimized Huffman tables, exactly the scans that need a table have their statistics gathered,
      once, right before their headers. */
  lemma GatheredWhereNeeded(ncomps: nat, c: Config, k: nat)
    requires ValidScript(ncomps, c.scans) && c.optimize_coding && !c.arith_code && k < |c.scans|
    ensures var log := c.Events(|c.scans|) + [Trailer];
      if NeedsTable(c.scans[k]) then GatheredOnce(log, k) else Gather(k) !in log
  {
    hide GatheredOnce, ValidScript, NeedsTable, Config.Events;
    ValidScan(ncomps, c.scans, k);
    OptimizedOnce(c, k);
  }

  /** Without optimization there are no statistics. */
  lemma NothingGathered(c: Config, k: nat)
    requires !c.optimize_coding && k < |c.scans|
    ensures Gather(k) !in c.Events(|c.scans|) + [Trailer]
  {
    hide Config.Events;
    OptimizedOnce(c, k);
  }

  // ----- The tables that are written

  /** The compressor is set up for this scan. */
  predicate SetFor(cfg: Memory, s: ScanInfo) {
    && Fetch(cfg, CompsInScan) == |s.comps| && Fetch(cfg, ScanSs) == s.ss && Fetch(cfg, ScanSe) == s.se
    && Fetch(cfg, ScanAh) == s.ah && Fetch(cfg, ScanAl) == s.al
  }

  /** The scan header has Huffman tables exactly if the scan needs them. */
  lemma TablesWhereNeeded(cfg: Memory, s: ScanInfo)
    requires SetFor(cfg, s) && 0 < |s.comps|
    ensures ScanTables(cfg, 0) != [] <==> NeedsTable(s)
  {
    hide CompAt, ScanTables;
    ScanTablesNext(cfg, 0);
    if !NeedsTable(s) { NoScanTables(cfg, 0); }
  }

  lemma {:induction false} NoScanTables(cfg: Memory, i: nat)
    requires !CodesDc(cfg) && !CodesAc(cfg)
    ensures ScanTables(cfg, i) == []
    decreases Fetch(cfg, CompsInScan) - i
  {
    hide CodesDc, CodesAc, CompAt;
    if i < Fetch(cfg, CompsInScan) { NoScanTables(cfg, i + 1); }
  }

  /** No header ever has a Huffman table whose statistics were not gathered right before it. */
  lemma NoTableUngathered(ncomps: nat, c: Config, k: nat, cfg: Memory)
    requires ValidScript(ncomps, c.scans) && c.optimize_coding && !c.arith_code && k < |c.scans| && SetFor(cfg, c.scans[k])
    ensures ScanTables(cfg, 0) != [] <==> Gather(k) in c.Events(|c.scans|) + [Trailer]
    ensures ScanTables(cfg, 0) != [] ==> GatheredOnce(c.Events(|c.scans|) + [Trailer], k)
  {
    hide GatheredOnce, ValidScript, NeedsTable, Config.Events, ScanTables;
    ValidScan(ncomps, c.scans, k);
    TablesWhereNeeded(cfg, c.scans[k]);
    GatheredWhereNeeded(ncomps, c, k);
    if NeedsTable(c.scans[k]) { OnceIsIn(c.Events(|c.scans|) + [Trailer], k); }
  }

  lemma OnceIsIn(log: seq<Event>, k: nat)
    requires GatheredOnce(log, k)
    ensures Gather(k) in log
  {
  }
}
