/** Headers that the compressor writes, but that do not come back: a component beyond the fourth, and a restart interval
    of more than 16 bits. */
module MarkerLimits {
  import opened Bytes
  import opened MarkerProg
  import opened MarkerSegments
  import opened MarkerStream
  import opened MarkerTranscode
  import opened MarkerWriter

  /** Five components in a frame of one sample, with a DC scan of one of them. */
  function Example(c: nat, interval: int): Memory {
    map[NumComponents := 5, ImageHeight := 1, ImageWidth := 1, DataPrecision := 8, CompsInScan := 1, CurComp(0) := c,
        RestartInterval := interval,
        ComponentId(0) := 1, ComponentId(1) := 2, ComponentId(2) := 3, ComponentId(3) := 4, ComponentId(4) := 5]
  }

  /** The compressor accepts up to ten components, but its own decompressor refuses this file. */
  lemma FifthComponentRefused(rest: seq<byte>)
    ensures LegalHeaders([], Example(4, 0)) && Markers(HeaderBytes([], Example(4, 0)) + rest, 0, Fresh()) == Bad
  {
    hide Markers, HeaderBytes, Restored, Example, LegalFrameHeader, LegalScanHeader, InSync;
    ExampleLegal(4, 0);
    ExampleFields(4, 0);
    var st := HeadersRead([], Example(4, 0), rest);
  }

  /** The compressor takes any unsigned restart interval, and codes with it, but the decompressor reads that there are no restarts. */
  lemma LongIntervalLost(rest: seq<byte>) returns (st: State)
    ensures LegalHeaders([], Example(0, 0x10000)) && Markers(HeaderBytes([], Example(0, 0x10000)) + rest, 0, Fresh()) == Reached(true, st, rest)
    ensures Fetch(st.mem, RestartInterval) == 0
  {
    hide Markers, HeaderBytes, FrameRestored, Example, LegalFrameHeader, LegalScanHeader, InSync;
    var cfg := Example(0, 0x10000);
    ExampleLegal(0, 0x10000);
    ExampleFields(0, 0x10000);
    st := HeadersRead([], cfg, rest);
  }

  /** What the compressor calls the restart interval arrives exactly if it fits in 16 bits. */
  lemma IntervalArrives(apps: seq<App>, cfg: Memory, rest: seq<byte>) returns (st: State)
    requires LegalHeaders(apps, cfg) && NamedComps(cfg) && Fetch(cfg, RestartInterval) >= 0
    ensures Markers(HeaderBytes(apps, cfg) + rest, 0, Fresh()) == Reached(true, st, rest)
    ensures Fetch(st.mem, RestartInterval) == Fetch(cfg, RestartInterval) <==> Fetch(cfg, RestartInterval) < 0x10000
  {
    hide Markers, HeaderBytes, FrameRestored, LegalHeaders, NamedComps, InSync;
    st := HeadersRead(apps, cfg, rest);
  }

  lemma ExampleFields(c: nat, interval: int)
    ensures var cfg := Example(c, interval);
      && Fetch(cfg, NumComponents) == 5 && Fetch(cfg, DataPrecision) == 8 && Fetch(cfg, ImageHeight) == 1 && Fetch(cfg, ImageWidth) == 1
      && Fetch(cfg, ProgressiveMode) == 0 && Fetch(cfg, ArithCode) == 0 && Fetch(cfg, RestartInterval) == interval
      && Fetch(cfg, CompsInScan) == 1 && Fetch(cfg, CurComp(0)) == c && LegalApprox(cfg) && CodesDc(cfg) && !CodesAc(cfg)
  {
  }

  lemma ExampleTables(c: nat, interval: int)
    ensures forall l: Loc :: IsTableLoc(l) || l.QuantNo? ==> l !in Example(c, interval)
  {
  }

  lemma ExampleComp(c: nat, interval: int, ci: nat)
    requires ci < 5
    ensures var cfg := Example(c, interval);
      LegalComp(cfg, ci) && Fetch(cfg, ComponentId(ci)) == ci + 1 && Fetch(cfg, DcTblNo(ci)) == 0 && Fetch(cfg, AcTblNo(ci)) == 0
  {
  }

  lemma ExampleLegal(c: nat, interval: int)
    requires c < 5
    ensures LegalHeaders([], Example(c, interval))
  {
    hide Example, LegalFrame, LegalScanSpec, DistinctIds, LegalTable, LegalConditioning, FrameTables, ScanTables;
    var cfg := Example(c, interval);
    ExampleFields(c, interval);
    ExampleTables(c, interval);
    ExampleFrame(c, interval);
    ExampleScan(c, interval);
    ExampleDistinct(c, interval);
    PlainFrameTables(cfg, 0);
    PlainTable(cfg, HuffTable(false, 0));
  }

  lemma ExampleFrame(c: nat, interval: int)
    ensures LegalFrame(Example(c, interval))
  {
    hide Example, LegalComp;
    ExampleFields(c, interval);
    forall ci: nat | ci < 5
      ensures LegalComp(Example(c, interval), ci)
    {
      ExampleComp(c, interval, ci);
    }
  }

  lemma ExampleScan(c: nat, interval: int)
    requires c < 5
    ensures LegalScanSpec(Example(c, interval)) && ScanTables(Example(c, interval), 0) == [HuffTable(false, 0)]
  {
    hide Example, LegalApprox, CodesDc, CodesAc;
    ExampleFields(c, interval);
    ExampleComp(c, interval, c);
    ScanTablesNext(Example(c, interval), 0);
    ScanTablesNext(Example(c, interval), 1);
  }

  lemma ExampleDistinct(c: nat, interval: int)
    ensures DistinctIds(Example(c, interval))
  {
    hide Example;
    var cfg := Example(c, interval);
    ExampleFields(c, interval);
    forall i: nat, j: nat | i < j < 5
      ensures Fetch(cfg, ComponentId(i)) != Fetch(cfg, ComponentId(j))
    {
      ExampleComp(c, interval, i);
      ExampleComp(c, interval, j);
    }
  }

  lemma PlainTable(cfg: Memory, t: Table)
    requires (forall l: Loc :: IsTableLoc(l) ==> l !in cfg) && t.n < 4
    ensures LegalTable(cfg, t)
  {
    hide Codes;
    if t.HuffTable? { PlainCodes(cfg, t.ac, t.n, 16); }
  }

  lemma {:induction false} PlainCodes(cfg: Memory, ac: bool, n: nat, i: nat)
    requires forall l: Loc :: IsTableLoc(l) ==> l !in cfg
    ensures Codes(cfg, ac, n, i) == 0
  {
    if i > 0 { PlainCodes(cfg, ac, n, i - 1); }
  }

  lemma {:induction false} PlainFrameTables(cfg: Memory, ci: nat)
    requires forall l: Loc :: IsTableLoc(l) || l.QuantNo? ==> l !in cfg
    ensures LegalTables(cfg, FrameTables(cfg, ci))
    decreases Fetch(cfg, NumComponents) - ci
  {
    hide LegalTable;
    if ci < Fetch(cfg, NumComponents) {
      PlainTable(cfg, QuantTable(0));
      PlainFrameTables(cfg, ci + 1);
    }
  }
}
