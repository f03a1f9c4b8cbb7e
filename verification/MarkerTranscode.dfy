/** Headers written and read back: the decompressor gets everything that a scan needs, although no table is sent twice. */
module MarkerTranscode {
  import opened Bytes
  import opened MarkerProg
  import opened MarkerStream
  import opened MarkerReader
  import opened MarkerSegments
  import opened MarkerWriter
  import opened Restarts
  import opened Segments
  import opened ZigZag

  // ----- What the decompressor knows

  ghost predicate Knows(cfg: Memory, locs: set<Loc>, m: Memory) {
    forall l :: l in locs ==> Fetch(m, l) == Sent(cfg, l)
  }

  /** It has been told these variables, and the others are as they were. */
  ghost predicate Learned(cfg: Memory, locs: set<Loc>, m: Memory, m': Memory) {
    forall l :: Fetch(m', l) == if l in locs then Sent(cfg, l) else Fetch(m, l)
  }

  lemma Learn(g: Parsed, used: nat, cfg: Memory, locs: set<Loc>, m: Memory)
    requires Told(g, used, cfg, locs)
    ensures Learned(cfg, locs, m, Apply(g.log, m))
  {
    hide Sent;
    forall l
      ensures Fetch(Apply(g.log, m), l) == if l in locs then Sent(cfg, l) else Fetch(m, l)
    {
      CopiesApply(g.log, cfg, m, l);
    }
  }

  /** Being told something does not spoil what is known. */
  lemma StillKnows(cfg: Memory, locs: set<Loc>, more: set<Loc>, m: Memory, m': Memory)
    requires Knows(cfg, locs, m) && Learned(cfg, more, m, m')
    ensures Knows(cfg, locs + more, m')
  {
    hide Sent;
  }

  // ----- One segment

  lemma MarkerRead(code: byte, s: seq<byte>)
    requires 0 < code < 0xFF
    ensures NextMark([0xFF, code] + s, 0) == Mark(code, s)
  {
    var t := [0xFF, code] + s;
    assert t[1..] == [code] + s && t[1..][1..] == s;
    assert SkipFill(t[1..]) == t[1..];
  }

  lemma SegmentRead(code: byte, params: seq<byte>, rest: seq<byte>, st: State)
    requires st.saw_SOI && 0 < code < 0xFF && KindOf(code) != Eoi && KindOf(code) != Sos
    requires Run(SegmentProg(KindOf(code), st), (Two(|params| + 2) + params) + rest).out == Done(|params| + 2)
    ensures var kind := KindOf(code);
      var g := Run(SegmentProg(kind, st), (Two(|params| + 2) + params) + rest);
      Markers(Segment(code, params) + rest, 0, st) == Markers(rest, 0, Noted(kind, Stored(kind, g.log, st)))
  {
    hide Run, SegmentProg, KindOf, Noted, Stored, NextMark, Two;
    TwoSize(|params| + 2);
    var body := (Two(|params| + 2) + params) + rest;
    assert Segment(code, params) + rest == [0xFF, code] + body;
    MarkerRead(code, body);
    assert body[|params| + 2..] == rest;
    MarkersStep(Segment(code, params) + rest, code, body, st);
    OneSegment(code, body, |params| + 2, st);
  }

  lemma MarkersStep(s: seq<byte>, code: byte, body: seq<byte>, st: State)
    requires st.saw_SOI && NextMark(s, 0) == Mark(code, body)
    ensures Markers(s, 0, st) == Markers(body, code, st)
  {
    hide Run, SegmentProg, KindOf, Noted, Stored, NextMark;
  }

  lemma OneSegment(code: byte, body: seq<byte>, n: nat, st: State)
    requires code != 0 && KindOf(code) != Eoi && KindOf(code) != Sos && n <= |body|
    requires Run(SegmentProg(KindOf(code), st), body).out == Done(n)
    ensures var kind := KindOf(code);
      Markers(body, code, st) == Markers(body[n..], 0, Noted(kind, Stored(kind, Run(SegmentProg(kind, st), body).log, st)))
  {
    hide Run, SegmentProg, KindOf, Noted, Stored, NextMark;
  }

  // ----- Tables

  function TableLocs(t: Table): set<Loc> {
    match t
    case QuantTable(n) => QuantLocs(n, 0)
    case HuffTable(ac, n) => HuffLocs(ac, n)
  }

  predicate LegalTable(cfg: Memory, t: Table) {
    match t
    case QuantTable(n) => LegalQuant(cfg, n)
    case HuffTable(ac, n) => LegalHuff(cfg, ac, n)
  }

  lemma TableRead(cfg: Memory, t: Table, rest: seq<byte>, st: State) returns (m: Memory)
    requires st.saw_SOI && LegalTable(cfg, t)
    ensures Markers(TableBytes(cfg, t) + rest, 0, st) == Markers(rest, 0, st.(mem := m))
    ensures Learned(cfg, TableLocs(t), st.mem, m)
  {
    hide Run, Markers, DqtProg, DhtProg, QuantLocs, HuffLocs, LegalQuant, LegalHuff, DqtParams, DhtParams, Learned, Segment, Two, Apply;
    match t {
      case QuantTable(n) =>
        var params := DqtParams(cfg, n);
        DqtRun(cfg, n, rest);
        var g := Run(DqtProg(), (Two(|params| + 2) + params) + rest);
        TwoSize(|params| + 2);
        SegmentRead(M_DQT, params, rest, st);
        m := Apply(g.log, st.mem);
        Learn(g, |params| + 2, cfg, TableLocs(t), st.mem);
      case HuffTable(ac, n) =>
        var params := DhtParams(cfg, ac, n);
        DhtRun(cfg, ac, n, rest);
        var g := Run(DhtProg(), (Two(|params| + 2) + params) + rest);
        TwoSize(|params| + 2);
        SegmentRead(M_DHT, params, rest, st);
        m := Apply(g.log, st.mem);
        Learn(g, |params| + 2, cfg, TableLocs(t), st.mem);
    }
  }

  function TablesLocs(ts: set<Table>): set<Loc> {
    set t, l | t in ts && l in TableLocs(t) :: l
  }

  lemma TablesLocsAdd(ts: set<Table>, t: Table)
    ensures TablesLocs(ts + {t}) == TablesLocs(ts) + TableLocs(t)
  {
    hide TableLocs;
  }

  lemma TablesLocsGrow(a: set<Table>, b: set<Table>)
    requires a <= b
    ensures TablesLocs(a) <= TablesLocs(b)
  {
    hide TableLocs;
  }

  /** Tables that have been sent need not be sent again. */
  lemma {:induction false} TablesRead(cfg: Memory, ts: seq<Table>, sent: set<Table>, rest: seq<byte>, st: State) returns (m: Memory)
    requires st.saw_SOI && (forall t :: t in ts ==> LegalTable(cfg, t)) && Knows(cfg, TablesLocs(sent), st.mem)
    ensures Markers(TablesBytes(cfg, ts, sent) + rest, 0, st) == Markers(rest, 0, st.(mem := m))
    ensures Knows(cfg, TablesLocs(sent + TableSet(ts)), m)
    ensures Learned(cfg, TablesLocs(sent + TableSet(ts)), st.mem, m)
  {
    hide Markers, TableBytes, TableLocs, LegalTable, TablesLocs, Knows, Learned, TableSet;
    if ts == [] {
      m := st.mem;
      NoTables(cfg, sent);
      assert [] + rest == rest && sent + {} == sent && st.(mem := m) == st;
      LearnKnown(cfg, TablesLocs(sent), m);
    } else {
      var t := ts[0];
      var here, more := if t in sent then [] else TableBytes(cfg, t), TablesBytes(cfg, ts[1..], sent + {t});
      assert TablesBytes(cfg, ts, sent) + rest == here + (more + rest);
      TableSetFirst(ts);
      assert (sent + {t}) + TableSet(ts[1..]) == sent + TableSet(ts);
      var m1 := st.mem;
      TablesLocsAdd(sent, t);
      if t in sent {
        assert sent + {t} == sent && [] + (more + rest) == more + rest;
        LearnKnown(cfg, TablesLocs(sent), m1);
      } else {
        m1 := TableRead(cfg, t, more + rest, st);
        StillKnows(cfg, TablesLocs(sent), TableLocs(t), st.mem, m1);
        LearnMore(cfg, TablesLocs(sent), TableLocs(t), st.mem, m1);
      }
      m := TablesRead(cfg, ts[1..], sent + {t}, rest, st.(mem := m1));
      TablesLocsGrow(sent + {t}, sent + TableSet(ts));
      LearnTwice(cfg, TablesLocs(sent + {t}), TablesLocs(sent + TableSet(ts)), st.mem, m1, m);
    }
  }

  lemma LearnKnown(cfg: Memory, locs: set<Loc>, m: Memory)
    requires Knows(cfg, locs, m)
    ensures Learned(cfg, locs, m, m)
  {
    hide Sent;
  }

  lemma LearnMore(cfg: Memory, locs: set<Loc>, more: set<Loc>, m: Memory, m': Memory)
    requires Knows(cfg, locs, m) && Learned(cfg, more, m, m')
    ensures Learned(cfg, locs + more, m, m')
  {
    hide Sent;
  }

  lemma LearnTwice(cfg: Memory, locs: set<Loc>, more: set<Loc>, m: Memory, m': Memory, m'': Memory)
    requires Learned(cfg, locs, m, m') && Learned(cfg, more, m', m'')
    ensures Learned(cfg, locs + more, m, m'')
    ensures locs <= more ==> Learned(cfg, more, m, m'')
  {
    hide Sent;
  }

  // ----- The frame header

  predicate LegalTables(cfg: Memory, ts: seq<Table>) {
    forall t :: t in ts ==> LegalTable(cfg, t)
  }

  predicate LegalFrameHeader(cfg: Memory) {
    && LegalFrame(cfg) && Fetch(cfg, ProgressiveMode) in {0, 1} && Fetch(cfg, ArithCode) in {0, 1}
    && LegalTables(cfg, FrameTables(cfg, 0))
  }

  lemma SofCodeKind(cfg: Memory)
    requires Fetch(cfg, ProgressiveMode) in {0, 1} && Fetch(cfg, ArithCode) in {0, 1}
    ensures KindOf(SofCode(cfg)) == Sof(Fetch(cfg, ProgressiveMode) == 1, Fetch(cfg, ArithCode) == 1) && 0 < SofCode(cfg) < 0xFF
  {
    hide Baseline;
  }

  lemma SofRead(cfg: Memory, rest: seq<byte>, st: State) returns (m: Memory)
    requires st.saw_SOI && !st.saw_SOF && LegalFrameHeader(cfg)
    ensures Markers(Segment(SofCode(cfg), SofParams(cfg)) + rest, 0, st) == Markers(rest, 0, st.(mem := m, saw_SOF := true))
    ensures Learned(cfg, FrameLocs(cfg), st.mem, m)
  {
    hide Run, Markers, SofProg, LegalFrame, LegalTables, SofParams, SofCode, Learned, Segment, Two, Apply, FrameLocs, KindOf;
    var params := SofParams(cfg);
    SofCodeKind(cfg);
    SofRun(cfg, rest);
    var g := Run(SofProg(Fetch(cfg, ProgressiveMode) == 1, Fetch(cfg, ArithCode) == 1, false), (Two(|params| + 2) + params) + rest);
    TwoSize(|params| + 2);
    SegmentRead(SofCode(cfg), params, rest, st);
    m := Apply(g.log, st.mem);
    Learn(g, |params| + 2, cfg, FrameLocs(cfg), st.mem);
  }

  lemma {:induction false} CompLocsAre(cfg: Memory, ci: nat)
    ensures forall k: nat :: ci <= k < Fetch(cfg, NumComponents) ==> {ComponentId(k), HSamp(k), VSamp(k), QuantNo(k)} <= CompLocs(cfg, ci)
    decreases Fetch(cfg, NumComponents) - ci
  {
    if ci < Fetch(cfg, NumComponents) { CompLocsAre(cfg, ci + 1); }
  }

  lemma {:induction false} CompLocsOnly(cfg: Memory, ci: nat, l: Loc)
    requires l in CompLocs(cfg, ci)
    ensures l.ComponentId? || l.HSamp? || l.VSamp? || l.QuantNo?
    decreases Fetch(cfg, NumComponents) - ci
  {
    if l in CompLocs(cfg, ci + 1) { CompLocsOnly(cfg, ci + 1, l); }
  }

  lemma {:induction false} QuantLocsAre(n: nat, i: nat)
    requires i <= 64
    ensures forall k :: i <= k < 64 ==> Quant(n, NaturalAt(k)) in QuantLocs(n, i)
    ensures forall l :: l in QuantLocs(n, i) ==> l.Quant? && l.n == n
    decreases 64 - i
  {
    hide NaturalAt;
    if i < 64 { QuantLocsAre(n, i + 1); }
  }

  // Variables of tables are not variables of the frame.
  predicate IsTableLoc(l: Loc) {
    l.Quant? || l.HuffBits? || l.HuffVal?
  }

  lemma TablesLocsAre(ts: set<Table>)
    ensures forall l :: l in TablesLocs(ts) ==> IsTableLoc(l)
  {
    hide QuantLocs;
    forall t, l | t in ts && l in TableLocs(t)
      ensures IsTableLoc(l)
    {
      if t.QuantTable? { QuantLocsAre(t.n, 0); }
    }
  }

  lemma FrameLocsAre(cfg: Memory)
    ensures forall l :: l in FrameLocs(cfg) ==> !IsTableLoc(l) && l != RestartInterval
  {
    hide CompLocs;
    forall l | l in CompLocs(cfg, 0)
      ensures !IsTableLoc(l) && l != RestartInterval
    {
      CompLocsOnly(cfg, 0, l);
    }
  }

  ghost function HeaderLocs(cfg: Memory, sent: set<Table>): set<Loc> {
    FrameLocs(cfg) + TablesLocs(sent)
  }

  /** The frame header tells the frame and the quantization tables. */
  lemma FrameRead(cfg: Memory, rest: seq<byte>, st: State) returns (m: Memory)
    requires st.saw_SOI && !st.saw_SOF && LegalFrameHeader(cfg)
    ensures Markers(FrameBytes(cfg, {}) + rest, 0, st) == Markers(rest, 0, st.(mem := m, saw_SOF := true))
    ensures Knows(cfg, HeaderLocs(cfg, TableSet(FrameTables(cfg, 0))), m)
    ensures Fetch(m, RestartInterval) == Fetch(st.mem, RestartInterval)
  {
    hide Markers, TablesBytes, FrameTables, TableSet, LegalFrame, LegalTable, Segment, SofParams, SofCode, Knows, TablesLocs, FrameLocs, IsTableLoc;
    var ts := FrameTables(cfg, 0);
    var sof := Segment(SofCode(cfg), SofParams(cfg));
    assert FrameBytes(cfg, {}) + rest == TablesBytes(cfg, ts, {}) + (sof + rest);
    NothingKnown(cfg, st.mem);
    var m1 := TablesRead(cfg, ts, {}, sof + rest, st);
    assert {} + TableSet(ts) == TableSet(ts);
    m := SofRead(cfg, rest, st.(mem := m1));
    StillKnows(cfg, TablesLocs(TableSet(ts)), FrameLocs(cfg), m1, m);
    assert TablesLocs(TableSet(ts)) + FrameLocs(cfg) == HeaderLocs(cfg, TableSet(ts));
    TablesLocsAre(TableSet(ts));
    FrameLocsAre(cfg);
    RestartLoc();
  }

  lemma RestartLoc()
    ensures !IsTableLoc(RestartInterval)
  {
  }

  lemma NothingKnown(cfg: Memory, m: Memory)
    ensures Knows(cfg, TablesLocs({}), m)
  {
  }

  // ----- The scan header

  predicate Arith(cfg: Memory) {
    Fetch(cfg, ArithCode) != 0
  }

  predicate LegalScanHeader(cfg: Memory) {
    && LegalScanSpec(cfg) && DistinctIds(cfg)
    && if Arith(cfg) then LegalConditioning(cfg) else LegalTables(cfg, ScanTables(cfg, 0))
  }

  /** The decompressor has the frame and the tables that were sent, and the restart interval of the last scan. */
  ghost predicate InSync(cfg: Memory, sent: set<Table>, interval: int, st: State) {
    st.saw_SOI && st.saw_SOF && Knows(cfg, HeaderLocs(cfg, sent), st.mem) && Fetch(st.mem, RestartInterval) == interval % 0x10000
  }

  // What the coding part of the header adds.
  function CodingLocs(cfg: Memory): set<Loc> {
    if Arith(cfg) then DacLocs(cfg, 0) else {}
  }

  lemma {:induction false} DacLocsAre(cfg: Memory, i: nat)
    ensures forall k: nat :: i <= k < NUM_ARITH_TBLS && DcInUse(cfg, k) ==> ArithDcL(k) in DacLocs(cfg, i) && ArithDcU(k) in DacLocs(cfg, i)
    ensures forall k: nat :: i <= k < NUM_ARITH_TBLS && AcInUse(cfg, k) ==> ArithAcK(k) in DacLocs(cfg, i)
    decreases NUM_ARITH_TBLS - i
  {
    hide DcInUse, AcInUse;
    if i < NUM_ARITH_TBLS { DacLocsAre(cfg, i + 1); }
  }

  lemma {:induction false} DacLocsOnly(cfg: Memory, i: nat)
    ensures RestartInterval !in DacLocs(cfg, i) && (DacBytes(cfg, i) == [] ==> DacLocs(cfg, i) == {})
    decreases NUM_ARITH_TBLS - i
  {
    hide DcInUse, AcInUse;
    if i < NUM_ARITH_TBLS { DacLocsOnly(cfg, i + 1); }
  }

  lemma DacRead(cfg: Memory, rest: seq<byte>, st: State) returns (m: Memory)
    requires st.saw_SOI && LegalConditioning(cfg)
    ensures Markers(DacSegment(cfg) + rest, 0, st) == Markers(rest, 0, st.(mem := m))
    ensures Learned(cfg, DacLocs(cfg, 0), st.mem, m)
  {
    hide Run, Markers, DacProg, DacBytes, DacLocs, Learned, Segment, Two, Apply, LegalConditioning, DcInUse, AcInUse;
    var params := DacBytes(cfg, 0);
    if params == [] {
      DacLocsOnly(cfg, 0);
      m := st.mem;
      assert DacSegment(cfg) + rest == rest && st.(mem := m) == st;
      LearnNothing(cfg, m);
    } else {
      DacRun(cfg, rest);
      var g := Run(DacProg(), (Two(|params| + 2) + params) + rest);
      TwoSize(|params| + 2);
      SegmentRead(M_DAC, params, rest, st);
      m := Apply(g.log, st.mem);
      Learn(g, |params| + 2, cfg, DacLocs(cfg, 0), st.mem);
    }
  }

  lemma LearnNothing(cfg: Memory, m: Memory)
    ensures Learned(cfg, {}, m, m)
  {
    hide Sent;
  }

  lemma DriRead(cfg: Memory, interval: int, rest: seq<byte>, st: State) returns (m: Memory)
    requires st.saw_SOI && Fetch(st.mem, RestartInterval) == interval % 0x10000
    ensures Markers(DriSegment(cfg, interval) + rest, 0, st) == Markers(rest, 0, st.(mem := m))
    ensures Learned(cfg, {RestartInterval}, st.mem, m)
  {
    hide Run, Markers, DriProg, DriParams, Learned, Segment, Two, Apply;
    if Fetch(cfg, RestartInterval) == interval {
      m := st.mem;
      assert DriSegment(cfg, interval) + rest == rest && st.(mem := m) == st;
      LearnInterval(cfg, m);
    } else {
      var params := DriParams(cfg);
      DriRun(cfg, rest);
      var g := Run(DriProg(), (Two(|params| + 2) + params) + rest);
      TwoSize(|params| + 2);
      SegmentRead(M_DRI, params, rest, st);
      m := Apply(g.log, st.mem);
      Learn(g, |params| + 2, cfg, {RestartInterval}, st.mem);
    }
  }

  lemma LearnInterval(cfg: Memory, m: Memory)
    requires Fetch(m, RestartInterval) == Fetch(cfg, RestartInterval) % 0x10000
    ensures Learned(cfg, {RestartInterval}, m, m)
  {
  }

  // DAC or DHT segments.
  lemma CodingRead(cfg: Memory, sent: set<Table>, rest: seq<byte>, st: State) returns (m: Memory)
    requires st.saw_SOI && LegalScanHeader(cfg) && Knows(cfg, HeaderLocs(cfg, sent), st.mem)
    ensures Markers(CodingBytes(cfg, sent) + rest, 0, st) == Markers(rest, 0, st.(mem := m))
    ensures Knows(cfg, HeaderLocs(cfg, SentAfter(cfg, sent)) + CodingLocs(cfg), m)
    ensures Fetch(m, RestartInterval) == Fetch(st.mem, RestartInterval)
  {
    hide Markers, TablesBytes, ScanTables, TableSet, DacSegment, LegalScanSpec, LegalTable, LegalConditioning, DacLocs, FrameLocs, TablesLocs,
         IsTableLoc, Sent;
    if Arith(cfg) {
      m := DacRead(cfg, rest, st);
      StillKnows(cfg, HeaderLocs(cfg, sent), DacLocs(cfg, 0), st.mem, m);
      DacLocsOnly(cfg, 0);
    } else {
      KnowsPart(cfg, TablesLocs(sent), HeaderLocs(cfg, sent), st.mem);
      m := TablesRead(cfg, ScanTables(cfg, 0), sent, rest, st);
      var after := SentAfter(cfg, sent);
      StillKnows(cfg, HeaderLocs(cfg, sent), TablesLocs(after), st.mem, m);
      KnowsPart(cfg, HeaderLocs(cfg, after) + CodingLocs(cfg), HeaderLocs(cfg, sent) + TablesLocs(after), m);
      TablesLocsAre(after);
      RestartLoc();
    }
  }

  lemma KnowsPart(cfg: Memory, locs: set<Loc>, all: set<Loc>, m: Memory)
    requires Knows(cfg, all, m) && locs <= all
    ensures Knows(cfg, locs, m)
  {
    hide Sent;
  }

  lemma {:induction false} SpecLocsAre(cfg: Memory, i: nat)
    ensures forall k: nat :: i <= k < Fetch(cfg, CompsInScan) ==>
      {CurComp(k), DcTblNo(CompAt(cfg, k)), AcTblNo(CompAt(cfg, k))} <= SpecLocs(cfg, i)
    ensures {ScanSs, ScanSe, ScanAh, ScanAl} <= SpecLocs(cfg, i) && CompsInScan !in SpecLocs(cfg, i)
    ensures forall k: nat :: k >= Fetch(cfg, CompsInScan) ==> CurComp(k) !in SpecLocs(cfg, i)
    decreases Fetch(cfg, CompsInScan) - i
  {
    hide CompAt;
    if i < Fetch(cfg, CompsInScan) { SpecLocsAre(cfg, i + 1); }
  }

  /** The decompressor has the scan. */
  ghost predicate ScanKnown(cfg: Memory, scan: Memory) {
    && Knows(cfg, SpecLocs(cfg, 0), scan) && Fetch(scan, CompsInScan) == Fetch(cfg, CompsInScan)
    && forall k: nat :: Fetch(cfg, CompsInScan) <= k < MAX_COMPS_IN_SCAN ==> Fetch(scan, CurComp(k)) == -1
  }

  lemma StartedScan(n: nat, m: Memory)
    ensures var s := Apply(StartScan(n), m);
      Fetch(s, CompsInScan) == n && forall k: nat :: k < MAX_COMPS_IN_SCAN ==> Fetch(s, CurComp(k)) == -1
  {
    var log := StartScan(n);
    assert log[1..][1..] == log[2..] && log[2..][1..] == log[3..] && log[3..][1..] == log[4..];
    var m1 := m[CompsInScan := n];
    var m2 := m1[CurComp(0) := -1];
    var m3 := m2[CurComp(1) := -1];
    var m4 := m3[CurComp(2) := -1];
    var m5 := m4[CurComp(3) := -1];
    ApplyFour(log[1..], m1);
  }

  lemma ApplyFour(log: seq<Store>, m: Memory)
    requires |log| == 4
    ensures Apply(log, m) == m[log[0].loc := log[0].val][log[1].loc := log[1].val][log[2].loc := log[2].val][log[3].loc := log[3].val]
  {
    assert log == [log[0]] + ([log[1]] + ([log[2]] + [log[3]]));
    ApplyFirst(log[0], [log[1]] + ([log[2]] + [log[3]]), m);
    var m1 := m[log[0].loc := log[0].val];
    ApplyFirst(log[1], [log[2]] + [log[3]], m1);
    var m2 := m1[log[1].loc := log[1].val];
    ApplyFirst(log[2], [log[3]], m2);
    assert [log[3]] + [] == [log[3]];
    ApplyFirst(log[3], [], m2[log[2].loc := log[2].val]);
  }

  lemma ApplyFirst(s: Store, rest: seq<Store>, m: Memory)
    ensures Apply([s] + rest, m) == Apply(rest, m[s.loc := s.val])
  {
    assert ([s] + rest)[1..] == rest;
  }

  lemma IdsKnown(cfg: Memory, m: Memory)
    requires Knows(cfg, FrameLocs(cfg), m)
    ensures Ids(m) == Ids(cfg)
  {
    hide CompLocs;
    CompLocsAre(cfg, 0);
    assert Fetch(m, NumComponents) == Sent(cfg, NumComponents);
    forall i | 0 <= i < |Ids(cfg)|
      ensures Ids(m)[i] == Ids(cfg)[i]
    {
      assert ComponentId(i) in FrameLocs(cfg);
    }
  }

  /** SOS tells the scan, unless it has a component that the decompressor does not look for. */
  lemma SosRead(cfg: Memory, rest: seq<byte>, st: State) returns (scan: Memory)
    requires st.saw_SOI && st.saw_SOF && Knows(cfg, FrameLocs(cfg), st.mem) && LegalScanSpec(cfg) && DistinctIds(cfg)
    ensures Markers(Segment(M_SOS, SosParamBytes(cfg)) + rest, 0, st) ==
      if NamedComps(cfg) then Reached(true, st.(scan := scan), rest) else Bad
    ensures NamedComps(cfg) ==> ScanKnown(cfg, scan)
  {
    hide Run, Markers, Segment, SosProg, SosParamBytes, Two, Knows, FrameLocs, Ids, LegalScanSpec, DistinctIds, NamedComps, Apply, SpecLocs, StartScan, ScanKnown,
         Told;
    var params := SosParamBytes(cfg);
    var n := Fetch(cfg, CompsInScan);
    IdsKnown(cfg, st.mem);
    SosRun(cfg, rest);
    TwoSize(|params| + 2);
    var body := (Two(|params| + 2) + params) + rest;
    var g := Run(SosProg(true, Ids(cfg)), body);
    SegmentStart(params, rest, st);
    SosStep(body, |params| + 2, rest, st);
    scan := Apply(g.log, st.scan);
    if NamedComps(cfg) { ScanTold(cfg, g, |params| + 2, st.scan); }
  }

  lemma SegmentStart(params: seq<byte>, rest: seq<byte>, st: State)
    requires st.saw_SOI
    ensures Markers(Segment(M_SOS, params) + rest, 0, st) == Markers((Two(|params| + 2) + params) + rest, M_SOS, st)
    ensures |Two(|params| + 2) + params| == |params| + 2
  {
    hide Markers, Two;
    TwoSize(|params| + 2);
    var body := (Two(|params| + 2) + params) + rest;
    assert Segment(M_SOS, params) + rest == [0xFF, M_SOS] + body;
    MarkerRead(M_SOS, body);
    MarkersStep(Segment(M_SOS, params) + rest, M_SOS, body, st);
  }

  lemma SosStep(body: seq<byte>, n: nat, rest: seq<byte>, st: State)
    requires n <= |body| && body[n..] == rest
    ensures var g := Run(SosProg(st.saw_SOF, Ids(st.mem)), body);
      && (g.out == Failed ==> Markers(body, M_SOS, st) == Bad)
      && (g.out == Done(n) ==> Markers(body, M_SOS, st) == Reached(true, st.(scan := Apply(g.log, st.scan)), rest))
  {
    hide Run, SosProg, Ids, Apply;
  }

  lemma ScanTold(cfg: Memory, g: Parsed, used: nat, m: Memory)
    requires LegalScanSpec(cfg) && |g.log| >= 5 && g.log[..5] == StartScan(Fetch(cfg, CompsInScan))
    requires Told(g.(log := g.log[5..]), used, cfg, SpecLocs(cfg, 0))
    ensures g.out == Done(used) && ScanKnown(cfg, Apply(g.log, m))
  {
    hide Apply, SpecLocs, StartScan, Sent, LegalSpec, LegalApprox, Copies, Locs;
    var n: nat := Fetch(cfg, CompsInScan);
    var m1 := Apply(StartScan(n), m);
    assert g.log == g.log[..5] + g.log[5..];
    ApplyConcat(g.log[..5], g.log[5..], m);
    StartedScan(n, m);
    Learn(g.(log := g.log[5..]), used, cfg, SpecLocs(cfg, 0), m1);
    SpecLocsAre(cfg, 0);
  }

  // ----- Restored

  predicate SameHuff(cfg: Memory, m: Memory, ac: bool, n: int) {
    && n >= 0 && (forall i: nat :: 1 <= i <= 16 ==> Fetch(m, HuffBits(ac, n, i)) == Fetch(cfg, HuffBits(ac, n, i)))
    && (forall i: nat :: i < Codes(cfg, ac, n, 16) ==> Fetch(m, HuffVal(ac, n, i)) == Fetch(cfg, HuffVal(ac, n, i)))
  }

  predicate SameComp(cfg: Memory, m: Memory, ci: nat) {
    && Fetch(m, ComponentId(ci)) == Fetch(cfg, ComponentId(ci)) && Fetch(m, HSamp(ci)) == Fetch(cfg, HSamp(ci))
    && Fetch(m, VSamp(ci)) == Fetch(cfg, VSamp(ci)) && Fetch(m, QuantNo(ci)) == Fetch(cfg, QuantNo(ci)) >= 0
    && forall k :: 0 <= k < 64 ==> Fetch(m, Quant(Fetch(cfg, QuantNo(ci)), k)) == Fetch(cfg, Quant(Fetch(cfg, QuantNo(ci)), k))
  }

  /** The decompressor has the frame of the compressor, with the quantization tables of its components. */
  predicate FrameRestored(cfg: Memory, m: Memory) {
    && Fetch(m, ProgressiveMode) == Fetch(cfg, ProgressiveMode) && Fetch(m, ArithCode) == Fetch(cfg, ArithCode)
    && Fetch(m, DataPrecision) == Fetch(cfg, DataPrecision) && Fetch(m, NumComponents) == Fetch(cfg, NumComponents)
    && Fetch(m, ImageHeight) == Fetch(cfg, ImageHeight) && Fetch(m, ImageWidth) == Fetch(cfg, ImageWidth)
    && forall ci: nat :: ci < Fetch(cfg, NumComponents) ==> SameComp(cfg, m, ci)
  }

  /** Everything that the coding of component ci of the scan needs: its table numbers and its tables. */
  predicate CodingRestored(cfg: Memory, m: Memory, scan: Memory, ci: nat) {
    && (CodesDc(cfg) ==>
          var n := Fetch(cfg, DcTblNo(ci));
          && Fetch(scan, DcTblNo(ci)) == n >= 0
          && if Arith(cfg) then Fetch(m, ArithDcL(n)) == Fetch(cfg, ArithDcL(n)) && Fetch(m, ArithDcU(n)) == Fetch(cfg, ArithDcU(n))
             else SameHuff(cfg, m, false, n))
    && (CodesAc(cfg) ==>
          var n := Fetch(cfg, AcTblNo(ci));
          && Fetch(scan, AcTblNo(ci)) == n >= 0
          && if Arith(cfg) then Fetch(m, ArithAcK(n)) == Fetch(cfg, ArithAcK(n)) else SameHuff(cfg, m, true, n))
  }

  /** The decompressor has the scan of the compressor, with all tables in use. */
  predicate ScanRestored(cfg: Memory, st: State) {
    && Fetch(st.scan, CompsInScan) == Fetch(cfg, CompsInScan) && Fetch(st.mem, RestartInterval) == Fetch(cfg, RestartInterval) % 0x10000
    && Fetch(st.scan, ScanSs) == Fetch(cfg, ScanSs) && Fetch(st.scan, ScanSe) == Fetch(cfg, ScanSe)
    && Fetch(st.scan, ScanAh) == Fetch(cfg, ScanAh) && Fetch(st.scan, ScanAl) == Fetch(cfg, ScanAl)
    && (forall i: nat :: i < Fetch(cfg, CompsInScan) ==>
          Fetch(st.scan, CurComp(i)) == Fetch(cfg, CurComp(i)) && CodingRestored(cfg, st.mem, st.scan, CompAt(cfg, i)))
    && (forall i: nat :: Fetch(cfg, CompsInScan) <= i < MAX_COMPS_IN_SCAN ==> Fetch(st.scan, CurComp(i)) == -1)
  }

  predicate Restored(cfg: Memory, st: State) {
    FrameRestored(cfg, st.mem) && ScanRestored(cfg, st)
  }

  lemma QuantKnown(cfg: Memory, m: Memory, n: nat)
    requires Knows(cfg, QuantLocs(n, 0), m)
    ensures forall k :: 0 <= k < 64 ==> Fetch(m, Quant(n, k)) == Fetch(cfg, Quant(n, k))
  {
    hide QuantLocs, NaturalAt, IndexOf;
    QuantLocsAre(n, 0);
    forall k | 0 <= k < 64
      ensures Fetch(m, Quant(n, k)) == Fetch(cfg, Quant(n, k))
    {
      NaturalOfIndex(k);
      assert Quant(n, NaturalAt(IndexOf(k))) in QuantLocs(n, 0);
      assert Fetch(m, Quant(n, k)) == Sent(cfg, Quant(n, k));
    }
  }

  lemma HuffKnown(cfg: Memory, m: Memory, ac: bool, n: nat)
    requires Knows(cfg, HuffLocs(ac, n), m) && LegalHuff(cfg, ac, n)
    ensures SameHuff(cfg, m, ac, n)
  {
    hide Codes;
    forall i: nat | 1 <= i <= 16
      ensures Fetch(m, HuffBits(ac, n, i)) == Fetch(cfg, HuffBits(ac, n, i))
    {
      assert HuffBits(ac, n, i) in HuffLocs(ac, n);
      assert Fetch(m, HuffBits(ac, n, i)) == Sent(cfg, HuffBits(ac, n, i));
    }
    forall i: nat | i < Codes(cfg, ac, n, 16)
      ensures Fetch(m, HuffVal(ac, n, i)) == Fetch(cfg, HuffVal(ac, n, i))
    {
      assert HuffVal(ac, n, i) in HuffLocs(ac, n);
      assert Fetch(m, HuffVal(ac, n, i)) == Sent(cfg, HuffVal(ac, n, i));
    }
  }

  lemma {:induction false} FrameTableIn(cfg: Memory, ci: nat, k: nat)
    requires ci <= k < Fetch(cfg, NumComponents)
    ensures QuantTable(AsNat(Fetch(cfg, QuantNo(k)))) in TableSet(FrameTables(cfg, ci))
    decreases k - ci
  {
    hide TableSet;
    TableSetFirst(FrameTables(cfg, ci));
    if ci < k { FrameTableIn(cfg, ci + 1, k); }
  }

  lemma {:induction false} ScanTableIn(cfg: Memory, i: nat, k: nat)
    requires i <= k < Fetch(cfg, CompsInScan)
    ensures CodesDc(cfg) ==> HuffTable(false, AsNat(Fetch(cfg, DcTblNo(CompAt(cfg, k))))) in TableSet(ScanTables(cfg, i))
    ensures CodesAc(cfg) ==> HuffTable(true, AsNat(Fetch(cfg, AcTblNo(CompAt(cfg, k))))) in TableSet(ScanTables(cfg, i))
    decreases k - i
  {
    hide TableSet, CompAt, CodesDc, CodesAc;
    var dc, ac, rest := DcTable(cfg, CompAt(cfg, i)), AcTable(cfg, CompAt(cfg, i)), ScanTables(cfg, i + 1);
    TableSetConcat(dc, ac + rest);
    TableSetConcat(ac, rest);
    if i < k {
      ScanTableIn(cfg, i + 1, k);
    } else {
      SingleTable(dc);
      SingleTable(ac);
    }
  }

  lemma SingleTable(ts: seq<Table>)
    ensures |ts| == 1 ==> ts[0] in TableSet(ts)
  {
  }

  lemma KnowsTable(cfg: Memory, sent: set<Table>, t: Table, m: Memory)
    requires Knows(cfg, HeaderLocs(cfg, sent), m) && t in sent
    ensures Knows(cfg, TableLocs(t), m)
  {
    hide TableLocs, FrameLocs, Sent;
  }

  lemma CompIsRestored(cfg: Memory, sent: set<Table>, m: Memory, ci: nat)
    requires LegalFrame(cfg) && Knows(cfg, HeaderLocs(cfg, sent), m) && TableSet(FrameTables(cfg, 0)) <= sent && ci < Fetch(cfg, NumComponents)
    ensures SameComp(cfg, m, ci)
  {
    hide FrameTables, TableSet, QuantLocs, CompLocs, TablesLocs;
    assert LegalComp(cfg, ci);
    CompLocsAre(cfg, 0);
    assert {ComponentId(ci), HSamp(ci), VSamp(ci), QuantNo(ci)} <= FrameLocs(cfg);
    assert Fetch(m, ComponentId(ci)) == Sent(cfg, ComponentId(ci)) && Fetch(m, QuantNo(ci)) == Sent(cfg, QuantNo(ci));
    assert Fetch(m, HSamp(ci)) == Sent(cfg, HSamp(ci)) && Fetch(m, VSamp(ci)) == Sent(cfg, VSamp(ci));
    var n := Fetch(cfg, QuantNo(ci));
    FrameTableIn(cfg, 0, ci);
    KnowsTable(cfg, sent, QuantTable(n), m);
    QuantKnown(cfg, m, n);
  }

  lemma FrameIsRestored(cfg: Memory, sent: set<Table>, m: Memory)
    requires LegalFrame(cfg) && Knows(cfg, HeaderLocs(cfg, sent), m) && TableSet(FrameTables(cfg, 0)) <= sent
    ensures FrameRestored(cfg, m)
  {
    hide FrameTables, TableSet, CompLocs, TablesLocs, LegalFrame, SameComp;
    FieldsKnown(cfg, m, HeaderLocs(cfg, sent));
    forall ci: nat | ci < Fetch(cfg, NumComponents)
      ensures SameComp(cfg, m, ci)
    {
      CompIsRestored(cfg, sent, m, ci);
    }
  }

  lemma FieldsKnown(cfg: Memory, m: Memory, locs: set<Loc>)
    requires Knows(cfg, locs, m)
    ensures forall l :: l in {ProgressiveMode, ArithCode, DataPrecision, NumComponents, ImageHeight, ImageWidth, ScanSs, ScanSe, ScanAh, ScanAl} && l in locs ==>
      Fetch(m, l) == Fetch(cfg, l)
  {
  }

  lemma CodingIsRestored(cfg: Memory, sent: set<Table>, m: Memory, scan: Memory, i: nat)
    requires LegalScanHeader(cfg) && Knows(cfg, HeaderLocs(cfg, sent) + CodingLocs(cfg), m) && i < Fetch(cfg, CompsInScan)
    requires !Arith(cfg) ==> TableSet(ScanTables(cfg, 0)) <= sent
    requires Knows(cfg, SpecLocs(cfg, 0), scan)
    ensures CodingRestored(cfg, m, scan, CompAt(cfg, i))
  {
    hide TableSet, ScanTables, DacLocs, SpecLocs, FrameLocs, TablesLocs, LegalApprox, LegalTables, LegalConditioning, SameHuff, DistinctIds, Knows;
    var ci := CompAt(cfg, i);
    LegalAt(cfg, i);
    SpecLocsAre(cfg, 0);
    var d, a := Fetch(cfg, DcTblNo(ci)), Fetch(cfg, AcTblNo(ci));
    KnowsAt(cfg, SpecLocs(cfg, 0), scan, DcTblNo(ci));
    KnowsAt(cfg, SpecLocs(cfg, 0), scan, AcTblNo(ci));
    if Arith(cfg) {
      ConditioningRestored(cfg, HeaderLocs(cfg, sent) + CodingLocs(cfg), m, i);
    } else {
      KnowsPart(cfg, HeaderLocs(cfg, sent), HeaderLocs(cfg, sent) + CodingLocs(cfg), m);
      ScanTableIn(cfg, 0, i);
      if CodesDc(cfg) { HuffRestored(cfg, sent, m, false, d); }
      if CodesAc(cfg) { HuffRestored(cfg, sent, m, true, a); }
    }
  }

  lemma KnowsAt(cfg: Memory, locs: set<Loc>, m: Memory, l: Loc)
    requires Knows(cfg, locs, m) && l in locs
    ensures Fetch(m, l) == Sent(cfg, l)
  {
  }

  lemma HuffRestored(cfg: Memory, sent: set<Table>, m: Memory, ac: bool, n: nat)
    requires LegalTables(cfg, ScanTables(cfg, 0)) && Knows(cfg, HeaderLocs(cfg, sent), m)
    requires TableSet(ScanTables(cfg, 0)) <= sent && HuffTable(ac, n) in TableSet(ScanTables(cfg, 0))
    ensures SameHuff(cfg, m, ac, n)
  {
    hide ScanTables, FrameLocs, TablesLocs, LegalHuff, HuffLocs, SameHuff;
    var t := HuffTable(ac, n);
    assert t in ScanTables(cfg, 0);
    assert LegalTable(cfg, t);
    KnowsTable(cfg, sent, t, m);
    HuffKnown(cfg, m, ac, n);
  }

  lemma ConditioningRestored(cfg: Memory, locs: set<Loc>, m: Memory, i: nat)
    requires LegalScanSpec(cfg) && Knows(cfg, locs, m) && DacLocs(cfg, 0) <= locs && i < Fetch(cfg, CompsInScan)
    ensures var ci := CompAt(cfg, i);
      var d, a := Fetch(cfg, DcTblNo(ci)), Fetch(cfg, AcTblNo(ci));
      && d >= 0 && a >= 0
      && (CodesDc(cfg) ==> Fetch(m, ArithDcL(d)) == Fetch(cfg, ArithDcL(d)) && Fetch(m, ArithDcU(d)) == Fetch(cfg, ArithDcU(d)))
      && (CodesAc(cfg) ==> Fetch(m, ArithAcK(a)) == Fetch(cfg, ArithAcK(a)))
  {
    hide DacLocs, LegalScanSpec, CompAt, Knows, DcInUse, AcInUse, CodesDc, CodesAc;
    LegalAt(cfg, i);
    InUse(cfg, i);
    var ci := CompAt(cfg, i);
    var d, a := Fetch(cfg, DcTblNo(ci)), Fetch(cfg, AcTblNo(ci));
    DacLocsAre(cfg, 0);
    if CodesDc(cfg) {
      KnowsAt(cfg, locs, m, ArithDcL(d));
      KnowsAt(cfg, locs, m, ArithDcU(d));
    }
    if CodesAc(cfg) { KnowsAt(cfg, locs, m, ArithAcK(a)); }
  }

  lemma InUse(cfg: Memory, i: nat)
    requires i < Fetch(cfg, CompsInScan) && LegalSpec(cfg, CompAt(cfg, i))
    ensures CodesDc(cfg) ==> DcInUse(cfg, Fetch(cfg, DcTblNo(CompAt(cfg, i))))
    ensures CodesAc(cfg) ==> AcInUse(cfg, Fetch(cfg, AcTblNo(CompAt(cfg, i))))
  {
    hide CodesDc, CodesAc, CompAt;
  }

  lemma ScanIsRestored(cfg: Memory, sent: set<Table>, st: State)
    requires LegalScanHeader(cfg) && Knows(cfg, HeaderLocs(cfg, sent) + CodingLocs(cfg), st.mem) && ScanKnown(cfg, st.scan)
    requires !Arith(cfg) ==> TableSet(ScanTables(cfg, 0)) <= sent
    requires Fetch(st.mem, RestartInterval) == Fetch(cfg, RestartInterval) % 0x10000
    ensures ScanRestored(cfg, st)
  {
    hide TableSet, ScanTables, SpecLocs, HeaderLocs, CodingLocs, LegalScanHeader, Knows, CodingRestored, CompAt;
    FieldsKnown(cfg, st.scan, SpecLocs(cfg, 0));
    SpecLocsAre(cfg, 0);
    forall i: nat | i < Fetch(cfg, CompsInScan)
      ensures Fetch(st.scan, CurComp(i)) == Fetch(cfg, CurComp(i)) && CodingRestored(cfg, st.mem, st.scan, CompAt(cfg, i))
    {
      CodingIsRestored(cfg, sent, st.mem, st.scan, i);
      assert CurComp(i) in SpecLocs(cfg, 0);
      KnowsAt(cfg, SpecLocs(cfg, 0), st.scan, CurComp(i));
    }
  }

  /** Reading a scan header: the decompressor then has the scan, with tables that were sent now or earlier; it refuses
      exactly the scans with a component beyond the first four of the frame. */
  lemma ScanRead(cfg: Memory, sent: set<Table>, interval: int, rest: seq<byte>, st: State) returns (st': State)
    requires LegalFrame(cfg) && LegalScanHeader(cfg) && InSync(cfg, sent, interval, st) && TableSet(FrameTables(cfg, 0)) <= sent
    ensures Markers(ScanBytes(cfg, sent, interval) + rest, 0, st) == if NamedComps(cfg) then Reached(true, st', rest) else Bad
    ensures NamedComps(cfg) ==> Restored(cfg, st') && InSync(cfg, SentAfter(cfg, sent), Fetch(cfg, RestartInterval), st')
  {
    hide Markers, CodingBytes, DriSegment, Segment, SosParamBytes, Knows, FrameLocs, TableSet, FrameTables, ScanTables, LegalFrame, LegalScanSpec, DistinctIds,
         LegalConditioning, LegalTables, ScanKnown, Restored, CodingLocs, HeaderLocs, NamedComps, Learned;
    var sos := Segment(M_SOS, SosParamBytes(cfg));
    var dri := DriSegment(cfg, interval);
    assert ScanBytes(cfg, sent, interval) + rest == CodingBytes(cfg, sent) + (dri + (sos + rest));
    var m1 := CodingRead(cfg, sent, dri + (sos + rest), st);
    var st1 := st.(mem := m1);
    var m2 := DriRead(cfg, interval, sos + rest, st1);
    var st2 := st1.(mem := m2);
    var after := SentAfter(cfg, sent);
    IntervalLearned(cfg, HeaderLocs(cfg, after) + CodingLocs(cfg), m1, m2);
    HeaderParts(cfg, after, m2);
    var scan := SosRead(cfg, rest, st2);
    st' := st2.(scan := scan);
    if NamedComps(cfg) { AllRestored(cfg, sent, st'); }
  }

  lemma IntervalLearned(cfg: Memory, locs: set<Loc>, m: Memory, m': Memory)
    requires Knows(cfg, locs, m) && Learned(cfg, {RestartInterval}, m, m')
    ensures Knows(cfg, locs, m') && Fetch(m', RestartInterval) == Fetch(cfg, RestartInterval) % 0x10000
  {
  }

  lemma HeaderParts(cfg: Memory, sent: set<Table>, m: Memory)
    requires Knows(cfg, HeaderLocs(cfg, sent) + CodingLocs(cfg), m)
    ensures Knows(cfg, FrameLocs(cfg), m) && Knows(cfg, HeaderLocs(cfg, sent), m)
  {
    hide FrameLocs, TablesLocs, CodingLocs, Sent;
  }

  lemma AllRestored(cfg: Memory, sent: set<Table>, st: State)
    requires LegalFrame(cfg) && LegalScanHeader(cfg) && TableSet(FrameTables(cfg, 0)) <= sent
    requires Knows(cfg, HeaderLocs(cfg, SentAfter(cfg, sent)) + CodingLocs(cfg), st.mem) && ScanKnown(cfg, st.scan)
    requires Fetch(st.mem, RestartInterval) == Fetch(cfg, RestartInterval) % 0x10000
    ensures Restored(cfg, st)
  {
    hide TableSet, FrameTables, ScanTables, LegalFrame, LegalScanSpec, DistinctIds, LegalConditioning, LegalTables, ScanKnown, Knows, HeaderLocs, CodingLocs,
         FrameRestored, ScanRestored;
    var after := SentAfter(cfg, sent);
    HeaderParts(cfg, after, st.mem);
    FrameIsRestored(cfg, after, st.mem);
    ScanIsRestored(cfg, after, st);
  }

  // ----- The file header

  predicate LegalApps(apps: seq<App>) {
    forall a :: a in apps ==> KindOf(a.code) == Skipped && |a.data| <= 65533
  }

  lemma {:induction false} SkipRun(n: nat, s: seq<byte>)
    requires n <= |s|
    ensures Run(SkipBytes(n), s) == Parsed([], Done(n))
    decreases n
  {
    if n > 0 { SkipRun(n - 1, s[1..]); }
  }

  lemma AppRead(a: App, rest: seq<byte>, st: State)
    requires st.saw_SOI && KindOf(a.code) == Skipped && |a.data| <= 65533
    ensures Markers(Segment(a.code, a.data) + rest, 0, st) == Markers(rest, 0, st)
  {
    hide Run, Markers, Segment, Two, SkipBytes;
    var n := |a.data| + 2;
    TwoSize(n);
    SkipRun(n - 2, a.data + rest);
    RunTwo([], length => SkipBytes(length - 2), n, a.data + rest);
    assert (Two(n) + a.data) + rest == Two(n) + (a.data + rest);
    SegmentRead(a.code, a.data, rest, st);
  }

  lemma {:induction false} AppsRead(apps: seq<App>, rest: seq<byte>, st: State)
    requires st.saw_SOI && LegalApps(apps)
    ensures Markers(AppBytes(apps) + rest, 0, st) == Markers(rest, 0, st)
  {
    hide Markers, Segment, KindOf;
    if apps == [] {
      assert [] + rest == rest;
    } else {
      AppsRead(apps[1..], rest, st);
      AppRead(apps[0], AppBytes(apps[1..]) + rest, st);
      assert AppBytes(apps) + rest == Segment(apps[0].code, apps[0].data) + (AppBytes(apps[1..]) + rest);
    }
  }

  /** The state of a reader that has read nothing. */
  function Fresh(): State {
    State(map[], map[], false, false)
  }

  function Opened(): State {
    State(Apply(Defaults(), map[]), map[], true, false)
  }

  lemma FileRead(apps: seq<App>, rest: seq<byte>)
    requires LegalApps(apps)
    ensures Markers(FileBytes(apps) + rest, 0, Fresh()) == Markers(rest, 0, Opened()) && Fetch(Opened().mem, RestartInterval) == 0
  {
    hide AppBytes, LegalApps, Conditioning, Run;
    var s := FileBytes(apps) + rest;
    assert s[2..] == AppBytes(apps) + rest;
    HaltEnds(Halt(Defaults(), true), s[2..]);
    OpenStep(s);
    AppsRead(apps, rest, Opened());
    ApplyConcat(Conditioning(NUM_ARITH_TBLS), [Store(RestartInterval, 0)], map[]);
  }

  lemma OpenStep(s: seq<byte>)
    requires |s| >= 2 && s[0] == 0xFF && s[1] == M_SOI
    ensures Markers(s, 0, Fresh()) == Markers(s[2..], 0, Opened())
  {
    hide Defaults, Apply, NextMark;
    var p := Halt(Defaults(), true);
    HaltEnds(p, s[2..]);
    assert SegmentProg(Soi, Fresh()) == p;
    assert Markers(s, 0, Fresh()) == Markers(s[2..], M_SOI, Fresh());
    assert s[2..][0..] == s[2..];
  }

  // ----- Whole headers

  function HeaderBytes(apps: seq<App>, cfg: Memory): seq<byte> {
    FileBytes(apps) + FrameBytes(cfg, {}) + ScanBytes(cfg, TableSet(FrameTables(cfg, 0)), 0)
  }

  predicate LegalHeaders(apps: seq<App>, cfg: Memory) {
    LegalApps(apps) && LegalFrameHeader(cfg) && LegalScanHeader(cfg)
  }

  /** Everything up to the data of the first scan. */
  lemma HeadersRead(apps: seq<App>, cfg: Memory, rest: seq<byte>) returns (st: State)
    requires LegalHeaders(apps, cfg)
    ensures Markers(HeaderBytes(apps, cfg) + rest, 0, Fresh()) == if NamedComps(cfg) then Reached(true, st, rest) else Bad
    ensures var sent := TableSet(FrameTables(cfg, 0));
      NamedComps(cfg) ==> Restored(cfg, st) && InSync(cfg, SentAfter(cfg, sent), Fetch(cfg, RestartInterval), st)
  {
    hide Markers, FileBytes, FrameBytes, ScanBytes, LegalApps, LegalFrame, LegalTables, LegalScanHeader, TableSet, FrameTables, Knows, HeaderLocs, NamedComps,
         Restored, Opened, Apply, Conditioning;
    var sent := TableSet(FrameTables(cfg, 0));
    var frame, scan := FrameBytes(cfg, {}), ScanBytes(cfg, sent, 0);
    assert HeaderBytes(apps, cfg) + rest == FileBytes(apps) + (frame + (scan + rest));
    FileRead(apps, frame + (scan + rest));
    OpenedFlags();
    var m := FrameRead(cfg, scan + rest, Opened());
    st := ScanRead(cfg, sent, 0, rest, Opened().(mem := m, saw_SOF := true));
  }

  lemma OpenedFlags()
    ensures Opened().saw_SOI && !Opened().saw_SOF
  {
  }

  lemma HeaderSizes(cfg: Memory)
    requires LegalFrame(cfg) && LegalScanSpec(cfg)
    ensures Fetch(cfg, NumComponents) >= 0 && Fetch(cfg, CompsInScan) >= 0
    ensures Fetch(cfg, ImageHeight) <= 65535 && Fetch(cfg, ImageWidth) <= 65535
  {
  }

  /** Writes the headers and reads them back from an input that is cut anywhere, followed by anything. */
  method TranscodeHeaders(apps: seq<App>, cfg: Memory, tables: set<Table>, rest: seq<byte>, cuts: seq<nat>)
    returns (ok: bool, writer: Writer, reader: Reader, r: Status, p: nat, pieces: seq<seq<byte>>)
    requires LegalHeaders(apps, cfg) && CountsAreBytes(cfg)
    ensures ok <==> TableSet(FrameTables(cfg, 0)) <= tables && (Arith(cfg) || TableSet(ScanTables(cfg, 0)) <= tables)
    ensures ok ==> p <= |pieces| && Flat(pieces) == writer.out + rest
    ensures ok ==> (r == ReachedSos <==> NamedComps(cfg)) && (r != ReachedSos ==> r == Error)
    ensures ok && r == ReachedSos ==> Restored(cfg, reader.Current()) && reader.unread + Flat(pieces[p..]) == rest
  {
    hide FileBytes, FrameBytes, ScanBytes, LegalFrame, LegalTables, LegalScanSpec, TableSet, FrameTables, ScanTables, NamedComps, Restored, Markers,
         CountsAreBytes, InSync, KindOf, Cut, Flat, DistinctIds, LegalConditioning;
    writer := new Writer(cfg, tables);
    reader := new Reader();
    r, p, pieces := Error, 0, [];
    HeaderSizes(cfg);
    ok := writer.WriteFileHeader(apps);
    ok := writer.WriteFrameHeader();
    if !ok {
      return;
    }
    assert {} + TableSet(FrameTables(cfg, 0)) == TableSet(FrameTables(cfg, 0));
    ok := writer.WriteScanHeader();
    if !ok {
      return;
    }
    assert writer.out == HeaderBytes(apps, cfg);
    pieces := Cut(writer.out + rest, cuts);
    ghost var st := HeadersRead(apps, cfg, rest);
    assert reader.unread + Flat(pieces) == Flat(pieces);
    r, p := ReadInPieces(reader, pieces);
  }

  /** Pieces of these lengths, and what is left. */
  function Cut(s: seq<byte>, cuts: seq<nat>): (pieces: seq<seq<byte>>)
    ensures Flat(pieces) == s
    decreases |cuts|
  {
    if cuts == [] || cuts[0] > |s| then assert s + [] == s; [s]
    else assert s[..cuts[0]] + s[cuts[0]..] == s; [s[..cuts[0]]] + Cut(s[cuts[0]..], cuts[1..])
  }

  // ----- All scans

  /** A scan: the parameters of the compressor, and the tables that it has replaced since the scan before. */
  datatype ScanStep = ScanStep(cfg: Memory, replaced: set<Table>)

  /** The frame and its quantization tables stay as they are, and so do the tables that are not sent again. */
  ghost predicate Continues(cfg: Memory, sent: set<Table>, step: ScanStep) {
    && (forall t :: t in step.replaced ==> t.HuffTable?)
    && (forall l :: l in HeaderLocs(cfg, sent - step.replaced) ==> Sent(step.cfg, l) == Sent(cfg, l))
    && LegalFrame(step.cfg) && LegalScanHeader(step.cfg)
  }

  ghost predicate LegalSteps(steps: seq<ScanStep>, cfg: Memory, sent: set<Table>)
    decreases |steps|
  {
    steps == [] || (Continues(cfg, sent, steps[0]) && LegalSteps(steps[1..], steps[0].cfg, SentAfter(steps[0].cfg, sent - steps[0].replaced)))
  }

  function ScanHeaders(steps: seq<ScanStep>, sent: set<Table>, interval: int): seq<seq<byte>> {
    if steps == [] then []
    else
      var cfg, left := steps[0].cfg, sent - steps[0].replaced;
      [ScanBytes(cfg, left, interval)] + ScanHeaders(steps[1..], SentAfter(cfg, left), Fetch(cfg, RestartInterval))
  }

  lemma FrameLocsSame(cfg: Memory, cfg': Memory)
    requires forall l :: l in FrameLocs(cfg) ==> Sent(cfg', l) == Sent(cfg, l)
    ensures FrameLocs(cfg') == FrameLocs(cfg) && TableSet(FrameTables(cfg', 0)) == TableSet(FrameTables(cfg, 0))
  {
    hide TableSet, Sent, CompLocs, FrameTables;
    FieldSent(cfg, NumComponents);
    FieldSent(cfg', NumComponents);
    CompLocsSame(cfg, cfg', 0);
  }

  lemma FieldSent(cfg: Memory, l: Loc)
    requires l.QuantNo? || l.NumComponents?
    ensures Sent(cfg, l) == Fetch(cfg, l)
  {
  }

  lemma {:induction false} CompLocsSame(cfg: Memory, cfg': Memory, ci: nat)
    requires Fetch(cfg', NumComponents) == Fetch(cfg, NumComponents)
    requires forall l :: l in CompLocs(cfg, ci) ==> Sent(cfg', l) == Sent(cfg, l)
    ensures CompLocs(cfg', ci) == CompLocs(cfg, ci) && FrameTables(cfg', ci) == FrameTables(cfg, ci)
    decreases Fetch(cfg, NumComponents) - ci
  {
    hide Sent;
    if ci < Fetch(cfg, NumComponents) {
      CompLocsSame(cfg, cfg', ci + 1);
      assert QuantNo(ci) in CompLocs(cfg, ci);
      FieldSent(cfg, QuantNo(ci));
      FieldSent(cfg', QuantNo(ci));
    }
  }

  /** What is known of the old parameters is known of the new ones. */
  lemma StaysInSync(cfg: Memory, sent: set<Table>, interval: int, step: ScanStep, st: State)
    requires InSync(cfg, sent, interval, st) && Continues(cfg, sent, step) && TableSet(FrameTables(cfg, 0)) <= sent
    ensures InSync(step.cfg, sent - step.replaced, interval, st) && TableSet(FrameTables(step.cfg, 0)) <= sent - step.replaced
  {
    hide TableSet, FrameTables, FrameLocs, TablesLocs, Sent, LegalFrame, LegalScanHeader;
    var left := sent - step.replaced;
    TablesLocsGrow(left, sent);
    FrameLocsSame(cfg, step.cfg);
    assert HeaderLocs(step.cfg, left) == HeaderLocs(cfg, left);
    FrameTablesQuant(cfg, 0);
  }

  lemma {:induction false} FrameTablesQuant(cfg: Memory, ci: nat)
    ensures forall t :: t in TableSet(FrameTables(cfg, ci)) ==> t.QuantTable?
    decreases Fetch(cfg, NumComponents) - ci
  {
    hide TableSet;
    if ci < Fetch(cfg, NumComponents) {
      FrameTablesQuant(cfg, ci + 1);
      TableSetFirst(FrameTables(cfg, ci));
    } else {
      NoTables(cfg, {});
    }
  }

  /** The states of the reader after each header. */
  ghost predicate AllRead(steps: seq<ScanStep>, headers: seq<seq<byte>>, rests: seq<seq<byte>>, sts: seq<State>)
    requires |headers| == |rests| == |steps| && |sts| == |steps| + 1
  {
    forall k :: 0 <= k < |steps| ==> Markers(headers[k] + rests[k], 0, sts[k]) == Reached(true, sts[k + 1], rests[k]) && Restored(steps[k].cfg, sts[k + 1])
  }

  /** Over any number of scans, whatever data follows each header, the decompressor has every scan restored, though tables are
      sent only when they are new, and the restart interval only when it has changed. */
  lemma {:induction false} AllScansRead(steps: seq<ScanStep>, cfg: Memory, sent: set<Table>, interval: int, rests: seq<seq<byte>>, st: State)
    returns (sts: seq<State>)
    requires InSync(cfg, sent, interval, st) && LegalSteps(steps, cfg, sent) && TableSet(FrameTables(cfg, 0)) <= sent
    requires |rests| == |steps| && forall step :: step in steps ==> NamedComps(step.cfg)
    ensures |sts| == |steps| + 1 && sts[0] == st && |ScanHeaders(steps, sent, interval)| == |steps|
    ensures AllRead(steps, ScanHeaders(steps, sent, interval), rests, sts)
    decreases |steps|
  {
    hide InSync, Continues, NamedComps, TableSet, FrameTables, ScanBytes, Restored, Markers, SentAfter;
    if steps == [] {
      sts := [st];
    } else {
      var step := steps[0];
      var left := sent - step.replaced;
      StaysInSync(cfg, sent, interval, step, st);
      ContinuesLegal(cfg, sent, step);
      var st1 := ScanRead(step.cfg, left, interval, rests[0], st);
      SentGrows(step.cfg, left);
      var more := AllScansRead(steps[1..], step.cfg, SentAfter(step.cfg, left), Fetch(step.cfg, RestartInterval), rests[1..], st1);
      sts := [st] + more;
      var headers := ScanHeaders(steps, sent, interval);
      forall k | 0 <= k < |steps|
        ensures Markers(headers[k] + rests[k], 0, sts[k]) == Reached(true, sts[k + 1], rests[k]) && Restored(steps[k].cfg, sts[k + 1])
      {
        if k > 0 { assert headers[k] == headers[1..][k - 1] && rests[k] == rests[1..][k - 1] && steps[k] == steps[1..][k - 1]; }
      }
    }
  }

  /** The compressor writes these headers; its entropy coder writes the data between them. */
  method WriteScans(writer: Writer, steps: seq<ScanStep>) returns (headers: seq<seq<byte>>)
    requires forall step :: step in steps ==> CountsAreBytes(step.cfg) && Fetch(step.cfg, CompsInScan) >= 0
    requires forall step :: step in steps && !Arith(step.cfg) ==> TableSet(ScanTables(step.cfg, 0)) <= writer.tables
    modifies writer
    ensures headers == ScanHeaders(steps, old(writer.sent), old(writer.last_restart_interval))
  {
    hide CountsAreBytes, ScanBytes, TableSet, ScanTables;
    headers := [];
    assert steps[0..] == steps;
    for i := 0 to |steps|
      invariant writer.tables == old(writer.tables)
      invariant headers + ScanHeaders(steps[i..], writer.sent, writer.last_restart_interval) ==
        ScanHeaders(steps, old(writer.sent), old(writer.last_restart_interval))
    {
      var step := steps[i];
      assert steps[i..][0] == step && steps[i..][1..] == steps[i + 1..];
      ghost var interval := writer.last_restart_interval;
      writer.Configure(step.cfg, writer.tables, step.replaced);
      var start := |writer.out|;
      ghost var left := writer.sent;
      var ok := writer.WriteScanHeader();
      assert ok;
      headers := headers + [writer.out[start..]];
      assert writer.out[start..] == ScanBytes(step.cfg, left, interval);
    }
  }

  lemma ContinuesLegal(cfg: Memory, sent: set<Table>, step: ScanStep)
    requires Continues(cfg, sent, step)
    ensures LegalFrame(step.cfg) && LegalScanHeader(step.cfg)
  {
  }

  lemma SentGrows(cfg: Memory, sent: set<Table>)
    ensures sent <= SentAfter(cfg, sent)
  {
  }
}
