/** The marker writer of the compressor: appends the segments of the file, frame and scan headers, and sends no table twice. */
module MarkerWriter {
  import opened Bytes
  import opened MarkerProg
  import opened MarkerStream
  import opened MarkerSegments
  import opened ZigZag

  datatype Table = QuantTable(n: nat) | HuffTable(ac: bool, n: nat)

  datatype App = App(code: byte, data: seq<byte>)

  // ----- What is written

  function TableBytes(cfg: Memory, t: Table): seq<byte> {
    match t
    case QuantTable(n) => Segment(M_DQT, DqtParams(cfg, n))
    case HuffTable(ac, n) => Segment(M_DHT, DhtParams(cfg, ac, n))
  }

  /** These tables in order, but those that have been sent. */
  function TablesBytes(cfg: Memory, ts: seq<Table>, sent: set<Table>): seq<byte> {
    if ts == [] then []
    else (if ts[0] in sent then [] else TableBytes(cfg, ts[0])) + TablesBytes(cfg, ts[1..], sent + {ts[0]})
  }

  function AsNat(v: int): nat {
    if v < 0 then 0 else v
  }

  /** The quantization tables of the components from ci on. */
  function FrameTables(cfg: Memory, ci: nat): seq<Table>
    decreases Fetch(cfg, NumComponents) - ci
  {
    if ci >= Fetch(cfg, NumComponents) then [] else [QuantTable(AsNat(Fetch(cfg, QuantNo(ci))))] + FrameTables(cfg, ci + 1)
  }

  function DcTable(cfg: Memory, ci: nat): seq<Table> {
    if CodesDc(cfg) then [HuffTable(false, AsNat(Fetch(cfg, DcTblNo(ci))))] else []
  }

  function AcTable(cfg: Memory, ci: nat): seq<Table> {
    if CodesAc(cfg) then [HuffTable(true, AsNat(Fetch(cfg, AcTblNo(ci))))] else []
  }

  /** The Huffman tables of the components of the scan from the i-th on. */
  function ScanTables(cfg: Memory, i: nat): seq<Table>
    decreases Fetch(cfg, CompsInScan) - i
  {
    if i >= Fetch(cfg, CompsInScan) then []
    else DcTable(cfg, CompAt(cfg, i)) + (AcTable(cfg, CompAt(cfg, i)) + ScanTables(cfg, i + 1))
  }

  function AppBytes(apps: seq<App>): seq<byte> {
    if apps == [] then [] else Segment(apps[0].code, apps[0].data) + AppBytes(apps[1..])
  }

  function FileBytes(apps: seq<App>): seq<byte> {
    [0xFF, M_SOI] + AppBytes(apps)
  }

  predicate Baseline(cfg: Memory) {
    && Fetch(cfg, DataPrecision) == 8
    && (forall ci: nat :: ci < Fetch(cfg, NumComponents) ==> Fetch(cfg, DcTblNo(ci)) <= 1 && Fetch(cfg, AcTblNo(ci)) <= 1)
    && (forall ci: nat :: ci < Fetch(cfg, NumComponents) ==> !Wide(cfg, AsNat(Fetch(cfg, QuantNo(ci)))))
  }

  function SofCode(cfg: Memory): byte {
    if Fetch(cfg, ArithCode) != 0 then (if Fetch(cfg, ProgressiveMode) != 0 then 0xCA else 0xC9)
    else if Fetch(cfg, ProgressiveMode) != 0 then 0xC2
    else if Baseline(cfg) then 0xC0
    else 0xC1
  }

  function FrameBytes(cfg: Memory, sent: set<Table>): seq<byte> {
    TablesBytes(cfg, FrameTables(cfg, 0), sent) + Segment(SofCode(cfg), SofParams(cfg))
  }

  function DacSegment(cfg: Memory): seq<byte> {
    if DacBytes(cfg, 0) == [] then [] else Segment(M_DAC, DacBytes(cfg, 0))
  }

  function DriSegment(cfg: Memory, interval: int): seq<byte> {
    if Fetch(cfg, RestartInterval) == interval then [] else Segment(M_DRI, DriParams(cfg))
  }

  function CodingBytes(cfg: Memory, sent: set<Table>): seq<byte> {
    if Fetch(cfg, ArithCode) != 0 then DacSegment(cfg) else TablesBytes(cfg, ScanTables(cfg, 0), sent)
  }

  function ScanBytes(cfg: Memory, sent: set<Table>, interval: int): seq<byte> {
    CodingBytes(cfg, sent) + (DriSegment(cfg, interval) + Segment(M_SOS, SosParamBytes(cfg)))
  }

  function TableSet(ts: seq<Table>): set<Table> {
    set i | 0 <= i < |ts| :: ts[i]
  }

  lemma TableSetFirst(ts: seq<Table>)
    requires ts != []
    ensures TableSet(ts) == {ts[0]} + TableSet(ts[1..])
  {
    forall t | t in TableSet(ts)
      ensures t in {ts[0]} + TableSet(ts[1..])
    {
      var i :| 0 <= i < |ts| && ts[i] == t;
      if i > 0 { assert ts[1..][i - 1] == t; }
    }
    forall t | t in TableSet(ts[1..])
      ensures t in TableSet(ts)
    {
      var i :| 0 <= i < |ts[1..]| && ts[1..][i] == t;
      assert ts[i + 1] == t;
    }
  }

  /** The tables marked as sent after a scan header. */
  function SentAfter(cfg: Memory, sent: set<Table>): set<Table> {
    if Fetch(cfg, ArithCode) != 0 then sent else sent + TableSet(ScanTables(cfg, 0))
  }

  // The counts of a Huffman table are unsigned bytes.
  ghost predicate CountsAreBytes(cfg: Memory) {
    forall l: Loc :: l.HuffBits? ==> 0 <= Fetch(cfg, l) < 256
  }

  lemma {:induction false} CountsAdd(cfg: Memory, ac: bool, n: nat, i: nat)
    requires CountsAreBytes(cfg)
    ensures Codes(cfg, ac, n, i) >= 0 && |BitBytes(cfg, ac, n, i)| == i
    ensures |ValBytes(cfg, ac, n, Codes(cfg, ac, n, i))| == Codes(cfg, ac, n, i)
  {
    if i > 0 { CountsAdd(cfg, ac, n, i - 1); }
    ValBytesSize(cfg, ac, n, Codes(cfg, ac, n, i));
  }

  class Writer {
    var out: seq<byte>
    var cfg: Memory
    var tables: set<Table>  // those that are not NULL
    var sent: set<Table>
    var last_restart_interval: int

    constructor (cfg: Memory, tables: set<Table>)
      ensures this.cfg == cfg && this.tables == tables && out == [] && sent == {} && last_restart_interval == 0
    {
      this.out, this.cfg, this.tables, this.sent, this.last_restart_interval := [], cfg, tables, {}, 0;
    }

    method EmitByte(val: int)
      modifies `out
      ensures out == old(out) + [Low(val)]
    {
      out := out + [val % 256];
    }

    method EmitMarker(mark: byte)
      modifies `out
      ensures out == old(out) + [0xFF, mark]
    {
      EmitByte(0xFF);
      EmitByte(mark);
    }

    method Emit2Bytes(value: int)
      modifies `out
      ensures out == old(out) + Two(value)
    {
      EmitByte(value / 256 % 256);
      EmitByte(value % 256);
    }

    // A marker and the length of its segment.
    method EmitHead(mark: byte, length: int)
      modifies `out
      ensures out == old(out) + ([0xFF, mark] + Two(length))
    {
      hide Two;
      EmitMarker(mark);
      Emit2Bytes(length);
    }

    method EmitDqt(index: nat) returns (ok: bool, prec: bool)
      modifies `out, `sent
      ensures ok <==> QuantTable(index) in tables
      ensures ok ==> prec == Wide(cfg, index) && sent == old(sent) + {QuantTable(index)}
      ensures ok ==> out == old(out) + if QuantTable(index) in old(sent) then [] else TableBytes(cfg, QuantTable(index))
    {
      hide NaturalAt, Two, QuantBytes, Wide;
      ok, prec := QuantTable(index) in tables, false;
      if !ok {
        return;
      }
      prec := FindWide(index);
      if QuantTable(index) in sent {
        return;
      }
      QuantSize(cfg, index, prec, 0);
      ghost var start := out;
      EmitHead(M_DQT, if prec then DCTSIZE2 * 2 + 1 + 2 else DCTSIZE2 + 1 + 2);
      EmitByte(index + if prec then 16 else 0);
      EmitQuantVals(index, prec);
      Assemble(start, M_DQT, [Low(index + if prec then 16 else 0)], QuantBytes(cfg, index, prec, 0));
      sent := sent + {QuantTable(index)};
    }

    method FindWide(index: nat) returns (prec: bool)
      ensures prec == Wide(cfg, index)
    {
      prec := false;
      for i := 0 to DCTSIZE2
        invariant prec <==> exists k :: 0 <= k < i && Fetch(cfg, Quant(index, k)) > 255
      {
        if Fetch(cfg, Quant(index, i)) > 255 { prec := true; }
      }
    }

    method EmitQuantVals(index: nat, prec: bool)
      modifies `out
      ensures out == old(out) + QuantBytes(cfg, index, prec, 0)
    {
      hide NaturalAt, QuantBytes, Two;
      var i: nat := 0;
      while i < DCTSIZE2
        invariant i <= 64 && out + QuantBytes(cfg, index, prec, i) == old(out) + QuantBytes(cfg, index, prec, 0)
      {
        // The table entries must be emitted in zigzag order.
        var qval := Fetch(cfg, Quant(index, NaturalAt(i)));
        ghost var before := out;
        EmitQuantVal(qval, prec);
        QuantBytesNext(cfg, index, prec, i);
        Reassociate(before, if prec then Two(qval) else [Low(qval)], QuantBytes(cfg, index, prec, i + 1));
        i := i + 1;
      }
      QuantBytesNext(cfg, index, prec, i);
      assert out + [] == out;
    }

    method EmitQuantVal(qval: int, prec: bool)
      modifies `out
      ensures out == old(out) + if prec then Two(qval) else [Low(qval)]
    {
      if prec { EmitByte(qval / 256); }
      EmitByte(qval % 256);
    }

    method EmitDht(index: nat, is_ac: bool) returns (ok: bool)
      requires CountsAreBytes(cfg)
      modifies `out, `sent
      ensures ok <==> HuffTable(is_ac, index) in tables
      ensures ok ==> sent == old(sent) + {HuffTable(is_ac, index)}
      ensures ok ==> out == old(out) + if HuffTable(is_ac, index) in old(sent) then [] else TableBytes(cfg, HuffTable(is_ac, index))
    {
      hide Two, BitBytes, ValBytes, Codes;
      var t := HuffTable(is_ac, index);
      ok := t in tables;
      if !ok || t in sent {
        return;
      }
      var length := CountCodes(index, is_ac);
      CountsAdd(cfg, is_ac, index, 16);
      ghost var start := out;
      EmitHead(M_DHT, length + 2 + 1 + 16);
      EmitByte(index + if is_ac then 16 else 0);
      EmitHuffTable(index, is_ac, length);
      Assemble(start, M_DHT, [Low(index + if is_ac then 16 else 0)], BitBytes(cfg, is_ac, index, 16) + ValBytes(cfg, is_ac, index, length));
      sent := sent + {t};
    }

    method CountCodes(index: nat, is_ac: bool) returns (length: int)
      ensures length == Codes(cfg, is_ac, index, 16)
    {
      length := 0;
      for i := 1 to 17
        invariant length == Codes(cfg, is_ac, index, i - 1)
      {
        length := length + Bit(cfg, is_ac, index, i);
      }
    }

    method EmitHuffTable(index: nat, is_ac: bool, length: nat)
      modifies `out
      ensures out == old(out) + (BitBytes(cfg, is_ac, index, 16) + ValBytes(cfg, is_ac, index, length))
    {
      for i := 1 to 17
        invariant out == old(out) + BitBytes(cfg, is_ac, index, i - 1)
      {
        EmitByte(Bit(cfg, is_ac, index, i));
      }
      ghost var bits := out;
      for i := 0 to length
        invariant out == bits + ValBytes(cfg, is_ac, index, i)
      {
        EmitByte(Fetch(cfg, HuffVal(is_ac, index, i)));
      }
    }

    // The conditioning of all tables in use, in one segment.
    method EmitDac()
      modifies `out
      ensures out == old(out) + DacSegment(cfg)
    {
      hide DcInUse, AcInUse, DcEntry, AcEntry, DacBytes, Two, Segment;
      var length := CountInUse();
      if length == 0 {
        return;
      }
      ghost var start := out;
      EmitHead(M_DAC, length * 2 + 2);
      EmitConditioning();
      AssembleOne(start, M_DAC, DacBytes(cfg, 0));
    }

    method CountInUse() returns (length: int)
      ensures 2 * length == |DacBytes(cfg, 0)|
    {
      hide DcInUse, AcInUse, DcEntry, AcEntry, DacBytes;
      length := 0;
      for i := 0 to NUM_ARITH_TBLS
        invariant 2 * length + |DacBytes(cfg, i)| == |DacBytes(cfg, 0)|
      {
        DacBytesNext(cfg, i);
        EntrySizes(cfg, i);
        var dc := UsesDc(i);
        var ac := UsesAc(i);
        length := length + (if dc then 1 else 0) + if ac then 1 else 0;
      }
      DacBytesNext(cfg, NUM_ARITH_TBLS);
    }

    method EmitConditioning()
      modifies `out
      ensures out == old(out) + DacBytes(cfg, 0)
    {
      hide DcInUse, AcInUse, DcEntry, AcEntry, DacBytes;
      var i: nat := 0;
      while i < NUM_ARITH_TBLS
        invariant i <= NUM_ARITH_TBLS && out + DacBytes(cfg, i) == old(out) + DacBytes(cfg, 0)
      {
        ghost var before := out;
        EmitEntries(i);
        DacBytesNext(cfg, i);
        Reassociate(before, DcEntry(cfg, i) + AcEntry(cfg, i), DacBytes(cfg, i + 1));
        Reassociate(DcEntry(cfg, i), AcEntry(cfg, i), DacBytes(cfg, i + 1));
        i := i + 1;
      }
      DacBytesNext(cfg, i);
      assert out + [] == out;
    }

    method EmitEntries(i: nat)
      requires i < NUM_ARITH_TBLS
      modifies `out
      ensures out == old(out) + (DcEntry(cfg, i) + AcEntry(cfg, i))
    {
      hide DcInUse, AcInUse;
      var dc := UsesDc(i);
      if dc {
        EmitByte(i);
        EmitByte(Fetch(cfg, ArithDcL(i)) + 16 * Fetch(cfg, ArithDcU(i)));
      }
      var ac := UsesAc(i);
      if ac {
        EmitByte(i + 16);
        EmitByte(Fetch(cfg, ArithAcK(i)));
      }
    }

    method UsesDc(i: nat) returns (used: bool)
      ensures used == DcInUse(cfg, i)
    {
      used := false;
      if CodesDc(cfg) {
        var k: nat := 0;
        while k < Fetch(cfg, CompsInScan)
          invariant used <==> exists j: nat :: j < k && j < Fetch(cfg, CompsInScan) && Fetch(cfg, DcTblNo(CompAt(cfg, j))) == i
          invariant k == 0 || k <= Fetch(cfg, CompsInScan)
        {
          if Fetch(cfg, DcTblNo(CompAt(cfg, k))) == i { used := true; }
          k := k + 1;
        }
      }
    }

    method UsesAc(i: nat) returns (used: bool)
      ensures used == AcInUse(cfg, i)
    {
      used := false;
      if CodesAc(cfg) {
        var k: nat := 0;
        while k < Fetch(cfg, CompsInScan)
          invariant used <==> exists j: nat :: j < k && j < Fetch(cfg, CompsInScan) && Fetch(cfg, AcTblNo(CompAt(cfg, j))) == i
          invariant k == 0 || k <= Fetch(cfg, CompsInScan)
        {
          if Fetch(cfg, AcTblNo(CompAt(cfg, k))) == i { used := true; }
          k := k + 1;
        }
      }
    }

    method EmitDri()
      modifies `out
      ensures out == old(out) + Segment(M_DRI, DriParams(cfg))
    {
      hide Two;
      ghost var start := out;
      EmitHead(M_DRI, 4);  // fixed length
      Emit2Bytes(Fetch(cfg, RestartInterval));
      TwoSize(Fetch(cfg, RestartInterval));
      AssembleOne(start, M_DRI, DriParams(cfg));
    }

    method EmitSof(code: byte) returns (ok: bool)
      requires Fetch(cfg, NumComponents) >= 0
      modifies `out
      ensures ok <==> Fetch(cfg, ImageHeight) <= 65535 && Fetch(cfg, ImageWidth) <= 65535
      ensures ok ==> out == old(out) + Segment(code, SofParams(cfg))
    {
      hide Two, CompBytes;
      ghost var start := out;
      CompSize(cfg, 0);
      EmitHead(code, 3 * Fetch(cfg, NumComponents) + 2 + 5 + 1);
      if Fetch(cfg, ImageHeight) > 65535 || Fetch(cfg, ImageWidth) > 65535 {
        return false;
      }
      EmitFrame();
      EmitComps();
      FrameSplit(cfg);
      Assemble(start, code, FrameFields(cfg), CompBytes(cfg, 0));
      ok := true;
    }

    method EmitFrame()
      modifies `out
      ensures out == old(out) + FrameFields(cfg)
    {
      EmitByte(Fetch(cfg, DataPrecision));
      Emit2Bytes(Fetch(cfg, ImageHeight));
      Emit2Bytes(Fetch(cfg, ImageWidth));
      EmitByte(Fetch(cfg, NumComponents));
    }

    method EmitComps()
      requires Fetch(cfg, NumComponents) >= 0
      modifies `out
      ensures out == old(out) + CompBytes(cfg, 0)
    {
      var ci: nat := 0;
      while ci < Fetch(cfg, NumComponents)
        invariant ci <= Fetch(cfg, NumComponents) && out + CompBytes(cfg, ci) == old(out) + CompBytes(cfg, 0)
      {
        ghost var before := out;
        EmitByte(Fetch(cfg, ComponentId(ci)));
        EmitByte(16 * Fetch(cfg, HSamp(ci)) + Fetch(cfg, VSamp(ci)));
        EmitByte(Fetch(cfg, QuantNo(ci)));
        Reassociate(before, CompTriple(cfg, ci), CompBytes(cfg, ci + 1));
        ci := ci + 1;
      }
    }

    method EmitSos()
      requires Fetch(cfg, CompsInScan) >= 0
      modifies `out
      ensures out == old(out) + Segment(M_SOS, SosParamBytes(cfg))
    {
      hide Two, SpecBytes;
      ghost var start := out;
      SpecSize(cfg, 0);
      EmitHead(M_SOS, 2 * Fetch(cfg, CompsInScan) + 2 + 1 + 3);
      EmitByte(Fetch(cfg, CompsInScan));
      EmitSpecs();
      EmitByte(Fetch(cfg, ScanSs));
      EmitByte(Fetch(cfg, ScanSe));
      EmitByte(16 * Fetch(cfg, ScanAh) + Fetch(cfg, ScanAl));
      Assemble(start, M_SOS, [Low(Fetch(cfg, CompsInScan))], SpecBytes(cfg, 0) + ApproxBytes(cfg));
    }

    method EmitSpecs()
      requires Fetch(cfg, CompsInScan) >= 0
      modifies `out
      ensures out == old(out) + SpecBytes(cfg, 0)
    {
      hide CompAt, SpecPair, SpecBytes;
      var i: nat := 0;
      while i < Fetch(cfg, CompsInScan)
        invariant i <= Fetch(cfg, CompsInScan) && out + SpecBytes(cfg, i) == old(out) + SpecBytes(cfg, 0)
      {
        ghost var before := out;
        EmitSpec(CompAt(cfg, i));
        SpecBytesNext(cfg, i);
        Reassociate(before, SpecPair(cfg, CompAt(cfg, i)), SpecBytes(cfg, i + 1));
        i := i + 1;
      }
      SpecBytesNext(cfg, i);
      assert out + [] == out;
    }

    method EmitSpec(ci: nat)
      modifies `out
      ensures out == old(out) + SpecPair(cfg, ci)
    {
      EmitByte(Fetch(cfg, ComponentId(ci)));
      // DC needs no table for refinement scan, AC needs no table when not present.
      var td := if Fetch(cfg, ScanSs) == 0 && Fetch(cfg, ScanAh) == 0 then Fetch(cfg, DcTblNo(ci)) else 0;
      var ta := if Fetch(cfg, ScanSe) != 0 then Fetch(cfg, AcTblNo(ci)) else 0;
      EmitByte(16 * td + ta);
    }

    /** write_file_header: SOI and application segments; fails if one of these is too long. */
    method WriteFileHeader(apps: seq<App>) returns (ok: bool)
      modifies `out, `last_restart_interval
      ensures ok <==> forall a :: a in apps ==> |a.data| <= 65533
      ensures ok ==> out == old(out) + FileBytes(apps) && last_restart_interval == 0
    {
      hide AppBytes, Segment;
      EmitMarker(M_SOI);
      last_restart_interval := 0;
      ghost var head := out;
      assert apps[0..] == apps;
      for i := 0 to |apps|
        invariant out + AppBytes(apps[i..]) == head + AppBytes(apps) && last_restart_interval == 0
        invariant forall a :: a in apps[..i] ==> |a.data| <= 65533
      {
        assert apps[i] in apps && apps[..i + 1] == apps[..i] + [apps[i]];
        if |apps[i].data| > 65533 {
          return false;
        }
        ghost var before := out;
        WriteMarker(apps[i]);
        AppsNext(apps, i);
        Reassociate(before, Segment(apps[i].code, apps[i].data), AppBytes(apps[i + 1..]));
      }
      assert apps[..|apps|] == apps;
      AppsNext(apps, |apps|);
      assert out + [] == out;
      Reassociate(old(out), [0xFF, M_SOI], AppBytes(apps));
      ok := true;
    }

    // write_marker_header and write_marker_byte
    method WriteMarker(a: App)
      modifies `out
      ensures out == old(out) + Segment(a.code, a.data)
    {
      hide Two, Segment;
      ghost var start := out;
      EmitHead(a.code, |a.data| + 2);
      ghost var head := out;
      for i := 0 to |a.data|
        invariant out == head + a.data[..i]
      {
        assert a.data[..i + 1] == a.data[..i] + [a.data[i]];
        EmitByte(a.data[i]);
      }
      assert a.data[..|a.data|] == a.data;
      AssembleOne(start, a.code, a.data);
    }

    /** write_frame_header: the quantization tables in use, and SOF; fails if a table is missing or the image too large. */
    method WriteFrameHeader() returns (ok: bool)
      requires Fetch(cfg, NumComponents) >= 0
      modifies `out, `sent
      ensures ok <==> TableSet(FrameTables(cfg, 0)) <= tables && Fetch(cfg, ImageHeight) <= 65535 && Fetch(cfg, ImageWidth) <= 65535
      ensures ok ==> out == old(out) + FrameBytes(cfg, old(sent)) && sent == old(sent) + TableSet(FrameTables(cfg, 0))
    {
      hide FrameTables, TablesBytes, TableBytes, TableSet, SofParams, Segment, Baseline, Wide;
      var prec;
      ok, prec := EmitQuantTables();
      if !ok {
        return;
      }
      var code := ChooseSof(prec);
      ghost var before := out;
      ok := EmitSof(code);
      Reassociate(old(out), TablesBytes(cfg, FrameTables(cfg, 0), old(sent)), Segment(code, SofParams(cfg)));
    }

    method EmitQuantTables() returns (ok: bool, prec: bool)
      requires Fetch(cfg, NumComponents) >= 0
      modifies `out, `sent
      ensures ok <==> TableSet(FrameTables(cfg, 0)) <= tables
      ensures ok ==> out == old(out) + TablesBytes(cfg, FrameTables(cfg, 0), old(sent)) && sent == old(sent) + TableSet(FrameTables(cfg, 0))
      ensures ok ==> (prec <==> exists ci: nat :: ci < Fetch(cfg, NumComponents) && Wide(cfg, AsNat(Fetch(cfg, QuantNo(ci)))))
    {
      hide FrameTables, TablesBytes, TableBytes, TableSet, Wide;
      prec := false;
      var ci: nat := 0;
      while ci < Fetch(cfg, NumComponents)
        invariant ci <= Fetch(cfg, NumComponents)
        invariant out + TablesBytes(cfg, FrameTables(cfg, ci), sent) == old(out) + TablesBytes(cfg, FrameTables(cfg, 0), old(sent))
        invariant sent + TableSet(FrameTables(cfg, ci)) == old(sent) + TableSet(FrameTables(cfg, 0))
        invariant TableSet(FrameTables(cfg, 0)) <= tables <==> TableSet(FrameTables(cfg, ci)) <= tables
        invariant prec <==> exists k: nat :: k < ci && Wide(cfg, AsNat(Fetch(cfg, QuantNo(k))))
      {
        var p;
        ghost var before, was := out, sent;
        FrameTablesNext(cfg, ci, sent);
        ok, p := EmitDqt(AsNat(Fetch(cfg, QuantNo(ci))));
        if !ok {
          return;
        }
        var t := QuantTable(AsNat(Fetch(cfg, QuantNo(ci))));
        Reassociate(before, if t in was then [] else TableBytes(cfg, t), TablesBytes(cfg, FrameTables(cfg, ci + 1), sent));
        if p { prec := true; }
        ci := ci + 1;
      }
      FrameTablesNext(cfg, ci, sent);
      assert out + [] == out;
      ok := true;
    }

    // The marker that tells the process; a baseline process has 8-bit quantization and at most two Huffman tables of a kind.
    method ChooseSof(prec: bool) returns (code: byte)
      requires prec <==> exists ci: nat :: ci < Fetch(cfg, NumComponents) && Wide(cfg, AsNat(Fetch(cfg, QuantNo(ci))))
      ensures code == SofCode(cfg)
    {
      hide Wide;
      var is_baseline := Fetch(cfg, DataPrecision) == 8;
      var ci: nat := 0;
      while ci < Fetch(cfg, NumComponents)
        invariant is_baseline <==> Fetch(cfg, DataPrecision) == 8 && forall k: nat :: k < ci && k < Fetch(cfg, NumComponents) ==>
          Fetch(cfg, DcTblNo(k)) <= 1 && Fetch(cfg, AcTblNo(k)) <= 1
        invariant ci == 0 || ci <= Fetch(cfg, NumComponents)
      {
        if Fetch(cfg, DcTblNo(ci)) > 1 || Fetch(cfg, AcTblNo(ci)) > 1 { is_baseline := false; }
        ci := ci + 1;
      }
      if prec { is_baseline := false; }
      assert is_baseline == Baseline(cfg);
      if Fetch(cfg, ArithCode) != 0 {
        code := if Fetch(cfg, ProgressiveMode) != 0 then 0xCA else 0xC9;
      } else if Fetch(cfg, ProgressiveMode) != 0 {
        code := 0xC2;
      } else {
        code := if is_baseline then 0xC0 else 0xC1;
      }
    }

    /** write_scan_header: the tables that have not been sent, the restart interval if it has changed, and SOS. */
    method WriteScanHeader() returns (ok: bool)
      requires CountsAreBytes(cfg) && Fetch(cfg, CompsInScan) >= 0
      modifies `out, `sent, `last_restart_interval
      ensures ok <==> Fetch(cfg, ArithCode) != 0 || TableSet(ScanTables(cfg, 0)) <= tables
      ensures ok ==> out == old(out) + ScanBytes(cfg, old(sent), old(last_restart_interval))
      ensures ok ==> sent == SentAfter(cfg, old(sent)) && last_restart_interval == Fetch(cfg, RestartInterval)
    {
      hide ScanTables, TablesBytes, TableSet, Segment, SosParamBytes, DacSegment, DriParams;
      ghost var interval := last_restart_interval;
      if Fetch(cfg, ArithCode) != 0 {
        EmitDac();
      } else {
        ok := EmitHuffTables();
        if !ok {
          return;
        }
      }
      ghost var coding := out;
      assert coding == old(out) + CodingBytes(cfg, old(sent));
      assert out + [] == out;
      if Fetch(cfg, RestartInterval) != last_restart_interval {
        EmitDri();
        last_restart_interval := Fetch(cfg, RestartInterval);
      }
      assert out == coding + DriSegment(cfg, interval);
      EmitSos();
      Reassociate(coding, DriSegment(cfg, interval), Segment(M_SOS, SosParamBytes(cfg)));
      Reassociate(old(out), CodingBytes(cfg, old(sent)), DriSegment(cfg, interval) + Segment(M_SOS, SosParamBytes(cfg)));
      ok := true;
    }

    method EmitHuffTables() returns (ok: bool)
      requires CountsAreBytes(cfg) && Fetch(cfg, CompsInScan) >= 0
      modifies `out, `sent
      ensures ok <==> TableSet(ScanTables(cfg, 0)) <= tables
      ensures ok ==> out == old(out) + TablesBytes(cfg, ScanTables(cfg, 0), old(sent)) && sent == old(sent) + TableSet(ScanTables(cfg, 0))
    {
      hide ScanTables, TablesBytes, TableSet, DcTable, AcTable, CompAt;
      var i: nat := 0;
      while i < Fetch(cfg, CompsInScan)
        invariant i <= Fetch(cfg, CompsInScan)
        invariant out + TablesBytes(cfg, ScanTables(cfg, i), sent) == old(out) + TablesBytes(cfg, ScanTables(cfg, 0), old(sent))
        invariant sent + TableSet(ScanTables(cfg, i)) == old(sent) + TableSet(ScanTables(cfg, 0))
        invariant TableSet(ScanTables(cfg, 0)) <= tables <==> TableSet(ScanTables(cfg, i)) <= tables
      {
        ok := SendTables(i);
        if !ok {
          return;
        }
        i := i + 1;
      }
      ScanTablesNext(cfg, i);
      NoTables(cfg, sent);
      assert out + [] == out;
      ok := true;
    }

    // The tables of one component of the scan.
    method SendTables(i: nat) returns (ok: bool)
      requires CountsAreBytes(cfg) && i < Fetch(cfg, CompsInScan)
      modifies `out, `sent
      ensures var ts := TableSet(DcTable(cfg, CompAt(cfg, i))) + TableSet(AcTable(cfg, CompAt(cfg, i)));
        && TableSet(ScanTables(cfg, i)) == ts + TableSet(ScanTables(cfg, i + 1))
        && (ok <==> ts <= tables)
        && (ok ==> sent == old(sent) + ts)
        && (ok ==> out + TablesBytes(cfg, ScanTables(cfg, i + 1), sent) == old(out) + TablesBytes(cfg, ScanTables(cfg, i), old(sent)))
    {
      hide ScanTables, TablesBytes, TableSet, CompAt, CodesDc, CodesAc;
      var ci := CompAt(cfg, i);
      ScanTablesNext(cfg, i);
      TableSetConcat(AcTable(cfg, ci), ScanTables(cfg, i + 1));
      ok := SendTable(false, CodesDc(cfg), Fetch(cfg, DcTblNo(ci)), AcTable(cfg, ci) + ScanTables(cfg, i + 1));
      if ok { ok := SendTable(true, CodesAc(cfg), Fetch(cfg, AcTblNo(ci)), ScanTables(cfg, i + 1)); }
    }

    // emit_dht for a table that the scan may need; rest: the tables that follow.
    method SendTable(ac: bool, used: bool, no: int, ghost rest: seq<Table>) returns (ok: bool)
      requires CountsAreBytes(cfg)
      modifies `out, `sent
      ensures var ts := if used then [HuffTable(ac, AsNat(no))] else [];
        && TableSet(ts + rest) == TableSet(ts) + TableSet(rest)
        && (ok <==> TableSet(ts) <= tables)
        && (ok ==> sent == old(sent) + TableSet(ts))
        && (ok ==> out + TablesBytes(cfg, rest, sent) == old(out) + TablesBytes(cfg, ts + rest, old(sent)))
    {
      hide TablesBytes, TableBytes, TableSet;
      NoTables(cfg, sent);
      if !used {
        assert [] + rest == rest;
        return true;
      }
      var t := HuffTable(ac, AsNat(no));
      ok := EmitDht(AsNat(no), ac);
      TablesNext(cfg, t, rest, old(sent));
      Reassociate(old(out), if t in old(sent) then [] else TableBytes(cfg, t), TablesBytes(cfg, rest, old(sent) + {t}));
    }

    /** Between scans: the parameters change, and tables may be replaced, which marks them as not sent. */
    method Configure(cfg: Memory, tables: set<Table>, replaced: set<Table>)
      modifies `cfg, `tables, `sent
      ensures this.cfg == cfg && this.tables == tables && sent == old(sent) - replaced
    {
      this.cfg, this.tables, sent := cfg, tables, sent - replaced;
    }
  }

  lemma AppsNext(apps: seq<App>, i: nat)
    requires i <= |apps|
    ensures AppBytes(apps[i..]) == if i == |apps| then [] else Segment(apps[i].code, apps[i].data) + AppBytes(apps[i + 1..])
  {
    hide Segment;
    if i < |apps| { assert apps[i..][1..] == apps[i + 1..]; }
  }

  lemma TableSetConcat(a: seq<Table>, b: seq<Table>)
    ensures TableSet(a + b) == TableSet(a) + TableSet(b)
  {
    forall i | 0 <= i < |a|
      ensures a[i] in TableSet(a + b)
    {
      assert (a + b)[i] == a[i];
    }
    forall i | 0 <= i < |b|
      ensures b[i] in TableSet(a + b)
    {
      assert (a + b)[|a| + i] == b[i];
    }
  }

  lemma NoTables(cfg: Memory, sent: set<Table>)
    ensures TablesBytes(cfg, [], sent) == [] && TableSet([]) == {}
  {
  }

  lemma TablesNext(cfg: Memory, t: Table, rest: seq<Table>, sent: set<Table>)
    ensures TablesBytes(cfg, [t] + rest, sent) == (if t in sent then [] else TableBytes(cfg, t)) + TablesBytes(cfg, rest, sent + {t})
    ensures TableSet([t] + rest) == {t} + TableSet(rest) && TableSet([t]) == {t}
  {
    hide TableBytes;
    TableSetFirst([t] + rest);
    TableSetFirst([t]);
    assert ([t] + rest)[1..] == rest;
  }

  lemma FrameTablesNext(cfg: Memory, ci: nat, sent: set<Table>)
    ensures if ci >= Fetch(cfg, NumComponents) then TablesBytes(cfg, FrameTables(cfg, ci), sent) == [] && TableSet(FrameTables(cfg, ci)) == {}
      else var t := QuantTable(AsNat(Fetch(cfg, QuantNo(ci))));
        && TablesBytes(cfg, FrameTables(cfg, ci), sent) ==
             (if t in sent then [] else TableBytes(cfg, t)) + TablesBytes(cfg, FrameTables(cfg, ci + 1), sent + {t})
        && TableSet(FrameTables(cfg, ci)) == {t} + TableSet(FrameTables(cfg, ci + 1))
  {
    hide TablesBytes, TableBytes, TableSet;
    NoTables(cfg, sent);
    if ci < Fetch(cfg, NumComponents) { TablesNext(cfg, QuantTable(AsNat(Fetch(cfg, QuantNo(ci)))), FrameTables(cfg, ci + 1), sent); }
  }

  lemma ScanTablesNext(cfg: Memory, i: nat)
    ensures ScanTables(cfg, i) == if i >= Fetch(cfg, CompsInScan) then []
      else DcTable(cfg, CompAt(cfg, i)) + (AcTable(cfg, CompAt(cfg, i)) + ScanTables(cfg, i + 1))
  {
  }

  lemma QuantBytesNext(cfg: Memory, n: nat, prec: bool, i: nat)
    ensures QuantBytes(cfg, n, prec, i) == if i >= 64 then [] else
      var q := Fetch(cfg, Quant(n, NaturalAt(i))); (if prec then Two(q) else [Low(q)]) + QuantBytes(cfg, n, prec, i + 1)
  {
    hide NaturalAt;
  }

  lemma DacBytesNext(cfg: Memory, i: nat)
    ensures DacBytes(cfg, i) == if i >= NUM_ARITH_TBLS then [] else DcEntry(cfg, i) + (AcEntry(cfg, i) + DacBytes(cfg, i + 1))
  {
  }

  lemma SpecBytesNext(cfg: Memory, i: nat)
    ensures SpecBytes(cfg, i) == if i >= Fetch(cfg, CompsInScan) then [] else SpecPair(cfg, CompAt(cfg, i)) + SpecBytes(cfg, i + 1)
  {
  }

  lemma Assemble(start: seq<byte>, code: byte, a: seq<byte>, b: seq<byte>)
    ensures start + ([0xFF, code] + Two(|a| + |b| + 2)) + a + b == start + Segment(code, a + b)
  {
    hide Two;
    var n := Two(|a| + |b| + 2);
    Reassociate(start + ([0xFF, code] + n), a, b);
    Reassociate(start, [0xFF, code] + n, a + b);
    Reassociate([0xFF, code], n, a + b);
  }

  lemma AssembleOne(start: seq<byte>, code: byte, params: seq<byte>)
    ensures start + ([0xFF, code] + Two(|params| + 2)) + params == start + Segment(code, params)
  {
    hide Two;
    var n := Two(|params| + 2);
    Reassociate(start, [0xFF, code] + n, params);
    Reassociate([0xFF, code], n, params);
  }

  lemma TwoSize(v: int)
    ensures |Two(v)| == 2
  {
  }

  lemma EntrySizes(cfg: Memory, i: nat)
    ensures |DcEntry(cfg, i)| == (if DcInUse(cfg, i) then 2 else 0) && |AcEntry(cfg, i)| == if AcInUse(cfg, i) then 2 else 0
  {
  }

  function FrameFields(cfg: Memory): seq<byte> {
    [Low(Fetch(cfg, DataPrecision))] + Two(Fetch(cfg, ImageHeight)) + Two(Fetch(cfg, ImageWidth)) + [Low(Fetch(cfg, NumComponents))]
  }

  lemma FrameSplit(cfg: Memory)
    ensures |FrameFields(cfg)| == 6 && FrameFields(cfg) + CompBytes(cfg, 0) == SofParams(cfg)
  {
    hide CompBytes;
  }
}
