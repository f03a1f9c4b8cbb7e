/** Where the fields are in the marker segments that are written: the tables of section B.2 of ITU-T T.81. */
module MarkerLayout {
  import opened Bytes
  import opened MarkerProg
  import opened MarkerSegments
  import opened MarkerStream
  import opened MarkerWriter
  import opened ZigZag

  /** Two bytes, most significant first. */
  function WordAt(s: seq<byte>, i: nat): int
    requires i + 1 < |s|
  {
    256 * s[i] as int + s[i + 1] as int
  }

  /** A segment: 0xFF, the marker code, the length of what follows the code, the parameters. */
  lemma SegmentLayout(code: byte, params: seq<byte>)
    requires |params| <= 65533
    ensures var s := Segment(code, params);
      |s| == |params| + 4 && s[0] == 0xFF && s[1] == code && WordAt(s, 2) == |s| - 2 && s[4..] == params
  {
  }

  // ----- DQT

  lemma {:induction false} QuantAt(cfg: Memory, n: nat, prec: bool, i: nat, k: nat)
    requires i <= k < 64
    ensures var s, q, at := QuantBytes(cfg, n, prec, i), Fetch(cfg, Quant(n, NaturalAt(k))), (if prec then 2 else 1) * (k - i);
      if prec then at + 1 < |s| && s[at] == q / 256 % 256 && s[at + 1] == q % 256 else at < |s| && s[at] == q % 256
    decreases k - i
  {
    hide NaturalAt;
    if i < k { QuantAt(cfg, n, prec, i + 1, k); }
  }

  /** A quantization table: precision and number in one byte, then the values along the zigzag walk. */
  lemma DqtLayout(cfg: Memory, n: nat, k: nat)
    requires LegalQuant(cfg, n) && k < 64
    ensures var s, q, wide := DqtParams(cfg, n), Fetch(cfg, Quant(n, Walk(k))), Wide(cfg, n);
      && |s| == (if wide then 129 else 65) && s[0] / 16 == (if wide then 1 else 0) && s[0] % 16 == n
      && if wide then WordAt(s, 1 + 2 * k) == q else s[1 + k] == q
  {
    hide NaturalAt, QuantBytes, Wide, Walk, Low;
    NaturalIsWalk(k);
    Nibbles(n, if Wide(cfg, n) then 1 else 0);
    QuantSize(cfg, n, Wide(cfg, n), 0);
    QuantAt(cfg, n, Wide(cfg, n), 0, k);
    QuantValue(cfg, n, NaturalAt(k));
  }

  lemma QuantValue(cfg: Memory, n: nat, i: nat)
    requires LegalQuant(cfg, n) && i < 64
    ensures var q := Fetch(cfg, Quant(n, i)); 0 <= q < 0x10000 && q == 256 * (q / 256 % 256) + q % 256 && (!Wide(cfg, n) ==> q % 256 == q)
  {
  }

  // ----- DHT

  /** A Huffman table: class and number in one byte, then how many codes there are of each length, then the symbols. */
  lemma DhtLayout(cfg: Memory, ac: bool, n: nat)
    requires LegalHuff(cfg, ac, n)
    ensures var s, count := DhtParams(cfg, ac, n), Codes(cfg, ac, n, 16);
      && 0 <= count && |s| == 17 + count && s[0] / 16 == (if ac then 1 else 0) && s[0] % 16 == n
      && (forall i :: 1 <= i <= 16 ==> s[i] == Fetch(cfg, HuffBits(ac, n, i)))
      && (forall i: nat :: i < count ==> s[17 + i] == Fetch(cfg, HuffVal(ac, n, i)))
  {
    hide Codes, BitBytes, ValBytes, LegalHuff;
    var s, count := DhtParams(cfg, ac, n), Codes(cfg, ac, n, 16);
    LegalCount(cfg, ac, n);
    ValBytesSize(cfg, ac, n, count);
    forall i | 1 <= i <= 16
      ensures s[i] == Fetch(cfg, HuffBits(ac, n, i))
    {
      BitByteAt(cfg, ac, n, 16, i - 1);
    }
    forall i: nat | i < count
      ensures s[17 + i] == Fetch(cfg, HuffVal(ac, n, i))
    {
      ValByteAt(cfg, ac, n, count, i);
    }
  }

  // ----- DAC

  /** Each pair of bytes is the conditioning of one table in use: bounds L and U for DC, the threshold for AC. */
  predicate ConditioningPair(cfg: Memory, a: byte, b: byte) {
    if a < 16 then DcInUse(cfg, a) && b % 16 == Fetch(cfg, ArithDcL(a)) && b / 16 == Fetch(cfg, ArithDcU(a))
    else a < 32 && AcInUse(cfg, a - 16) && b == Fetch(cfg, ArithAcK(a - 16))
  }

  lemma {:induction false} DacLayout(cfg: Memory, i: nat, j: nat)
    requires LegalConditioning(cfg) && i <= NUM_ARITH_TBLS && 2 * j < |DacBytes(cfg, i)|
    ensures 2 * j + 1 < |DacBytes(cfg, i)| && ConditioningPair(cfg, DacBytes(cfg, i)[2 * j], DacBytes(cfg, i)[2 * j + 1])
    decreases NUM_ARITH_TBLS - i
  {
    hide DacBytes, DcEntry, AcEntry, ConditioningPair, LegalConditioning, DcInUse, AcInUse;
    DacBytesNext(cfg, i);
    EntrySizes(cfg, i);
    if i < NUM_ARITH_TBLS {
      PairsAt(cfg, i);
      var n := |DcEntry(cfg, i)| + |AcEntry(cfg, i)|;
      if 2 * j >= n {
        assert 2 * (j - n / 2) == 2 * j - n;
        DacLayout(cfg, i + 1, j - n / 2);
      }
    }
  }

  lemma PairsAt(cfg: Memory, i: nat)
    requires LegalConditioning(cfg) && i < NUM_ARITH_TBLS
    ensures var d, a := DcEntry(cfg, i), AcEntry(cfg, i);
      (d != [] ==> |d| == 2 && ConditioningPair(cfg, d[0], d[1])) && (a != [] ==> |a| == 2 && ConditioningPair(cfg, a[0], a[1]))
  {
    hide DcInUse, AcInUse;
    Nibbles(Fetch(cfg, ArithDcL(i)), Fetch(cfg, ArithDcU(i)));
  }

  lemma Nibbles(low: int, high: int)
    requires 0 <= low < 16 && 0 <= high < 16
    ensures var b := Low(low + 16 * high); b % 16 == low && b / 16 == high
  {
  }

  // ----- DRI

  lemma DriLayout(cfg: Memory)
    ensures |DriParams(cfg)| == 2 && WordAt(DriParams(cfg), 0) == Fetch(cfg, RestartInterval) % 0x10000
  {
    TwoLow(Fetch(cfg, RestartInterval));
  }

  // ----- SOF

  lemma {:induction false} CompAtOffset(cfg: Memory, i: nat, ci: nat)
    requires i <= ci < Fetch(cfg, NumComponents) && LegalComp(cfg, ci)
    ensures var s, at := CompBytes(cfg, i), 3 * (ci - i);
      && at + 2 < |s| && s[at] == Fetch(cfg, ComponentId(ci))
      && s[at + 1] / 16 == Fetch(cfg, HSamp(ci)) && s[at + 1] % 16 == Fetch(cfg, VSamp(ci)) && s[at + 2] == Fetch(cfg, QuantNo(ci))
    decreases ci - i
  {
    hide CompTriple, LegalComp;
    TripleLayout(cfg, i);
    if i < ci { CompAtOffset(cfg, i + 1, ci); }
  }

  lemma TripleLayout(cfg: Memory, ci: nat)
    ensures var s := CompTriple(cfg, ci);
      && |s| == 3
      && (LegalComp(cfg, ci) ==>
            && s[0] == Fetch(cfg, ComponentId(ci)) && s[2] == Fetch(cfg, QuantNo(ci))
            && s[1] / 16 == Fetch(cfg, HSamp(ci)) && s[1] % 16 == Fetch(cfg, VSamp(ci)))
  {
    if LegalComp(cfg, ci) { Nibbles(Fetch(cfg, VSamp(ci)), Fetch(cfg, HSamp(ci))); }
  }

  /** The frame: precision, height, width, and three bytes for each component. */
  lemma SofLayout(cfg: Memory)
    requires LegalFrame(cfg)
    ensures var s, num := SofParams(cfg), Fetch(cfg, NumComponents);
      && |s| == 6 + 3 * num && s[0] == Fetch(cfg, DataPrecision) && WordAt(s, 1) == Fetch(cfg, ImageHeight)
      && WordAt(s, 3) == Fetch(cfg, ImageWidth) && s[5] == num
      && forall ci: nat :: ci < num ==>
           && s[6 + 3 * ci] == Fetch(cfg, ComponentId(ci)) && s[7 + 3 * ci] / 16 == Fetch(cfg, HSamp(ci))
           && s[7 + 3 * ci] % 16 == Fetch(cfg, VSamp(ci)) && s[8 + 3 * ci] == Fetch(cfg, QuantNo(ci))
  {
    hide CompBytes, LegalComp, FrameFields;
    var s := SofParams(cfg);
    CompSize(cfg, 0);
    FrameSplit(cfg);
    FrameLayout(cfg);
    forall ci: nat | ci < Fetch(cfg, NumComponents)
      ensures s[6 + 3 * ci] == Fetch(cfg, ComponentId(ci)) && s[7 + 3 * ci] / 16 == Fetch(cfg, HSamp(ci))
      ensures s[7 + 3 * ci] % 16 == Fetch(cfg, VSamp(ci)) && s[8 + 3 * ci] == Fetch(cfg, QuantNo(ci))
    {
      CompAtOffset(cfg, 0, ci);
    }
  }

  lemma FrameLayout(cfg: Memory)
    requires LegalFrame(cfg)
    ensures var s := FrameFields(cfg);
      |s| == 6 && s[0] == Fetch(cfg, DataPrecision) && WordAt(s, 1) == Fetch(cfg, ImageHeight) && WordAt(s, 3) == Fetch(cfg, ImageWidth)
      && s[5] == Fetch(cfg, NumComponents)
  {
    hide LegalComp;
  }

  // ----- SOS

  lemma {:induction false} SpecAtOffset(cfg: Memory, i: nat, k: nat)
    requires LegalScanSpec(cfg) && i <= k < Fetch(cfg, CompsInScan)
    ensures var s, at, ci := SpecBytes(cfg, i), 2 * (k - i), CompAt(cfg, k);
      && at + 1 < |s| && s[at] == Fetch(cfg, ComponentId(ci))
      && s[at + 1] / 16 == (if CodesDc(cfg) then Fetch(cfg, DcTblNo(ci)) else 0)
      && s[at + 1] % 16 == (if CodesAc(cfg) then Fetch(cfg, AcTblNo(ci)) else 0)
    decreases k - i
  {
    hide CompAt, CodesDc, CodesAc, LegalScanSpec, SpecPair, SpecBytes;
    SpecBytesNext(cfg, i);
    if i < k {
      SpecAtOffset(cfg, i + 1, k);
    } else {
      LegalAt(cfg, k);
    }
    SpecPairLayout(cfg, if i < k then CompAt(cfg, i) else CompAt(cfg, k));
  }

  lemma ApproxLayout(cfg: Memory)
    requires LegalApprox(cfg)
    ensures var s := ApproxBytes(cfg);
      && |s| == 3 && s[0] == Fetch(cfg, ScanSs) && s[1] == Fetch(cfg, ScanSe)
      && s[2] / 16 == Fetch(cfg, ScanAh) && s[2] % 16 == Fetch(cfg, ScanAl)
  {
    Nibbles(Fetch(cfg, ScanAl), Fetch(cfg, ScanAh));
  }

  lemma SpecPairLayout(cfg: Memory, ci: nat)
    ensures |SpecPair(cfg, ci)| == 2
    ensures LegalSpec(cfg, ci) ==>
      var s := SpecPair(cfg, ci);
      && s[0] == Fetch(cfg, ComponentId(ci)) && s[1] / 16 == (if CodesDc(cfg) then Fetch(cfg, DcTblNo(ci)) else 0)
      && s[1] % 16 == (if CodesAc(cfg) then Fetch(cfg, AcTblNo(ci)) else 0)
  {
    hide CodesDc, CodesAc, Low, LegalSpec;
    if LegalSpec(cfg, ci) { SpecLegal(cfg, ci); }
  }

  lemma SpecLegal(cfg: Memory, ci: nat)
    requires LegalSpec(cfg, ci)
    ensures Low(Fetch(cfg, ComponentId(ci))) == Fetch(cfg, ComponentId(ci))
    ensures var td, ta := Sent(cfg, DcTblNo(ci)), Sent(cfg, AcTblNo(ci));
      var b := Low(16 * td + ta); b / 16 == td && b % 16 == ta
  {
    hide CodesDc, CodesAc;
    Nibbles(Sent(cfg, AcTblNo(ci)), Sent(cfg, DcTblNo(ci)));
  }

  /** The scan: two bytes for each component, with the tables that it uses, and the progression parameters. */
  lemma SosLayout(cfg: Memory)
    requires LegalScanSpec(cfg)
    ensures var s, n := SosParamBytes(cfg), Fetch(cfg, CompsInScan);
      && |s| == 4 + 2 * n && s[0] == n
      && (forall i: nat :: i < n ==>
           && s[1 + 2 * i] == Fetch(cfg, ComponentId(Fetch(cfg, CurComp(i))))
           && s[2 + 2 * i] / 16 == (if CodesDc(cfg) then Fetch(cfg, DcTblNo(Fetch(cfg, CurComp(i)))) else 0)
           && s[2 + 2 * i] % 16 == (if CodesAc(cfg) then Fetch(cfg, AcTblNo(Fetch(cfg, CurComp(i)))) else 0))
      && s[1 + 2 * n] == Fetch(cfg, ScanSs) && s[2 + 2 * n] == Fetch(cfg, ScanSe)
      && s[3 + 2 * n] / 16 == Fetch(cfg, ScanAh) && s[3 + 2 * n] % 16 == Fetch(cfg, ScanAl)
  {
    hide SpecBytes, CodesDc, CodesAc, ApproxBytes, LegalSpec, LegalApprox;
    SpecSize(cfg, 0);
    ApproxLayout(cfg);
    var s, n := SosParamBytes(cfg), Fetch(cfg, CompsInScan);
    forall i: nat | i < n
      ensures 0 <= Fetch(cfg, CurComp(i)) && s[1 + 2 * i] == Fetch(cfg, ComponentId(Fetch(cfg, CurComp(i))))
      ensures s[2 + 2 * i] / 16 == (if CodesDc(cfg) then Fetch(cfg, DcTblNo(Fetch(cfg, CurComp(i)))) else 0)
      ensures s[2 + 2 * i] % 16 == (if CodesAc(cfg) then Fetch(cfg, AcTblNo(Fetch(cfg, CurComp(i)))) else 0)
    {
      SpecAtOffset(cfg, 0, i);
      LegalAt(cfg, i);
    }
  }

  // ----- Marker codes (Table B.1)

  /** The markers that are written, byte by byte, and how they are read. */
  lemma MarkerCodes(cfg: Memory, n: nat, ac: bool)
    ensures TableBytes(cfg, QuantTable(n))[..2] == [0xFF, 0xDB] && KindOf(0xDB) == Dqt
    ensures TableBytes(cfg, HuffTable(ac, n))[..2] == [0xFF, 0xC4] && KindOf(0xC4) == Dht
    ensures FileBytes([])[..2] == [0xFF, 0xD8] && KindOf(0xD8) == Soi
    ensures DacSegment(cfg) != [] ==> DacSegment(cfg)[..2] == [0xFF, 0xCC] && KindOf(0xCC) == Dac
    ensures DriSegment(cfg, 0) != [] ==> DriSegment(cfg, 0)[..2] == [0xFF, 0xDD] && KindOf(0xDD) == Dri
    ensures KindOf(0xDA) == Sos && KindOf(0xD9) == Eoi
  {
    hide DqtParams, DhtParams, DacBytes, Two;
  }

  /** What SOI sets: no restarts, and the default conditioning of section F.1.4.4 for every table. */
  lemma SoiDefaults(m: Memory, i: nat)
    requires i < NUM_ARITH_TBLS
    ensures var d := Apply(Defaults(), m);
      Fetch(d, RestartInterval) == 0 && Fetch(d, ArithDcL(i)) == 0 && Fetch(d, ArithDcU(i)) == 1 && Fetch(d, ArithAcK(i)) == 5
  {
    hide Conditioning, Apply;
    ConditioningSet(NUM_ARITH_TBLS, m, i);
    ApplyConcat(Conditioning(NUM_ARITH_TBLS), [Store(RestartInterval, 0)], m);
    OneStore(Store(RestartInterval, 0), Apply(Conditioning(NUM_ARITH_TBLS), m));
  }

  lemma OneStore(s: Store, m: Memory)
    ensures Apply([s], m) == m[s.loc := s.val]
  {
    assert [s][1..] == [];
  }

  lemma {:induction false} ConditioningSet(n: nat, m: Memory, i: nat)
    requires i < n
    ensures var d := Apply(Conditioning(n), m); Fetch(d, ArithDcL(i)) == 0 && Fetch(d, ArithDcU(i)) == 1 && Fetch(d, ArithAcK(i)) == 5
    decreases n
  {
    hide Apply;
    var last := [Store(ArithDcL(n - 1), 0), Store(ArithDcU(n - 1), 1), Store(ArithAcK(n - 1), 5)];
    var before := Apply(Conditioning(n - 1), m);
    ApplyConcat(Conditioning(n - 1), last, m);
    ThreeStores(n - 1, before);
    if i < n - 1 { ConditioningSet(n - 1, m, i); }
  }

  lemma ThreeStores(n: nat, m: Memory)
    ensures Apply([Store(ArithDcL(n), 0), Store(ArithDcU(n), 1), Store(ArithAcK(n), 5)], m)
      == m[ArithDcL(n) := 0][ArithDcU(n) := 1][ArithAcK(n) := 5]
  {
    hide Apply;
    var l, u, k := Store(ArithDcL(n), 0), Store(ArithDcU(n), 1), Store(ArithAcK(n), 5);
    assert [l, u, k] == [l] + [u, k] && [u, k] == [u] + [k];
    ApplyConcat([l], [u, k], m);
    OneStore(l, m);
    ApplyConcat([u], [k], m[ArithDcL(n) := 0]);
    OneStore(u, m[ArithDcL(n) := 0]);
    OneStore(k, m[ArithDcL(n) := 0][ArithDcU(n) := 1]);
  }
}
