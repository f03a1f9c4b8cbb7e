/** Whole progressive images: the scans of a valid script, one after the other. */
module ProgImage {
  import opened Bytes
  import opened BitStrings
  import opened HuffTable
  import opened HuffTranscode
  import opened ProgDc
  import opened ProgDcScan
  import opened ProgDecoder
  import opened ProgFirst
  import opened ProgRefine
  import opened ProgRun
  import opened ProgScript
  import R = Restarts
  import S = ProgScan
  import T = ProgTranscode
  import opened ZigZag

  /** The blocks of each component. */
  type Image = seq<seq<Block>>

  /** A coefficient after scans up to bit position p: nothing without a scan; DC coefficients are rounded
      down, AC coefficients toward zero. */
  function Expected(p: int, k: int, x: int): int {
    if p < 0 then 0 else if k == 0 then Floor(x, p) else Trunc(x, p)
  }

  predicate SameShape(a: Image, b: Image) {
    |a| == |b| && forall c :: 0 <= c < |a| ==> |a[c]| == |b[c]|
  }

  /** The decoder holds every coefficient at the precision of its last scan. */
  predicate HoldsImage(p: Bitpos, orig: Image, held: Image) {
    && |p| == |orig| && SameShape(orig, held) && (forall c :: 0 <= c < |p| ==> |p[c]| == 64)
    && forall c, i, k :: 0 <= c < |orig| && 0 <= i < |orig[c]| && 0 <= k < 64 ==>
         Z(held[c][i])[k] == Expected(p[c][k], k, Z(orig[c][i])[k])
  }

  predicate SixteenBitImage(orig: Image) {
    forall c :: 0 <= c < |orig| ==> T.SixteenBit(orig[c])
  }

  /** What goes with a scan: its Huffman tables, by component of the scan; the order in which a DC scan visits the
      blocks (component of the scan, block); and the restart interval in blocks, or 0. */
  datatype ScanData = ScanData(tables: seq<Table>, order: seq<(nat, nat)>, interval: nat)

  ghost predicate LegalData(s: ScanInfo, d: ScanData, orig: Image) {
    && (forall i :: 0 <= i < |d.tables| ==> WellFormed(d.tables[i])) && |d.tables| == |s.comps|
    && (forall j :: 0 <= j < |s.comps| ==> 0 <= s.comps[j] < |orig|)
    && (forall n :: 0 <= n < |d.order| ==> d.order[n].0 < |s.comps| && d.order[n].1 < |orig[s.comps[d.order[n].0]]|)
    && forall j, i :: 0 <= j < |s.comps| && 0 <= i < |orig[s.comps[j]]| ==> (j, i) in d.order
  }

  // ----- AC scans

  function AcScan(s: ScanInfo): Scan
    requires LegalParameters(s) && s.ss != 0
  {
    Scan(Band(s.ss, s.se, s.al), s.ah == 0)
  }

  lemma AcReady(p: Bitpos, s: ScanInfo, orig: Image, held: Image, c: int)
    requires HoldsImage(p, orig, held) && 0 <= c < |orig| && LegalParameters(s) && s.ss != 0 && Follows(p, s, c)
    ensures LegalScan(AcScan(s)) && T.ReadyFor(AcScan(s), orig[c], held[c])
  {
    hide Trunc, Floor, Zig;
    var sc := AcScan(s);
    forall i | 0 <= i < |orig[c]|
      ensures if sc.first then Blank(sc.band, Z(held[c][i])) else Coarse(sc.band, Z(orig[c][i]), Z(held[c][i]))
    {
      forall k | s.ss <= k <= s.se
        ensures Z(held[c][i])[k] == if sc.first then 0 else Trunc(Z(orig[c][i])[k], s.al + 1)
      {
        assert NextPrecision(p[c][k], s.ah, s.al);
      }
    }
  }

  lemma AcHolds(p: Bitpos, s: ScanInfo, orig: Image, held: Image, c: int, result: seq<Block>)
    requires HoldsImage(p, orig, held) && 0 <= c < |orig| && LegalParameters(s) && s.ss != 0
    requires T.Delivered(AcScan(s).band, orig[c], held[c], result)
    ensures HoldsImage(SetBand(p, c, s.ss, s.se, s.al), orig, held[c := result])
  {
    hide Trunc, Floor, Zig;
    var q, h := SetBand(p, c, s.ss, s.se, s.al), held[c := result];
    forall d, i, k | 0 <= d < |orig| && 0 <= i < |orig[d]| && 0 <= k < 64
      ensures Z(h[d][i])[k] == Expected(q[d][k], k, Z(orig[d][i])[k])
    {
      assert Z(held[d][i])[k] == Expected(p[d][k], k, Z(orig[d][i])[k]);
      if d == c {
        assert Z(result[i]) == Mix(AcScan(s).band, Z(orig[c][i]), Z(held[c][i]), s.se + 1);
      }
    }
  }

  // ----- DC scans

  /** The blocks in the order of the scan. */
  function Visit(s: ScanInfo, d: ScanData, orig: Image, image: Image): (bs: seq<Block>)
    requires LegalData(s, d, orig) && SameShape(orig, image)
    ensures |bs| == |d.order|
    ensures forall n :: 0 <= n < |bs| ==> bs[n] == image[s.comps[d.order[n].0]][d.order[n].1]
  {
    seq(|d.order|, n requires 0 <= n < |d.order| => image[s.comps[d.order[n].0]][d.order[n].1])
  }

  function Cis(d: ScanData): (cis: seq<nat>)
    ensures |cis| == |d.order|
  {
    seq(|d.order|, n requires 0 <= n < |d.order| => d.order[n].0)
  }

  /** A block with its DC coefficient at bit position al. */
  function WithDc(b: Block, x: Block, al: nat): Block {
    b[0 := Floor(x[0], al)]
  }

  // Store the blocks of a DC scan back into the image.
  method PutBack(s: ScanInfo, d: ScanData, held: Image, result: seq<Block>, ghost orig: Image) returns (image: Image)
    requires LegalData(s, d, orig) && SameShape(orig, held) && |result| == |d.order| && 0 <= s.al
    requires var bs, hs := Visit(s, d, orig, orig), Visit(s, d, orig, held);
      forall n :: 0 <= n < |result| ==> result[n] == WithDc(hs[n], bs[n], s.al)
    ensures SameShape(orig, image)
    ensures forall c, i :: 0 <= c < |orig| && 0 <= i < |orig[c]| ==>
      image[c][i] == if c in s.comps then WithDc(held[c][i], orig[c][i], s.al) else held[c][i]
  {
    hide Floor, WithDc;
    image := held;
    var n := 0;
    while n < |result|
      invariant 0 <= n <= |result| && SameShape(orig, image)
      invariant forall c, i :: 0 <= c < |orig| && 0 <= i < |orig[c]| ==>
        image[c][i] == held[c][i] || (c in s.comps && image[c][i] == WithDc(held[c][i], orig[c][i], s.al))
      invariant forall m :: 0 <= m < n ==> var c, i := s.comps[d.order[m].0], d.order[m].1;
        image[c][i] == WithDc(held[c][i], orig[c][i], s.al)
    {
      var c, i := s.comps[d.order[n].0], d.order[n].1;
      assert result[n] == WithDc(held[c][i], orig[c][i], s.al);
      image := image[c := image[c][i := result[n]]];
      n := n + 1;
    }
    forall c, i | 0 <= c < |orig| && 0 <= i < |orig[c]|
      ensures image[c][i] == if c in s.comps then WithDc(held[c][i], orig[c][i], s.al) else held[c][i]
    {
      if c in s.comps {
        var j :| 0 <= j < |s.comps| && s.comps[j] == c;
        assert (j, i) in d.order;
        var m :| 0 <= m < |d.order| && d.order[m] == (j, i);
      }
    }
  }

  lemma DcHolds(p: Bitpos, s: ScanInfo, orig: Image, held: Image, image: Image)
    requires HoldsImage(p, orig, held) && SameShape(orig, image) && s.ss == s.se == 0 && s.al >= 0
    requires forall j :: 0 <= j < |s.comps| ==> 0 <= s.comps[j] < |orig|
    requires forall c, i :: 0 <= c < |orig| && 0 <= i < |orig[c]| ==>
      image[c][i] == if c in s.comps then WithDc(held[c][i], orig[c][i], s.al) else held[c][i]
    ensures HoldsImage(SetBands(p, s.comps, 0, 0, s.al), orig, image)
  {
    hide Trunc, Floor, Zig, NaturalAt;
    SetBandsAt(p, s.comps, 0, 0, s.al);
    var q := SetBands(p, s.comps, 0, 0, s.al);
    forall c, i, k | 0 <= c < |orig| && 0 <= i < |orig[c]| && 0 <= k < 64
      ensures Z(image[c][i])[k] == Expected(q[c][k], k, Z(orig[c][i])[k])
    {
      assert Z(held[c][i])[k] == Expected(p[c][k], k, Z(orig[c][i])[k]);
      if c in s.comps {
        DcOfBlock(held[c][i], Floor(orig[c][i][0], s.al));
        DcOfBlock(orig[c][i], 0);
      }
    }
  }

  lemma DcOfBlock(b: Block, v: int)
    ensures Z(b[0 := v]) == Z(b)[0 := v] && Z(b)[0] == b[0]
  {
    hide NaturalAt, Zig;
    StartsWithDc();
    Stored(b, 0, v);
  }

  /** Before a DC refinement, the decoder's DC coefficients are the originals at one bit less precision. */
  lemma DcReady(p: Bitpos, s: ScanInfo, d: ScanData, orig: Image, held: Image)
    requires HoldsImage(p, orig, held) && LegalData(s, d, orig) && LegalParameters(s) && s.ss == 0 && s.ah != 0
    requires forall j :: 0 <= j < |s.comps| ==> Follows(p, s, s.comps[j])
    ensures var bs, hs := Visit(s, d, orig, orig), Visit(s, d, orig, held);
      forall n :: 0 <= n < |bs| ==> hs[n][0] == Floor(bs[n][0], s.al + 1)
  {
    hide Trunc, Floor, Zig, NaturalAt;
    forall n | 0 <= n < |d.order|
      ensures Visit(s, d, orig, held)[n][0] == Floor(Visit(s, d, orig, orig)[n][0], s.al + 1)
    {
      var c, i := s.comps[d.order[n].0], d.order[n].1;
      DcOfBlock(held[c][i], 0);
      DcOfBlock(orig[c][i], 0);
      assert NextPrecision(p[c][0], s.ah, s.al);
      assert Z(held[c][i])[0] == Expected(p[c][0], 0, Z(orig[c][i])[0]);
    }
  }

  // ----- One scan

  /** All coefficients are in range for the encoder and all symbols have codes. */
  ghost predicate Sendable(s: ScanInfo, d: ScanData, orig: Image)
    requires LegalData(s, d, orig) && LegalParameters(s)
  {
    if s.ss != 0 then
      && LegalAc(d.tables[0]) && T.ScanFits(AcScan(s), orig[s.comps[0]])
      && S.ListsAll(d.tables[0], AcScan(s), R.Split(orig[s.comps[0]], d.interval))
    else s.ah == 0 ==>
      && (forall j :: 0 <= j < |d.tables| ==> LegalDc(d.tables[j]))
      && DcListedAll(DcScanOf(s), d.tables, R.Split(Cis(d), d.interval), R.Split(Visit(s, d, orig, orig), d.interval))
  }

  function DcScanOf(s: ScanInfo): DcScan
    requires LegalParameters(s)
  {
    DcScan(s.ah == 0, s.al)
  }

  method RunAcScan(ncomps: nat, ghost p: Bitpos, s: ScanInfo, d: ScanData, orig: Image, held: Image, marker: byte, tail: seq<byte>)
    returns (ok: bool, image: Image)
    requires LegalBitpos(ncomps, p) && LegalScanInfo(ncomps, p, s) && HoldsImage(p, orig, held) && SixteenBitImage(orig)
    requires LegalData(s, d, orig) && 0 < marker < 0xFF && s.ss != 0
    ensures ok <==> Sendable(s, d, orig)
    ensures ok ==> HoldsImage(AfterScan(ncomps, p, s), orig, image)
  {
    hide HoldsImage, T.ReadyFor, T.Delivered, T.ScanFits, S.ListsAll, LegalAc, WellFormed, T.SixteenBit, NextPrecision, SetBand, Zig, R.Split;
    var c := s.comps[0];
    HeldShape(p, orig, held);
    AcReady(p, s, orig, held, c);
    var result;
    ok, result := S.TranscodeAcScan(AcScan(s), d.interval, orig[c], held[c], d.tables[0], marker, tail);
    image := held[c := result];
    if ok {
      AcHolds(p, s, orig, held, c, result);
      assert s.comps[1..] == [];
      assert SetBands(SetBand(p, c, s.ss, s.se, s.al), [], s.ss, s.se, s.al) == SetBand(p, c, s.ss, s.se, s.al);
    }
  }

  lemma HeldShape(p: Bitpos, orig: Image, held: Image)
    requires HoldsImage(p, orig, held)
    ensures SameShape(orig, held) && |p| == |orig|
  {
  }

  method RunDcScan(ncomps: nat, ghost p: Bitpos, s: ScanInfo, d: ScanData, orig: Image, held: Image, marker: byte, tail: seq<byte>)
    returns (ok: bool, image: Image)
    requires LegalBitpos(ncomps, p) && LegalScanInfo(ncomps, p, s) && HoldsImage(p, orig, held) && SixteenBitImage(orig)
    requires LegalData(s, d, orig) && 0 < marker < 0xFF && s.ss == 0
    ensures ok <==> Sendable(s, d, orig)
    ensures ok ==> HoldsImage(AfterScan(ncomps, p, s), orig, image)
  {
    hide HoldsImage, LegalDc, WellFormed, NextPrecision, SetBands, Zig, DcListedAll, Follows, Floor, R.Split;
    image := held;
    HeldShape(p, orig, held);
    var bs, hs := Visit(s, d, orig, orig), Visit(s, d, orig, held);
    if s.ah != 0 { DcReady(p, s, d, orig, held); }
    var result;
    ok, result := TranscodeDcScan(DcScanOf(s), d.interval, Cis(d), bs, hs, d.tables, marker, tail);
    if ok {
      image := PutBack(s, d, held, result, orig);
      DcHolds(p, s, orig, held, image);
    }
  }

  method RunScan(ncomps: nat, ghost p: Bitpos, s: ScanInfo, d: ScanData, orig: Image, held: Image, marker: byte, tail: seq<byte>)
    returns (ok: bool, image: Image)
    requires LegalBitpos(ncomps, p) && LegalScanInfo(ncomps, p, s) && HoldsImage(p, orig, held) && SixteenBitImage(orig)
    requires LegalData(s, d, orig) && 0 < marker < 0xFF
    ensures ok <==> Sendable(s, d, orig)
    ensures ok ==> HoldsImage(AfterScan(ncomps, p, s), orig, image)
  {
    hide HoldsImage, LegalData, Sendable, LegalScanInfo, LegalBitpos, SixteenBitImage, AfterScan;
    if s.ss != 0 {
      ok, image := RunAcScan(ncomps, p, s, d, orig, held, marker, tail);
    } else {
      ok, image := RunDcScan(ncomps, p, s, d, orig, held, marker, tail);
    }
  }

  // ----- The whole script

  ghost predicate LegalDatas(scans: seq<ScanInfo>, ds: seq<ScanData>, orig: Image) {
    |ds| == |scans| && forall i :: 0 <= i < |scans| ==> LegalData(scans[i], ds[i], orig)
  }

  /** Every scan can be sent. */
  ghost predicate AllSendable(scans: seq<ScanInfo>, ds: seq<ScanData>, orig: Image)
    requires LegalDatas(scans, ds, orig) && forall i :: 0 <= i < |scans| ==> LegalParameters(scans[i])
  {
    forall i :: 0 <= i < |scans| ==> Sendable(scans[i], ds[i], orig)
  }

  lemma {:induction false} LegalEach(ncomps: nat, p: Bitpos, scans: seq<ScanInfo>)
    requires LegalBitpos(ncomps, p) && LegalFrom(ncomps, p, scans)
    ensures forall i :: 0 <= i < |scans| ==> LegalParameters(scans[i])
    decreases |scans|
  {
    hide AfterScan, LegalParameters;
    if scans != [] {
      LegalEach(ncomps, AfterScan(ncomps, p, scans[0]), scans[1..]);
      assert forall i :: 0 < i < |scans| ==> scans[i] == scans[1..][i - 1];
    }
  }

  /** An image of blocks that are all zero. */
  method BlankImage(orig: Image) returns (image: Image)
    ensures SameShape(orig, image)
    ensures forall c, i :: 0 <= c < |orig| && 0 <= i < |orig[c]| ==> image[c][i] == seq(64, _ => 0)
  {
    image := seq(|orig|, c requires 0 <= c < |orig| => seq(|orig[c]|, _ => seq(64, _ => 0)));
  }

  lemma BlankHolds(ncomps: nat, orig: Image, image: Image)
    requires |orig| == ncomps && SameShape(orig, image)
    requires forall c, i :: 0 <= c < |orig| && 0 <= i < |orig[c]| ==> image[c][i] == seq(64, _ => 0)
    ensures HoldsImage(Unsent(ncomps), orig, image)
  {
    hide NaturalAt;
    forall c, i, k | 0 <= c < |orig| && 0 <= i < |orig[c]| && 0 <= k < 64
      ensures Z(image[c][i])[k] == 0
    {
      Stored(image[c][i], k, 0);
    }
  }

  /** Progressive coding of an image by a script: if every scan can be sent, the decoder ends up with each
      coefficient at the precision of the last scan it is in, and with zero if it is in none. */
  method RunScript(ncomps: nat, scans: seq<ScanInfo>, ds: seq<ScanData>, orig: Image, marker: byte, tail: seq<byte>)
    returns (ok: bool, image: Image)
    requires |orig| == ncomps && LegalFrom(ncomps, Unsent(ncomps), scans) && LegalDatas(scans, ds, orig) && SixteenBitImage(orig)
    requires 0 < marker < 0xFF
    ensures forall i :: 0 <= i < |scans| ==> LegalParameters(scans[i])
    ensures ok <==> AllSendable(scans, ds, orig)
    ensures ok ==> HoldsImage(Final(ncomps, Unsent(ncomps), scans), orig, image)
  {
    hide HoldsImage, LegalData, Sendable, LegalScanInfo, LegalBitpos, SixteenBitImage, AfterScan, LegalParameters, LegalFrom, Final;
    LegalEach(ncomps, Unsent(ncomps), scans);
    image := BlankImage(orig);
    BlankHolds(ncomps, orig, image);
    ghost var p, final := Unsent(ncomps), Final(ncomps, Unsent(ncomps), scans);
    assert scans[0..] == scans;
    var i := 0;
    while i < |scans|
      invariant 0 <= i <= |scans| && LegalBitpos(ncomps, p) && LegalFrom(ncomps, p, scans[i..])
      invariant Final(ncomps, p, scans[i..]) == final && HoldsImage(p, orig, image)
      invariant forall j :: 0 <= j < i ==> Sendable(scans[j], ds[j], orig)
    {
      NextScan(ncomps, p, scans[i..]);
      assert scans[i..][1..] == scans[i + 1..];
      ok, image := RunScan(ncomps, p, scans[i], ds[i], orig, image, marker, tail);
      if !ok {
        return;
      }
      p := AfterScan(ncomps, p, scans[i]);
      i := i + 1;
    }
    assert scans[i..] == [];
    NoScans(ncomps, p);
    ok := true;
  }

  lemma NextScan(ncomps: nat, p: Bitpos, scans: seq<ScanInfo>)
    requires LegalBitpos(ncomps, p) && LegalFrom(ncomps, p, scans) && scans != []
    ensures LegalScanInfo(ncomps, p, scans[0])
    ensures var q := AfterScan(ncomps, p, scans[0]);
      LegalBitpos(ncomps, q) && LegalFrom(ncomps, q, scans[1..]) && Final(ncomps, p, scans) == Final(ncomps, q, scans[1..])
  {
    hide AfterScan, LegalScanInfo;
  }

  lemma FullPrecision(x: int)
    ensures Floor(x, 0) == x && Trunc(x, 0) == x
  {
  }

  /** With a script that sends every coefficient to the last bit, such as the recommended one, the decoder gets
      the image back. */
  lemma CompleteIsLossless(ncomps: nat, scans: seq<ScanInfo>, orig: Image, image: Image)
    requires |orig| == ncomps && LegalFrom(ncomps, Unsent(ncomps), scans)
    requires forall c, k :: 0 <= c < ncomps && 0 <= k < 64 ==> Final(ncomps, Unsent(ncomps), scans)[c][k] == 0
    requires HoldsImage(Final(ncomps, Unsent(ncomps), scans), orig, image)
    ensures image == orig
  {
    hide Trunc, Floor, Final, LegalFrom, Zig;
    forall c, i | 0 <= c < |orig| && 0 <= i < |orig[c]|
      ensures image[c][i] == orig[c][i]
    {
      forall k | 0 <= k < 64
        ensures Z(image[c][i])[k] == Z(orig[c][i])[k]
      {
        FullPrecision(Z(orig[c][i])[k]);
      }
      NaturalOrderIsOrder();
      assert Z(image[c][i]) == Z(orig[c][i]);
      ZigInjective(NaturalOrder(), image[c][i], orig[c][i]);
    }
    forall c | 0 <= c < |orig|
      ensures image[c] == orig[c]
    {
    }
  }
}
