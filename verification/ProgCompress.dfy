/** Progressive compression of whole images: for each scan a statistics pass, the tables made from it, and the output
    pass; and what the decoder gets. */
module ProgCompress {
  import opened Bytes
  import opened HuffBuild
  import opened HuffTable
  import opened HuffDecode
  import opened HuffTranscode
  import opened ProgDc
  import opened ProgDcScan
  import D = ProgDcTwoPass
  import A = ProgTwoPass
  import opened ProgImage
  import opened ProgRun
  import opened ProgScript
  import R = Restarts
  import S = ProgScan
  import T = ProgTranscode
  import opened ZigZag

  /** How a scan is sent: the order of the blocks in a DC scan, the restart interval, and the numbers of the Huffman
      tables of the components. */
  datatype Layout = Layout(order: seq<(nat, nat)>, interval: nat, tblno: seq<nat>)

  const NUM_HUFF_TBLS := 4
  const SHORT_SCAN := 9227464  // symbols, one for a block in a DC scan and at most 64 in an AC scan

  function Unused(): (t: Table)
    ensures WellFormed(t)
  {
    Table(seq(17, _ => 0), seq(256, _ => 0))
  }

  /** The data of a scan, with tables to come. */
  function Draft(s: ScanInfo, l: Layout): ScanData {
    ScanData(seq(|s.comps|, _ => Unused()), l.order, l.interval)
  }

  ghost predicate LegalLayout(s: ScanInfo, l: Layout, orig: Image) {
    && LegalData(s, Draft(s, l), orig) && |l.tblno| == |s.comps| && D.LegalNumbers(l.tblno, NUM_HUFF_TBLS)
    && |l.order| < MAX_COUNT
    && forall c :: 0 <= c < |orig| ==> orig[c] != [] && 64 * |orig[c]| < MAX_COUNT
  }

  /** The scan is not so long that code lengths above 32 could come up. */
  ghost predicate Short(l: Layout, orig: Image) {
    |l.order| < SHORT_SCAN && forall c :: 0 <= c < |orig| ==> 64 * |orig[c]| < SHORT_SCAN
  }

  /** The coefficients that the scan sends are in range. */
  ghost predicate Fits(s: ScanInfo, l: Layout, orig: Image)
    requires LegalLayout(s, l, orig) && LegalParameters(s)
  {
    if s.ss != 0 then T.ScanFits(AcScan(s), orig[s.comps[0]])
    else s.ah == 0 ==>
      var cs, parts := R.Split(Cis(Draft(s, l)), l.interval), R.Split(Visit(s, Draft(s, l), orig, orig), l.interval);
      D.DcShapes(|s.comps|, cs, parts) && D.DcFitAll(s.al, |s.comps|, cs, parts)
  }

  /** The statistics pass for one scan and the tables made from it; a DC refinement needs none. */
  method OptimizeScan(s: ScanInfo, l: Layout, orig: Image) returns (ok: bool, d: ScanData)
    requires LegalLayout(s, l, orig) && LegalParameters(s) && SixteenBitImage(orig)
    ensures ok ==> Fits(s, l, orig)
    ensures Fits(s, l, orig) && Short(l, orig) ==> ok
    ensures ok ==> LegalData(s, d, orig) && Sendable(s, d, orig)
  {
    hide T.ScanFits, LegalAc, LegalDc, S.ListsAll, R.Split, DcListedAll, D.DcFitAll, D.DcShapes, WellFormed, D.LegalNumbers;
    d := Draft(s, l);
    ok := true;
    if s.ss != 0 {
      var t;
      ok, t := A.OptimizeAcScan(AcScan(s), l.interval, orig[s.comps[0]]);
      if ok { d := ScanData([t], l.order, l.interval); }
    } else if s.ah == 0 {
      var t;
      AllInScan(s, d, orig);
      ok, t := D.OptimizeDcScan(s.al, l.interval, l.tblno, NUM_HUFF_TBLS, Cis(d), Visit(s, d, orig, orig));
      if ok { d := ScanData(t, l.order, l.interval); }
    }
  }

  lemma AllInScan(s: ScanInfo, d: ScanData, orig: Image)
    requires LegalData(s, d, orig) && forall c :: 0 <= c < |orig| ==> orig[c] != []
    ensures forall j :: 0 <= j < |s.comps| ==> j in Cis(d)
  {
    forall j | 0 <= j < |s.comps|
      ensures j in Cis(d)
    {
      assert (j, 0) in d.order;
      var n :| 0 <= n < |d.order| && d.order[n] == (j, 0);
      assert Cis(d)[n] == j;
    }
  }

  ghost predicate LegalLayouts(scans: seq<ScanInfo>, ls: seq<Layout>, orig: Image) {
    |ls| == |scans| && forall i :: 0 <= i < |scans| ==> LegalLayout(scans[i], ls[i], orig)
  }

  ghost predicate AllFit(scans: seq<ScanInfo>, ls: seq<Layout>, orig: Image)
    requires LegalLayouts(scans, ls, orig) && forall i :: 0 <= i < |scans| ==> LegalParameters(scans[i])
  {
    forall i :: 0 <= i < |scans| ==> Fits(scans[i], ls[i], orig)
  }

  /** Progressive compression with optimized tables, as the compressor always does it: for every valid script and every
      image it fails if a coefficient is out of range, and otherwise only if a scan is so long that the table generator
      gives up.  If it succeeds, the decoder ends up with each coefficient at the precision of the last scan it is in. */
  method CompressImage(ncomps: nat, scans: seq<ScanInfo>, ls: seq<Layout>, orig: Image, marker: byte, tail: seq<byte>)
    returns (ok: bool, image: Image)
    requires |orig| == ncomps && LegalFrom(ncomps, Unsent(ncomps), scans) && LegalLayouts(scans, ls, orig)
    requires SixteenBitImage(orig) && 0 < marker < 0xFF
    ensures forall i :: 0 <= i < |scans| ==> LegalParameters(scans[i])
    ensures ok ==> AllFit(scans, ls, orig)
    ensures AllFit(scans, ls, orig) && (forall i :: 0 <= i < |ls| ==> Short(ls[i], orig)) ==> ok
    ensures ok ==> HoldsImage(Final(ncomps, Unsent(ncomps), scans), orig, image)
  {
    hide HoldsImage, LegalData, Sendable, LegalScanInfo, LegalBitpos, SixteenBitImage, LegalParameters, LegalFrom, Final, LegalLayout, Fits, Short;
    LegalEach(ncomps, Unsent(ncomps), scans);
    image := [];
    var ds: seq<ScanData> := [];
    for i := 0 to |scans|
      invariant |ds| == i && forall j :: 0 <= j < i ==> LegalData(scans[j], ds[j], orig) && Sendable(scans[j], ds[j], orig)
      invariant forall j :: 0 <= j < i ==> Fits(scans[j], ls[j], orig)
    {
      var d;
      ok, d := OptimizeScan(scans[i], ls[i], orig);
      if !ok {
        return;
      }
      ds := ds + [d];
    }
    ok, image := RunScript(ncomps, scans, ds, orig, marker, tail);
  }
}
