/** The recommended progressive script. */
module ProgSimple {
  import opened ProgScript

  // ----- What the support routines write

  function AScan(c: int, ss: int, se: int, ah: int, al: int): ScanInfo {
    ScanInfo([c], ss, se, ah, al)
  }

  /** One scan for each component from c on. */
  function EachScan(c: nat, ncomps: nat, ss: int, se: int, ah: int, al: int): seq<ScanInfo>
    decreases ncomps - c
  {
    if c >= ncomps then [] else [AScan(c, ss, se, ah, al)] + EachScan(c + 1, ncomps, ss, se, ah, al)
  }

  function AllComps(ncomps: nat): (s: seq<int>)
    ensures |s| == ncomps
  {
    seq(ncomps, i => i)
  }

  /** An interleaved DC scan if possible. */
  function DcScans(ncomps: nat, ah: int, al: int): seq<ScanInfo> {
    if ncomps <= MAX_COMPS_IN_SCAN then [ScanInfo(AllComps(ncomps), 0, 0, ah, al)] else EachScan(0, ncomps, 0, 0, ah, al)
  }

  lemma {:induction false} EachSnoc(c: nat, n: nat, ss: int, se: int, ah: int, al: int)
    requires c <= n
    ensures EachScan(c, n + 1, ss, se, ah, al) == EachScan(c, n, ss, se, ah, al) + [AScan(n, ss, se, ah, al)]
    ensures |EachScan(c, n, ss, se, ah, al)| == n - c
    decreases n - c
  {
    if c < n {
      EachSnoc(c + 1, n, ss, se, ah, al);
      assert [AScan(c, ss, se, ah, al)] + (EachScan(c + 1, n, ss, se, ah, al) + [AScan(n, ss, se, ah, al)])
          == ([AScan(c, ss, se, ah, al)] + EachScan(c + 1, n, ss, se, ah, al)) + [AScan(n, ss, se, ah, al)];
    } else {
      assert EachScan(n + 1, n + 1, ss, se, ah, al) == [];
    }
  }

  method FillAScan(scanptr: seq<ScanInfo>, ci: int, Ss: int, Se: int, Ah: int, Al: int) returns (r: seq<ScanInfo>)
    ensures r == scanptr + [AScan(ci, Ss, Se, Ah, Al)]
  {
    r := scanptr + [ScanInfo([ci], Ss, Se, Ah, Al)];
  }

  method FillScans(scanptr: seq<ScanInfo>, ncomps: nat, Ss: int, Se: int, Ah: int, Al: int) returns (r: seq<ScanInfo>)
    ensures r == scanptr + EachScan(0, ncomps, Ss, Se, Ah, Al)
  {
    r := scanptr;
    assert r + [] == r;
    for ci := 0 to ncomps
      invariant r == scanptr + EachScan(0, ci, Ss, Se, Ah, Al)
    {
      EachSnoc(0, ci, Ss, Se, Ah, Al);
      assert scanptr + (EachScan(0, ci, Ss, Se, Ah, Al) + [AScan(ci, Ss, Se, Ah, Al)])
          == (scanptr + EachScan(0, ci, Ss, Se, Ah, Al)) + [AScan(ci, Ss, Se, Ah, Al)];
      r := r + [ScanInfo([ci], Ss, Se, Ah, Al)];
    }
  }

  method FillDcScans(scanptr: seq<ScanInfo>, ncomps: nat, Ah: int, Al: int) returns (r: seq<ScanInfo>)
    ensures r == scanptr + DcScans(ncomps, Ah, Al)
  {
    if ncomps <= MAX_COMPS_IN_SCAN {
      // Single interleaved DC scan
      var component_index: seq<int> := [];
      for ci := 0 to ncomps
        invariant component_index == AllComps(ci)
      {
        component_index := component_index + [ci];
      }
      r := scanptr + [ScanInfo(component_index, 0, 0, Ah, Al)];
    } else {
      // Noninterleaved DC scan for each component
      r := FillScans(scanptr, ncomps, 0, 0, Ah, Al);
    }
  }

  // ----- Scans one after the other

  lemma {:induction false} LegalConcat(ncomps: nat, p: Bitpos, a: seq<ScanInfo>, b: seq<ScanInfo>)
    requires LegalBitpos(ncomps, p) && LegalFrom(ncomps, p, a) && LegalFrom(ncomps, Final(ncomps, p, a), b)
    ensures LegalFrom(ncomps, p, a + b) && Final(ncomps, p, a + b) == Final(ncomps, Final(ncomps, p, a), b)
    decreases |a|
  {
    hide AfterScan, LegalScanInfo;
    if a == [] {
      assert a + b == b;
    } else {
      assert (a + b)[1..] == a[1..] + b;
      LegalConcat(ncomps, AfterScan(ncomps, p, a[0]), a[1..], b);
    }
  }

  /** The script so far is legal, and has led to p. */
  predicate LeadsTo(ncomps: nat, scans: seq<ScanInfo>, p: Bitpos) {
    LegalBitpos(ncomps, p) && LegalFrom(ncomps, Unsent(ncomps), scans) && Final(ncomps, Unsent(ncomps), scans) == p
  }

  lemma LeadsOn(ncomps: nat, scans: seq<ScanInfo>, p: Bitpos, more: seq<ScanInfo>, q: Bitpos)
    requires LeadsTo(ncomps, scans, p) && LegalBitpos(ncomps, p) && LegalFrom(ncomps, p, more) && Final(ncomps, p, more) == q
    ensures LeadsTo(ncomps, scans + more, q)
  {
    hide LegalFrom, Final, LegalBitpos;
    LegalConcat(ncomps, Unsent(ncomps), scans, more);
    FinalLegal(ncomps, p, more);
  }

  lemma FinalLegal(ncomps: nat, p: Bitpos, scans: seq<ScanInfo>)
    requires LegalBitpos(ncomps, p) && LegalFrom(ncomps, p, scans)
    ensures LegalBitpos(ncomps, Final(ncomps, p, scans))
  {
  }

  /** Component c has been sent up to bit position v in the band. */
  predicate BandAt(p: Bitpos, c: int, ss: int, se: int, v: int)
    requires 0 <= c < |p| && |p[c]| == DCTSIZE2 && 0 <= ss && se < DCTSIZE2
  {
    forall k :: ss <= k <= se ==> p[c][k] == v
  }

  /** One scan of one component. */
  lemma OneScan(ncomps: nat, p: Bitpos, c: int, ss: int, se: int, ah: int, al: int, v: int)
    requires LegalBitpos(ncomps, p) && 0 <= c < ncomps && LegalParameters(AScan(c, ss, se, ah, al))
    requires BandAt(p, c, ss, se, v) && NextPrecision(v, ah, al) && (ss != 0 ==> p[c][0] >= 0)
    ensures LegalScanInfo(ncomps, p, AScan(c, ss, se, ah, al))
    ensures AfterScan(ncomps, p, AScan(c, ss, se, ah, al)) == SetBand(p, c, ss, se, al)
  {
    assert [c][1..] == [];
    assert SetBands(SetBand(p, c, ss, se, al), [], ss, se, al) == SetBand(p, c, ss, se, al);
  }

  /** The same scan for each component from c on. */
  lemma {:induction false} EachLegal(ncomps: nat, p: Bitpos, c: nat, ss: int, se: int, ah: int, al: int, v: int)
    requires LegalBitpos(ncomps, p) && c <= ncomps && LegalParameters(AScan(0, ss, se, ah, al)) && NextPrecision(v, ah, al)
    requires forall d :: c <= d < ncomps ==> BandAt(p, d, ss, se, v) && (ss != 0 ==> p[d][0] >= 0)
    ensures LegalFrom(ncomps, p, EachScan(c, ncomps, ss, se, ah, al))
    ensures var q := Final(ncomps, p, EachScan(c, ncomps, ss, se, ah, al));
      forall d, k :: 0 <= d < ncomps && 0 <= k < DCTSIZE2 ==> q[d][k] == if c <= d && ss <= k <= se then al else p[d][k]
    decreases ncomps - c
  {
    hide LegalScanInfo, AfterScan, NextPrecision;
    if c < ncomps {
      var scans := EachScan(c, ncomps, ss, se, ah, al);
      assert scans[1..] == EachScan(c + 1, ncomps, ss, se, ah, al);
      OneScan(ncomps, p, c, ss, se, ah, al, v);
      var q1 := SetBand(p, c, ss, se, al);
      EachLegal(ncomps, q1, c + 1, ss, se, ah, al, v);
      var q := Final(ncomps, q1, EachScan(c + 1, ncomps, ss, se, ah, al));
      assert Final(ncomps, p, scans) == q;
      forall d, k | 0 <= d < ncomps && 0 <= k < DCTSIZE2
        ensures q[d][k] == if c <= d && ss <= k <= se then al else p[d][k]
      {
        assert q[d][k] == if c + 1 <= d && ss <= k <= se then al else q1[d][k];
      }
    }
  }

  lemma DcLegal(ncomps: nat, p: Bitpos, ah: int, al: int, v: int)
    requires LegalBitpos(ncomps, p) && ncomps >= 1 && NextPrecision(v, ah, al) && 0 <= ah <= MAX_AH_AL && 0 <= al <= MAX_AH_AL
    requires forall d :: 0 <= d < ncomps ==> p[d][0] == v
    ensures LegalFrom(ncomps, p, DcScans(ncomps, ah, al))
    ensures var q := Final(ncomps, p, DcScans(ncomps, ah, al));
      forall d, k :: 0 <= d < ncomps && 0 <= k < DCTSIZE2 ==> q[d][k] == if k == 0 then al else p[d][k]
  {
    hide NextPrecision;
    if ncomps <= MAX_COMPS_IN_SCAN {
      var s := ScanInfo(AllComps(ncomps), 0, 0, ah, al);
      assert [s][1..] == [];
      SetBandsAt(p, AllComps(ncomps), 0, 0, al);
      forall d | 0 <= d < ncomps
        ensures d in AllComps(ncomps)
      {
        assert AllComps(ncomps)[d] == d;
      }
      assert LegalScanInfo(ncomps, p, s);
      assert Final(ncomps, p, [s]) == AfterScan(ncomps, p, s);
    } else {
      EachLegal(ncomps, p, 0, 0, 0, ah, al, v);
    }
  }

  lemma NothingSent(ncomps: nat)
    ensures LeadsTo(ncomps, [], Unsent(ncomps))
  {
  }

  // ----- The scripts

  /** Every coefficient of every component is sent to the last bit. */
  predicate Complete(ncomps: nat, scans: seq<ScanInfo>) {
    && ValidProgressive(ncomps, scans)
    && forall c, k :: 0 <= c < ncomps && 0 <= k < DCTSIZE2 ==> Final(ncomps, Unsent(ncomps), scans)[c][k] == 0
  }

  function AllPurpose(ncomps: nat): seq<ScanInfo> {
    [] + DcScans(ncomps, 0, 1) + EachScan(0, ncomps, 1, 5, 0, 2) + EachScan(0, ncomps, 6, 63, 0, 2)
    + EachScan(0, ncomps, 1, 63, 2, 1) + DcScans(ncomps, 1, 0) + EachScan(0, ncomps, 1, 63, 1, 0)
  }

  lemma AllPurposeComplete(ncomps: nat)
    requires ncomps >= 1
    ensures Complete(ncomps, AllPurpose(ncomps))
  {
    hide LegalFrom, Final, DcScans, EachScan, LeadsTo, LegalBitpos;
    var p0 := Unsent(ncomps);
    NothingSent(ncomps);
    var s1 := DcScans(ncomps, 0, 1);
    DcLegal(ncomps, p0, 0, 1, -1);
    var p1 := Final(ncomps, p0, s1);
    LeadsOn(ncomps, [], p0, s1, p1);
    var s2 := EachScan(0, ncomps, 1, 5, 0, 2);
    EachLegal(ncomps, p1, 0, 1, 5, 0, 2, -1);
    var p2 := Final(ncomps, p1, s2);
    LeadsOn(ncomps, [] + s1, p1, s2, p2);
    var s3 := EachScan(0, ncomps, 6, 63, 0, 2);
    EachLegal(ncomps, p2, 0, 6, 63, 0, 2, -1);
    var p3 := Final(ncomps, p2, s3);
    LeadsOn(ncomps, [] + s1 + s2, p2, s3, p3);
    var s4 := EachScan(0, ncomps, 1, 63, 2, 1);
    EachLegal(ncomps, p3, 0, 1, 63, 2, 1, 2);
    var p4 := Final(ncomps, p3, s4);
    LeadsOn(ncomps, [] + s1 + s2 + s3, p3, s4, p4);
    var s5 := DcScans(ncomps, 1, 0);
    DcLegal(ncomps, p4, 1, 0, 1);
    var p5 := Final(ncomps, p4, s5);
    LeadsOn(ncomps, [] + s1 + s2 + s3 + s4, p4, s5, p5);
    var s6 := EachScan(0, ncomps, 1, 63, 1, 0);
    EachLegal(ncomps, p5, 0, 1, 63, 1, 0, 1);
    var p6 := Final(ncomps, p5, s6);
    LeadsOn(ncomps, [] + s1 + s2 + s3 + s4 + s5, p5, s6, p6);
    LeadsToComplete(ncomps, AllPurpose(ncomps), p6);
  }

  lemma LeadsToComplete(ncomps: nat, scans: seq<ScanInfo>, p: Bitpos)
    requires ncomps >= 1 && LeadsTo(ncomps, scans, p) && LegalBitpos(ncomps, p)
    requires forall c, k :: 0 <= c < ncomps && 0 <= k < DCTSIZE2 ==> p[c][k] == 0
    ensures Complete(ncomps, scans)
  {
    hide LegalScanInfo, AfterScan;
    assert Unsent(ncomps)[0][0] == -1;
  }

  /** The custom script for YCbCr color images. */
  function ForYcc(): seq<ScanInfo> {
    [] + DcScans(3, 0, 1) + [AScan(0, 1, 5, 0, 2)] + [AScan(2, 1, 63, 0, 1)] + [AScan(1, 1, 63, 0, 1)] + [AScan(0, 6, 63, 0, 2)]
    + [AScan(0, 1, 63, 2, 1)] + DcScans(3, 1, 0) + [AScan(2, 1, 63, 1, 0)] + [AScan(1, 1, 63, 1, 0)] + [AScan(0, 1, 63, 1, 0)]
  }

  lemma AddScan(scans: seq<ScanInfo>, p: Bitpos, c: int, ss: int, se: int, ah: int, al: int, v: int)
    requires LegalBitpos(3, p) && LeadsTo(3, scans, p) && 0 <= c < 3 && LegalParameters(AScan(c, ss, se, ah, al))
    requires BandAt(p, c, ss, se, v) && NextPrecision(v, ah, al) && (ss != 0 ==> p[c][0] >= 0)
    ensures LegalBitpos(3, SetBand(p, c, ss, se, al)) && LeadsTo(3, scans + [AScan(c, ss, se, ah, al)], SetBand(p, c, ss, se, al))
  {
    hide LegalScanInfo, AfterScan, LeadsTo, NextPrecision, BandAt;
    OneScan(3, p, c, ss, se, ah, al, v);
    var s := AScan(c, ss, se, ah, al);
    assert [s][1..] == [];
    LeadsOn(3, scans, p, [s], SetBand(p, c, ss, se, al));
  }

  lemma ForYccComplete()
    ensures Complete(3, ForYcc())
  {
    hide LegalFrom, Final, DcScans, EachScan, LeadsTo;
    var p0 := Unsent(3);
    NothingSent(3);
    DcLegal(3, p0, 0, 1, -1);
    var a := [] + DcScans(3, 0, 1);
    var p1 := Final(3, p0, DcScans(3, 0, 1));
    LeadsOn(3, [], p0, DcScans(3, 0, 1), p1);
    AddScan(a, p1, 0, 1, 5, 0, 2, -1);
    var p2 := SetBand(p1, 0, 1, 5, 2);
    AddScan(a + [AScan(0, 1, 5, 0, 2)], p2, 2, 1, 63, 0, 1, -1);
    var p3 := SetBand(p2, 2, 1, 63, 1);
    AddScan(a + [AScan(0, 1, 5, 0, 2)] + [AScan(2, 1, 63, 0, 1)], p3, 1, 1, 63, 0, 1, -1);
    var p4 := SetBand(p3, 1, 1, 63, 1);
    var b := a + [AScan(0, 1, 5, 0, 2)] + [AScan(2, 1, 63, 0, 1)] + [AScan(1, 1, 63, 0, 1)];
    AddScan(b, p4, 0, 6, 63, 0, 2, -1);
    var p5 := SetBand(p4, 0, 6, 63, 2);
    AddScan(b + [AScan(0, 6, 63, 0, 2)], p5, 0, 1, 63, 2, 1, 2);
    var p6 := SetBand(p5, 0, 1, 63, 1);
    var c := b + [AScan(0, 6, 63, 0, 2)] + [AScan(0, 1, 63, 2, 1)];
    YccFinish(c, p6);
  }

  lemma YccFinish(c: seq<ScanInfo>, p6: Bitpos)
    requires LegalBitpos(3, p6) && LeadsTo(3, c, p6) && forall d, k :: 0 <= d < 3 && 0 <= k < DCTSIZE2 ==> p6[d][k] == 1
    ensures Complete(3, c + DcScans(3, 1, 0) + [AScan(2, 1, 63, 1, 0)] + [AScan(1, 1, 63, 1, 0)] + [AScan(0, 1, 63, 1, 0)])
  {
    hide LegalFrom, Final, DcScans, EachScan, LeadsTo, Complete;
    DcLegal(3, p6, 1, 0, 1);
    var p7 := Final(3, p6, DcScans(3, 1, 0));
    LeadsOn(3, c, p6, DcScans(3, 1, 0), p7);
    var d := c + DcScans(3, 1, 0);
    AddScan(d, p7, 2, 1, 63, 1, 0, 1);
    var p8 := SetBand(p7, 2, 1, 63, 0);
    AddScan(d + [AScan(2, 1, 63, 1, 0)], p8, 1, 1, 63, 1, 0, 1);
    var p9 := SetBand(p8, 1, 1, 63, 0);
    AddScan(d + [AScan(2, 1, 63, 1, 0)] + [AScan(1, 1, 63, 1, 0)], p9, 0, 1, 63, 1, 0, 1);
    LeadsToComplete(3, d + [AScan(2, 1, 63, 1, 0)] + [AScan(1, 1, 63, 1, 0)] + [AScan(0, 1, 63, 1, 0)], SetBand(p9, 0, 1, 63, 0));
  }

  lemma DcCount(ncomps: nat, ah: int, al: int)
    ensures |DcScans(ncomps, ah, al)| == if ncomps <= MAX_COMPS_IN_SCAN then 1 else ncomps
  {
    EachSnoc(0, ncomps, 0, 0, ah, al);
  }

  /** jpeg_simple_progression: the script is valid for any number of components, sends every coefficient to
      the last bit, and has as many scans as space was reserved for. */
  method SimpleProgression(ncomps: nat, ycc: bool) returns (scans: seq<ScanInfo>, nscans: nat)
    requires ncomps >= 1
    ensures Complete(ncomps, scans) && |scans| == nscans
    ensures scans == if ncomps == 3 && ycc then ForYcc() else AllPurpose(ncomps)
    ensures Progressive(scans)
  {
    hide Complete, DcScans, EachScan;
    // Figure space needed for script.  Calculation must match code below!
    if ncomps == 3 && ycc {
      nscans := 10;
    } else if ncomps > MAX_COMPS_IN_SCAN {
      nscans := 6 * ncomps;  // 2 DC + 4 AC scans per component
    } else {
      nscans := 2 + 4 * ncomps;  // 2 DC scans; 4 AC scans per component
    }
    DcCount(ncomps, 0, 1);
    DcCount(ncomps, 1, 0);
    FirstIsDc(ncomps, 0, 1);
    scans := [];
    if ncomps == 3 && ycc {
      scans := FillDcScans(scans, ncomps, 0, 1);
      scans := FillAScan(scans, 0, 1, 5, 0, 2);
      scans := FillAScan(scans, 2, 1, 63, 0, 1);
      scans := FillAScan(scans, 1, 1, 63, 0, 1);
      scans := FillAScan(scans, 0, 6, 63, 0, 2);
      scans := FillAScan(scans, 0, 1, 63, 2, 1);
      scans := FillDcScans(scans, ncomps, 1, 0);
      scans := FillAScan(scans, 2, 1, 63, 1, 0);
      scans := FillAScan(scans, 1, 1, 63, 1, 0);
      scans := FillAScan(scans, 0, 1, 63, 1, 0);
      ForYccComplete();
    } else {
      EachSnoc(0, ncomps, 1, 5, 0, 2);
      EachSnoc(0, ncomps, 6, 63, 0, 2);
      EachSnoc(0, ncomps, 1, 63, 2, 1);
      EachSnoc(0, ncomps, 1, 63, 1, 0);
      scans := FillDcScans(scans, ncomps, 0, 1);
      scans := FillScans(scans, ncomps, 1, 5, 0, 2);
      scans := FillScans(scans, ncomps, 6, 63, 0, 2);
      scans := FillScans(scans, ncomps, 1, 63, 2, 1);
      scans := FillDcScans(scans, ncomps, 1, 0);
      scans := FillScans(scans, ncomps, 1, 63, 1, 0);
      AllPurposeComplete(ncomps);
    }
  }

  lemma FirstIsDc(ncomps: nat, ah: int, al: int)
    requires ncomps >= 1
    ensures DcScans(ncomps, ah, al) != [] && DcScans(ncomps, ah, al)[0].ss == 0 && DcScans(ncomps, ah, al)[0].se == 0
  {
  }
}
