/** Scan scripts, as the documentation describes them: which scans may follow which, and what the recommended scripts are. */
module ScriptLaws {
  import opened Bytes
  import opened ProgScript
  import opened ProgSimple

  // ----- Progressive scripts, by looking back at what was sent

  predicate Sends(s: ScanInfo, c: int, j: int) {
    c in s.comps && s.ss <= j <= s.se
  }

  /** The last of the first k scans that sends coefficient j of component c, or -1. */
  function LastScan(scans: seq<ScanInfo>, k: nat, c: int, j: int): (i: int)
    requires k <= |scans|
    ensures -1 <= i < k && (i >= 0 ==> Sends(scans[i], c, j))
    ensures forall m :: i < m < k ==> !Sends(scans[m], c, j)
  {
    if k == 0 then -1 else if Sends(scans[k - 1], c, j) then k - 1 else LastScan(scans, k - 1, c, j)
  }

  /** A coefficient is sent for the first time, or it is refined by one bit from where it was left. */
  predicate Continues(scans: seq<ScanInfo>, k: nat, c: int, j: int)
    requires k < |scans|
  {
    var i := LastScan(scans, k, c, j);
    if i < 0 then scans[k].ah == 0 else scans[k].ah == scans[i].al && scans[k].al == scans[i].al - 1
  }

  /** AC coefficients come after the first DC scan of their component. */
  predicate MayFollow(scans: seq<ScanInfo>, k: nat, c: int)
    requires k < |scans|
  {
    && (scans[k].ss != 0 ==> LastScan(scans, k, c, 0) >= 0)
    && forall j :: scans[k].ss <= j <= scans[k].se ==> Continues(scans, k, c, j)
  }

  predicate GoodScan(ncomps: nat, scans: seq<ScanInfo>, k: nat)
    requires k < |scans|
  {
    && LegalComps(ncomps, scans[k].comps) && LegalParameters(scans[k])
    && forall i :: 0 <= i < |scans[k].comps| ==> MayFollow(scans, k, scans[k].comps[i])
  }

  // What the validator remembers after k scans.
  ghost predicate Remembers(ncomps: nat, p: Bitpos, scans: seq<ScanInfo>, k: nat) {
    && LegalBitpos(ncomps, p) && k <= |scans|
    && forall c, j :: 0 <= c < ncomps && 0 <= j < DCTSIZE2 ==> p[c][j] == Remembered(scans, k, c, j)
  }

  function Remembered(scans: seq<ScanInfo>, k: nat, c: int, j: int): int
    requires k <= |scans|
  {
    var i := LastScan(scans, k, c, j);
    if i < 0 then -1 else scans[i].al
  }

  lemma FollowsIff(ncomps: nat, p: Bitpos, scans: seq<ScanInfo>, k: nat, c: int)
    requires Remembers(ncomps, p, scans, k) && k < |scans| && 0 <= c < ncomps && LegalParameters(scans[k])
    requires forall m :: 0 <= m < k ==> LegalParameters(scans[m])
    ensures Follows(p, scans[k], c) <==> MayFollow(scans, k, c)
  {
    hide LastScan;
    var s := scans[k];
    forall j | s.ss <= j <= s.se
      ensures NextPrecision(p[c][j], s.ah, s.al) <==> Continues(scans, k, c, j)
    {
      assert p[c][j] == Remembered(scans, k, c, j);
    }
    assert p[c][0] == Remembered(scans, k, c, 0);
  }

  lemma LegalIff(ncomps: nat, p: Bitpos, scans: seq<ScanInfo>, k: nat)
    requires Remembers(ncomps, p, scans, k) && k < |scans| && forall m :: 0 <= m < k ==> LegalParameters(scans[m])
    ensures LegalScanInfo(ncomps, p, scans[k]) <==> GoodScan(ncomps, scans, k)
  {
    hide Follows, MayFollow, LegalParameters, Remembers;
    RemembersLegal(ncomps, p, scans, k);
    var s := scans[k];
    if LegalComps(ncomps, s.comps) && LegalParameters(s) {
      forall i | 0 <= i < |s.comps|
        ensures Follows(p, s, s.comps[i]) <==> MayFollow(scans, k, s.comps[i])
      {
        FollowsIff(ncomps, p, scans, k, s.comps[i]);
      }
    }
  }

  lemma RemembersLegal(ncomps: nat, p: Bitpos, scans: seq<ScanInfo>, k: nat)
    requires Remembers(ncomps, p, scans, k)
    ensures LegalBitpos(ncomps, p) && k <= |scans|
  {
  }

  lemma RemembersNext(ncomps: nat, p: Bitpos, scans: seq<ScanInfo>, k: nat)
    requires Remembers(ncomps, p, scans, k) && k < |scans| && LegalScanInfo(ncomps, p, scans[k])
    ensures Remembers(ncomps, AfterScan(ncomps, p, scans[k]), scans, k + 1)
  {
    hide LegalScanInfo, SetBands;
    var s := scans[k];
    LegalParts(ncomps, p, s);
    var q := AfterScan(ncomps, p, s);
    SetBandsAt(p, s.comps, s.ss, s.se, s.al);
    forall c, j | 0 <= c < ncomps && 0 <= j < DCTSIZE2
      ensures q[c][j] == Remembered(scans, k + 1, c, j)
    {
      assert p[c][j] == Remembered(scans, k, c, j);
    }
  }

  lemma LegalParts(ncomps: nat, p: Bitpos, s: ScanInfo)
    requires LegalBitpos(ncomps, p) && LegalScanInfo(ncomps, p, s)
    ensures LegalParameters(s) && LegalComps(ncomps, s.comps)
  {
  }

  lemma {:induction false} LegalFromIff(ncomps: nat, p: Bitpos, scans: seq<ScanInfo>, k: nat)
    requires Remembers(ncomps, p, scans, k) && forall m :: 0 <= m < k ==> LegalParameters(scans[m])
    ensures LegalFrom(ncomps, p, scans[k..]) <==> forall m :: k <= m < |scans| ==> GoodScan(ncomps, scans, m)
    ensures LegalFrom(ncomps, p, scans[k..]) ==> Remembers(ncomps, Final(ncomps, p, scans[k..]), scans, |scans|)
    decreases |scans| - k
  {
    hide Remembers, LegalScanInfo, AfterScan, LegalParameters, GoodScan;
    RemembersLegal(ncomps, p, scans, k);
    if k == |scans| {
      assert scans[k..] == [];
    } else {
      assert scans[k..][0] == scans[k] && scans[k..][1..] == scans[k + 1..];
      LegalIff(ncomps, p, scans, k);
      if LegalScanInfo(ncomps, p, scans[k]) {
        LegalParts(ncomps, p, scans[k]);
        RemembersNext(ncomps, p, scans, k);
        LegalFromIff(ncomps, AfterScan(ncomps, p, scans[k]), scans, k + 1);
      }
    }
  }

  /** A progressive script is valid if and only if every scan may come where it is, and every component has a DC scan. */
  lemma ProgressiveIff(ncomps: nat, scans: seq<ScanInfo>)
    ensures ValidProgressive(ncomps, scans) <==>
      && scans != [] && (forall k :: 0 <= k < |scans| ==> GoodScan(ncomps, scans, k))
      && forall c :: 0 <= c < ncomps ==> LastScan(scans, |scans|, c, 0) >= 0
  {
    hide LegalFrom, Final, GoodScan, LastScan;
    NothingRemembered(ncomps, scans);
    assert scans[0..] == scans;
    LegalFromIff(ncomps, Unsent(ncomps), scans, 0);
    if LegalFrom(ncomps, Unsent(ncomps), scans) { AllDcIff(ncomps, Final(ncomps, Unsent(ncomps), scans), scans); }
  }

  lemma AllDcIff(ncomps: nat, q: Bitpos, scans: seq<ScanInfo>)
    requires Remembers(ncomps, q, scans, |scans|) && forall k :: 0 <= k < |scans| ==> GoodScan(ncomps, scans, k)
    ensures (forall c :: 0 <= c < ncomps ==> q[c][0] >= 0) <==> forall c :: 0 <= c < ncomps ==> LastScan(scans, |scans|, c, 0) >= 0
  {
    hide GoodScan, LastScan;
    if c :| 0 <= c < ncomps && !(q[c][0] >= 0) {
      DcSentIff(ncomps, q, scans, c);
    } else {
      forall c | 0 <= c < ncomps
        ensures LastScan(scans, |scans|, c, 0) >= 0
      {
        DcSentIff(ncomps, q, scans, c);
      }
    }
  }

  lemma DcSentIff(ncomps: nat, q: Bitpos, scans: seq<ScanInfo>, c: int)
    requires Remembers(ncomps, q, scans, |scans|) && 0 <= c < ncomps && forall k :: 0 <= k < |scans| ==> GoodScan(ncomps, scans, k)
    ensures q[c][0] >= 0 <==> LastScan(scans, |scans|, c, 0) >= 0
  {
    hide GoodScan, LastScan;
    assert q[c][0] == Remembered(scans, |scans|, c, 0);
    SentParameters(ncomps, scans, LastScan(scans, |scans|, c, 0));
  }

  lemma SentParameters(ncomps: nat, scans: seq<ScanInfo>, i: int)
    requires forall k :: 0 <= k < |scans| ==> GoodScan(ncomps, scans, k)
    ensures 0 <= i < |scans| ==> scans[i].al >= 0
  {
    hide MayFollow;
    if 0 <= i < |scans| { assert GoodScan(ncomps, scans, i); }
  }

  lemma NothingRemembered(ncomps: nat, scans: seq<ScanInfo>)
    ensures Remembers(ncomps, Unsent(ncomps), scans, 0)
  {
  }

  // ----- Sequential scripts

  /** Some scan sends the component. */
  predicate InSome(scans: seq<ScanInfo>, c: int) {
    exists k :: 0 <= k < |scans| && c in scans[k].comps
  }

  lemma {:induction false} SentIff(scans: seq<ScanInfo>, c: int)
    ensures c in Sent(scans) <==> InSome(scans, c)
    decreases |scans|
  {
    if scans != [] {
      var n := |scans| - 1;
      SentIff(scans[..n], c);
      if c in Sent(scans[..n]) {
        var k :| 0 <= k < n && c in scans[..n][k].comps;
        assert c in scans[k].comps;
      }
      if k :| 0 <= k < |scans| && c in scans[k].comps {
        if k < n { assert c in scans[..n][k].comps; }
      }
    }
  }

  /** No component is in two scans. */
  predicate Disjoint(scans: seq<ScanInfo>) {
    forall k, l :: 0 <= k < l < |scans| ==> !Shared(scans[k].comps, scans[l].comps)
  }

  predicate Shared(a: seq<int>, b: seq<int>) {
    exists i :: 0 <= i < |a| && a[i] in b
  }

  lemma {:induction false} SentOnceIff(scans: seq<ScanInfo>)
    ensures SentOnce(scans) <==> Disjoint(scans)
    decreases |scans|
  {
    hide Sent, Disjoint, Shared;
    if scans == [] {
      NothingShared();
    } else {
      SentOnceIff(scans[..|scans| - 1]);
      DisjointSnoc(scans);
      NewMembers(scans);
    }
  }

  lemma NothingShared()
    ensures Disjoint([])
  {
  }

  lemma NewMembers(scans: seq<ScanInfo>)
    requires scans != []
    ensures var n := |scans| - 1;
      Sent(scans[..n]) !! Members(scans[n].comps) <==> forall k :: 0 <= k < n ==> !Shared(scans[k].comps, scans[n].comps)
  {
    hide Sent;
    var n := |scans| - 1;
    var before, last := scans[..n], scans[n].comps;
    if k :| 0 <= k < n && Shared(scans[k].comps, last) {
      var i :| 0 <= i < |scans[k].comps| && scans[k].comps[i] in last;
      var c := before[k].comps[i];
      SentIff(before, c);
      assert c in before[k].comps;
      assert c in Sent(before) && c in Members(last);
    } else {
      forall c | c in Sent(before)
        ensures c !in Members(last)
      {
        SentIff(before, c);
        var k :| 0 <= k < |before| && c in before[k].comps;
        NotShared(scans[k].comps, last, c);
      }
    }
  }

  lemma DisjointSnoc(scans: seq<ScanInfo>)
    requires scans != []
    ensures var n := |scans| - 1;
      && (forall k :: 0 <= k < n ==> scans[..n][k] == scans[k])
      && (Disjoint(scans) <==> Disjoint(scans[..n]) && forall k :: 0 <= k < n ==> !Shared(scans[k].comps, scans[n].comps))
  {
    hide Shared;
    var n := |scans| - 1;
    var before := scans[..n];
    assert forall k :: 0 <= k < n ==> before[k] == scans[k];
    if Disjoint(before) && forall k :: 0 <= k < n ==> !Shared(scans[k].comps, scans[n].comps) {
      forall k, l | 0 <= k < l < |scans|
        ensures !Shared(scans[k].comps, scans[l].comps)
      {
        if l < n { assert !Shared(before[k].comps, before[l].comps); }
      }
    }
    if Disjoint(scans) {
      forall k, l | 0 <= k < l < n
        ensures !Shared(before[k].comps, before[l].comps)
      {
      }
    }
  }

  lemma NotShared(a: seq<int>, b: seq<int>, c: int)
    requires !Shared(a, b) && c in a
    ensures c !in b
  {
  }

  /** A sequential script is valid if and only if its scans send whole components, each exactly once. */
  lemma SequentialIff(ncomps: nat, scans: seq<ScanInfo>)
    ensures ValidSequential(ncomps, scans) <==>
      && scans != [] && (forall i :: 0 <= i < |scans| ==> SequentialScan(ncomps, scans[i])) && Disjoint(scans)
      && forall c :: 0 <= c < ncomps ==> InSome(scans, c)
  {
    hide Sent, SentOnce, Disjoint, SequentialScan;
    SentOnceIff(scans);
    forall c
      ensures c in Sent(scans) <==> InSome(scans, c)
    {
      SentIff(scans, c);
    }
  }

  // ----- The recommended scripts

  /** The scans of one component, in order. */
  function ScansOf(scans: seq<ScanInfo>, c: int): seq<(int, int, int, int)> {
    if scans == [] then []
    else (if c in scans[0].comps then [(scans[0].ss, scans[0].se, scans[0].ah, scans[0].al)] else []) + ScansOf(scans[1..], c)
  }

  lemma {:induction false} ScansOfConcat(a: seq<ScanInfo>, b: seq<ScanInfo>, c: int)
    ensures ScansOf(a + b, c) == ScansOf(a, c) + ScansOf(b, c)
  {
    if a == [] {
      assert a + b == b;
    } else {
      assert (a + b)[0] == a[0] && (a + b)[1..] == a[1..] + b;
      ScansOfConcat(a[1..], b, c);
      Reassociate(if c in a[0].comps then [(a[0].ss, a[0].se, a[0].ah, a[0].al)] else [], ScansOf(a[1..], c), ScansOf(b, c));
    }
  }

  lemma {:induction false} OneOfEach(c: nat, ncomps: nat, ss: int, se: int, ah: int, al: int, d: int)
    ensures ScansOf(EachScan(c, ncomps, ss, se, ah, al), d) == if c <= d < ncomps then [(ss, se, ah, al)] else []
    decreases ncomps - c
  {
    if c < ncomps { OneOfEach(c + 1, ncomps, ss, se, ah, al, d); }
  }

  lemma OneDc(ncomps: nat, ah: int, al: int, d: int)
    requires 0 <= d < ncomps
    ensures ScansOf(DcScans(ncomps, ah, al), d) == [(0, 0, ah, al)]
  {
    hide EachScan;
    if ncomps <= MAX_COMPS_IN_SCAN {
      assert AllComps(ncomps)[d] == d;
      assert DcScans(ncomps, ah, al)[1..] == [];
    } else {
      OneOfEach(0, ncomps, 0, 0, ah, al, d);
    }
  }

  /** The all-purpose script: every component is sent in six scans, DC and AC less their low bits first. */
  lemma AllPurposeScans(ncomps: nat, d: int)
    requires 0 <= d < ncomps
    ensures ScansOf(AllPurpose(ncomps), d) == [(0, 0, 0, 1), (1, 5, 0, 2), (6, 63, 0, 2), (1, 63, 2, 1), (0, 0, 1, 0), (1, 63, 1, 0)]
  {
    hide DcScans, EachScan, ScansOf;
    var s1, s2, s3 := DcScans(ncomps, 0, 1), EachScan(0, ncomps, 1, 5, 0, 2), EachScan(0, ncomps, 6, 63, 0, 2);
    var s4, s5, s6 := EachScan(0, ncomps, 1, 63, 2, 1), DcScans(ncomps, 1, 0), EachScan(0, ncomps, 1, 63, 1, 0);
    assert [] + s1 == s1;
    ScansOfConcat(s1 + s2 + s3 + s4 + s5, s6, d);
    ScansOfConcat(s1 + s2 + s3 + s4, s5, d);
    ScansOfConcat(s1 + s2 + s3, s4, d);
    ScansOfConcat(s1 + s2, s3, d);
    ScansOfConcat(s1, s2, d);
    OneDc(ncomps, 0, 1, d);
    OneDc(ncomps, 1, 0, d);
    OneOfEach(0, ncomps, 1, 5, 0, 2, d);
    OneOfEach(0, ncomps, 6, 63, 0, 2, d);
    OneOfEach(0, ncomps, 1, 63, 2, 1, d);
    OneOfEach(0, ncomps, 1, 63, 1, 0, d);
  }

  /** The script for YCbCr is the one that the documentation lists. */
  lemma YccScript()
    ensures ForYcc() == [
      ScanInfo([0, 1, 2], 0, 0, 0, 1),
      ScanInfo([0], 1, 5, 0, 2),
      ScanInfo([2], 1, 63, 0, 1),
      ScanInfo([1], 1, 63, 0, 1),
      ScanInfo([0], 6, 63, 0, 2),
      ScanInfo([0], 1, 63, 2, 1),
      ScanInfo([0, 1, 2], 0, 0, 1, 0),
      ScanInfo([2], 1, 63, 1, 0),
      ScanInfo([1], 1, 63, 1, 0),
      ScanInfo([0], 1, 63, 1, 0)]
  {
    assert AllComps(3) == [0, 1, 2];
    assert DcScans(3, 0, 1) == [ScanInfo([0, 1, 2], 0, 0, 0, 1)] && DcScans(3, 1, 0) == [ScanInfo([0, 1, 2], 0, 0, 1, 0)];
  }
}
