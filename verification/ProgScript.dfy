/** Scan scripts: their validation, and the recommended progressive script. */
module ProgScript {

  const MAX_COMPS_IN_SCAN := 4
  const MAX_AH_AL := 10
  const DCTSIZE2 := 64

  /** One scan of a script: the components in it and the progression parameters. */
  datatype ScanInfo = ScanInfo(comps: seq<int>, ss: int, se: int, ah: int, al: int)

  // ----- What a valid script is

  /** Components are in range and in order of the frame. */
  predicate LegalComps(ncomps: nat, comps: seq<int>) {
    && 0 < |comps| <= MAX_COMPS_IN_SCAN
    && (forall i :: 0 <= i < |comps| ==> 0 <= comps[i] < ncomps)
    && forall i :: 0 < i < |comps| ==> comps[i - 1] < comps[i]
  }

  /** For each component and coefficient the bit position of its last scan, -1 if there was none. */
  type Bitpos = seq<seq<int>>

  predicate LegalBitpos(ncomps: nat, p: Bitpos) {
    |p| == ncomps && forall c :: 0 <= c < ncomps ==> |p[c]| == DCTSIZE2 && forall k :: 0 <= k < DCTSIZE2 ==> -1 <= p[c][k] <= MAX_AH_AL
  }

  predicate LegalParameters(s: ScanInfo) {
    && 0 <= s.ss <= s.se < DCTSIZE2 && 0 <= s.ah <= MAX_AH_AL && 0 <= s.al <= MAX_AH_AL
    && if s.ss == 0 then s.se == 0 else |s.comps| == 1
  }

  /** The first scan of a coefficient, or its refinement by one bit. */
  predicate NextPrecision(last: int, ah: int, al: int) {
    if last < 0 then ah == 0 else ah == last && al == ah - 1
  }

  /** The scan may follow the scans that led to p, as far as component c is concerned. */
  predicate Follows(p: Bitpos, s: ScanInfo, c: int)
    requires 0 <= c < |p| && |p[c]| == DCTSIZE2 && LegalParameters(s)
  {
    && (s.ss != 0 ==> p[c][0] >= 0)
    && forall k :: s.ss <= k <= s.se ==> NextPrecision(p[c][k], s.ah, s.al)
  }

  /** Component c at bit position al in the band. */
  function SetBand(p: Bitpos, c: int, ss: int, se: int, al: int): (q: Bitpos)
    requires 0 <= c < |p| && |p[c]| == DCTSIZE2
    ensures |q| == |p| && forall d :: 0 <= d < |p| ==> |q[d]| == |p[d]|
  {
    p[c := seq(DCTSIZE2, k requires 0 <= k < DCTSIZE2 => if ss <= k <= se then al else p[c][k])]
  }

  function SetBands(p: Bitpos, comps: seq<int>, ss: int, se: int, al: int): (q: Bitpos)
    requires forall i :: 0 <= i < |comps| ==> 0 <= comps[i] < |p|
    requires forall c :: 0 <= c < |p| ==> |p[c]| == DCTSIZE2
    ensures |q| == |p| && forall c :: 0 <= c < |p| ==> |q[c]| == DCTSIZE2
    decreases |comps|
  {
    if comps == [] then p else SetBands(SetBand(p, comps[0], ss, se, al), comps[1..], ss, se, al)
  }

  predicate LegalScanInfo(ncomps: nat, p: Bitpos, s: ScanInfo)
    requires LegalBitpos(ncomps, p)
  {
    && LegalComps(ncomps, s.comps) && LegalParameters(s)
    && forall i :: 0 <= i < |s.comps| ==> Follows(p, s, s.comps[i])
  }

  function AfterScan(ncomps: nat, p: Bitpos, s: ScanInfo): (q: Bitpos)
    requires LegalBitpos(ncomps, p) && LegalScanInfo(ncomps, p, s)
    ensures LegalBitpos(ncomps, q)
  {
    SetBandsAt(p, s.comps, s.ss, s.se, s.al);
    SetBands(p, s.comps, s.ss, s.se, s.al)
  }

  /** What SetBands does, coefficient by coefficient. */
  lemma {:induction false} SetBandsAt(p: Bitpos, comps: seq<int>, ss: int, se: int, al: int)
    requires forall i :: 0 <= i < |comps| ==> 0 <= comps[i] < |p|
    requires forall c :: 0 <= c < |p| ==> |p[c]| == DCTSIZE2
    ensures forall c, k :: 0 <= c < |p| && 0 <= k < DCTSIZE2 ==>
      SetBands(p, comps, ss, se, al)[c][k] == if c in comps && ss <= k <= se then al else p[c][k]
    decreases |comps|
  {
    if comps != [] {
      SetBandsAt(SetBand(p, comps[0], ss, se, al), comps[1..], ss, se, al);
    }
  }

  /** Nothing sent. */
  function Unsent(ncomps: nat): (p: Bitpos)
    ensures LegalBitpos(ncomps, p)
  {
    seq(ncomps, _ => seq(DCTSIZE2, _ => -1))
  }

  /** The scans may follow each other. */
  predicate LegalFrom(ncomps: nat, p: Bitpos, scans: seq<ScanInfo>)
    requires LegalBitpos(ncomps, p)
    decreases |scans|
  {
    scans != [] ==> LegalScanInfo(ncomps, p, scans[0]) && LegalFrom(ncomps, AfterScan(ncomps, p, scans[0]), scans[1..])
  }

  function Final(ncomps: nat, p: Bitpos, scans: seq<ScanInfo>): (q: Bitpos)
    requires LegalBitpos(ncomps, p) && LegalFrom(ncomps, p, scans)
    ensures LegalBitpos(ncomps, q)
    decreases |scans|
  {
    if scans == [] then p else Final(ncomps, AfterScan(ncomps, p, scans[0]), scans[1..])
  }

  predicate ValidProgressive(ncomps: nat, scans: seq<ScanInfo>) {
    && scans != [] && LegalFrom(ncomps, Unsent(ncomps), scans)
    && forall c :: 0 <= c < ncomps ==> Final(ncomps, Unsent(ncomps), scans)[c][0] >= 0
  }

  /** A sequential script sends every component in exactly one scan. */
  predicate SequentialScan(ncomps: nat, s: ScanInfo) {
    LegalComps(ncomps, s.comps) && s.ss == 0 && s.se == DCTSIZE2 - 1 && s.ah == 0 && s.al == 0
  }

  function Sent(scans: seq<ScanInfo>): set<int> {
    if scans == [] then {} else Sent(scans[..|scans| - 1]) + Members(scans[|scans| - 1].comps)
  }

  function Members(comps: seq<int>): set<int> {
    set c | c in comps
  }

  predicate SentOnce(scans: seq<ScanInfo>) {
    scans != [] ==> SentOnce(scans[..|scans| - 1]) && Sent(scans[..|scans| - 1]) !! Members(scans[|scans| - 1].comps)
  }

  predicate ValidSequential(ncomps: nat, scans: seq<ScanInfo>) {
    && scans != [] && (forall i :: 0 <= i < |scans| ==> SequentialScan(ncomps, scans[i]))
    && SentOnce(scans) && forall c :: 0 <= c < ncomps ==> c in Sent(scans)
  }

  /** The kind of script is told by its first scan. */
  predicate Progressive(scans: seq<ScanInfo>)
    requires scans != []
  {
    scans[0].ss != 0 || scans[0].se != DCTSIZE2 - 1
  }

  // ----- validate_script

  // Validate component indexes: they must appear in SOF order within each scan.
  method ValidateComps(ncomps: nat, comps: seq<int>) returns (ok: bool)
    ensures ok <==> LegalComps(ncomps, comps)
  {
    if |comps| <= 0 || |comps| > MAX_COMPS_IN_SCAN {
      return false;
    }
    for ci := 0 to |comps|
      invariant forall i :: 0 <= i < ci ==> 0 <= comps[i] < ncomps
      invariant forall i :: 0 < i < ci ==> comps[i - 1] < comps[i]
    {
      var thisi := comps[ci];
      if thisi < 0 || thisi >= ncomps {
        return false;
      }
      if ci > 0 && thisi <= comps[ci - 1] {
        return false;
      }
    }
    ok := true;
  }

  method ValidateParameters(s: ScanInfo) returns (ok: bool)
    ensures ok <==> LegalParameters(s)
  {
    if s.ss < 0 || s.ss >= DCTSIZE2 || s.se < s.ss || s.se >= DCTSIZE2 ||
       s.ah < 0 || s.ah > MAX_AH_AL || s.al < 0 || s.al > MAX_AH_AL {
      return false;
    }
    if s.ss == 0 {
      if s.se != 0 {  // DC and AC together not OK
        return false;
      }
    } else {
      if |s.comps| != 1 {  // AC scans must be for only one component
        return false;
      }
    }
    ok := true;
  }

  // The progression of one component; the last bit positions of its band are updated.
  method ValidateBand(p: Bitpos, s: ScanInfo, c: int) returns (ok: bool, q: Bitpos)
    requires 0 <= c < |p| && |p[c]| == DCTSIZE2 && LegalParameters(s)
    ensures ok <==> Follows(p, s, c)
    ensures ok ==> q == SetBand(p, c, s.ss, s.se, s.al)
  {
    var last_bitpos := p[c];
    q := p;
    if s.ss != 0 && last_bitpos[0] < 0 {  // AC without prior DC scan
      return false, p;
    }
    var coefi := s.ss;
    while coefi <= s.se
      invariant s.ss <= coefi <= s.se + 1 && |last_bitpos| == DCTSIZE2
      invariant forall k :: 0 <= k < DCTSIZE2 ==> last_bitpos[k] == if s.ss <= k < coefi then s.al else p[c][k]
      invariant forall k :: s.ss <= k < coefi ==> NextPrecision(p[c][k], s.ah, s.al)
    {
      if last_bitpos[coefi] < 0 {
        // first scan of this coefficient
        if s.ah != 0 {
          return false, p;
        }
      } else {
        // not first scan
        if s.ah != last_bitpos[coefi] || s.al != s.ah - 1 {
          return false, p;
        }
      }
      last_bitpos := last_bitpos[coefi := s.al];
      coefi := coefi + 1;
    }
    ok, q := true, p[c := last_bitpos];
    assert last_bitpos == SetBand(p, c, s.ss, s.se, s.al)[c];
  }

  lemma Increasing(comps: seq<int>, i: nat, j: nat)
    requires (forall k :: 0 < k < |comps| ==> comps[k - 1] < comps[k]) && i < j < |comps|
    ensures comps[i] < comps[j]
  {
    if i < j - 1 { Increasing(comps, i, j - 1); }
  }

  /** The bands of other components do not matter. */
  lemma FollowsOther(p: Bitpos, q: Bitpos, s: ScanInfo, c: int)
    requires 0 <= c < |p| == |q| && |p[c]| == DCTSIZE2 && p[c] == q[c] && LegalParameters(s)
    ensures Follows(p, s, c) == Follows(q, s, c)
  {
  }

  lemma {:induction false} SetBandsSnoc(p: Bitpos, comps: seq<int>, c: int, ss: int, se: int, al: int)
    requires (forall i :: 0 <= i < |comps| ==> 0 <= comps[i] < |p|) && 0 <= c < |p|
    requires forall d :: 0 <= d < |p| ==> |p[d]| == DCTSIZE2
    ensures SetBands(p, comps + [c], ss, se, al) == SetBand(SetBands(p, comps, ss, se, al), c, ss, se, al)
    decreases |comps|
  {
    hide SetBand;
    var all := comps + [c];
    if comps == [] {
      assert all[1..] == [];
      assert SetBands(SetBand(p, c, ss, se, al), [], ss, se, al) == SetBand(p, c, ss, se, al);
    } else {
      assert all[1..] == comps[1..] + [c];
      SetBandsSnoc(SetBand(p, comps[0], ss, se, al), comps[1..], c, ss, se, al);
    }
  }

  // One scan of a progressive script.
  method ValidateProgressiveScan(ncomps: nat, p: Bitpos, s: ScanInfo) returns (ok: bool, q: Bitpos)
    requires LegalBitpos(ncomps, p)
    ensures ok <==> LegalScanInfo(ncomps, p, s)
    ensures ok ==> q == AfterScan(ncomps, p, s)
  {
    hide Follows, SetBands;
    q := p;
    ok := ValidateComps(ncomps, s.comps);
    if !ok {
      return;
    }
    ok := ValidateParameters(s);
    if !ok {
      return;
    }
    NoBands(p, s);
    var ci := 0;
    while ci < |s.comps|
      invariant 0 <= ci <= |s.comps| && |q| == |p| && forall d :: 0 <= d < |p| ==> |q[d]| == DCTSIZE2
      invariant q == SetBands(p, s.comps[..ci], s.ss, s.se, s.al)
      invariant forall i :: 0 <= i < ci ==> Follows(p, s, s.comps[i])
    {
      var c := s.comps[ci];
      NotYet(p, s, ci);
      FollowsOther(p, q, s, c);
      SetBandsSnoc(p, s.comps[..ci], c, s.ss, s.se, s.al);
      assert s.comps[..ci + 1] == s.comps[..ci] + [c];
      ok, q := ValidateBand(q, s, c);
      if !ok {
        return;
      }
      ci := ci + 1;
    }
    assert s.comps[..ci] == s.comps;
    ok := true;
  }

  lemma NoBands(p: Bitpos, s: ScanInfo)
    requires forall d :: 0 <= d < |p| ==> |p[d]| == DCTSIZE2
    ensures SetBands(p, s.comps[..0], s.ss, s.se, s.al) == p
  {
  }

  lemma NotYet(p: Bitpos, s: ScanInfo, ci: nat)
    requires ci < |s.comps| && LegalComps(|p|, s.comps) && forall d :: 0 <= d < |p| ==> |p[d]| == DCTSIZE2
    ensures SetBands(p, s.comps[..ci], s.ss, s.se, s.al)[s.comps[ci]] == p[s.comps[ci]]
  {
    var c := s.comps[ci];
    forall i | 0 <= i < ci
      ensures s.comps[i] != c
    {
      Increasing(s.comps, i, ci);
    }
    SetBandsAt(p, s.comps[..ci], s.ss, s.se, s.al);
    assert c !in s.comps[..ci];
  }

  lemma {:induction false} LegalSnoc(ncomps: nat, p: Bitpos, scans: seq<ScanInfo>, s: ScanInfo)
    requires LegalBitpos(ncomps, p)
    ensures LegalFrom(ncomps, p, scans + [s]) ==
      (LegalFrom(ncomps, p, scans) && LegalScanInfo(ncomps, Final(ncomps, p, scans), s))
    ensures LegalFrom(ncomps, p, scans + [s]) ==>
      Final(ncomps, p, scans + [s]) == AfterScan(ncomps, Final(ncomps, p, scans), s)
    decreases |scans|
  {
    hide AfterScan, LegalScanInfo;
    var all := scans + [s];
    if scans == [] {
      assert all[1..] == [];
    } else {
      assert all[1..] == scans[1..] + [s];
      if LegalScanInfo(ncomps, p, scans[0]) {
        LegalSnoc(ncomps, AfterScan(ncomps, p, scans[0]), scans[1..], s);
      }
    }
  }

  lemma {:induction false} LegalPrefix(ncomps: nat, p: Bitpos, scans: seq<ScanInfo>, i: nat)
    requires LegalBitpos(ncomps, p) && i <= |scans| && LegalFrom(ncomps, p, scans)
    ensures LegalFrom(ncomps, p, scans[..i])
    decreases i
  {
    hide AfterScan, LegalScanInfo;
    if i > 0 {
      LegalPrefix(ncomps, AfterScan(ncomps, p, scans[0]), scans[1..], i - 1);
      assert scans[..i][1..] == scans[1..][..i - 1];
    }
  }

  method ValidateProgressive(ncomps: nat, scans: seq<ScanInfo>) returns (ok: bool)
    requires scans != []
    ensures ok <==> ValidProgressive(ncomps, scans)
  {
    hide AfterScan, LegalScanInfo, LegalFrom, Final, LegalBitpos;
    var start := Unsent(ncomps);
    var last_bitpos := start;
    NoScans(ncomps, start);
    var scanno := 0;
    while scanno < |scans|
      invariant 0 <= scanno <= |scans| && LegalBitpos(ncomps, last_bitpos) && LegalFrom(ncomps, start, scans[..scanno])
      invariant last_bitpos == Final(ncomps, start, scans[..scanno])
    {
      LegalSnoc(ncomps, start, scans[..scanno], scans[scanno]);
      assert scans[..scanno + 1] == scans[..scanno] + [scans[scanno]];
      ok, last_bitpos := ValidateProgressiveScan(ncomps, last_bitpos, scans[scanno]);
      if !ok {
        if LegalFrom(ncomps, start, scans) { LegalPrefix(ncomps, start, scans, scanno + 1); }
        return;
      }
      scanno := scanno + 1;
    }
    assert scans[..scanno] == scans;
    BitposSize(ncomps, last_bitpos);
    // we only check that at least some DC data got sent for each component
    for ci := 0 to ncomps
      invariant forall c :: 0 <= c < ci ==> last_bitpos[c][0] >= 0
    {
      if last_bitpos[ci][0] < 0 {
        return false;
      }
    }
    ok := true;
  }

  lemma BitposSize(ncomps: nat, p: Bitpos)
    requires LegalBitpos(ncomps, p)
    ensures |p| == ncomps && forall c :: 0 <= c < ncomps ==> |p[c]| == DCTSIZE2
  {
  }

  lemma NoScans(ncomps: nat, p: Bitpos)
    requires LegalBitpos(ncomps, p)
    ensures LegalFrom(ncomps, p, []) && Final(ncomps, p, []) == p
  {
  }

  lemma SentSnoc(scans: seq<ScanInfo>, s: ScanInfo)
    ensures Sent(scans + [s]) == Sent(scans) + Members(s.comps)
    ensures SentOnce(scans + [s]) == (SentOnce(scans) && Sent(scans) !! Members(s.comps))
  {
    assert (scans + [s])[..|scans|] == scans;
  }

  lemma {:induction false} SentPrefix(scans: seq<ScanInfo>, i: nat)
    requires i <= |scans| && SentOnce(scans)
    ensures SentOnce(scans[..i])
    decreases |scans|
  {
    if i < |scans| {
      SentPrefix(scans[..|scans| - 1], i);
      assert scans[..|scans| - 1][..i] == scans[..i];
    } else {
      assert scans[..i] == scans;
    }
  }

  lemma NextSent(scans: seq<ScanInfo>, i: nat)
    requires i < |scans|
    ensures Sent(scans[..i + 1]) == Sent(scans[..i]) + Members(scans[i].comps)
    ensures SentOnce(scans[..i + 1]) == (SentOnce(scans[..i]) && Sent(scans[..i]) !! Members(scans[i].comps))
    ensures SentOnce(scans) ==> SentOnce(scans[..i + 1])
  {
    hide SentOnce, Sent, Members;
    assert scans[..i + 1] == scans[..i] + [scans[i]];
    SentSnoc(scans[..i], scans[i]);
    if SentOnce(scans) { SentPrefix(scans, i + 1); }
  }

  lemma NothingSentYet(scans: seq<ScanInfo>)
    ensures SentOnce(scans[..0]) && Sent(scans[..0]) == {}
  {
  }

  method ValidateSequential(ncomps: nat, scans: seq<ScanInfo>) returns (ok: bool)
    requires scans != []
    ensures ok <==> ValidSequential(ncomps, scans)
  {
    hide SentOnce, Sent, Members, LegalComps;
    NothingSentYet(scans);
    var component_sent := seq(ncomps, _ => false);
    var scanno := 0;
    while scanno < |scans|
      invariant 0 <= scanno <= |scans| && |component_sent| == ncomps
      invariant (forall i :: 0 <= i < scanno ==> SequentialScan(ncomps, scans[i])) && SentOnce(scans[..scanno])
      invariant forall c :: 0 <= c < ncomps ==> (component_sent[c] <==> c in Sent(scans[..scanno]))
    {
      var s := scans[scanno];
      NextSent(scans, scanno);
      ok := ValidateComps(ncomps, s.comps);
      if !ok {
        return;
      }
      if s.ss != 0 || s.se != DCTSIZE2 - 1 || s.ah != 0 || s.al != 0 {
        return false;
      }
      ok, component_sent := MarkSent(component_sent, s.comps, Sent(scans[..scanno]));
      if !ok {
        return;
      }
      scanno := scanno + 1;
    }
    assert scans[..scanno] == scans;
    for ci := 0 to ncomps
      invariant forall c :: 0 <= c < ci ==> c in Sent(scans)
    {
      if !component_sent[ci] {
        return false;
      }
    }
    ok := true;
  }

  // Make sure components are not sent twice.
  method MarkSent(sent: seq<bool>, comps: seq<int>, ghost before: set<int>) returns (ok: bool, r: seq<bool>)
    requires LegalComps(|sent|, comps) && forall c :: 0 <= c < |sent| ==> (sent[c] <==> c in before)
    ensures ok <==> before !! Members(comps)
    ensures ok ==> |r| == |sent| && forall c :: 0 <= c < |sent| ==> (r[c] <==> c in before + Members(comps))
  {
    r := sent;
    var ci := 0;
    while ci < |comps|
      invariant 0 <= ci <= |comps| && |r| == |sent|
      invariant forall c :: 0 <= c < |sent| ==> (r[c] <==> c in before || c in comps[..ci])
      invariant forall i :: 0 <= i < ci ==> comps[i] !in before
    {
      var thisi := comps[ci];
      forall i | 0 <= i < ci
        ensures comps[i] != thisi
      {
        Increasing(comps, i, ci);
      }
      if r[thisi] {
        assert thisi in before && thisi in Members(comps);
        return false, r;
      }
      assert comps[..ci + 1] == comps[..ci] + [thisi];
      r := r[thisi := true];
      ci := ci + 1;
    }
    assert comps[..ci] == comps;
    ok := true;
  }

  /** validate_script: accepts exactly the valid scripts, and tells whether they are progressive. */
  method ValidateScript(ncomps: nat, scans: seq<ScanInfo>) returns (ok: bool, progressive_mode: bool)
    ensures ok <==> scans != [] && if Progressive(scans) then ValidProgressive(ncomps, scans) else ValidSequential(ncomps, scans)
    ensures ok ==> progressive_mode == Progressive(scans)
  {
    progressive_mode := false;
    if |scans| <= 0 {
      return false, false;
    }
    progressive_mode := scans[0].ss != 0 || scans[0].se != DCTSIZE2 - 1;
    if progressive_mode {
      ok := ValidateProgressive(ncomps, scans);
    } else {
      ok := ValidateSequential(ncomps, scans);
    }
  }
}
