/** First DC scans with optimized tables. */
module ProgDcTwoPass {
  import opened Bytes
  import opened BitStrings
  import opened Restarts
  import opened Sums
  import opened HuffOptimal
  import opened HuffBuild
  import opened HuffTable
  import opened HuffDecode
  import opened HuffBlock
  import opened HuffGen
  import opened HuffTranscode
  import H = HuffTwoPass
  import opened ProgDc
  import opened ProgDcScan
  import opened ZigZag

  /** A symbol for a component of the scan. */
  datatype Use = Use(ci: nat, symbol: nat)

  /** The symbols of a restart interval, in order. */
  function DcUsed(cis: seq<nat>, vs: seq<int>, last: seq<int>): (us: seq<Use>)
    requires |cis| == |vs| && Components(cis, |last|)
    ensures |us| == |vs|
    decreases |vs|
  {
    if vs == [] then []
    else [Use(cis[0], NBits(Magnitude(vs[0] - last[cis[0]])))] + DcUsed(cis[1..], vs[1..], last[cis[0] := vs[0]])
  }

  /** How often a symbol occurs in components with table k. */
  function Occurs(us: seq<Use>, tblno: seq<nat>, k: nat, s: nat): nat {
    if us == [] then 0
    else
      var u := us[|us| - 1];
      Occurs(us[..|us| - 1], tblno, k, s) + (if u.ci < |tblno| && tblno[u.ci] == k && u.symbol == s then 1 else 0)
  }

  lemma OccursSnoc(us: seq<Use>, u: Use, tblno: seq<nat>, k: nat, s: nat)
    ensures Occurs(us + [u], tblno, k, s) ==
      Occurs(us, tblno, k, s) + (if u.ci < |tblno| && tblno[u.ci] == k && u.symbol == s then 1 else 0)
  {
    assert (us + [u])[..|us|] == us;
  }

  ghost predicate Tallied(counts: seq<array<nat>>, tblno: seq<nat>, us: seq<Use>)
    reads counts
  {
    && (forall k :: 0 <= k < |counts| ==> counts[k].Length == 257)
    && (forall i, j :: 0 <= i < j < |counts| ==> counts[i] != counts[j])
    && forall k, s :: 0 <= k < |counts| && 0 <= s < 257 ==> counts[k][s] == Occurs(us, tblno, k, s)
  }

  predicate LegalNumbers(tblno: seq<nat>, n: nat) {
    forall ci :: 0 <= ci < |tblno| ==> tblno[ci] < n
  }

  method Count(counts: seq<array<nat>>, tblno: seq<nat>, ci: nat, nbits: nat, ghost us: seq<Use>)
    requires LegalNumbers(tblno, |counts|) && ci < |tblno| && nbits < 257 && Tallied(counts, tblno, us)
    modifies counts
    ensures Tallied(counts, tblno, us + [Use(ci, nbits)])
  {
    hide Occurs;
    var tbl := tblno[ci];
    counts[tbl][nbits] := counts[tbl][nbits] + 1;
    forall k, s | 0 <= k < |counts| && 0 <= s < 257
      ensures counts[k][s] == Occurs(us + [Use(ci, nbits)], tblno, k, s)
    {
      OccursSnoc(us, Use(ci, nbits), tblno, k, s);
    }
  }

  /** encode_mcu_DC_first in the statistics pass, for the blocks of a restart interval. */
  method GatherSection(counts: seq<array<nat>>, tblno: seq<nat>, al: nat, cis: seq<nat>, bs: seq<Block>, ghost us: seq<Use>)
    returns (ok: bool)
    requires LegalNumbers(tblno, |counts|) && Components(cis, |tblno|) && |cis| == |bs| && Tallied(counts, tblno, us)
    modifies counts
    ensures ok <==> DcFits(cis, PointDc(bs, al), Zeros(|tblno|))
    ensures ok ==> Tallied(counts, tblno, us + DcUsed(cis, PointDc(bs, al), Zeros(|tblno|)))
  {
    hide DcFits, DcUsed, Tallied, ShrFloor, Occurs, Magnitude, NBits, LegalNumbers;
    ghost var vs, start, log := PointDc(bs, al), Zeros(|tblno|), us;
    var last_dc_val: seq<int> := Zeros(|tblno|);
    assert cis[0..] == cis && vs[0..] == vs;
    var blkn := 0;
    while blkn < |bs|
      invariant 0 <= blkn <= |bs| && |last_dc_val| == |tblno| && Tallied(counts, tblno, log)
      invariant DcFits(cis[blkn..], vs[blkn..], last_dc_val) == DcFits(cis, vs, start)
      invariant log + DcUsed(cis[blkn..], vs[blkn..], last_dc_val) == us + DcUsed(cis, vs, start)
    {
      var ci := cis[blkn];
      var temp2 := ShrFloor(bs[blkn][0], al);
      var nbits := NBits(Magnitude(temp2 - last_dc_val[ci]));
      UsedFirst(cis[blkn..], vs[blkn..], last_dc_val);
      assert cis[blkn..][1..] == cis[blkn + 1..] && vs[blkn..][1..] == vs[blkn + 1..];
      if nbits > MAX_COEF_BITS + 1 {
        return false;
      }
      Count(counts, tblno, ci, nbits, log);
      Reassociate(log, [Use(ci, nbits)], DcUsed(cis[blkn + 1..], vs[blkn + 1..], last_dc_val[ci := temp2]));
      log := log + [Use(ci, nbits)];
      last_dc_val := last_dc_val[ci := temp2];
      blkn := blkn + 1;
    }
    assert cis[blkn..] == [] && vs[blkn..] == [];
    NoneUsed(last_dc_val);
    assert log + [] == log;
    ok := true;
  }

  lemma UsedFirst(cis: seq<nat>, vs: seq<int>, last: seq<int>)
    requires |cis| == |vs| > 0 && Components(cis, |last|)
    ensures var ci := cis[0];
      var n, next := NBits(Magnitude(vs[0] - last[ci])), last[ci := vs[0]];
      && Components(cis[1..], |next|) && (n <= MAX_COEF_BITS + 1 ==> n < 257)
      && DcFits(cis, vs, last) == (n <= MAX_COEF_BITS + 1 && DcFits(cis[1..], vs[1..], next))
      && DcUsed(cis, vs, last) == [Use(ci, n)] + DcUsed(cis[1..], vs[1..], next)
  {
    hide Magnitude, NBits;
  }

  lemma NoneUsed(last: seq<int>)
    ensures DcFits([], [], last) && DcUsed([], [], last) == []
  {
  }

  // ----- All restart intervals

  predicate DcShapes(m: nat, cs: seq<seq<nat>>, parts: seq<seq<Block>>) {
    |cs| == |parts| && forall i :: 0 <= i < |parts| ==> Components(cs[i], m) && |cs[i]| == |parts[i]|
  }

  lemma {:induction false} SplitShapes(m: nat, interval: nat, cis: seq<nat>, bs: seq<Block>)
    requires Components(cis, m) && |cis| == |bs|
    ensures DcShapes(m, Split(cis, interval), Split(bs, interval))
    decreases |bs|
  {
    if Goes(bs, interval) {
      SplitShapes(m, interval, cis[interval..], bs[interval..]);
      var cs, parts := Split(cis, interval), Split(bs, interval);
      assert cs[1..] == Split(cis[interval..], interval) && parts[1..] == Split(bs[interval..], interval);
      forall i | 0 <= i < |parts|
        ensures Components(cs[i], m) && |cs[i]| == |parts[i]|
      {
        if i > 0 { assert cs[i] == cs[1..][i - 1] && parts[i] == parts[1..][i - 1]; }
      }
    }
  }

  /** All differences are in range. */
  predicate DcFitAll(al: nat, m: nat, cs: seq<seq<nat>>, parts: seq<seq<Block>>)
    requires DcShapes(m, cs, parts)
  {
    forall i :: 0 <= i < |parts| ==> DcFits(cs[i], PointDc(parts[i], al), Zeros(m))
  }

  function DcAllUsed(al: nat, m: nat, cs: seq<seq<nat>>, parts: seq<seq<Block>>): seq<Use>
    requires DcShapes(m, cs, parts)
  {
    if parts == [] then []
    else
      var n := |parts| - 1;
      DcAllUsed(al, m, cs[..n], parts[..n]) + DcUsed(cs[n], PointDc(parts[n], al), Zeros(m))
  }

  lemma DcAllUsedSnoc(al: nat, m: nat, cs: seq<seq<nat>>, parts: seq<seq<Block>>, c: seq<nat>, p: seq<Block>)
    requires DcShapes(m, cs, parts) && Components(c, m) && |c| == |p|
    ensures DcShapes(m, cs + [c], parts + [p])
    ensures DcAllUsed(al, m, cs + [c], parts + [p]) == DcAllUsed(al, m, cs, parts) + DcUsed(c, PointDc(p, al), Zeros(m))
    ensures DcFitAll(al, m, cs + [c], parts + [p]) <==> DcFitAll(al, m, cs, parts) && DcFits(c, PointDc(p, al), Zeros(m))
  {
    hide DcUsed, DcFits, PointDc;
    var n := |parts|;
    assert (cs + [c])[..n] == cs && (parts + [p])[..n] == parts;
    assert (cs + [c])[n] == c && (parts + [p])[n] == p;
    if DcFitAll(al, m, cs + [c], parts + [p]) {
      forall i | 0 <= i < n
        ensures DcFits(cs[i], PointDc(parts[i], al), Zeros(m))
      {
        assert cs[i] == (cs + [c])[i] && parts[i] == (parts + [p])[i];
      }
    }
  }

  method NewCounts(n: nat) returns (counts: seq<array<nat>>)
    ensures |counts| == n && fresh(counts) && forall k :: 0 <= k < n ==> counts[k].Length == 257
    ensures forall i, j :: 0 <= i < j < n ==> counts[i] != counts[j]
    ensures forall k, s :: 0 <= k < n && 0 <= s < 257 ==> counts[k][s] == 0
  {
    counts := [];
    for k := 0 to n
      invariant |counts| == k && fresh(counts) && forall i :: 0 <= i < k ==> counts[i].Length == 257
      invariant forall i, j :: 0 <= i < j < k ==> counts[i] != counts[j]
      invariant forall i, s :: 0 <= i < k && 0 <= s < 257 ==> counts[i][s] == 0
    {
      var c := new nat[257](_ => 0);
      counts := counts + [c];
    }
  }

  /** The statistics pass of a first DC scan counts exactly the symbols of the output pass. */
  method GatherDcScan(al: nat, interval: nat, tblno: seq<nat>, n: nat, cis: seq<nat>, bs: seq<Block>)
    returns (ok: bool, counts: seq<array<nat>>)
    requires LegalNumbers(tblno, n) && Components(cis, |tblno|) && |cis| == |bs|
    ensures |counts| == n && fresh(counts) && DcShapes(|tblno|, Split(cis, interval), Split(bs, interval))
    ensures ok <==> DcFitAll(al, |tblno|, Split(cis, interval), Split(bs, interval))
    ensures ok ==> Tallied(counts, tblno, DcAllUsed(al, |tblno|, Split(cis, interval), Split(bs, interval)))
  {
    hide LegalNumbers, Split, Upto, DcAllUsed, DcFitAll, DcFits, DcUsed, Tallied, PointDc, Components, DcShapes;
    ghost var cs, parts := [], [];
    ghost var us: seq<Use>;
    SplitShapes(|tblno|, interval, cis, bs);
    UptoStart(cis, interval);
    UptoStart(bs, interval);
    counts := NewCounts(n);
    us := NothingYet(al, counts, tblno);
    var i := 0;
    while true
      invariant 0 <= i <= |bs| && Upto(cis, interval, cs, i) && Upto(bs, interval, parts, i) && |counts| == n && fresh(counts)
      invariant DcShapes(|tblno|, cs, parts) && DcFitAll(al, |tblno|, cs, parts) && us == DcAllUsed(al, |tblno|, cs, parts)
      invariant Tallied(counts, tblno, us) && |cs| == |parts|
      decreases |bs| - i
    {
      UptoNext(cis, interval, cs, i);
      UptoNext(bs, interval, parts, i);
      var more := 0 < interval < |bs| - i;
      var m := if more then interval else |bs| - i;
      assert more ==> cis[i..i + m] == cis[i..i + interval] && bs[i..i + m] == bs[i..i + interval];
      assert !more ==> cis[i..i + m] == cis[i..] && bs[i..i + m] == bs[i..];
      ghost var c, p := cis[i..i + m], bs[i..i + m];
      PartComponents(cis, |tblno|, i, m);
      DcAllUsedSnoc(al, |tblno|, cs, parts, c, p);
      ok := GatherSection(counts, tblno, al, cis[i..i + m], bs[i..i + m], us);
      if !ok {
        SectionIn(cis, interval, cs, i, m);
        SectionIn(bs, interval, parts, i, m);
        DoesNotFit(al, |tblno|, Split(cis, interval), Split(bs, interval), |parts|);
        return;
      }
      us := us + DcUsed(c, PointDc(p, al), Zeros(|tblno|));
      cs, parts := cs + [c], parts + [p];
      if !more {
        return;
      }
      i := i + m;
    }
  }

  lemma PartComponents(cis: seq<nat>, m: nat, i: nat, n: nat)
    requires Components(cis, m) && i + n <= |cis|
    ensures Components(cis[i..i + n], m)
  {
  }

  lemma DoesNotFit(al: nat, m: nat, cs: seq<seq<nat>>, parts: seq<seq<Block>>, i: nat)
    requires DcShapes(m, cs, parts) && i < |parts| && !DcFits(cs[i], PointDc(parts[i], al), Zeros(m))
    ensures !DcFitAll(al, m, cs, parts)
  {
    hide DcFits, PointDc;
  }

  lemma NothingYet(al: nat, counts: seq<array<nat>>, tblno: seq<nat>) returns (us: seq<Use>)
    requires (forall k :: 0 <= k < |counts| ==> counts[k].Length == 257) && forall i, j :: 0 <= i < j < |counts| ==> counts[i] != counts[j]
    requires forall k, s :: 0 <= k < |counts| && 0 <= s < 257 ==> counts[k][s] == 0
    ensures us == DcAllUsed(al, |tblno|, [], []) && Tallied(counts, tblno, us) && DcShapes(|tblno|, [], []) && DcFitAll(al, |tblno|, [], [])
  {
    us := [];
  }

  // ----- The tables

  function CountsFor(us: seq<Use>, tblno: seq<nat>, k: nat): (w: seq<nat>)
    ensures |w| == N
  {
    seq(N, s requires s >= 0 => Occurs(us, tblno, k, s))
  }

  /** The symbols are sizes of differences in range. */
  predicate SmallUses(us: seq<Use>) {
    forall i :: 0 <= i < |us| ==> us[i].symbol <= MAX_COEF_BITS + 1
  }

  lemma {:induction false} UsedSmall(cis: seq<nat>, vs: seq<int>, last: seq<int>)
    requires |cis| == |vs| && Components(cis, |last|) && DcFits(cis, vs, last)
    ensures SmallUses(DcUsed(cis, vs, last))
    decreases |vs|
  {
    hide Magnitude, NBits;
    if vs != [] { UsedSmall(cis[1..], vs[1..], last[cis[0] := vs[0]]); }
  }

  lemma {:induction false} AllUsedSmall(al: nat, m: nat, cs: seq<seq<nat>>, parts: seq<seq<Block>>)
    requires DcShapes(m, cs, parts) && DcFitAll(al, m, cs, parts)
    ensures SmallUses(DcAllUsed(al, m, cs, parts)) && |DcAllUsed(al, m, cs, parts)| == |Flat(parts)|
    decreases |parts|
  {
    hide DcUsed, PointDc, DcFits;
    if parts != [] {
      hide Flat;
      var n := |parts| - 1;
      AllUsedSmall(al, m, cs[..n], parts[..n]);
      UsedSmall(cs[n], PointDc(parts[n], al), Zeros(m));
      FlatSnoc(parts[..n], parts[n]);
      assert parts[..n] + [parts[n]] == parts;
    }
  }

  lemma {:induction false} UsedInAll(al: nat, m: nat, cs: seq<seq<nat>>, parts: seq<seq<Block>>, i: nat, u: Use)
    requires DcShapes(m, cs, parts) && i < |parts| && u in DcUsed(cs[i], PointDc(parts[i], al), Zeros(m))
    ensures u in DcAllUsed(al, m, cs, parts)
    decreases |parts|
  {
    hide DcUsed, PointDc, DcFits;
    if i < |parts| - 1 { UsedInAll(al, m, cs[..|cs| - 1], parts[..|parts| - 1], i, u); }
  }

  lemma {:induction false} OccursTotal(us: seq<Use>, tblno: seq<nat>, k: nat)
    requires SmallUses(us)
    ensures Sum(CountsFor(us, tblno, k)) <= |us|
  {
    hide Sum;
    if us == [] {
      SumZero(CountsFor(us, tblno, k));
    } else {
      var n := |us| - 1;
      OccursTotal(us[..n], tblno, k);
      var w, u := CountsFor(us[..n], tblno, k), us[n];
      SumUpdate(w, u.symbol, w[u.symbol] + 1);
      if u.ci < |tblno| && tblno[u.ci] == k {
        assert CountsFor(us, tblno, k) == w[u.symbol := w[u.symbol] + 1];
      } else {
        assert CountsFor(us, tblno, k) == w;
      }
    }
  }

  lemma {:induction false} LargeUnused(us: seq<Use>, tblno: seq<nat>, k: nat, s: nat)
    requires SmallUses(us) && s > MAX_COEF_BITS + 1
    ensures Occurs(us, tblno, k, s) == 0
  {
    if us != [] { LargeUnused(us[..|us| - 1], tblno, k, s); }
  }

  lemma {:induction false} UseOccurs(us: seq<Use>, tblno: seq<nat>, u: Use)
    requires u in us && u.ci < |tblno|
    ensures Occurs(us, tblno, tblno[u.ci], u.symbol) > 0
  {
    var n := |us| - 1;
    if us[n] != u { UseOccurs(us[..n], tblno, u); }
  }

  /** The counts for a table in use fit the generator. */
  lemma CountsUsable(us: seq<Use>, tblno: seq<nat>, u: Use)
    requires SmallUses(us) && u in us && u.ci < |tblno|
    ensures var w := CountsFor(us, tblno, tblno[u.ci]);
      && 1 <= RealSymbols(w) <= 254 && Sum(WithPseudo(w)) <= |us| + 1
      && forall s :: 16 <= s < 256 ==> w[s] == 0
  {
    hide Used, Sum, Occurs;
    var k := tblno[u.ci];
    var w := CountsFor(us, tblno, k);
    forall s | 16 <= s < 256
      ensures w[s] == 0
    {
      LargeUnused(us, tblno, k, s);
    }
    H.AtMost254(w);
    UseOccurs(us, tblno, u);
    H.AtLeastOne(w[..256], u.symbol);
    OccursTotal(us, tblno, k);
    H.PseudoTotal(w);
  }

  /** Each table is made from its counts once, and no counts are used twice. */
  ghost predicate Made(t: seq<Table>, did: seq<bool>, counts: seq<array<nat>>, tblno: seq<nat>, us: seq<Use>)
    reads counts
  {
    && |t| == |did| == |counts|
    && (forall k :: 0 <= k < |counts| ==> counts[k].Length == 257)
    && (forall i, j :: 0 <= i < j < |counts| ==> counts[i] != counts[j])
    && forall k :: 0 <= k < |t| ==>
         if did[k] then H.Optimized(t[k], CountsFor(us, tblno, k), true) else counts[k][..] == CountsFor(us, tblno, k)
  }

  /** The component has a symbol. */
  ghost predicate Occurring(us: seq<Use>, ci: nat) {
    exists u :: u in us && u.ci == ci
  }

  // finish_pass_gather_phuff for a first DC scan
  method FinishDcScan(counts: seq<array<nat>>, tblno: seq<nat>, ghost us: seq<Use>) returns (ok: bool, t: seq<Table>)
    requires LegalNumbers(tblno, |counts|) && Tallied(counts, tblno, us) && SmallUses(us) && |us| < MAX_COUNT
    requires forall ci :: 0 <= ci < |tblno| ==> Occurring(us, ci)
    modifies counts
    ensures |us| + 1 < 9227465 ==> ok
    ensures ok ==> |t| == |tblno| && forall ci :: 0 <= ci < |t| ==> H.Optimized(t[ci], CountsFor(us, tblno, tblno[ci]), true)
  {
    hide Occurs, H.Optimized, SmallUses, Sum, RealSymbols, CountsFor;
    var tables, did: seq<bool> := seq(|counts|, _ => Table([], [])), seq(|counts|, _ => false);
    StartMade(tables, did, counts, tblno, us);
    t := [];
    for ci := 0 to |tblno|
      invariant Made(tables, did, counts, tblno, us) && |t| == ci
      invariant forall c :: 0 <= c < ci ==> H.Optimized(t[c], CountsFor(us, tblno, tblno[c]), true)
    {
      var tbl := tblno[ci];
      if !did[tbl] {
        assert Occurring(us, ci);
        ghost var u :| u in us && u.ci == ci;
        CountsUsable(us, tblno, u);
        var table;
        ok, table := MakeOne(counts, tbl, us, tblno);
        if !ok {
          return;
        }
        tables, did := tables[tbl := table], did[tbl := true];
      }
      t := t + [tables[tbl]];
    }
    ok := true;
  }

  lemma StartMade(t: seq<Table>, did: seq<bool>, counts: seq<array<nat>>, tblno: seq<nat>, us: seq<Use>)
    requires Tallied(counts, tblno, us) && |t| == |did| == |counts| && forall k :: 0 <= k < |did| ==> !did[k]
    ensures Made(t, did, counts, tblno, us)
  {
    hide Occurs;
    forall k | 0 <= k < |t|
      ensures counts[k][..] == CountsFor(us, tblno, k)
    {
    }
  }

  method MakeOne(counts: seq<array<nat>>, k: nat, ghost us: seq<Use>, ghost tblno: seq<nat>) returns (ok: bool, table: Table)
    requires k < |counts| && counts[k].Length == 257 && counts[k][..] == CountsFor(us, tblno, k) && |us| < MAX_COUNT
    requires var w := CountsFor(us, tblno, k);
      1 <= RealSymbols(w) <= 254 && Sum(WithPseudo(w)) <= |us| + 1 && forall s :: 16 <= s < 256 ==> w[s] == 0
    modifies counts[k]
    ensures |us| + 1 < 9227465 ==> ok
    ensures ok ==> H.Optimized(table, CountsFor(us, tblno, k), true)
  {
    hide Occurs, H.Optimized, Sum, RealSymbols, CountsFor;
    ghost var w := counts[k][..];
    assert forall s :: 16 <= s < 256 ==> counts[k][s] == w[s];
    ok, table := H.OptimizeTable(counts[k], true);
  }

  lemma {:induction false} UsedInSection(cis: seq<nat>, vs: seq<int>, last: seq<int>, i: nat)
    requires |cis| == |vs| && Components(cis, |last|) && i < |cis|
    ensures Occurring(DcUsed(cis, vs, last), cis[i])
    decreases |vs|
  {
    hide NBits, Magnitude;
    var us := DcUsed(cis, vs, last);
    if i == 0 {
      assert us[0] in us && us[0].ci == cis[0];
    } else {
      UsedInSection(cis[1..], vs[1..], last[cis[0] := vs[0]], i - 1);
      var more := DcUsed(cis[1..], vs[1..], last[cis[0] := vs[0]]);
      var u :| u in more && u.ci == cis[i];
      assert u in us;
    }
  }

  /** Every component that has a block in the scan has a symbol. */
  lemma ComponentUsed(al: nat, m: nat, cs: seq<seq<nat>>, parts: seq<seq<Block>>, cis: seq<nat>, ci: nat)
    requires DcShapes(m, cs, parts) && DcFitAll(al, m, cs, parts) && cis == Flat(cs) && ci in cis
    ensures Occurring(DcAllUsed(al, m, cs, parts), ci)
  {
    hide DcUsed, DcFits, PointDc, DcAllUsed;
    var k, i := FindIn(cs, ci);
    UsedInSection(cs[k], PointDc(parts[k], al), Zeros(m), i);
    var u :| u in DcUsed(cs[k], PointDc(parts[k], al), Zeros(m)) && u.ci == ci;
    UsedInAll(al, m, cs, parts, k, u);
  }

  lemma {:induction false} FindIn(cs: seq<seq<nat>>, ci: nat) returns (k: nat, i: nat)
    requires ci in Flat(cs)
    ensures k < |cs| && i < |cs[k]| && cs[k][i] == ci
  {
    if ci in cs[0] {
      k := 0;
      i :| 0 <= i < |cs[0]| && cs[0][i] == ci;
    } else {
      k, i := FindIn(cs[1..], ci);
      k := k + 1;
    }
  }

  /** Symbols with nonzero counts are listed. */
  lemma {:induction false} UsedListed(t: seq<Table>, cis: seq<nat>, vs: seq<int>, last: seq<int>)
    requires |cis| == |vs| && Components(cis, |last|) && DcFits(cis, vs, last) && |t| == |last|
    requires forall i :: 0 <= i < |t| ==> WellFormed(t[i])
    requires forall u :: u in DcUsed(cis, vs, last) ==> u.ci < |t| && Lists(t[u.ci], u.symbol)
    ensures DcListed(t, cis, vs, last)
    decreases |vs|
  {
    hide Magnitude, NBits, Lists, WellFormed;
    if vs != [] {
      var us, more := DcUsed(cis, vs, last), DcUsed(cis[1..], vs[1..], last[cis[0] := vs[0]]);
      assert us[0] in us;
      assert forall u :: u in more ==> u in us;
      UsedListed(t, cis[1..], vs[1..], last[cis[0] := vs[0]]);
      DiffIsSmall(vs[0] - last[cis[0]]);
      DcSymbol(vs[0] - last[cis[0]]);
    }
  }

  lemma DcSymbol(diff: int)
    requires Magnitude(diff) < 32768 && NBits(Magnitude(diff)) <= MAX_COEF_BITS + 1
    ensures DcItem(diff).symbol == NBits(Magnitude(diff))
  {
    hide NBits;
  }

  lemma MadeLists(al: nat, tblno: seq<nat>, cs: seq<seq<nat>>, parts: seq<seq<Block>>, t: seq<Table>)
    requires DcShapes(|tblno|, cs, parts) && DcFitAll(al, |tblno|, cs, parts) && |t| == |tblno|
    requires var us := DcAllUsed(al, |tblno|, cs, parts);
      forall ci :: 0 <= ci < |t| ==> H.Optimized(t[ci], CountsFor(us, tblno, tblno[ci]), true)
    ensures (forall ci :: 0 <= ci < |t| ==> WellFormed(t[ci]) && LegalDc(t[ci])) && DcListedAll(DcScan(true, al), t, cs, parts)
  {
    hide DcUsed, DcFits, DcListed, PointDc, DcAllUsed, Lists, LegalDc, WellFormed, Occurs;
    var m, us := |tblno|, DcAllUsed(al, |tblno|, cs, parts);
    forall i | 0 <= i < |parts|
      ensures DcListedIn(DcScan(true, al), t, cs[i], parts[i])
    {
      var vs := PointDc(parts[i], al);
      forall u | u in DcUsed(cs[i], vs, Zeros(m))
        ensures u.ci < |t| && Lists(t[u.ci], u.symbol)
      {
        UsedInAll(al, m, cs, parts, i, u);
        UsedComponent(cs[i], vs, Zeros(m), u);
        UseOccurs(us, tblno, u);
        assert CountsFor(us, tblno, tblno[u.ci])[u.symbol] > 0;
      }
      UsedListed(t, cs[i], vs, Zeros(m));
    }
  }

  lemma {:induction false} UsedComponent(cis: seq<nat>, vs: seq<int>, last: seq<int>, u: Use)
    requires |cis| == |vs| && Components(cis, |last|) && DcFits(cis, vs, last) && u in DcUsed(cis, vs, last)
    ensures u.ci < |last| && u.symbol < 256
    decreases |vs|
  {
    hide Magnitude, NBits;
    if u in DcUsed(cis[1..], vs[1..], last[cis[0] := vs[0]]) { UsedComponent(cis[1..], vs[1..], last[cis[0] := vs[0]], u); }
  }

  /** The tables for a first DC scan: it fails if a difference is out of range, and otherwise not unless the scan is
      so long that code lengths above 32 could come up. */
  method OptimizeDcScan(al: nat, interval: nat, tblno: seq<nat>, n: nat, cis: seq<nat>, bs: seq<Block>)
    returns (ok: bool, t: seq<Table>)
    requires LegalNumbers(tblno, n) && Components(cis, |tblno|) && |cis| == |bs| < MAX_COUNT
    requires forall ci :: 0 <= ci < |tblno| ==> ci in cis
    ensures DcShapes(|tblno|, Split(cis, interval), Split(bs, interval))
    ensures ok ==> DcFitAll(al, |tblno|, Split(cis, interval), Split(bs, interval))
    ensures DcFitAll(al, |tblno|, Split(cis, interval), Split(bs, interval)) && |bs| + 1 < 9227465 ==> ok
    ensures ok ==> |t| == |tblno| && (forall ci :: 0 <= ci < |t| ==> WellFormed(t[ci]) && LegalDc(t[ci]))
                   && DcListedAll(DcScan(true, al), t, Split(cis, interval), Split(bs, interval))
  {
    hide DcFitAll, DcShapes, DcListedAll, LegalDc, WellFormed, Split, DcAllUsed, Tallied, H.Optimized, CountsFor, SmallUses, Occurring, Flat;
    t := [];
    var counts;
    ok, counts := GatherDcScan(al, interval, tblno, n, cis, bs);
    if !ok {
      return;
    }
    ghost var cs, parts := Split(cis, interval), Split(bs, interval);
    FlatSplit(cis, interval);
    FlatSplit(bs, interval);
    AllUsedSmall(al, |tblno|, cs, parts);
    forall ci | 0 <= ci < |tblno|
      ensures Occurring(DcAllUsed(al, |tblno|, cs, parts), ci)
    {
      ComponentUsed(al, |tblno|, cs, parts, cis, ci);
    }
    ok, t := FinishDcScan(counts, tblno, DcAllUsed(al, |tblno|, cs, parts));
    if ok { MadeLists(al, tblno, cs, parts, t); }
  }
}
