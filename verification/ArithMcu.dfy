/** The statistical model of sections F.1.4 of ITU-T T.81: which binary decisions code a block of
    coefficients, and how the DC conditioning context evolves. */
module ArithMcu {
  import opened Bytes
  import opened ArithTable
  import opened ArithCode
  import opened ZigZag

  const DC_STAT_BINS := 64
  const AC_STAT_BINS := 256

  datatype Component = Component(dcTbl: nat, acTbl: nat)

  /** The scan parameters the coder reads: the zigzag order, conditioning tables per component, the component each block
      of an MCU belongs to, and the conditioning bounds of each table. */
  datatype Scan = Scan(order: seq<int>, comps: seq<Component>, membership: seq<nat>,
                       dcL: seq<nat>, dcU: seq<nat>, acK: seq<nat>)

  predicate ValidScan(scan: Scan) {
    && IsOrder(scan.order)
    && (forall i :: 0 <= i < |scan.membership| ==> scan.membership[i] < |scan.comps|)
    && |scan.dcL| == |scan.dcU| == |scan.acK| == 16
    && forall i :: 0 <= i < |scan.comps| ==> scan.comps[i].dcTbl < 16 && scan.comps[i].acTbl < 16
  }

  /** Every statistics area the scan uses is present, and no bin lies outside its area. */
  predicate Allocated(scan: Scan, bins: set<Bin>) {
    && Fixed in bins
    && forall c :: 0 <= c < |scan.comps| ==>
         HasArea(bins, DcStats(scan.comps[c].dcTbl), DC_STAT_BINS) && HasArea(bins, AcStats(scan.comps[c].acTbl), AC_STAT_BINS)
  }

  predicate HasArea(bins: set<Bin>, area: Area, n: int) {
    forall i :: 0 <= i < n ==> Stat(area, i) in bins
  }

  // ----- Magnitudes

  /** The position of the highest set bit. */
  function Log2(u: nat): (n: nat)
    requires u > 0
    ensures Shl(1, n) <= u < Shl(1, n + 1)
  {
    if u == 1 then 0 else Log2(u / 2) + 1
  }

  lemma {:induction false} Log2Bound(u: nat, n: nat)
    requires 0 < u < Shl(1, n)
    ensures Log2(u) < n
  {
    if u > 1 { Log2Bound(u / 2, n - 1); }
  }

  lemma {:induction false} CategoryLimit(e: nat)
    requires e <= 15
    ensures Pow2(e) <= 0x8000 && (Pow2(e) == 0x8000 <==> e == 15)
  {
    hide Shl;
    Pow2Below(e, 15);
    assert Pow2(3) == 2 * Pow2(2) == 4 * Pow2(1) == 8;
    assert Pow2(7) == 2 * Pow2(6) == 4 * Pow2(5) == 8 * Pow2(4) == 16 * Pow2(3) == 128;
    assert Pow2(11) == 2 * Pow2(10) == 4 * Pow2(9) == 8 * Pow2(8) == 16 * Pow2(7) == 2048;
    assert Pow2(15) == 2 * Pow2(14) == 4 * Pow2(13) == 8 * Pow2(12) == 16 * Pow2(11);
  }

  lemma SmallLog(v: nat)
    requires v < 32768
    ensures v > 0 ==> Log2(v) <= 14
  {
    if v > 0 {
      CategoryLimit(15);
      Log2Bound(v, 15);
    }
  }

  /** n ones in consecutive bins, then a zero. */
  function Unary(area: Area, i: int, n: nat): seq<Decision>
    decreases n
  {
    if n == 0 then [Decision(Stat(area, i), false)]
    else [Decision(Stat(area, i), true)] + Unary(area, i + 1, n - 1)
  }

  function Ones(area: Area, i: int, n: nat): seq<Decision>
    decreases n
  {
    if n == 0 then [] else [Decision(Stat(area, i), true)] + Ones(area, i + 1, n - 1)
  }

  lemma {:induction false} OnesSnoc(area: Area, i: int, n: nat)
    ensures Ones(area, i, n + 1) == Ones(area, i, n) + [Decision(Stat(area, i + n), true)]
    decreases n
  {
    if n != 0 { OnesSnoc(area, i + 1, n - 1); }
  }

  lemma {:induction false} OnesUnary(area: Area, i: int, n: nat)
    ensures Unary(area, i, n) == Ones(area, i, n) + [Decision(Stat(area, i + n), false)]
    decreases n
  {
    if n != 0 { OnesUnary(area, i + 1, n - 1); }
  }

  /** The low n bits of u, highest first, all in one bin. */
  function LowBits(bin: Bin, u: nat, n: nat): seq<Decision> {
    if n == 0 then [] else [Decision(bin, u / Pow2(n - 1) % 2 == 1)] + LowBits(bin, u, n - 1)
  }

  /** How many bits below the highest one there are. */
  function BitCount(u: nat): nat {
    if u == 0 then 0 else Log2(u)
  }

  /** Figures F.8 and F.9 for DC: the magnitude category and the bits below it, for magnitude u + 1. */
  function DcMagnitude(area: Area, s: int, u: nat): seq<Decision> {
    DcCategory(area, s, u) + LowBits(Stat(area, DcBin(s, u) + 14), u, BitCount(u))
  }

  function DcCategory(area: Area, s: int, u: nat): seq<Decision> {
    if u == 0 then [Decision(Stat(area, s), false)]
    else [Decision(Stat(area, s), true)] + Unary(area, 20, Log2(u))
  }

  // The bin in which the category code ends; Table F.4: X1 = 20.
  function DcBin(s: int, u: nat): int {
    if u == 0 then s else 20 + Log2(u)
  }

  /** The same for AC, where bin s is used for the first two decisions. */
  function AcMagnitude(area: Area, s: int, base: int, u: nat): seq<Decision> {
    AcCategory(area, s, base, u) + LowBits(Stat(area, AcBin(s, base, u) + 14), u, BitCount(u))
  }

  function AcCategory(area: Area, s: int, base: int, u: nat): seq<Decision> {
    if u == 0 then [Decision(Stat(area, s), false)]
    else if u == 1 then [Decision(Stat(area, s), true), Decision(Stat(area, s), false)]
    else [Decision(Stat(area, s), true), Decision(Stat(area, s), true)] + Unary(area, base, Log2(u) - 1)
  }

  function AcBin(s: int, base: int, u: nat): int {
    if u <= 1 then s else base + Log2(u) - 1
  }

  // ----- DC differences

  /** The magnitude category as the coders hold it: 0, or the highest power of two in u. */
  function Category(u: nat): nat {
    if u == 0 then 0 else Pow2(Log2(u))
  }

  function DcDiff(tbl: nat, ctx: nat, v: int): seq<Decision> {
    var area := DcStats(tbl);
    if v == 0 then [Decision(Stat(area, ctx), false)]
    else [Decision(Stat(area, ctx), true), Decision(Stat(area, ctx + 1), v < 0)]
         + DcMagnitude(area, ctx + (if v < 0 then 3 else 2), Magnitude(v) - 1)
  }

  /** Section F.1.4.4.1.2: the conditioning category of a difference. */
  function DcContext(l: nat, u: nat, v: int): (ctx: nat)
    ensures ctx in {0, 4, 8, 12, 16}
  {
    if v == 0 then 0
    else
      var m := Category(Magnitude(v) - 1);
      if m < Pow2(l) / 2 then 0
      else if m > Pow2(u) / 2 then (if v < 0 then 16 else 12)
      else if v < 0 then 8 else 4
  }

  // ----- AC coefficients, z in zigzag order

  function LastNonzero(z: seq<int>, ke: nat): (r: nat)
    requires ke < |z|
    ensures r <= ke && (r > 0 ==> z[r] != 0)
    ensures forall i :: r < i <= ke ==> z[i] == 0
  {
    if ke == 0 || z[ke] != 0 then ke else LastNonzero(z, ke - 1)
  }

  /** Figure F.5 from coefficient k on. */
  function AcFrom(tbl: nat, kx: nat, z: seq<int>, k: nat): seq<Decision>
    requires |z| == 64 && 1 <= k <= 64
    decreases 64 - k, 1
  {
    if k == 64 then []
    else if k > LastNonzero(z, 63) then [Decision(Stat(AcStats(tbl), 3 * (k - 1)), true)]
    else [Decision(Stat(AcStats(tbl), 3 * (k - 1)), false)] + AcRun(tbl, kx, z, k)
  }

  function AcRun(tbl: nat, kx: nat, z: seq<int>, k: nat): seq<Decision>
    requires |z| == 64 && 1 <= k <= LastNonzero(z, 63)
    decreases 64 - k, 0
  {
    if z[k] == 0 then [Decision(Stat(AcStats(tbl), 3 * (k - 1) + 1), false)] + AcRun(tbl, kx, z, k + 1)
    else AcCoef(tbl, kx, z[k], k) + AcFrom(tbl, kx, z, k + 1)
  }

  function AcCoef(tbl: nat, kx: nat, v: int, k: nat): seq<Decision>
    requires v != 0
  {
    [Decision(Stat(AcStats(tbl), 3 * (k - 1) + 1), true)] + AcValue(tbl, kx, v, k)
  }

  /** Sign and magnitude of a coefficient known to be nonzero. */
  function AcValue(tbl: nat, kx: nat, v: int, k: nat): seq<Decision>
    requires v != 0
  {
    [Decision(Fixed, v < 0)]
    + AcMagnitude(AcStats(tbl), 3 * (k - 1) + 2, if k <= kx then 189 else 217, Magnitude(v) - 1)
  }

  // ----- Blocks and MCUs

  /** DC predictions and conditioning contexts of the components in the scan. */
  datatype DcState = DcState(last: seq<int>, ctx: seq<nat>)

  function StartDc(scan: Scan): (dc: DcState)
    ensures ValidDc(scan, dc)
  {
    DcState(seq(|scan.comps|, _ => 0), seq(|scan.comps|, _ => 0))
  }

  predicate ValidDc(scan: Scan, dc: DcState) {
    && |dc.last| == |dc.ctx| == |scan.comps|
    && forall i :: 0 <= i < |dc.last| ==> -16384 <= dc.last[i] <= 16383 && dc.ctx[i] in {0, 4, 8, 12, 16}
  }

  function BlockCode(scan: Scan, dc: DcState, ci: nat, b: Block): seq<Decision>
    requires ValidScan(scan) && ValidDc(scan, dc) && ci < |scan.comps|
  {
    DcDiff(scan.comps[ci].dcTbl, dc.ctx[ci], b[0] - dc.last[ci])
    + AcFrom(scan.comps[ci].acTbl, scan.acK[scan.comps[ci].acTbl], Zig(scan.order, b), 1)
  }

  function NextDc(scan: Scan, dc: DcState, ci: nat, b: Block): (r: DcState)
    requires ValidScan(scan) && ValidDc(scan, dc) && ci < |scan.comps| && LegalBlock(b)
    ensures ValidDc(scan, r)
  {
    var tbl := scan.comps[ci].dcTbl;
    DcState(dc.last[ci := b[0]], dc.ctx[ci := DcContext(scan.dcL[tbl], scan.dcU[tbl], b[0] - dc.last[ci])])
  }

  /** The decisions for a run of blocks, the components of which are given. */
  function BlocksCode(scan: Scan, dc: DcState, cis: seq<nat>, bs: seq<Block>): seq<Decision>
    requires ValidScan(scan) && ValidDc(scan, dc) && LegalBlocks(bs)
    requires |cis| == |bs| && forall i :: 0 <= i < |cis| ==> cis[i] < |scan.comps|
    decreases |bs|
  {
    if bs == [] then []
    else BlockCode(scan, dc, cis[0], bs[0]) + BlocksCode(scan, NextDc(scan, dc, cis[0], bs[0]), cis[1..], bs[1..])
  }

  function DcAfter(scan: Scan, dc: DcState, cis: seq<nat>, bs: seq<Block>): (r: DcState)
    requires ValidScan(scan) && ValidDc(scan, dc) && LegalBlocks(bs)
    requires |cis| == |bs| && forall i :: 0 <= i < |cis| ==> cis[i] < |scan.comps|
    ensures ValidDc(scan, r)
    decreases |bs|
  {
    if bs == [] then dc else DcAfter(scan, NextDc(scan, dc, cis[0], bs[0]), cis[1..], bs[1..])
  }

  // ----- Scans

  /** The decisions for a whole scan. */
  function ScanCode(scan: Scan, dc: DcState, mcus: seq<seq<Block>>): seq<Decision>
    requires ValidScan(scan) && ValidDc(scan, dc) && LegalMcus(|scan.membership|, mcus)
    decreases |mcus|
  {
    if mcus == [] then []
    else
      BlocksCode(scan, dc, scan.membership, mcus[0])
      + ScanCode(scan, DcAfter(scan, dc, scan.membership, mcus[0]), mcus[1..])
  }

  /** The bins of all statistics areas the scan uses. */
  function ScanBins(scan: Scan): (bins: set<Bin>)
    ensures Allocated(scan, bins)
  {
    {Fixed}
    + (set c, i | 0 <= c < |scan.comps| && 0 <= i < DC_STAT_BINS :: Stat(DcStats(scan.comps[c].dcTbl), i))
    + (set c, i | 0 <= c < |scan.comps| && 0 <= i < AC_STAT_BINS :: Stat(AcStats(scan.comps[c].acTbl), i))
  }

  /** Zeroed statistics areas, and the fixed bin set for probability 0.5. */
  function StartStats(scan: Scan): (stats: Stats)
    ensures stats.Keys == ScanBins(scan)
  {
    map bin | bin in ScanBins(scan) :: if bin == Fixed then 113 else 0
  }
}
