/** Coding of blocks by the arithmetic encoder (sequential mode). */
module ArithMcuEncoder {
  import opened Bytes
  import opened ArithTable
  import opened ArithCode
  import opened ArithEncoder
  import opened ArithMcu
  import opened ZigZag

  class McuEncoder {
    const arith: Encoder
    const scan: Scan
    var lastDcVal: seq<int>   // last DC coef for each component
    var dcContext: seq<nat>   // context index for DC conditioning

    ghost const start: Coder      // the coder at the start of the scan
    ghost const head: seq<byte>   // the destination at the start of the scan
    ghost const bins: set<Bin>    // the statistics bins that exist
    ghost var log: seq<Decision>  // the decisions coded in this scan

    ghost predicate Valid()
      reads this, arith
    {
      && arith.Valid()
      && ValidScan(scan) && Allocated(scan, bins) && ValidDc(scan, Dc())
      && arith.stats.Keys == start.stats.Keys == bins && arith.head == head
      && start.iv.width >= 0x8000 && Legal(start.stats, log)
      && arith.State() == Run(start, log)
    }

    ghost function Dc(): DcState
      reads this
    {
      DcState(lastDcVal, dcContext)
    }

    constructor (arith: Encoder, scan: Scan)
      requires arith.Valid() && ValidScan(scan) && Allocated(scan, arith.stats.Keys)
      ensures Valid() && fresh(this) && this.arith == arith && this.scan == scan
      ensures start == arith.State() && head == arith.head && log == []
      ensures Dc() == StartDc(scan)
    {
      this.arith, this.scan := arith, scan;
      lastDcVal := seq(|scan.comps|, _ => 0);
      dcContext := seq(|scan.comps|, _ => 0);
      start, head, bins, log := arith.State(), arith.head, arith.stats.Keys, [];
    }

    method Put(bin: Bin, bit: bool)
      requires Valid() && bin in bins
      modifies this`log, arith
      ensures Valid() && log == old(log) + [Decision(bin, bit)] && arith.stats.Keys == old(arith.stats.Keys)
    {
      ghost var d := Decision(bin, bit);
      arith.Encode(bin, bit);
      assert Legal(start.stats, log + [d]);
      RunConcat(start, log, [d]);
      RunOne(Run(start, log), d);
      log := log + [d];
    }

    // One decision per halving of v2, in consecutive bins.
    method PutCategory(area: Area, first: int, x: nat, m0: nat) returns (st: int, m: nat)
      requires Valid() && x > 0
      requires forall i :: first <= i < first + Log2(x) ==> Stat(area, i) in bins
      modifies this`log, arith
      ensures Valid()
      ensures log == old(log) + Ones(area, first, Log2(x))
      ensures st == first + Log2(x) && m == Shl(m0, Log2(x))
    {
      hide Valid, Pow2, Ones, Log2;
      ghost var w, n := x, 0;
      st, m := first, m0;
      NoOnes(area, first);
      var v2 := x / 2;
      while v2 != 0
        invariant Valid()
        invariant w > 0 && v2 == w / 2 && n + Log2(w) == Log2(x)
        invariant log == old(log) + Ones(area, first, n)
        invariant st == first + n && m == Shl(m0, n)
        decreases v2
      {
        Put(Stat(area, st), true);
        OnesSnoc(area, first, n);
        Halved(w);
        m := 2 * m;
        st := st + 1;
        w, n := v2, n + 1;
        v2 := v2 / 2;
      }
      Halved(w);
    }

    // The same, and the zero that ends the category.
    method PutUnary(area: Area, first: int, x: nat, m0: nat) returns (st: int, m: nat)
      requires Valid() && x > 0
      requires forall i :: first <= i <= first + Log2(x) ==> Stat(area, i) in bins
      modifies this`log, arith
      ensures Valid() && log == old(log) + Unary(area, first, Log2(x))
      ensures st == first + Log2(x) && m == Shl(m0, Log2(x))
    {
      hide Valid;
      st, m := PutCategory(area, first, x, m0);
      Put(Stat(area, st), false);
      OnesUnary(area, first, Log2(x));
    }

    // Figure F.9: Encoding the magnitude bit pattern of v, below the bit m
    method PutLowBits(bin: Bin, v: nat, m0: nat, ghost n: nat)
      requires Valid() && bin in bins
      requires if n == 0 then m0 <= 1 else m0 == Pow2(n)
      modifies this`log, arith
      ensures Valid()
      ensures log == old(log) + LowBits(bin, v, n)
    {
      hide Valid, Pow2, LowBits;
      var m := m0 / 2;
      ghost var i := n;
      LowBitsHalf(bin, v, n, m0);
      while m != 0
        invariant Valid()
        invariant if i == 0 then m == 0 else m == Pow2(i - 1)
        invariant log + LowBits(bin, v, i) == old(log) + LowBits(bin, v, n)
        decreases m
      {
        LowBitsHalf(bin, v, i - 1, m);
        Reassociate(log, [Decision(bin, v / m % 2 == 1)], LowBits(bin, v, i - 1));
        Put(bin, v / m % 2 == 1);
        i := i - 1;
        m := m / 2;
      }
      LowBitsHalf(bin, v, 0, 0);
    }

    /** The next lower bit. */
    lemma LowBitsHalf(bin: Bin, v: nat, i: nat, m: nat)
      ensures (if i == 0 then m <= 1 else m == Pow2(i)) ==> if i == 0 then m / 2 == 0 else m / 2 == Pow2(i - 1)
      ensures Pow2(i) > 0 && (m == Pow2(i) ==> LowBits(bin, v, i + 1) == [Decision(bin, v / m % 2 == 1)] + LowBits(bin, v, i))
      ensures LowBits(bin, v, 0) == [] && Pow2(0) == 1
    {
    }

    /** Codes the DC difference of one block, and updates prediction and context. */
    method EncodeDc(ci: nat, value: int)
      requires Valid() && ci < |scan.comps| && -16384 <= value <= 16383
      modifies this`log, this`lastDcVal, this`dcContext, arith
      ensures Valid()
      ensures var tbl := scan.comps[ci].dcTbl;
        && log == old(log) + DcDiff(tbl, old(dcContext[ci]), value - old(lastDcVal[ci]))
        && lastDcVal == old(lastDcVal)[ci := value]
        && dcContext == old(dcContext)[ci := DcContext(scan.dcL[tbl], scan.dcU[tbl], value - old(lastDcVal[ci]))]
    {
      hide Encoder.Valid, Encoder.State, Run, Legal, DcMagnitude, IsOrder, Category, Pow2;
      var tbl := scan.comps[ci].dcTbl;
      // Table F.4: bin S0 for DC coefficient coding
      var st := dcContext[ci];
      var v := value - lastDcVal[ci];
      if v == 0 {
        Put(Stat(DcStats(tbl), st), false);
        dcContext := dcContext[ci := 0];  // zero diff category
      } else {
        lastDcVal := lastDcVal[ci := value];
        var m := EncodeDiff(tbl, st, v);
        var ctx := Condition(tbl, m, v);
        dcContext := dcContext[ci := ctx];
      }
    }

    // Section F.1.4.4.1.2: Establish dc_context conditioning category
    method Condition(tbl: nat, m: nat, v: int) returns (ctx: nat)
      requires tbl < |scan.dcL| && tbl < |scan.dcU| && v != 0 && m == Category(Magnitude(v) - 1)
      ensures ctx in {0, 4, 8, 12, 16} && ctx == DcContext(scan.dcL[tbl], scan.dcU[tbl], v)
    {
      hide Category, Pow2;
      ctx := if v > 0 then 4 else 8;
      if m < Pow2(scan.dcL[tbl]) / 2 {
        ctx := 0;
      } else if m > Pow2(scan.dcU[tbl]) / 2 {
        ctx := ctx + 8;
      }
    }

    // A nonzero difference.
    method EncodeDiff(tbl: nat, ctx: nat, v: int) returns (category: nat)
      requires Valid() && HasArea(bins, DcStats(tbl), DC_STAT_BINS)
      requires ctx <= 16 && v != 0 && -32768 <= v <= 32768
      modifies this`log, arith
      ensures Valid()
      ensures log == old(log) + DcDiff(tbl, ctx, v) && category == Category(Magnitude(v) - 1)
    {
      hide Valid, DcMagnitude, Category;
      Put(Stat(DcStats(tbl), ctx), true);
      // Figure F.7: Encoding the sign of v
      Put(Stat(DcStats(tbl), ctx + 1), v < 0);
      category := EncodeDcMagnitude(tbl, ctx + (if v > 0 then 2 else 3), (if v > 0 then v else -v) - 1);
    }

    method EncodeDcMagnitude(tbl: nat, s: int, v: nat) returns (category: nat)
      requires Valid() && HasArea(bins, DcStats(tbl), DC_STAT_BINS)
      requires 0 <= s < 20 && v < 32768
      modifies this`log, arith
      ensures Valid()
      ensures log == old(log) + DcMagnitude(DcStats(tbl), s, v) && category == Category(v)
    {
      hide Valid, LowBits, DcCategory;
      var st;
      st, category := PutDcCategory(tbl, s, v);
      PutLowBits(Stat(DcStats(tbl), st + 14), v, category, BitCount(v));
    }

    // Figure F.8: Encoding the magnitude category of v
    method PutDcCategory(tbl: nat, s: int, v: nat) returns (st: int, m: nat)
      requires Valid() && HasArea(bins, DcStats(tbl), DC_STAT_BINS)
      requires 0 <= s < 20 && v < 32768
      modifies this`log, arith
      ensures Valid() && log == old(log) + DcCategory(DcStats(tbl), s, v)
      ensures st == DcBin(s, v) && m == Category(v) && st + 14 < DC_STAT_BINS
    {
      hide Valid, Unary;
      var area := DcStats(tbl);
      if v == 0 {
        st, m := s, 0;
        Put(Stat(area, st), false);
      } else {
        SmallLog(v);
        Put(Stat(area, s), true);
        st, m := PutUnary(area, 20, v, 1);  // Table F.4: X1 = 20
      }
    }

    /** Codes the AC coefficients of one block. */
    method EncodeAc(ci: nat, block: Block)
      requires Valid() && ci < |scan.comps| && LegalBlock(block)
      modifies this`log, arith
      ensures Valid()
      ensures var tbl := scan.comps[ci].acTbl;
        log == old(log) + AcFrom(tbl, scan.acK[tbl], Zig(scan.order, block), 1)
    {
      var tbl := scan.comps[ci].acTbl;
      var ke := FindEob(scan.order, block);
      EncodeBand(tbl, block, ke);
    }

    // Figure F.5: Encode_AC_Coefficients
    method EncodeBand(tbl: nat, block: Block, ke: nat)
      requires Valid() && tbl < 16 && HasArea(bins, AcStats(tbl), AC_STAT_BINS) && Fixed in bins
      requires InRange(scan.order) && |scan.acK| == 16 && LegalBlock(block) && ke == LastNonzero(Zig(scan.order, block), 63)
      modifies this`log, arith
      ensures Valid() && log == old(log) + AcFrom(tbl, scan.acK[tbl], Zig(scan.order, block), 1)
    {
      hide Valid, AcRun, LegalBlock, LastNonzero;
      ghost var z, kx := Zig(scan.order, block), scan.acK[tbl];
      ghost var total := old(log) + AcFrom(tbl, kx, z, 1);
      var k := 1;
      while k <= ke
        invariant Valid() && 1 <= k <= ke + 1
        invariant log + AcFrom(tbl, kx, z, k) == total
      {
        ghost var before := log;
        Put(Stat(AcStats(tbl), 3 * (k - 1)), false);  // EOB decision
        Reassociate(before, [Decision(Stat(AcStats(tbl), 3 * (k - 1)), false)], AcRun(tbl, kx, z, k));
        k := EncodeRun(tbl, block, k, ke);
      }
      // Encode EOB decision only if k <= DCTSIZE2 - 1
      if k <= 63 {
        Put(Stat(AcStats(tbl), 3 * (k - 1)), true);
      }
    }

    // A run of zero coefficients, and the nonzero one after it.
    method EncodeRun(tbl: nat, block: Block, k0: nat, ke: nat) returns (k: nat)
      requires Valid() && tbl < 16 && HasArea(bins, AcStats(tbl), AC_STAT_BINS) && Fixed in bins
      requires InRange(scan.order) && |scan.acK| == 16 && LegalBlock(block)
      requires 1 <= k0 <= ke == LastNonzero(Zig(scan.order, block), 63)
      modifies this`log, arith
      ensures Valid() && k0 < k <= ke + 1
      ensures var z, kx := Zig(scan.order, block), scan.acK[tbl];
        log + AcFrom(tbl, kx, z, k) == old(log) + AcRun(tbl, kx, z, k0)
    {
      hide *;
      ghost var z, kx := Zig(scan.order, block), scan.acK[tbl];
      k := EncodeZeros(tbl, block, k0, ke);
      EncodeLast(tbl, block, k, ke);
      k := k + 1;
    }

    // The coefficient that ends the run
    method EncodeLast(tbl: nat, block: Block, k: nat, ke: nat)
      requires Valid() && tbl < 16 && HasArea(bins, AcStats(tbl), AC_STAT_BINS) && Fixed in bins
      requires InRange(scan.order) && |scan.acK| == 16 && LegalBlock(block)
      requires 1 <= k <= ke == LastNonzero(Zig(scan.order, block), 63) && block[scan.order[k]] != 0
      modifies this`log, arith
      ensures Valid()
      ensures var z, kx := Zig(scan.order, block), scan.acK[tbl];
        log + AcFrom(tbl, kx, z, k + 1) == old(log) + AcRun(tbl, kx, z, k)
    {
      hide *;
      ghost var z, kx := Zig(scan.order, block), scan.acK[tbl];
      ghost var before := log;
      LegalAt(scan.order, block, k);
      RunEnds(tbl, kx, z, k);
      EncodeCoef(tbl, k, block[scan.order[k]]);
      Reassociate(before, AcCoef(tbl, kx, z[k], k), AcFrom(tbl, kx, z, k + 1));
    }

    lemma LegalAt(order: seq<int>, block: Block, k: nat)
      requires InRange(order) && LegalBlock(block) && k < 64
      ensures |order| == 64 && 0 <= order[k] < 64 && -16384 <= block[order[k]] <= 16383
    {
    }

    lemma RunEnds(tbl: nat, kx: nat, z: seq<int>, k: nat)
      requires |z| == 64 && 1 <= k <= LastNonzero(z, 63) && z[k] != 0
      ensures AcRun(tbl, kx, z, k) == AcCoef(tbl, kx, z[k], k) + AcFrom(tbl, kx, z, k + 1)
    {
      hide AcCoef, AcFrom, LastNonzero;
    }

    method EncodeZeros(tbl: nat, block: Block, k0: nat, ke: nat) returns (k: nat)
      requires Valid() && tbl < 16 && HasArea(bins, AcStats(tbl), AC_STAT_BINS)
      requires InRange(scan.order) && |scan.acK| == 16 && 1 <= k0 <= ke == LastNonzero(Zig(scan.order, block), 63)
      modifies this`log, arith
      ensures Valid() && k0 <= k <= ke && block[scan.order[k]] != 0
      ensures var z, kx := Zig(scan.order, block), scan.acK[tbl];
        log + AcRun(tbl, kx, z, k) == old(log) + AcRun(tbl, kx, z, k0)
    {
      hide Valid, AcRun, LastNonzero, HasArea, LegalBlock;
      ghost var z, kx := Zig(scan.order, block), scan.acK[tbl];
      k := k0;
      while block[scan.order[k]] == 0
        invariant Valid() && k0 <= k <= ke
        invariant log + AcRun(tbl, kx, z, k) == old(log) + AcRun(tbl, kx, z, k0)
        decreases ke - k
      {
        EncodeZero(tbl, kx, z, k);
        k := k + 1;
      }
    }

    method EncodeZero(tbl: nat, ghost kx: nat, ghost z: seq<int>, k: nat)
      requires Valid() && tbl < 16 && HasArea(bins, AcStats(tbl), AC_STAT_BINS)
      requires |z| == 64 && 1 <= k <= LastNonzero(z, 63) && z[k] == 0
      modifies this`log, arith
      ensures Valid() && k < LastNonzero(z, 63)
      ensures log + AcRun(tbl, kx, z, k + 1) == old(log) + AcRun(tbl, kx, z, k)
    {
      hide Valid, AcRun, AcCoef, AcFrom;
      ghost var before := log;
      RunGoesOn(tbl, kx, z, k);
      Put(Stat(AcStats(tbl), 3 * (k - 1) + 1), false);
      Reassociate(before, [Decision(Stat(AcStats(tbl), 3 * (k - 1) + 1), false)], AcRun(tbl, kx, z, k + 1));
    }

    lemma RunGoesOn(tbl: nat, kx: nat, z: seq<int>, k: nat)
      requires |z| == 64 && 1 <= k <= LastNonzero(z, 63) && z[k] == 0
      ensures k < LastNonzero(z, 63)
      ensures AcRun(tbl, kx, z, k) == [Decision(Stat(AcStats(tbl), 3 * (k - 1) + 1), false)] + AcRun(tbl, kx, z, k + 1)
    {
      hide AcCoef, AcFrom;
    }

    method EncodeCoef(tbl: nat, k: nat, value: int)
      requires Valid() && tbl < 16 && HasArea(bins, AcStats(tbl), AC_STAT_BINS)
      requires 1 <= k < 64 && value != 0 && -16384 <= value <= 16383 && Fixed in bins && |scan.acK| == 16
      modifies this`log, arith
      ensures Valid()
      ensures log == old(log) + AcCoef(tbl, scan.acK[tbl], value, k)
    {
      hide Valid, AcMagnitude;
      Put(Stat(AcStats(tbl), 3 * (k - 1) + 1), true);
      // Figure F.7: Encoding the sign of v
      Put(Fixed, value < 0);
      EncodeAcMagnitude(tbl, 3 * (k - 1) + 2, if k <= scan.acK[tbl] then 189 else 217, Magnitude(value) - 1);
    }

    method EncodeAcMagnitude(tbl: nat, s: int, base: int, v: nat)
      requires Valid() && HasArea(bins, AcStats(tbl), AC_STAT_BINS)
      requires 0 <= s < 189 && (base == 189 || base == 217) && v < 32768
      modifies this`log, arith
      ensures Valid()
      ensures log == old(log) + AcMagnitude(AcStats(tbl), s, base, v)
    {
      hide Valid, LowBits, AcCategory;
      var st, m := PutAcCategory(tbl, s, base, v);
      PutLowBits(Stat(AcStats(tbl), st + 14), v, m, BitCount(v));
    }

    // Figure F.8: Encoding the magnitude category of v
    method PutAcCategory(tbl: nat, s: int, base: int, v: nat) returns (st: int, m: nat)
      requires Valid() && HasArea(bins, AcStats(tbl), AC_STAT_BINS)
      requires 0 <= s < 189 && (base == 189 || base == 217) && v < 32768
      modifies this`log, arith
      ensures Valid() && log == old(log) + AcCategory(AcStats(tbl), s, base, v)
      ensures st == AcBin(s, base, v) && m == Category(v) && st + 14 < AC_STAT_BINS
    {
      hide Valid, Unary, Log2;
      var area := AcStats(tbl);
      if v == 0 {
        st, m := s, 0;
        Put(Stat(area, st), false);
      } else {
        SmallLog(v);
        Put(Stat(area, s), true);
        st, m := PutAcRest(tbl, s, base, v);
      }
    }

    method PutAcRest(tbl: nat, s: int, base: int, v: nat) returns (st: int, m: nat)
      requires Valid() && HasArea(bins, AcStats(tbl), AC_STAT_BINS)
      requires 0 <= s < 189 && (base == 189 || base == 217) && 0 < v && Log2(v) <= 14
      modifies this`log, arith
      ensures Valid() && log == old(log) + AcCategory(AcStats(tbl), s, base, v)[1..]
      ensures st == AcBin(s, base, v) && m == Category(v)
    {
      hide Valid, Unary;
      if v == 1 {
        st, m := s, 1;
        Put(Stat(AcStats(tbl), st), false);
      } else {
        Put(Stat(AcStats(tbl), s), true);
        st, m := PutUnary(AcStats(tbl), base, v / 2, 2);
        ShlShl(1, 1, Log2(v / 2));
        Reassociate(old(log), [Decision(Stat(AcStats(tbl), s), true)], Unary(AcStats(tbl), base, Log2(v) - 1));
      }
    }

    /** Codes one block. */
    method EncodeBlock(ci: nat, block: Block)
      requires Valid() && ci < |scan.comps| && LegalBlock(block)
      modifies this, arith
      ensures Valid()
      ensures log == old(log) + BlockCode(scan, old(Dc()), ci, block)
      ensures Dc() == NextDc(scan, old(Dc()), ci, block)
    {
      hide Encoder.Valid, Encoder.State, Run, Legal, Allocated, DcDiff, AcFrom, DcContext, IsOrder;
      EncodeDc(ci, block[0]);
      EncodeAc(ci, block);
    }

    /** Codes one MCU. */
    method EncodeMcu(mcu: seq<Block>)
      requires Valid() && |mcu| == |scan.membership| && LegalBlocks(mcu)
      modifies this, arith
      ensures Valid()
      ensures log == old(log) + BlocksCode(scan, old(Dc()), scan.membership, mcu)
      ensures Dc() == DcAfter(scan, old(Dc()), scan.membership, mcu)
    {
      hide Encoder.Valid, Encoder.State, Run, Legal, BlockCode, NextDc;
      ghost var dc0, total := Dc(), log + BlocksCode(scan, Dc(), scan.membership, mcu);
      var blkn := 0;
      while blkn < |scan.membership|
        invariant 0 <= blkn <= |mcu|
        invariant Valid()
        invariant log + BlocksCode(scan, Dc(), scan.membership[blkn..], mcu[blkn..]) == total
        invariant DcAfter(scan, Dc(), scan.membership[blkn..], mcu[blkn..]) == DcAfter(scan, dc0, scan.membership, mcu)
      {
        ghost var before, dc := log, Dc();
        EncodeBlock(scan.membership[blkn], mcu[blkn]);
        assert scan.membership[blkn..][1..] == scan.membership[blkn + 1..] && mcu[blkn..][1..] == mcu[blkn + 1..];
        Reassociate(before, BlockCode(scan, dc, scan.membership[blkn], mcu[blkn]),
                    BlocksCode(scan, Dc(), scan.membership[blkn + 1..], mcu[blkn + 1..]));
        blkn := blkn + 1;
      }
    }
  }

  // Establish EOB (end-of-block) index
  method FindEob(order: seq<int>, block: Block) returns (ke: nat)
    requires IsOrder(order)
    ensures ke <= 63 && ke == LastNonzero(Zig(order, block), 63)
  {
    ke := 63;
    while ke > 0 && block[order[ke]] == 0
      invariant 0 <= ke <= 63 && LastNonzero(Zig(order, block), ke) == LastNonzero(Zig(order, block), 63)
    {
      ke := ke - 1;
    }
  }

  lemma RunOne(s: Coder, d: Decision)
    requires s.iv.width >= 0x8000 && d.bin in s.stats
    ensures Run(s, [d]) == Step(s, d)
  {
    assert [d][1..] == [];
  }

  lemma Halved(w: nat)
    requires w > 0
    ensures if w / 2 == 0 then Log2(w) == 0 else Log2(w) == Log2(w / 2) + 1
  {
  }

  lemma NoOnes(area: Area, first: int)
    ensures Ones(area, first, 0) == []
  {
  }
}
