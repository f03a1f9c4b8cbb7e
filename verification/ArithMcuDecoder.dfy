/** Decoding of blocks by the arithmetic decoder (sequential mode).  The decoder accepts any input; what
    it returns is specified for inputs that code given blocks. */
module ArithMcuDecoder {
  import opened Bytes
  import opened Segments
  import opened ArithTable
  import opened ArithCode
  import opened ArithDecoder
  import opened ArithMcu
  import opened ZigZag

  /** Exhausted: the source ended without a marker.  BadCode: spectral or magnitude overflow. */
  datatype Status = Good | BadCode | Exhausted

  class McuDecoder {
    const arith: Decoder
    const scan: Scan
    var lastDcVal: seq<int>   // last DC coef for each component, modulo 0x10000
    var dcContext: seq<nat>
    var error: bool           // set once a bad code has been seen (ct = -1)

    ghost const bins: set<Bin>
    ghost const complete: bool    // a marker follows the data
    ghost var live: bool          // so far the input coded the decisions of some encoder
    ghost var script: seq<Decision>  // the decisions still to come while live

    ghost predicate Valid()
      reads this, arith
    {
      && arith.Valid() && arith.stats.Keys == bins
      && (complete ==> Terminated(arith.unread, arith.marker))
      && ValidScan(scan) && Allocated(scan, bins)
      && |lastDcVal| == |dcContext| == |scan.comps|
      && (forall i :: 0 <= i < |dcContext| ==> dcContext[i] in {0, 4, 8, 12, 16})
      && (live ==> Follows(arith.Exact(), arith.stats, script))
    }

    /** The input still to be read codes the decisions of code, and then rest. */
    ghost predicate Expecting(code: seq<Decision>, rest: seq<Decision>)
      reads this
    {
      live && script == code + rest
    }

    ghost predicate SameDc(dc: DcState)
      reads `lastDcVal, `dcContext
    {
      && dcContext == dc.ctx && |lastDcVal| == |dc.last|
      && forall i :: 0 <= i < |dc.last| ==> lastDcVal[i] == dc.last[i] % 0x10000
    }

    constructor (arith: Decoder, scan: Scan, ghost script: seq<Decision>)
      requires arith.Valid() && ValidScan(scan) && Allocated(scan, arith.stats.Keys)
      ensures Valid() && fresh(this) && this.arith == arith && this.scan == scan && !error
      ensures complete == Terminated(arith.unread, arith.marker)
      ensures live == Follows(arith.Exact(), arith.stats, script) && this.script == script
      ensures SameDc(StartDc(scan))
    {
      this.arith, this.scan := arith, scan;
      lastDcVal := seq(|scan.comps|, _ => 0);
      dcContext := seq(|scan.comps|, _ => 0);
      error := false;
      bins, complete := arith.stats.Keys, Terminated(arith.unread, arith.marker);
      this.script, live := script, Follows(arith.Exact(), arith.stats, script);
    }

    method Get(bin: Bin) returns (ok: bool, bit: bool)
      requires Valid() && bin in bins
      modifies this`live, this`script, arith
      ensures complete ==> ok
      ensures ok ==> Valid()
      ensures ok && old(live) && old(script) != [] && old(script)[0].bin == bin ==>
        live && bit == old(script)[0].bit && script == old(script)[1..]
    {
      hide Lookup, DecodeBit, Terminated, Payload, Fraction, Half;
      ok, bit := arith.Decode(bin);
      if ok {
        if live && script != [] && script[0].bin == bin {
          script := script[1..];
        } else {
          live := false;
        }
      }
    }

    // Figure F.23, the part in consecutive bins: doubles m, which is 2^e, until a zero is decoded.
    method GetUnary(area: Area, first: int, m0: nat, ghost e: nat, ghost n: nat, ghost rest: seq<Decision>)
      returns (status: Status, st: int, m: nat)
      requires Valid() && e <= 1 && m0 == Pow2(e)
      requires forall i :: first <= i < first + 15 ==> Stat(area, i) in bins
      modifies this`live, this`script, arith
      ensures complete ==> status != Exhausted
      ensures status == Good ==> Valid() && first <= st < first + 15 - e && m == Pow2(e + (st - first)) < 0x8000
      ensures status == BadCode ==> Valid()
      ensures old(Expecting(Unary(area, first, n), rest)) && e + n < 15 ==>
        status != BadCode && (status == Good ==> Expecting([], rest) && st == first + n)
    {
      hide Valid, Pow2, Unary;
      ghost var i := 0;
      ghost var on := Expecting(Unary(area, first, n), rest) && e + n < 15;
      st, m := first, m0;
      CategoryLimit(e);
      UnaryHead(area, st, n, rest);
      var ok, bit := Get(Stat(area, st));
      while ok && bit
        invariant complete ==> ok
        invariant ok ==> Valid()
        invariant st == first + i && m == Pow2(e + i) < 0x8000 && e + i < 15
        invariant on && ok ==> i <= n && live && bit == (i < n)
        invariant on && ok ==> script == if i == n then [] + rest else Unary(area, st + 1, n - i - 1) + rest
        decreases 15 - i
      {
        m := 2 * m;
        i := i + 1;
        CategoryLimit(e + i);
        if m == 0x8000 {
          return BadCode, st, m;
        }
        st := st + 1;
        if i <= n { UnaryHead(area, st, n - i, rest); }
        ok, bit := Get(Stat(area, st));
      }
      status := if ok then Good else Exhausted;
    }

    // Figure F.24: Decoding the magnitude bit pattern of v
    method GetLowBits(bin: Bin, m0: nat, ghost u: nat, ghost rest: seq<Decision>) returns (ok: bool, v: nat)
      requires Valid() && bin in bins && m0 < 0x8000
      modifies this`live, this`script, arith
      ensures complete ==> ok
      ensures ok ==> Valid() && v < 0x10000
      ensures ok && old(Expecting(LowBits(bin, u, BitCount(u)), rest)) && m0 == Category(u) ==>
        Expecting([], rest) && v == u
    {
      hide Valid, LowBits;
      ghost var on := Expecting(LowBits(bin, u, BitCount(u)), rest) && m0 == Category(u);
      ghost var i := BitCount(u);
      v := m0;
      var m: nat := m0 / 2;
      if on { TopBit(u); }
      while m != 0
        invariant Valid() && v + 2 * m < 0x10000
        invariant on ==> (if i == 0 then m == 0 else m == Pow2(i - 1))
        invariant on ==> Expecting(LowBits(bin, u, i), rest) && v == u / Pow2(i) * Pow2(i)
        decreases m
      {
        ok, v := GetLowBit(bin, m, v, u, i, rest);
        if !ok {
          return;
        }
        m := m / 2;
        i := if i == 0 then 0 else i - 1;
      }
      ok := true;
      if on { NoBits(bin, u, rest); }
    }

    method GetLowBit(bin: Bin, m: nat, v0: nat, ghost u: nat, ghost i: nat, ghost rest: seq<Decision>)
      returns (ok: bool, v: nat)
      requires Valid() && bin in bins
      modifies this`live, this`script, arith
      ensures complete ==> ok
      ensures ok ==> Valid() && v <= v0 + m
      ensures i > 0 && m == Pow2(i - 1) && v0 == u / Pow2(i) * Pow2(i) && old(Expecting(LowBits(bin, u, i), rest)) ==>
        ok ==> Expecting(LowBits(bin, u, i - 1), rest) && v == u / Pow2(i - 1) * Pow2(i - 1)
    {
      hide Valid;
      var bit;
      ok, bit := Get(bin);
      v := v0;
      if i > 0 { NextBit(u, i - 1); }
      if bit {
        v := v + m;  // bit m of v is still clear
      }
    }

    // Figure F.23: Decoding the magnitude category of v
    method GetDcCategory(tbl: nat, s: int, ghost u: nat, ghost rest: seq<Decision>)
      returns (status: Status, st: int, m: nat)
      requires Valid() && HasArea(bins, DcStats(tbl), DC_STAT_BINS) && 0 <= s < 20
      modifies this`live, this`script, arith
      ensures complete ==> status != Exhausted
      ensures status == Good ==> Valid() && 0 <= st < 35 && m < 0x8000
      ensures status == BadCode ==> Valid()
      ensures old(Expecting(DcCategory(DcStats(tbl), s, u), rest)) && u < 32768 ==>
        status != BadCode && (status == Good ==> Expecting([], rest) && st == DcBin(s, u) && m == Category(u))
    {
      hide Valid, Unary, Log2, Pow2;
      ghost var on := Expecting(DcCategory(DcStats(tbl), s, u), rest) && u < 32768;
      var ok, bit := Get(Stat(DcStats(tbl), s));
      if !ok {
        return Exhausted, s, 0;
      }
      if !bit {
        return Good, s, 0;
      }
      if on { SmallLog(u); }
      status, st, m := GetUnary(DcStats(tbl), 20, 1, 0, if u == 0 then 0 else Log2(u), rest);
    }

    method GetDcMagnitude(tbl: nat, s: int, ghost u: nat, ghost rest: seq<Decision>)
      returns (status: Status, category: nat, v: nat)
      requires Valid() && HasArea(bins, DcStats(tbl), DC_STAT_BINS) && 0 <= s < 20
      modifies this`live, this`script, arith
      ensures complete ==> status != Exhausted
      ensures status != Exhausted ==> Valid()
      ensures status == Good ==> v < 0x10000
      ensures old(Expecting(DcMagnitude(DcStats(tbl), s, u), rest)) && u < 32768 ==>
        status != BadCode && (status == Good ==> Expecting([], rest) && category == Category(u) && v == u)
    {
      hide Valid, DcCategory, LowBits, Category;
      ghost var low := LowBits(Stat(DcStats(tbl), DcBin(s, u) + 14), u, BitCount(u));
      Reassociate(DcCategory(DcStats(tbl), s, u), low, rest);
      var st;
      status, st, category := GetDcCategory(tbl, s, u, low + rest);
      v := 0;
      if status == Good {
        var ok;
        Reassociate([], low, rest);
        ok, v := GetLowBits(Stat(DcStats(tbl), st + 14), category, u, rest);
        status := if ok then Good else Exhausted;
      }
    }

    method GetAcCategory(tbl: nat, s: int, base: int, ghost u: nat, ghost rest: seq<Decision>)
      returns (status: Status, st: int, m: nat)
      requires Valid() && HasArea(bins, AcStats(tbl), AC_STAT_BINS) && 0 <= s < 189 && (base == 189 || base == 217)
      modifies this`live, this`script, arith
      ensures complete ==> status != Exhausted
      ensures status == Good ==> Valid() && 0 <= st < 232 && m < 0x8000
      ensures status == BadCode ==> Valid()
      ensures old(Expecting(AcCategory(AcStats(tbl), s, base, u), rest)) && u < 32768 ==>
        status != BadCode && (status == Good ==> Expecting([], rest) && st == AcBin(s, base, u) && m == Category(u))
    {
      hide Valid, Unary, Log2, Pow2;
      ghost var on := Expecting(AcCategory(AcStats(tbl), s, base, u), rest) && u < 32768;
      var ok, bit := Get(Stat(AcStats(tbl), s));
      if !ok {
        return Exhausted, s, 0;
      }
      if !bit {
        return Good, s, 0;
      }
      ok, bit := Get(Stat(AcStats(tbl), s));
      if !ok {
        return Exhausted, s, 0;
      }
      if !bit {
        return Good, s, 1;
      }
      if on { SmallLog(u); }
      status, st, m := GetUnary(AcStats(tbl), base, 2, 1, if u <= 1 then 0 else Log2(u) - 1, rest);
    }

    method GetAcMagnitude(tbl: nat, s: int, base: int, ghost u: nat, ghost rest: seq<Decision>)
      returns (status: Status, v: nat)
      requires Valid() && HasArea(bins, AcStats(tbl), AC_STAT_BINS) && 0 <= s < 189 && (base == 189 || base == 217)
      modifies this`live, this`script, arith
      ensures complete ==> status != Exhausted
      ensures status != Exhausted ==> Valid()
      ensures old(Expecting(AcMagnitude(AcStats(tbl), s, base, u), rest)) && u < 32768 ==>
        status != BadCode && (status == Good ==> Expecting([], rest) && v == u)
    {
      hide Valid, AcCategory, LowBits, Category;
      ghost var low := LowBits(Stat(AcStats(tbl), AcBin(s, base, u) + 14), u, BitCount(u));
      Reassociate(AcCategory(AcStats(tbl), s, base, u), low, rest);
      var st, m;
      status, st, m := GetAcCategory(tbl, s, base, u, low + rest);
      v := 0;
      if status == Good {
        var ok;
        Reassociate([], low, rest);
        ok, v := GetLowBits(Stat(AcStats(tbl), st + 14), m, u, rest);
        status := if ok then Good else Exhausted;
      }
    }

    // Figure F.19: Decode_DC_DIFF
    method GetDiff(tbl: nat, ctx: nat, ghost d: int, ghost rest: seq<Decision>)
      returns (status: Status, category: nat, v: int)
      requires Valid() && HasArea(bins, DcStats(tbl), DC_STAT_BINS) && ctx <= 16
      modifies this`live, this`script, arith
      ensures complete ==> status != Exhausted
      ensures status != Exhausted ==> Valid()
      ensures old(Expecting(DcDiff(tbl, ctx, d), rest)) && -32768 <= d <= 32768 ==>
        status != BadCode &&
        (status == Good ==> Expecting([], rest) && v == d && (d != 0 ==> category == Category(Magnitude(d) - 1)))
    {
      hide Valid, DcMagnitude, Category;
      ghost var u := if d == 0 then 0 else Magnitude(d) - 1;
      status, category, v := Exhausted, 0, 0;
      var ok, nonzero := Get(Stat(DcStats(tbl), ctx));
      if !ok {
        return;
      }
      if !nonzero {
        return Good, 0, 0;
      }
      // Figure F.22: Decoding the sign of v
      var sign;
      ok, sign := Get(Stat(DcStats(tbl), ctx + 1));
      if !ok {
        return;
      }
      status, category, v := GetDcMagnitude(tbl, ctx + 2 + (if sign then 1 else 0), u, rest);
      v := v + 1;
      if sign {
        v := -v;
      }
    }

    /** Decodes the DC coefficient of one block, and updates prediction and context. */
    method DecodeDc(ci: nat, ghost dc: DcState, ghost value: int, ghost rest: seq<Decision>)
      returns (status: Status)
      requires Valid() && ci < |scan.comps| && ValidDc(scan, dc) && -16384 <= value <= 16383
      modifies this`live, this`script, this`lastDcVal, this`dcContext, arith
      ensures complete ==> status != Exhausted
      ensures status != Exhausted ==> Valid()
      ensures var tbl := scan.comps[ci].dcTbl;
        old(Expecting(DcDiff(tbl, dc.ctx[ci], value - dc.last[ci]), rest)) && old(SameDc(dc)) ==>
        status != BadCode &&
        (status == Good ==>
          Expecting([], rest) &&
          SameDc(DcState(dc.last[ci := value],
                         dc.ctx[ci := DcContext(scan.dcL[tbl], scan.dcU[tbl], value - dc.last[ci])])))
    {
      hide Follows, Decoder.Valid, Decoder.Exact, DcDiff, Category, IsOrder, Terminated, SameDc, DcContext;
      var tbl := scan.comps[ci].dcTbl;
      var category, v;
      SameContext(dc);
      status, category, v := GetDiff(tbl, dcContext[ci], value - dc.last[ci], rest);
      if status == Good {
        var context := Condition(tbl, category, v);
        Predict(ci, context, v, dc);
      }
    }

    lemma SameContext(dc: DcState)
      ensures SameDc(dc) ==> dcContext == dc.ctx && |lastDcVal| == |dc.last|
    {
    }

    method Predict(ci: nat, context: nat, v: int, ghost dc: DcState)
      requires |lastDcVal| == |dcContext| == |dc.last| == |dc.ctx| && ci < |lastDcVal|
      modifies this`lastDcVal, this`dcContext
      ensures lastDcVal == old(lastDcVal)[ci := if v == 0 then old(lastDcVal[ci]) else (old(lastDcVal[ci]) + v) % 0x10000]
      ensures dcContext == old(dcContext)[ci := context]
      ensures old(SameDc(dc)) ==> SameDc(DcState(dc.last[ci := dc.last[ci] + v], dc.ctx[ci := context]))
    {
      dcContext := dcContext[ci := context];
      if v != 0 {
        lastDcVal := lastDcVal[ci := (lastDcVal[ci] + v) % 0x10000];
      }
    }

    // Section F.1.4.4.1.2: Establish dc_context conditioning category
    method Condition(tbl: nat, category: nat, v: int) returns (context: nat)
      requires tbl < |scan.dcL| && tbl < |scan.dcU|
      ensures context in {0, 4, 8, 12, 16}
      ensures (v != 0 ==> category == Category(Magnitude(v) - 1)) ==> context == DcContext(scan.dcL[tbl], scan.dcU[tbl], v)
    {
      hide Category, Pow2;
      if v == 0 {
        return 0;
      }
      var sign := if v < 0 then 1 else 0;
      if category < Pow2(scan.dcL[tbl]) / 2 {
        context := 0;               // zero diff category
      } else if category > Pow2(scan.dcU[tbl]) / 2 {
        context := 12 + sign * 4;   // large diff category
      } else {
        context := 4 + sign * 4;    // small diff category
      }
    }

    // The zero coefficients from k0 on, and the decision that ends their run.
    method GetRun(tbl: nat, k0: nat, ghost kx: nat, ghost z: seq<int>, ghost rest: seq<Decision>)
      returns (status: Status, k: nat)
      requires Valid() && HasArea(bins, AcStats(tbl), AC_STAT_BINS)
      requires |z| == 64 && 1 <= k0 <= 63
      modifies this`live, this`script, arith
      ensures complete ==> status != Exhausted
      ensures status != Exhausted ==> Valid()
      ensures status == Good ==> k0 <= k <= 63
      ensures k0 <= LastNonzero(z, 63) && old(Expecting(AcRun(tbl, kx, z, k0), rest)) ==>
        status != BadCode &&
        (status == Good ==>
          && k <= LastNonzero(z, 63) && z[k] != 0 && ZerosBetween(z, k0, k)
          && Expecting(AcValue(tbl, kx, z[k], k), AcFrom(tbl, kx, z, k + 1) + rest))
    {
      hide Valid, AcValue, AcFrom, AcRun, LastNonzero, HasArea, AfterRun;
      ghost var on := k0 <= LastNonzero(z, 63) && Expecting(AcRun(tbl, kx, z, k0), rest);
      k := k0;
      assert ZerosBetween(z, k0, k);
      var ok, bit := GetRunBit(tbl, k, kx, z, rest);
      while ok && !bit
        invariant complete ==> ok
        invariant ok ==> Valid()
        invariant k0 <= k <= 63
        invariant on ==> k <= LastNonzero(z, 63) && ZerosBetween(z, k0, k)
        invariant on && ok ==> bit == (z[k] != 0) && Expecting([], AfterRun(tbl, kx, z, k, rest))
        decreases 63 - k
      {
        if on { RunStep(tbl, kx, z, k0, k, rest); }
        k := k + 1;
        if k > 63 {
          return BadCode, k;  // spectral overflow
        }
        ok, bit := GetRunBit(tbl, k, kx, z, rest);
      }
      if on { RunStep(tbl, kx, z, k0, k, rest); }
      status := if ok then Good else Exhausted;
    }

    method GetRunBit(tbl: nat, k: nat, ghost kx: nat, ghost z: seq<int>, ghost rest: seq<Decision>)
      returns (ok: bool, bit: bool)
      requires Valid() && HasArea(bins, AcStats(tbl), AC_STAT_BINS)
      requires |z| == 64 && 1 <= k <= 63
      modifies this`live, this`script, arith
      ensures complete ==> ok
      ensures ok ==> Valid()
      ensures k <= LastNonzero(z, 63) ==>
        (old(Expecting(AcRun(tbl, kx, z, k), rest)) || old(Expecting([], AcRun(tbl, kx, z, k) + rest))) ==>
        ok ==> bit == (z[k] != 0) && Expecting([], AfterRun(tbl, kx, z, k, rest))
    {
      hide Valid, AcRun, AfterRun;
      if k <= LastNonzero(z, 63) {
        RunHead(tbl, kx, z, k, rest);
        Reassociate([], AcRun(tbl, kx, z, k), rest);
        Reassociate([], [], AfterRun(tbl, kx, z, k, rest));
      }
      ok, bit := Get(Stat(AcStats(tbl), 3 * (k - 1) + 1));
    }

    // A nonzero coefficient.
    method GetValue(tbl: nat, k: nat, ghost v0: int, ghost rest: seq<Decision>) returns (status: Status, v: int)
      requires Valid() && HasArea(bins, AcStats(tbl), AC_STAT_BINS) && Fixed in bins && 1 <= k <= 63
      requires tbl < 16 && |scan.acK| == 16 && v0 != 0 && -16384 <= v0 <= 16383
      modifies this`live, this`script, arith
      ensures complete ==> status != Exhausted
      ensures status != Exhausted ==> Valid()
      ensures old(Expecting(AcValue(tbl, scan.acK[tbl], v0, k), rest)) ==>
        status != BadCode && (status == Good ==> Expecting([], rest) && v == v0)
    {
      hide Valid, AcMagnitude;
      var base := if k <= scan.acK[tbl] then 189 else 217;
      status, v := Exhausted, 0;
      // Figure F.22: Decoding the sign of v
      var ok, sign := Get(Fixed);
      if !ok {
        return;
      }
      Reassociate([], AcMagnitude(AcStats(tbl), 3 * (k - 1) + 2, base, Magnitude(v0) - 1), rest);
      status, v := GetAcMagnitude(tbl, 3 * (k - 1) + 2, base, Magnitude(v0) - 1, rest);
      v := v + 1;
      if sign {
        v := -v;
      }
    }

    /** Decodes the AC coefficients of one block into an area that is zero. */
    method DecodeAc(ci: nat, block: array<int>, ghost z: seq<int>, ghost rest: seq<Decision>)
      returns (status: Status)
      requires Valid() && ci < |scan.comps| && block.Length == 64
      requires |z| == 64 && forall j :: 1 <= j < 64 ==> -16384 <= z[j] <= 16383
      requires Partial(scan.order, block[..], z, 1)
      modifies this`live, this`script, arith, block
      ensures complete ==> status != Exhausted
      ensures status != Exhausted ==> Valid()
      ensures block[scan.order[0]] == old(block[scan.order[0]])
      ensures var tbl := scan.comps[ci].acTbl;
        old(Expecting(AcFrom(tbl, scan.acK[tbl], z, 1), rest)) ==>
        status != BadCode && (status == Good ==> Expecting([], rest) && Partial(scan.order, block[..], z, 64))
    {
      hide Follows, Decoder.Valid, Decoder.Exact, AcRun, AcValue, Terminated;
      var tbl := scan.comps[ci].acTbl;
      ghost var kx := scan.acK[tbl];
      ghost var on := Expecting(AcFrom(tbl, kx, z, 1), rest);
      var k := 1;
      // Figure F.20: Decode_AC_coefficients
      while k <= 63
        invariant Valid() && 1 <= k <= 64
        invariant block[scan.order[0]] == old(block[scan.order[0]])
        invariant on ==> Partial(scan.order, block[..], z, k) && Expecting(AcFrom(tbl, kx, z, k), rest)
        decreases 64 - k
      {
        var ok, eob := Get(Stat(AcStats(tbl), 3 * (k - 1)));
        if !ok {
          return Exhausted;
        }
        if eob {
          break;  // EOB flag
        }
        var v;
        status, k, v := GetCoef(tbl, k, kx, z, rest);
        if status != Good {
          return;
        }
        block[scan.order[k]] := v;
        k := k + 1;
      }
      status := Good;
    }

    method GetCoef(tbl: nat, k0: nat, ghost kx: nat, ghost z: seq<int>, ghost rest: seq<Decision>)
      returns (status: Status, k: nat, v: int)
      requires Valid() && HasArea(bins, AcStats(tbl), AC_STAT_BINS) && Fixed in bins && 1 <= k0 <= 63
      requires tbl < 16 && |scan.acK| == 16 && kx == scan.acK[tbl]
      requires |z| == 64 && forall j :: 1 <= j < 64 ==> -16384 <= z[j] <= 16383
      modifies this`live, this`script, arith
      ensures complete ==> status != Exhausted
      ensures status != Exhausted ==> Valid()
      ensures status == Good ==> k0 <= k <= 63 && v == Coef(v)
      ensures k0 <= LastNonzero(z, 63) && old(Expecting(AcRun(tbl, kx, z, k0), rest)) ==>
        status != BadCode &&
        (status == Good ==>
          && k <= LastNonzero(z, 63) && v == z[k] && (forall j :: k0 <= j < k ==> z[j] == 0)
          && Expecting(AcFrom(tbl, kx, z, k + 1), rest))
    {
      hide Valid, AcRun, AcFrom, AcValue;
      v := 0;
      status, k := GetRun(tbl, k0, kx, z, rest);
      if status == Good {
        ghost var tail := AcFrom(tbl, kx, z, k + 1);
        status, v := GetValue(tbl, k, if z[k] == 0 then 1 else z[k], tail + rest);
        Reassociate([], tail, rest);
        v := Coef(v);
      }
    }

    /** Decodes one block into an area that is zero. */
    method DecodeBlock(ci: nat, block: array<int>, ghost dc: DcState, ghost b: Block, ghost rest: seq<Decision>)
      returns (status: Status)
      requires Valid() && ci < |scan.comps| && block.Length == 64 && (forall i :: 0 <= i < 64 ==> block[i] == 0)
      requires ValidDc(scan, dc) && LegalBlock(b)
      modifies this`live, this`script, this`lastDcVal, this`dcContext, arith, block
      ensures complete ==> status != Exhausted
      ensures status != Exhausted ==> Valid()
      ensures old(Expecting(BlockCode(scan, dc, ci, b), rest)) && old(SameDc(dc)) ==>
        status != BadCode &&
        (status == Good ==> Expecting([], rest) && SameDc(NextDc(scan, dc, ci, b)) && block[..] == b)
    {
      hide Follows, Decoder.Valid, Decoder.Exact, DcDiff, AcFrom, Terminated, DcContext;
      var tbl := scan.comps[ci].acTbl;
      ghost var z, code := Zig(scan.order, b), AcFrom(tbl, scan.acK[tbl], Zig(scan.order, b), 1);
      ghost var on := Expecting(BlockCode(scan, dc, ci, b), rest) && SameDc(dc);
      Reassociate(DcDiff(scan.comps[ci].dcTbl, dc.ctx[ci], b[0] - dc.last[ci]), code, rest);
      status := DecodeDc(ci, dc, b[0], code + rest);
      if status == Good {
        Reassociate([], code, rest);
        block[0] := Coef(lastDcVal[ci]);
        status := DecodeAc(ci, block, z, rest);
        if on && status == Good {
          BlockComplete(scan.order, block[..], b);
        }
      }
    }

    /** Decodes one MCU into areas that are zero; does nothing after an error. */
    method DecodeMcu(blocks: seq<array<int>>, ghost dc: DcState, ghost mcu: seq<Block>, ghost rest: seq<Decision>)
      returns (ok: bool)
      requires Valid() && Zeroed(blocks) && |blocks| == |scan.membership|
      requires ValidDc(scan, dc) && |mcu| == |blocks| && LegalBlocks(mcu)
      modifies this, arith, blocks
      ensures complete ==> ok
      ensures ok ==> Valid()
      ensures !old(error) && old(Expecting(BlocksCode(scan, dc, scan.membership, mcu), rest)) && old(SameDc(dc)) ==>
        ok ==>
        && !error && Expecting([], rest) && SameDc(DcAfter(scan, dc, scan.membership, mcu))
        && forall i :: 0 <= i < |mcu| ==> blocks[i][..] == mcu[i]
    {
      hide Follows, Decoder.Valid, Decoder.Exact, Terminated, BlockCode, NextDc, IsOrder, Allocated, LegalBlock, BlocksCode, DcAfter;
      if error {
        return true;
      }
      ghost var on := Expecting(BlocksCode(scan, dc, scan.membership, mcu), rest) && SameDc(dc);
      ghost var now := dc;
      var blkn := 0;
      while blkn < |scan.membership|
        invariant Valid() && !error && ValidDc(scan, now) && 0 <= blkn <= |mcu|
        invariant forall i :: blkn <= i < |blocks| ==> forall j :: 0 <= j < 64 ==> blocks[i][j] == 0
        invariant on ==> forall i :: 0 <= i < blkn ==> blocks[i][..] == mcu[i]
        invariant on ==> SameDc(now) && Expecting(BlocksCode(scan, now, scan.membership[blkn..], mcu[blkn..]), rest)
        invariant DcAfter(scan, now, scan.membership[blkn..], mcu[blkn..]) == DcAfter(scan, dc, scan.membership, mcu)
      {
        ghost var next := NextDc(scan, now, scan.membership[blkn], mcu[blkn]);
        ghost var tail := BlocksCode(scan, next, scan.membership[blkn + 1..], mcu[blkn + 1..]);
        BlocksHead(scan, now, scan.membership[blkn..], mcu[blkn..], rest);
        assert scan.membership[blkn..][1..] == scan.membership[blkn + 1..] && mcu[blkn..][1..] == mcu[blkn + 1..];
        var status := DecodeBlock(scan.membership[blkn], blocks[blkn], now, mcu[blkn], tail + rest);
        if status == Exhausted {
          return false;
        }
        if status == BadCode {
          error := true;
          return true;
        }
        Reassociate([], tail, rest);
        now := next;
        blkn := blkn + 1;
      }
      NoBlocks(scan, now, scan.membership[blkn..], mcu[blkn..]);
      ok := true;
    }
  }

  ghost predicate Zeroed(blocks: seq<array<int>>)
    reads blocks
  {
    && (forall i :: 0 <= i < |blocks| ==> blocks[i].Length == 64 && forall j :: 0 <= j < 64 ==> blocks[i][j] == 0)
    && forall i, j :: 0 <= i < j < |blocks| ==> blocks[i] != blocks[j]
  }

  lemma BlocksHead(scan: Scan, dc: DcState, cis: seq<nat>, bs: seq<Block>, rest: seq<Decision>)
    requires ValidScan(scan) && ValidDc(scan, dc) && LegalBlocks(bs)
    requires |cis| == |bs| > 0 && forall i :: 0 <= i < |cis| ==> cis[i] < |scan.comps|
    ensures var next := NextDc(scan, dc, cis[0], bs[0]);
      BlocksCode(scan, dc, cis, bs) + rest ==
      BlockCode(scan, dc, cis[0], bs[0]) + (BlocksCode(scan, next, cis[1..], bs[1..]) + rest)
    ensures DcAfter(scan, dc, cis, bs) == DcAfter(scan, NextDc(scan, dc, cis[0], bs[0]), cis[1..], bs[1..])
  {
    hide BlockCode, NextDc, ValidScan, LegalBlock, ValidDc;
    var next := NextDc(scan, dc, cis[0], bs[0]);
    Reassociate(BlockCode(scan, dc, cis[0], bs[0]), BlocksCode(scan, next, cis[1..], bs[1..]), rest);
  }

  lemma NoBlocks(scan: Scan, dc: DcState, cis: seq<nat>, bs: seq<Block>)
    requires ValidScan(scan) && ValidDc(scan, dc) && cis == [] && bs == []
    ensures BlocksCode(scan, dc, cis, bs) == [] && DcAfter(scan, dc, cis, bs) == dc
  {
  }

  /** Coefficients 1 to k - 1, in scanning order, are in place, and those from k on are zero. */
  ghost predicate Partial(order: seq<int>, b: seq<int>, z: seq<int>, k: nat) {
    && InRange(order) && |b| == |z| == 64
    && forall j :: 1 <= j < 64 ==> b[order[j]] == if j < k then z[j] else 0
  }

  lemma BlockComplete(order: seq<int>, b: Block, c: Block)
    requires IsOrder(order) && Partial(order, b, Zig(order, c), 64) && b[0] == c[0]
    ensures b == c
  {
    assert forall k :: 0 <= k < 64 ==> Zig(order, b)[k] == Zig(order, c)[k];
    ZigInjective(order, b, c);
  }

  // What is left of a run, and of the script behind it, after the decision for coefficient k.
  function AfterRun(tbl: nat, kx: nat, z: seq<int>, k: nat, rest: seq<Decision>): seq<Decision>
    requires |z| == 64 && 1 <= k <= LastNonzero(z, 63)
  {
    if z[k] == 0 then AcRun(tbl, kx, z, k + 1) + rest
    else AcValue(tbl, kx, z[k], k) + (AcFrom(tbl, kx, z, k + 1) + rest)
  }

  ghost predicate ZerosBetween(z: seq<int>, a: int, b: int)
    requires |z| == 64 && 0 <= a && b <= 64
  {
    forall j :: a <= j < b ==> z[j] == 0
  }

  // What is left after a decision of a run.
  lemma RunStep(tbl: nat, kx: nat, z: seq<int>, k0: nat, k: nat, rest: seq<Decision>)
    requires |z| == 64 && 1 <= k0 <= k <= LastNonzero(z, 63) && ZerosBetween(z, k0, k)
    ensures if z[k] == 0 then
        k < LastNonzero(z, 63) && AfterRun(tbl, kx, z, k, rest) == AcRun(tbl, kx, z, k + 1) + rest && ZerosBetween(z, k0, k + 1)
      else AfterRun(tbl, kx, z, k, rest) == AcValue(tbl, kx, z[k], k) + (AcFrom(tbl, kx, z, k + 1) + rest)
  {
    hide AcRun, AcValue, AcFrom;
  }

  // What is left of a unary code, and of the script behind it, after its first decision.
  lemma UnaryHead(area: Area, i: int, n: nat, rest: seq<Decision>)
    ensures var s := Unary(area, i, n) + rest;
      s != [] && s[0] == Decision(Stat(area, i), n > 0)
      && s[1..] == if n == 0 then [] + rest else Unary(area, i + 1, n - 1) + rest
  {
  }

  lemma NoBits(bin: Bin, u: nat, rest: seq<Decision>)
    ensures LowBits(bin, u, 0) == [] && u / Pow2(0) * Pow2(0) == u
  {
  }

  lemma TopBit(u: nat)
    ensures Category(u) == u / Pow2(BitCount(u)) * Pow2(BitCount(u))
  {
    if u != 0 {
      var p := Pow2(Log2(u));
      Quotient(u, p, 1, u - p);
    }
  }

  lemma NextBit(u: nat, i: nat)
    ensures var bit := if u / Pow2(i) % 2 == 1 then Pow2(i) else 0;
      u / Pow2(i + 1) * Pow2(i + 1) + bit == u / Pow2(i) * Pow2(i)
  {
    HalveQuotient(u, Pow2(i));
  }

  lemma HalveQuotient(u: nat, p: nat)
    requires p > 0
    ensures u / (2 * p) * (2 * p) + (if u / p % 2 == 1 then p else 0) == u / p * p
  {
    var q, r := u / p, u % p;
    var a, b := q / 2, q % 2;
    assert q * p == a * (2 * p) + b * p by {
      assert q == 2 * a + b;
    }
    Quotient(u, 2 * p, a, b * p + r);
  }

  lemma RunHead(tbl: nat, kx: nat, z: seq<int>, k: nat, rest: seq<Decision>)
    requires |z| == 64 && 1 <= k <= LastNonzero(z, 63)
    ensures AcRun(tbl, kx, z, k) + rest ==
            [Decision(Stat(AcStats(tbl), 3 * (k - 1) + 1), z[k] != 0)] + AfterRun(tbl, kx, z, k, rest)
  {
  }
}
