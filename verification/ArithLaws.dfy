/** What the decisions of the arithmetic coder are for each value, and in which bins: section F.1.4 of ITU-T T.81 with its
    Tables F.4 and F.5, decision by decision. */
module ArithLaws {
  import opened Bytes
  import opened ArithCode
  import opened ArithMcu
  import opened ZigZag

  // ----- Conditioning (section F.1.4.4.1.2)

  /** The category of a difference: zero if its magnitude is at most half of 2^L, large if it is above 2^U, small between. */
  lemma ContextLaw(l: nat, u: nat, v: int)
    requires l <= u
    ensures DcContext(l, u, v) ==
      if Magnitude(v) <= Pow2(l) / 2 then 0
      else if Magnitude(v) > Pow2(u) then (if v > 0 then 12 else 16)
      else if v > 0 then 4 else 8
  {
    hide Log2;
    if v != 0 {
      CategoryBelow(Magnitude(v), l);
      CategoryAbove(Magnitude(v), u);
    }
  }

  lemma CategoryBelow(a: nat, l: nat)
    requires a > 0
    ensures Category(a - 1) < Pow2(l) / 2 <==> a <= Pow2(l) / 2
  {
    hide Log2;
    if l > 0 && a > 1 {
      var n := Log2(a - 1);
      assert Pow2(l) / 2 == Pow2(l - 1);
      if n < l - 1 { Pow2Below(n + 1, l - 1); } else { Pow2Below(l - 1, n); }
      if n < l - 1 { StrictlyBelow(n, l - 1); }
    }
  }

  lemma CategoryAbove(a: nat, u: nat)
    requires a > 0
    ensures Category(a - 1) > Pow2(u) / 2 <==> a > Pow2(u)
  {
    hide Log2;
    if a > 1 {
      var n := Log2(a - 1);
      if u > 0 { assert Pow2(u) / 2 == Pow2(u - 1); }
      if n >= u {
        Pow2Below(u, n);
        if u > 0 { StrictlyBelow(u - 1, n); }
      } else {
        Pow2Below(n + 1, u);
        Pow2Below(n, u - 1);
      }
    }
  }

  lemma StrictlyBelow(m: nat, n: nat)
    requires m < n
    ensures Pow2(m) < Pow2(n)
  {
    Pow2Below(m + 1, n);
  }

  // ----- Categories and bits

  lemma {:induction false} UnaryAt(area: Area, i: int, n: nat, j: nat)
    requires j <= n
    ensures |Unary(area, i, n)| == n + 1 && Unary(area, i, n)[j] == Decision(Stat(area, i + j), j < n)
    decreases n
  {
    if n > 0 { UnaryAt(area, i + 1, n - 1, if j > 0 then j - 1 else 0); }
  }

  lemma {:induction false} LowBitAt(bin: Bin, u: nat, n: nat, j: nat)
    requires j < n
    ensures |LowBits(bin, u, n)| == n && LowBits(bin, u, n)[j] == Decision(bin, u / Pow2(n - 1 - j) % 2 == 1)
    decreases n
  {
    LowBitCount(bin, u, n - 1);
    if j > 0 { LowBitAt(bin, u, n - 1, j - 1); }
  }

  lemma {:induction false} LowBitCount(bin: Bin, u: nat, n: nat)
    ensures |LowBits(bin, u, n)| == n
  {
    if n > 0 { LowBitCount(bin, u, n - 1); }
  }

  /** The magnitude of a DC difference, less one, in binary with n + 1 bits: a one, n further ones from bin X1 = 20 on and a
      zero, and then its n low bits, all in the bin 14 above the one of the zero. */
  lemma DcMagnitudeLaw(area: Area, s: int, u: nat, j: nat)
    requires u > 0 && j <= Log2(u)
    ensures var d, n := DcMagnitude(area, s, u), Log2(u);
      && |d| == 2 * n + 2 && d[0] == Decision(Stat(area, s), true)
      && d[1 + j] == Decision(Stat(area, 20 + j), j < n)
      && (j < n ==> d[2 + n + j] == Decision(Stat(area, 34 + n), u / Pow2(n - 1 - j) % 2 == 1))
  {
    hide Unary, LowBits, Log2, Pow2;
    var n := Log2(u);
    UnaryAt(area, 20, n, j);
    LowBitCount(Stat(area, 34 + n), u, n);
    if j < n { LowBitAt(Stat(area, 34 + n), u, n, j); }
  }

  /** A DC difference in its context S0: zero or not in S0, the sign in S0 + 1, and the magnitude from S0 + 2 on if positive,
      S0 + 3 if negative. */
  lemma DcDiffLaw(tbl: nat, ctx: nat, v: int)
    ensures var d, area := DcDiff(tbl, ctx, v), DcStats(tbl);
      && |d| >= 1 && d[0] == Decision(Stat(area, ctx), v != 0) && (v == 0 ==> |d| == 1)
      && (v != 0 ==>
            && |d| >= 3 && d[1] == Decision(Stat(area, ctx + 1), v < 0)
            && d[2] == Decision(Stat(area, if v > 0 then ctx + 2 else ctx + 3), Magnitude(v) > 1)
            && (Magnitude(v) == 1 ==> |d| == 3)
            && d[2..] == DcMagnitude(area, if v > 0 then ctx + 2 else ctx + 3, Magnitude(v) - 1))
  {
    hide Unary, LowBits, Log2;
    if v != 0 && Magnitude(v) == 1 { NoLowBits(Stat(DcStats(tbl), DcBin(ctx + (if v < 0 then 3 else 2), 0) + 14)); }
  }

  lemma NoLowBits(bin: Bin)
    ensures LowBits(bin, 0, BitCount(0)) == []
  {
  }

  /** The same for AC: two decisions in the bin itself, the further ones from bin 189 on, or 217 above the threshold Kx. */
  lemma AcMagnitudeLaw(area: Area, s: int, base: int, u: nat, j: nat)
    requires u > 1 && j < Log2(u)
    ensures var d, n := AcMagnitude(area, s, base, u), Log2(u);
      && |d| == 2 * n + 2 && d[0] == d[1] == Decision(Stat(area, s), true)
      && d[2 + j] == Decision(Stat(area, base + j), j < n - 1)
      && d[2 + n + j] == Decision(Stat(area, base + n + 13), u / Pow2(n - 1 - j) % 2 == 1)
  {
    hide Unary, LowBits, Log2, Pow2;
    var n := Log2(u);
    UnaryAt(area, base, n - 1, j);
    LowBitAt(Stat(area, base + n + 13), u, n, j);
  }

  /** A nonzero coefficient at index k: it is nonzero in bin SE + 1, the sign in the fixed bin, the magnitude from SE + 2 on, where
      SE = 3(k - 1). */
  lemma AcCoefLaw(tbl: nat, kx: nat, v: int, k: nat)
    requires v != 0 && k >= 1
    ensures var d, area, u := AcCoef(tbl, kx, v, k), AcStats(tbl), Magnitude(v) - 1;
      && |d| >= 3 && d[0] == Decision(Stat(area, 3 * k - 2), true) && d[1] == Decision(Fixed, v < 0)
      && d[2] == Decision(Stat(area, 3 * k - 1), u > 0)
      && (u == 0 ==> |d| == 3)
      && (u == 1 ==> |d| == 4 && d[3] == Decision(Stat(area, 3 * k - 1), false))
      && (u > 1 ==> d[2..] == AcMagnitude(area, 3 * k - 1, if k <= kx then 189 else 217, u))
  {
    hide Unary, LowBits, Log2;
    var area, u := AcStats(tbl), Magnitude(v) - 1;
    if u <= 1 { FewLowBits(Stat(area, 3 * k + 13), u); }
  }

  lemma FewLowBits(bin: Bin, u: nat)
    requires u <= 1
    ensures LowBits(bin, u, BitCount(u)) == []
  {
  }

  // ----- Figure F.5

  /** No in bin SE + 1 for each zero from k to j. */
  function ZeroRun(tbl: nat, k: nat, j: nat): seq<Decision>
    decreases j - k
  {
    if k >= j then [] else [Decision(Stat(AcStats(tbl), 3 * k - 2), false)] + ZeroRun(tbl, k + 1, j)
  }

  /** From index k on, if the next nonzero coefficient is at j: the block does not end, the zeros, the coefficient, and so on. */
  lemma AcFromLaw(tbl: nat, kx: nat, z: seq<int>, k: nat, j: nat)
    requires |z| == 64 && 1 <= k <= j < 64 && z[j] != 0 && forall i :: k <= i < j ==> z[i] == 0
    ensures AcFrom(tbl, kx, z, k) ==
      [Decision(Stat(AcStats(tbl), 3 * (k - 1)), false)] + (ZeroRun(tbl, k, j) + (AcCoef(tbl, kx, z[j], j) + AcFrom(tbl, kx, z, j + 1)))
  {
    hide AcCoef;
    AcRunLaw(tbl, kx, z, k, j);
  }

  lemma {:induction false} AcRunLaw(tbl: nat, kx: nat, z: seq<int>, k: nat, j: nat)
    requires |z| == 64 && 1 <= k <= j < 64 && z[j] != 0 && forall i :: k <= i < j ==> z[i] == 0
    ensures j <= LastNonzero(z, 63)
    ensures AcRun(tbl, kx, z, k) == ZeroRun(tbl, k, j) + (AcCoef(tbl, kx, z[j], j) + AcFrom(tbl, kx, z, j + 1))
    decreases j - k
  {
    hide AcCoef, AcFrom, LastNonzero;
    if k < j { AcRunLaw(tbl, kx, z, k + 1, j); }
  }

  /** If there is none, the block ends, unless it is complete. */
  lemma AcEndLaw(tbl: nat, kx: nat, z: seq<int>, k: nat)
    requires |z| == 64 && 1 <= k <= 64 && forall i :: k <= i < 64 ==> z[i] == 0
    ensures AcFrom(tbl, kx, z, k) == if k < 64 then [Decision(Stat(AcStats(tbl), 3 * (k - 1)), true)] else []
  {
    hide AcRun;
    if k <= LastNonzero(z, 63) { LastIsNonzero(z); }
  }

  lemma LastIsNonzero(z: seq<int>)
    requires |z| == 64
    ensures LastNonzero(z, 63) > 0 ==> z[LastNonzero(z, 63)] != 0
  {
    hide LastNonzero;
  }
}
