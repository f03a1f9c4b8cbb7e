/** Quantization of DCT coefficients, with the division by the quantizer step replaced by a multiplication
    and a shift.  The word of the DCT has W bits, 16 or 32. */
module Quantizer {
  import opened Bytes

  const DCTSIZE2 := 64
  const MAX_COEF := 32767

  // ----- Words

  /** (DCTELEM)x: the same bits as a signed number. */
  function Signed(x: nat, W: nat): int
    requires W >= 1
  {
    if x % Pow2(W) < Pow2(W - 1) then x % Pow2(W) else x % Pow2(W) - Pow2(W)
  }

  /** (UDCTELEM)x: the same bits as an unsigned number. */
  function Unsigned(x: int, W: nat): nat {
    x % Pow2(W)
  }

  lemma SignedUnsigned(x: nat, W: nat)
    requires W >= 1 && x < Pow2(W)
    ensures Unsigned(Signed(x, W), W) == x && (x < Pow2(W - 1) ==> Signed(x, W) == x)
  {
    var p := Pow2(W);
    Quotient(x, p, 0, x);
    if x >= Pow2(W - 1) {
      Periodic(x - p, p);
    }
  }

  lemma Periodic(x: int, p: nat)
    requires p > 0 && 0 <= x + p < p
    ensures x % p == x + p
  {
    var e := x / p + 1;
    assert e * p == x / p * p + p;
    Multiple(e, p);
  }

  // ----- What quantization means

  /** x divided by d and rounded to the nearest integer, halves away from zero. */
  function Quantized(x: int, d: nat): int
    requires d > 0
  {
    if x < 0 then -((-x + d / 2) / d) else (x + d / 2) / d
  }

  lemma Nearest(x: int, d: nat)
    requires d > 0
    ensures var q := Quantized(x, d); -(d as int) <= 2 * (x - d * q) <= d && (2 * (x - d * q) == d ==> x < 0)
    ensures (x >= 0 ==> Quantized(x, d) >= 0) && Quantized(-x, d) == -Quantized(x, d)
  {
    hide Pow2;
    var m := if x < 0 then -x else x;
    var q := (m + d / 2) / d;
    assert m + d / 2 == d * q + (m + d / 2) % d;
    assert d * -q == -(d * q);
    if q < 0 { Multiple(q, d); }
  }

  // ----- The reciprocal

  /** The quotient that the multiplication gives: product = (UDCTELEM2)(temp + corr) * recip, shifted. */
  function Scaled(x: nat, recip: nat, corr: nat, n: nat, W: nat): int
    requires W >= 1
  {
    Signed((x + corr) * recip % Pow2(2 * W) / Pow2(n), W)
  }

  /** The three values stand for division by d. */
  ghost predicate Divides(d: nat, recip: nat, corr: nat, n: nat, W: nat) {
    W >= 1 && d >= 1 && forall x: nat :: x <= MAX_COEF ==> Scaled(x, recip, corr, n, W) == Quantized(x, d)
  }

  // The product, with its laws: the lemmas below hide what it is.
  function Mul(a: int, b: int): int { a * b }

  lemma Spread(a: int, b: int, c: int)
    ensures Mul(a + b, c) == Mul(a, c) + Mul(b, c)
  {
  }

  lemma Swap(a: int, b: int, c: int)
    ensures Mul(Mul(a, b), c) == Mul(a, Mul(c, b))
  {
  }

  lemma Commute(a: int, b: int)
    ensures Mul(a, b) == Mul(b, a)
  {
  }

  lemma Below(a: int, b: int, c: int)
    requires c >= 0
    ensures (a <= b ==> Mul(a, c) <= Mul(b, c)) && (a < b ==> Mul(a, c) + c <= Mul(b, c))
    ensures Mul(0, c) == 0 && Mul(1, c) == c
  {
    hide Mul;
    Spread(a, b - a, c);
    Positive(b - a, c);
  }

  lemma Positive(x: int, c: int)
    requires c >= 0
    ensures Mul(0, c) == 0 && Mul(1, c) == c && (x >= 0 ==> Mul(x, c) >= 0) && (x >= 1 ==> Mul(x, c) >= c)
  {
    if x >= 1 { Multiple(x, c); }
  }

  /** Fraction below a half: rounded down, with one added to the dividend. */
  lemma RoundDown(n: nat, d: nat, fq: nat, fr: nat, P: nat, w: nat, b: nat)
    requires d > 0 && P == Mul(w, b) == Mul(fq, d) + fr && 0 < fr <= b && n < w
    ensures Mul(n + 1, fq) / P == n / d
  {
    var q, s := n / d, n % d;
    assert n == Mul(q, d) + s;
    hide Mul;
    SmallError(n, d, fq, fr, P, w, b, q);
    Below(0, q, fr);
    Commute(q, fr);
    RoundDownBy(d, fq, fr, P, q, s);
    QuotientMul(Mul(n + 1, fq), P, q, Mul(s + 1, fq) - Mul(q, fr));
  }

  lemma QuotientMul(u: int, d: nat, a: nat, r: int)
    requires u == Mul(a, d) + r && 0 <= r < d
    ensures u / d == a
  {
    Below(0, a, d);
    Quotient(u, d, a, r);
  }

  lemma RoundDownBy(d: nat, fq: nat, fr: nat, P: nat, q: nat, s: nat)
    requires P == Mul(fq, d) + fr && 0 < fr && s < d
    ensures Mul(Mul(q, d) + s + 1, fq) == Mul(q, P) + (Mul(s + 1, fq) - Mul(q, fr)) && fq <= Mul(s + 1, fq) < P
  {
    hide Mul;
    Spread(Mul(q, d), s + 1, fq);
    Swap(q, d, fq);
    Spread(Mul(fq, d), fr, q);
    Commute(P, q);
    Commute(Mul(fq, d), q);
    Commute(fr, q);
    Commute(d, fq);
    Below(1, s + 1, fq);
    Below(s + 1, d, fq);
  }

  lemma SmallError(n: nat, d: nat, fq: nat, fr: nat, P: nat, w: nat, b: nat, q: nat)
    requires d > 0 && P == Mul(w, b) == Mul(fq, d) + fr && 0 < fr <= b && n < w && Mul(q, d) <= n
    ensures Mul(q, fr) <= fq
  {
    hide Mul;
    Below(n, w, fr);
    Below(fr, b, w);
    Commute(fr, w);
    Commute(b, w);
    Below(Mul(q, d), n, fr);
    Swap(q, d, fr);
    Swap(q, fr, d);
    Commute(fr, d);
    Below(fq + 1, Mul(q, fr), d);
    Spread(fq, 1, d);
  }

  /** Fraction above a half: rounded up. */
  lemma RoundUp(n: nat, d: nat, f: nat, e: nat, P: nat, w: nat, b: nat)
    requires d > 0 && P == Mul(w, b) && Mul(f, d) == P + e && e < b && n < w
    ensures Mul(n, f) / P == n / d
  {
    var q, s := n / d, n % d;
    assert n == Mul(q, d) + s;
    hide Mul;
    Spread(Mul(q, d), s, f);
    Swap(q, d, f);
    Spread(P, e, q);
    Commute(P, q);
    Commute(e, q);
    Commute(P + e, q);
    Below(0, q, e);
    Below(0, s, f);
    ExcessBelow(n, d, f, e, P, w, b, q, s);
    QuotientMul(Mul(n, f), P, q, Mul(q, e) + Mul(s, f));
  }

  lemma ExcessBelow(n: nat, d: nat, f: nat, e: nat, P: nat, w: nat, b: nat, q: nat, s: nat)
    requires P == Mul(w, b) && Mul(f, d) == P + e && e < b && n < w && n == Mul(q, d) + s && s < d
    ensures Mul(q, e) + Mul(s, f) < P
  {
    hide Mul;
    var y := Mul(q, e) + Mul(s, f);
    ExcessTimes(n, d, f, e, P, q, s);
    Below(n, w, e);
    Below(e, b, w);
    Commute(e, w);
    Commute(b, w);
    Below(0, w, 1);
    Below(s, d, P);
    Commute(d, P);
    Below(P, y, d);
  }

  lemma ExcessTimes(n: nat, d: nat, f: nat, e: nat, P: nat, q: nat, s: nat)
    requires Mul(f, d) == P + e && n == Mul(q, d) + s
    ensures Mul(Mul(q, e) + Mul(s, f), d) == Mul(n, e) + Mul(s, P)
  {
    hide Mul;
    Spread(Mul(q, e), Mul(s, f), d);
    Swap(q, e, d);
    Swap(q, d, e);
    Commute(d, e);
    Swap(s, f, d);
    Commute(f, d);
    Spread(P, e, s);
    Commute(P, s);
    Commute(e, s);
    Commute(P + e, s);
    Spread(Mul(q, d), s, e);
  }

  /** The reciprocal fits in a word: it is below w. */
  lemma Fits(d: nat, f: nat, P: nat, w: nat, b: nat, e: nat)
    requires P == Mul(w, b) && Mul(f, d) <= P + e && e < w && (if e == 0 then b <= d && Mul(f, d) < P else b < d)
    ensures f < w
  {
    hide Mul;
    Below(w, f, d);
    Below(b, d, w);
    Commute(b, w);
    Commute(d, w);
  }

  /** A divisor of a power of two is one. */
  lemma {:induction false} DividesPower(d: nat, q: nat, r: nat, b: nat)
    requires Mul(q, d) == Pow2(r) && Pow2(b) <= d < Pow2(b + 1)
    ensures d == Pow2(b)
    decreases r
  {
    hide Mul;
    if d == 1 {
    } else if r == 0 {
      Below(1, q, d);
      Below(0, q, d);
    } else if d % 2 == 0 {
      Spread(d / 2, d / 2, q);
      Commute(q, d);
      Commute(q, d / 2);
      DividesPower(d / 2, q, r - 1, b - 1);
    } else {
      Odd(q, d);
      Spread(q / 2, q / 2, d);
      DividesPower(d, q / 2, r - 1, b);
    }
  }

  lemma Odd(q: int, d: int)
    requires d % 2 == 1 && Mul(q, d) % 2 == 0
    ensures q % 2 == 0
  {
    hide Mul;
    Commute(q, d);
    Spread(d / 2, d / 2, q);
    Spread(d / 2 + d / 2, 1, q);
    Positive(1, 0);
    OneTimes(q);
  }

  lemma OneTimes(q: int)
    ensures Mul(1, q) == q
  {
  }

  // ----- flss

  // Find the highest bit in an integer through binary search.  The masks are the top bits of a 16-bit v, so that
  // each test asks whether v is below a power of two, and no shift loses a bit.
  method Flss(val: nat) returns (bit: nat)
    requires val < 0x10000
    ensures if val == 0 then bit == 0 else 1 <= bit <= 16 && Pow2(bit - 1) <= val < Pow2(bit)
  {
    hide Shl, Pow2;
    bit := 16;
    if val == 0 {
      return 0;
    }
    var v := val;
    ShiftsSmall(val, 0);
    if v < 0x100 {  // !(val & 0xff00)
      bit := bit - 8;
      v := v * 0x100;
    }
    assert Shl(val, 16 - bit) == v && 0x100 <= v < 0x10000 && 8 <= bit <= 16;
    ShiftsSmall(val, 16 - bit);
    if v < 0x1000 {  // !(val & 0xf000)
      bit := bit - 4;
      v := v * 0x10;
    }
    assert Shl(val, 16 - bit) == v && 0x1000 <= v < 0x10000 && 4 <= bit <= 16;
    ShiftsSmall(val, 16 - bit);
    if v < 0x4000 {  // !(val & 0xc000)
      bit := bit - 2;
      v := v * 0x4;
    }
    assert Shl(val, 16 - bit) == v && 0x4000 <= v < 0x10000 && 2 <= bit <= 16;
    ShiftsSmall(val, 16 - bit);
    if v < 0x8000 {  // !(val & 0x8000)
      bit := bit - 1;
      v := v * 0x2;
    }
    HighBit(val, 16 - bit);
  }

  lemma ShiftsSmall(x: int, k: nat)
    ensures Shl(x, 0) == x && Shl(x, 8) == 0x100 * x
    ensures Shl(x, k + 1) == 2 * Shl(x, k) && Shl(x, k + 2) == 4 * Shl(x, k) && Shl(x, k + 4) == 16 * Shl(x, k)
  {
    ShlEight(x);
    assert Shl(x, k + 4) == 2 * Shl(x, k + 3) == 4 * Shl(x, k + 2);
  }

  lemma HighBit(x: int, k: nat)
    requires k <= 15 && 0x8000 <= Shl(x, k) < 0x10000
    ensures Pow2(15 - k) <= x < Pow2(16 - k)
  {
    assert Pow2(8) == 0x100 && Pow2(15) == 0x8000 && Pow2(16) == 0x10000 by {
      ShlEight(1);
      ShiftsSmall(1, 8);
      ShiftsSmall(1, 10);
      ShiftsSmall(1, 12);
      ShiftsSmall(1, 14);
      ShiftsSmall(1, 15);
    }
    hide Shl, Pow2;
    ShlShl(1, 15 - k, k);
    ShlShl(1, 16 - k, k);
    ShlMonotonic(Pow2(15 - k), x, k);
    ShlMonotonic(Pow2(16 - k), x, k);
  }

  // ----- compute_reciprocal

  lemma ScaledIs(x: nat, d: nat, recip: nat, corr: nat, n: nat, W: nat)
    requires x <= MAX_COEF && 2 <= d < 0x10000 && (W == 16 || W == 32) && recip < Pow2(W) && corr <= 0x8000
    requires Mul(x + corr, recip) / Pow2(n) == (x + d / 2) / d
    ensures Scaled(x, recip, corr, n, W) == Quantized(x, d)
  {
    Words();
    hide Mul, Shl, Pow2;
    var p, y := Pow2(W), x + corr;
    assert y < p;
    Below(y, p, recip);
    Below(recip, p, p);
    Below(0, y, recip);
    Commute(recip, p);
    Pow2Add(W, W);
    assert Mul(y, recip) < Mul(p, p) == Pow2(2 * W) by { assert Mul(p, p) == p * p by { IsProduct(p, p); } }
    Quotient(Mul(y, recip), Pow2(2 * W), 0, Mul(y, recip));
    IsProduct(y, recip);
    assert Scaled(x, recip, corr, n, W) == Signed((x + d / 2) / d, W);
    QuotientSmall(x + d / 2, d);
    SignedUnsigned((x + d / 2) / d, W);
  }

  lemma IsProduct(a: int, b: int)
    ensures Mul(a, b) == a * b
  {
  }

  lemma QuotientSmall(n: nat, d: nat)
    requires d >= 2 && n < 0x10000
    ensures n / d < 0x8000
  {
    Below(0x8000, n / d, d);
    Below(2, d, 0x8000);
    assert Mul(n / d, d) == n - n % d;
    Commute(d, 0x8000);
  }

  lemma Words()
    ensures Pow2(15) == 0x8000 && Pow2(16) == 0x10000 && Pow2(31) == 0x8000_0000 && Pow2(32) == 0x1_0000_0000
  {
    ShlEight(1);
    ShiftsSmall(1, 8);
    ShiftsSmall(1, 10);
    ShiftsSmall(1, 12);
    ShiftsSmall(1, 14);
    Pow2Add(16, 15);
    Pow2Add(16, 16);
  }

  lemma IsDivided(p: nat, d: nat)
    requires d > 0
    ensures p == Mul(p / d, d) + p % d && 0 <= p % d < d && p / d >= 0
  {
  }

  /** Divisor a power of two. */
  lemma NoFraction(d: nat, b: nat, W: nat, fq: nat)
    requires 2 <= d < 0x10000 && (W == 16 || W == 32) && b <= 15 && Pow2(b) <= d < 2 * Pow2(b)
    requires Pow2(W + b) == Mul(Pow2(W), Pow2(b)) == Mul(fq, d)
    ensures b >= 1 && fq / 2 < Pow2(W) && Divides(d, fq / 2, d / 2, W + b - 1, W)
  {
    hide Mul, Divides, Scaled, Quantized, Shl, Pow2;
    HalfUp(b, W);
    DividesPower(d, fq, W + b, b);
    SameFactor(fq, Pow2(W), d);
    HalfPower(d, b, W, Pow2(W - 1));
  }

  lemma HalfUp(b: nat, W: nat)
    ensures Pow2(b + 1) == 2 * Pow2(b) && (Pow2(b) >= 2 ==> b >= 1) && (W >= 1 ==> Pow2(W) == 2 * Pow2(W - 1) > Pow2(W - 1))
  {
  }

  lemma SameFactor(x: nat, y: nat, d: nat)
    requires d > 0 && Mul(x, d) == Mul(y, d)
    ensures x == y
  {
    hide Mul;
    Below(x, y, d);
    Below(y, x, d);
  }

  lemma HalfPower(d: nat, b: nat, W: nat, h: nat)
    requires 2 <= d < 0x10000 && (W == 16 || W == 32) && 1 <= b <= 15 && d == Pow2(b) && h == Pow2(W - 1) < Pow2(W)
    ensures Divides(d, h, d / 2, W + b - 1, W)
  {
    hide Mul, Divides, Scaled, Quantized, Shl, Pow2;
    Pow2Add(W - 1, b);
    IsProduct(h, d);
    forall x: nat | x <= MAX_COEF
      ensures Scaled(x, h, d / 2, W + b - 1, W) == Quantized(x, d)
    {
      ShiftedQuotient(x + d / 2, h, d);
      ScaledIs(x, d, h, d / 2, W + b - 1, W);
    }
    IsDivision(d, h, d / 2, W + b - 1, W);
  }

  lemma IsDivision(d: nat, recip: nat, corr: nat, n: nat, W: nat)
    requires W >= 1 && d >= 1 && forall x: nat :: x <= MAX_COEF ==> Scaled(x, recip, corr, n, W) == Quantized(x, d)
    ensures Divides(d, recip, corr, n, W)
  {
  }

  lemma ShiftedQuotient(n: nat, h: nat, d: nat)
    requires d > 0 && h > 0
    ensures Mul(h, d) > 0 && Mul(n, h) / Mul(h, d) == n / d
  {
    var q, s := n / d, n % d;
    assert n == Mul(q, d) + s;
    hide Mul;
    Spread(Mul(q, d), s, h);
    Swap(q, d, h);
    Below(s, d, h);
    Below(0, s, h);
    Commute(d, h);
    Below(1, d, h);
    QuotientMul(Mul(n, h), Mul(h, d), q, Mul(s, h));
  }

  /** Fractional part below a half. */
  lemma RoundedDown(d: nat, b: nat, W: nat, p: nat, fq: nat, fr: nat)
    requires 2 <= d < 0x10000 && (W == 16 || W == 32) && Pow2(b) <= d < 2 * Pow2(b) && 0 < fr <= d / 2
    requires p == Pow2(W + b) == Mul(Pow2(W), Pow2(b)) == Mul(fq, d) + fr && Pow2(W) >= 0x10000
    ensures fq < Pow2(W) && Divides(d, fq, d / 2 + 1, W + b, W)
  {
    hide Mul, Divides, Scaled, Quantized, Shl, Pow2;
    Fits(d, fq, p, Pow2(W), Pow2(b), 0);
    forall x: nat | x <= MAX_COEF
      ensures Scaled(x, fq, d / 2 + 1, W + b, W) == Quantized(x, d)
    {
      RoundDown(x + d / 2, d, fq, fr, p, Pow2(W), Pow2(b));
      ScaledIs(x, d, fq, d / 2 + 1, W + b, W);
    }
    IsDivision(d, fq, d / 2 + 1, W + b, W);
  }

  /** Fractional part above a half. */
  lemma RoundedUp(d: nat, b: nat, W: nat, p: nat, fq: nat, fr: nat)
    requires 2 <= d < 0x10000 && (W == 16 || W == 32) && Pow2(b) <= d < 2 * Pow2(b) && d / 2 < fr < d
    requires p == Pow2(W + b) == Mul(Pow2(W), Pow2(b)) == Mul(fq, d) + fr && Pow2(W) >= 0x10000
    ensures fq + 1 < Pow2(W) && Divides(d, fq + 1, d / 2, W + b, W)
  {
    hide Mul, Divides, Scaled, Quantized, Shl, Pow2;
    NotPower(d, b, p, Pow2(W), fq, fr);
    Spread(fq, 1, d);
    Below(0, 0, d);
    Fits(d, fq + 1, p, Pow2(W), Pow2(b), d - fr);
    forall x: nat | x <= MAX_COEF
      ensures Scaled(x, fq + 1, d / 2, W + b, W) == Quantized(x, d)
    {
      RoundUp(x + d / 2, d, fq + 1, d - fr, p, Pow2(W), Pow2(b));
      ScaledIs(x, d, fq + 1, d / 2, W + b, W);
    }
    IsDivision(d, fq + 1, d / 2, W + b, W);
  }

  lemma NotPower(d: nat, b: nat, p: nat, w: nat, fq: nat, fr: nat)
    requires p == Mul(w, Pow2(b)) == Mul(fq, d) + fr && 0 < fr < d
    ensures d != Pow2(b)
  {
    hide Mul;
    if d == Pow2(b) {
      Below(w, fq, d);
      Below(fq + 1, w, d);
      Spread(fq, 1, d);
      Below(0, 0, d);
    }
  }

  /** Shift count n and the other two values, as they are stored for coefficient i. */
  ghost predicate Stored(dtbl: seq<int>, i: nat, d: nat, W: nat)
    requires |dtbl| == 4 * DCTSIZE2 && i < DCTSIZE2
  {
    && W >= 1 && dtbl[i + DCTSIZE2 * 3] + W >= 0
    && Divides(d, Unsigned(dtbl[i], W), Unsigned(dtbl[i + DCTSIZE2], W), dtbl[i + DCTSIZE2 * 3] + W, W)
  }

  // Compute values to do a division using reciprocal.
  method ComputeReciprocal(divisor: nat, dtbl: array<int>, i: nat, W: nat)
    requires 1 <= divisor < 0x10000 && (W == 16 || W == 32) && dtbl.Length == 4 * DCTSIZE2 && i < DCTSIZE2
    modifies dtbl
    ensures Stored(dtbl[..], i, divisor, W)
    ensures forall k :: 0 <= k < dtbl.Length && k % DCTSIZE2 != i ==> dtbl[k] == old(dtbl[k])
  {
    hide Divides, Pow2, Shl, Mul, Signed, Unsigned, Scaled;
    Words();
    if divisor == 1 {
      // divisor == 1 means unquantized, so these values act like the identity function.
      dtbl[i] := 1;
      dtbl[i + DCTSIZE2] := 0;
      dtbl[i + DCTSIZE2 * 2] := 1;
      dtbl[i + DCTSIZE2 * 3] := -(W as int);
      Unquantized(W);
      return;
    }
    var recip, corr, r := Reciprocal(divisor, W);
    dtbl[i] := Signed(recip, W);
    dtbl[i + DCTSIZE2] := Signed(corr, W);
    dtbl[i + DCTSIZE2 * 2] := 1;
    dtbl[i + DCTSIZE2 * 3] := r - W;
    SignedUnsigned(recip, W);
    SignedUnsigned(corr, W);
  }

  lemma Unquantized(W: nat)
    requires W == 16 || W == 32
    ensures Unsigned(1, W) == 1 && Unsigned(0, W) == 0 && Divides(1, 1, 0, 0, W)
  {
    Words();
    hide Pow2, Shl;
    Pow2Add(W, W);
    assert Pow2(0) == 1 by { Pow2Add(0, 0); }
    var p := Pow2(2 * W);
    Multiple(Pow2(W), Pow2(W));
    assert p >= 0x10000;
    forall x: nat | x <= MAX_COEF
      ensures Scaled(x, 1, 0, 0, W) == Quantized(x, 1)
    {
      Quotient((x + 0) * 1, p, 0, x);
      SignedUnsigned(x, W);
    }
  }

  method Reciprocal(divisor: nat, W: nat) returns (fq: nat, c: nat, r: nat)
    requires 2 <= divisor < 0x10000 && (W == 16 || W == 32)
    ensures fq < Pow2(W) && c <= 0x8000 && r <= W + 15 && Divides(divisor, fq, c, r, W)
  {
    hide Divides, Pow2, Shl, Mul;
    var bits := Flss(divisor);
    var b := bits - 1;
    r := W + b;
    Words();
    HalfUp(b, W);
    Pow2Add(W, b);
    IsProduct(Pow2(W), Pow2(b));
    IsDivided(Pow2(r), divisor);
    ghost var p := Pow2(r);
    fq := Pow2(r) / divisor;
    var fr := Pow2(r) % divisor;
    c := divisor / 2;  // for rounding
    if fr == 0 {  // divisor is power of two
      NoFraction(divisor, b, W, fq);
      // fq will be one bit too large to fit in DCTELEM, so adjust
      fq := fq / 2;
      r := r - 1;
    } else if fr <= divisor / 2 {  // fractional part is < 0.5
      RoundedDown(divisor, b, W, p, fq, fr);
      c := c + 1;
    } else {  // fractional part is > 0.5
      RoundedUp(divisor, b, W, p, fq, fr);
      fq := fq + 1;
    }
  }

  // ----- quantize

  // Quantize/descale the coefficients, and store into coef_block.
  method Quantize(coef_block: array<int>, divisors: array<int>, workspace: array<int>, W: nat, ghost steps: seq<nat>)
    requires coef_block.Length == workspace.Length == |steps| == DCTSIZE2 && divisors.Length == 4 * DCTSIZE2
    requires coef_block != divisors && coef_block != workspace && (W == 16 || W == 32)
    requires forall i :: 0 <= i < DCTSIZE2 ==> steps[i] >= 1 && Stored(divisors[..], i, steps[i], W)
    requires forall i :: 0 <= i < DCTSIZE2 ==> -MAX_COEF <= workspace[i] <= MAX_COEF
    modifies coef_block
    ensures forall i :: 0 <= i < DCTSIZE2 ==> coef_block[i] == Quantized(workspace[i], steps[i])
  {
    hide Divides, Pow2, Shl, Unsigned, Scaled, Stored, Quantized;
    var i := 0;
    while i < DCTSIZE2
      invariant 0 <= i <= DCTSIZE2 && divisors[..] == old(divisors[..]) && workspace[..] == old(workspace[..])
      invariant forall k :: 0 <= k < i ==> coef_block[k] == Quantized(workspace[k], steps[k])
    {
      coef_block[i] := QuantizeOne(workspace[i], divisors[..], i, W, steps[i]);
      i := i + 1;
    }
  }

  method QuantizeOne(coef: int, divisors: seq<int>, i: nat, W: nat, ghost d: nat) returns (temp: int)
    requires |divisors| == 4 * DCTSIZE2 && i < DCTSIZE2 && d >= 1 && Stored(divisors, i, d, W)
    requires -MAX_COEF <= coef <= MAX_COEF
    ensures temp == Quantized(coef, d)
  {
    hide Pow2, Shl, Unsigned, Scaled;
    temp := coef;
    var recip := Unsigned(divisors[i], W);
    var corr := Unsigned(divisors[i + DCTSIZE2], W);
    var shift := divisors[i + DCTSIZE2 * 3];
    if temp < 0 {
      temp := -temp;
      temp := Scaled(temp, recip, corr, shift + W, W);
      temp := -temp;
    } else {
      temp := Scaled(temp, recip, corr, shift + W, W);
    }
  }

  /** One block with the slow integer DCT: start_pass fills the divisors (eight times the quantization table),
      and each coefficient comes out divided and rounded. */
  method QuantizeBlock(quantval: seq<nat>, workspace: array<int>, W: nat) returns (block: seq<int>)
    requires |quantval| == workspace.Length == DCTSIZE2 && (W == 16 || W == 32)
    requires forall i :: 0 <= i < DCTSIZE2 ==> 1 <= quantval[i] < 0x2000
    requires forall i :: 0 <= i < DCTSIZE2 ==> -MAX_COEF <= workspace[i] <= MAX_COEF
    ensures |block| == DCTSIZE2
    ensures forall i :: 0 <= i < DCTSIZE2 ==> block[i] == Quantized(workspace[i], 8 * quantval[i])
  {
    hide Stored, Quantized;
    var dtbl := new int[4 * DCTSIZE2](_ => 0);
    var i := 0;
    while i < DCTSIZE2
      invariant 0 <= i <= DCTSIZE2
      invariant forall k :: 0 <= k < i ==> Stored(dtbl[..], k, 8 * quantval[k], W)
    {
      ghost var was := dtbl[..];
      ComputeReciprocal(8 * quantval[i], dtbl, i, W);
      forall k | 0 <= k < i
        ensures Stored(dtbl[..], k, 8 * quantval[k], W)
      {
        StillStored(was, dtbl[..], k, 8 * quantval[k], W);
      }
      i := i + 1;
    }
    var coef_block := new int[DCTSIZE2];
    Quantize(coef_block, dtbl, workspace, W, seq(DCTSIZE2, k requires 0 <= k < DCTSIZE2 => 8 * quantval[k]));
    block := coef_block[..];
  }

  lemma StillStored(was: seq<int>, dtbl: seq<int>, k: nat, d: nat, W: nat)
    requires |was| == |dtbl| == 4 * DCTSIZE2 && k < DCTSIZE2 && Stored(was, k, d, W)
    requires dtbl[k] == was[k] && dtbl[k + DCTSIZE2] == was[k + DCTSIZE2] && dtbl[k + DCTSIZE2 * 3] == was[k + DCTSIZE2 * 3]
    ensures Stored(dtbl, k, d, W)
  {
  }
}
