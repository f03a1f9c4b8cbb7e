/** Byte strings as numbers: left shifts, the big-endian value of a string, the fraction it denotes
    after an implied binary point, and the 0xFF/0x00 stuffing of JPEG entropy-coded data. */
module Bytes {

  type byte = x: int | 0 <= x < 256

  // ----- Shifts.  Both are defined by doubling, so that reasoning about them stays linear.

  /** x << n, on unbounded integers. */
  function Shl(x: int, n: nat): int {
    if n == 0 then x else 2 * Shl(x, n - 1)
  }

  /** x * 2^n, on reals. */
  function Scale(x: real, n: nat): real {
    if n == 0 then x else 2.0 * Scale(x, n - 1)
  }

  lemma {:induction false} ShlAdd(x: int, y: int, n: nat)
    ensures Shl(x + y, n) == Shl(x, n) + Shl(y, n)
  {
    if n != 0 { ShlAdd(x, y, n - 1); }
  }

  lemma {:induction false} ShlShl(x: int, m: nat, n: nat)
    ensures Shl(Shl(x, m), n) == Shl(x, m + n)
    decreases n
  {
    if n != 0 { ShlShl(x, m, n - 1); }
  }

  lemma {:induction false} ShlMonotonic(x: int, y: int, n: nat)
    ensures x <= y <==> Shl(x, n) <= Shl(y, n)
  {
    if n != 0 { ShlMonotonic(x, y, n - 1); }
  }

  lemma {:induction false} ShlZero(n: nat)
    ensures Shl(0, n) == 0
  {
    if n != 0 { ShlZero(n - 1); }
  }

  lemma {:induction false} ShlNonNegative(x: int, n: nat)
    requires x >= 0
    ensures Shl(x, n) >= x
  {
    if n != 0 { ShlNonNegative(x, n - 1); }
  }

  lemma {:induction false} ScaleAdd(x: real, y: real, n: nat)
    ensures Scale(x + y, n) == Scale(x, n) + Scale(y, n)
  {
    if n != 0 { ScaleAdd(x, y, n - 1); }
  }

  lemma {:induction false} ScaleScale(x: real, m: nat, n: nat)
    ensures Scale(Scale(x, m), n) == Scale(x, m + n)
    decreases n
  {
    if n != 0 { ScaleScale(x, m, n - 1); }
  }

  lemma {:induction false} ScaleInt(x: int, n: nat)
    ensures Scale(x as real, n) == Shl(x, n) as real
  {
    if n != 0 { ScaleInt(x, n - 1); }
  }

  lemma {:induction false} ScaleMonotonic(x: real, y: real, n: nat)
    ensures x <= y <==> Scale(x, n) <= Scale(y, n)
  {
    if n != 0 { ScaleMonotonic(x, y, n - 1); }
  }

  lemma ShlByte(x: int, n: nat)
    ensures Shl(x, n + 8) == Shl(256 * x, n) == 256 * Shl(x, n)
  {
    ShlEight(Shl(x, n));
    ShlEight(x);
    ShlShl(x, n, 8);
    ShlShl(x, 8, n);
  }

  lemma ShlEight(x: int)
    ensures Shl(x, 8) == 256 * x
  {
    assert Shl(x, 2) == 2 * Shl(x, 1) == 4 * x;
    assert Shl(x, 4) == 2 * Shl(x, 3) == 4 * Shl(x, 2);
    assert Shl(x, 8) == 2 * Shl(x, 7) == 4 * Shl(x, 6) == 16 * Shl(x, 4);
  }

  lemma ScaleByte(x: real, n: nat)
    ensures Scale(x, n + 8) == Scale(256.0 * x, n) == 256.0 * Scale(x, n)
  {
    ScaleEight(Scale(x, n));
    ScaleEight(x);
    ScaleScale(x, n, 8);
    ScaleScale(x, 8, n);
  }

  lemma ScaleEight(x: real)
    ensures Scale(x, 8) == 256.0 * x
  {
    assert Scale(x, 2) == 2.0 * Scale(x, 1) == 4.0 * x;
    assert Scale(x, 4) == 2.0 * Scale(x, 3) == 4.0 * Scale(x, 2);
    assert Scale(x, 8) == 2.0 * Scale(x, 7) == 4.0 * Scale(x, 6) == 16.0 * Scale(x, 4);
  }

  function Pow2(n: nat): (p: nat)
    ensures p == Shl(1, n) && p >= 1
  {
    if n == 0 then 1 else 2 * Pow2(n - 1)
  }

  lemma {:induction false} Pow2Below(i: nat, n: nat)
    requires i <= n
    ensures Pow2(i) <= Pow2(n) && (i < n ==> Pow2(i) < Pow2(n))
    decreases n
  {
    if i < n { Pow2Below(i, n - 1); }
  }

  lemma {:induction false} Pow2Add(m: nat, n: nat)
    ensures Pow2(m + n) == Pow2(m) * Pow2(n)
    decreases n
  {
    hide Shl;
    if n != 0 {
      Pow2Add(m, n - 1);
      assert 2 * (Pow2(m) * Pow2(n - 1)) == Pow2(m) * (2 * Pow2(n - 1));
    }
  }

  lemma Quotient(u: nat, d: nat, a: nat, r: nat)
    requires u == a * d + r && r < d
    ensures u / d == a && u % d == r
  {
    Multiple(u / d - a, d);
    assert (u / d - a) * d == r - u % d;
  }

  lemma Multiple(x: int, d: int)
    requires d >= 0
    ensures x >= 1 ==> x * d >= d
    ensures x <= -1 ==> x * d <= -d
  {
  }

  lemma {:induction false} ShlIsProduct(x: int, n: nat)
    ensures Shl(x, n) == x * Pow2(n)
  {
    if n != 0 {
      ShlIsProduct(x, n - 1);
      assert 2 * (x * Pow2(n - 1)) == x * (2 * Pow2(n - 1));
    }
  }

  /** Shifting right what was shifted left. */
  lemma ShlQuotient(x: nat, y: nat, n: nat, w: nat)
    requires y < Pow2(n) && w == Shl(x, n) + y
    ensures w / Pow2(n) == x && w % Pow2(n) == y
  {
    hide Shl, Pow2;
    ShlIsProduct(x, n);
    Quotient(w, Pow2(n), x, y);
  }

  // ----- The value of a byte string

  /** Big-endian value of a byte string. */
  function Value(s: seq<byte>): nat {
    if s == [] then 0 else 256 * Value(s[..|s| - 1]) + s[|s| - 1]
  }

  lemma ValueSnoc(s: seq<byte>, b: byte)
    ensures Value(s + [b]) == 256 * Value(s) + b
  {
    assert (s + [b])[..|s|] == s;
  }

  function Repeat(b: byte, n: nat): (s: seq<byte>)
    ensures |s| == n && forall i :: 0 <= i < n ==> s[i] == b
  {
    seq(n, _ => b)
  }

  lemma AppendRepeat(s: seq<byte>, b: byte, n: nat)
    ensures s + Repeat(b, n + 1) == (s + Repeat(b, n)) + [b]
    ensures s + Repeat(b, n + 1) == (s + [b]) + Repeat(b, n)
    ensures s + Repeat(b, 0) == s
  {
  }

  lemma {:induction false} ValueZeros(s: seq<byte>, n: nat)
    ensures Value(s + Repeat(0, n)) == Shl(Value(s), 8 * n)
  {
    if n == 0 {
      AppendRepeat(s, 0, 0);
    } else {
      ValueZeros(s, n - 1);
      AppendRepeat(s, 0, n - 1);
      ValueSnoc(s + Repeat(0, n - 1), 0);
      ShlByte(Value(s), 8 * (n - 1));
    }
  }

  /** A tail of 0xFF bytes is one short of a carry out of it. */
  lemma {:induction false} ValueOnes(s: seq<byte>, n: nat)
    ensures Value(s + Repeat(0xFF, n)) + 1 == Shl(Value(s) + 1, 8 * n)
  {
    if n == 0 {
      AppendRepeat(s, 0xFF, 0);
    } else {
      ValueOnes(s, n - 1);
      AppendRepeat(s, 0xFF, n - 1);
      ValueSnoc(s + Repeat(0xFF, n - 1), 0xFF);
      ShlByte(Value(s) + 1, 8 * (n - 1));
    }
  }

  /** The fraction 0.s in base 256. */
  function Fraction(s: seq<byte>): (r: real)
    ensures 0.0 <= r < 1.0
  {
    if s == [] then 0.0 else (s[0] as real + Fraction(s[1..])) / 256.0
  }

  /** Appending a byte moves the fraction by that byte at the new last place. */
  lemma {:induction false} FractionSnoc(s: seq<byte>, b: byte)
    ensures Scale(Fraction(s + [b]), 8 * |s| + 8) == Scale(Fraction(s), 8 * |s| + 8) + b as real
  {
    if s == [] {
      assert s + [b] == [b] && [b][1..] == [];
      ScaleEight(Fraction([b]));
      ScaleEight(0.0);
    } else {
      FractionSnoc(s[1..], b);
      FractionStep(s, 8 * |s|);
      FractionStep(s + [b], 8 * |s|);
      assert (s + [b])[1..] == s[1..] + [b];
    }
  }

  lemma FractionStep(s: seq<byte>, n: nat)
    requires s != []
    ensures Scale(Fraction(s), n + 8) == Scale(s[0] as real, n) + Scale(Fraction(s[1..]), n)
  {
    ScaleByte(Fraction(s), n);
    ScaleAdd(s[0] as real, Fraction(s[1..]), n);
  }

  lemma {:induction false} FractionIsValue(s: seq<byte>)
    ensures Scale(Fraction(s), 8 * |s|) == Value(s) as real
  {
    if s != [] {
      var t, b := s[..|s| - 1], s[|s| - 1];
      assert s == t + [b];
      FractionIsValue(t);
      FractionSnoc(t, b);
      ScaleByte(Fraction(t), 8 * |t|);
    }
  }

  lemma {:induction false} FractionZeros(s: seq<byte>, n: nat)
    ensures Fraction(s + Repeat(0, n)) == Fraction(s)
    decreases |s|, n
  {
    if s != [] {
      assert (s + Repeat(0, n))[1..] == s[1..] + Repeat(0, n);
      FractionZeros(s[1..], n);
    } else if n == 0 {
      assert s + Repeat(0, 0) == s;
    } else {
      assert (s + Repeat(0, n))[1..] == s + Repeat(0, n - 1);
      FractionZeros(s, n - 1);
    }
  }

  // ----- Byte stuffing

  function StuffByte(b: byte): seq<byte> {
    if b == 0xFF then [0xFF, 0] else [b]
  }

  /** Entropy-coded data as it appears in the file: each 0xFF is followed by a zero byte. */
  function Stuff(s: seq<byte>): seq<byte> {
    if s == [] then [] else StuffByte(s[0]) + Stuff(s[1..])
  }

  lemma {:induction false} StuffConcat(s: seq<byte>, t: seq<byte>)
    ensures Stuff(s + t) == Stuff(s) + Stuff(t)
  {
    if s == [] {
      assert s + t == t;
    } else {
      StuffConcat(s[1..], t);
      assert (s + t)[1..] == s[1..] + t;
      Reassociate(StuffByte(s[0]), Stuff(s[1..]), Stuff(t));
    }
  }

  lemma StuffSnoc(s: seq<byte>, b: byte)
    ensures Stuff(s + [b]) == Stuff(s) + StuffByte(b)
  {
    StuffConcat(s, [b]);
    assert [b][1..] == [];
    assert Stuff([b]) == StuffByte(b) + [];
  }

  // ----- Sequences

  lemma Reassociate<T>(a: seq<T>, b: seq<T>, c: seq<T>)
    ensures (a + b) + c == a + (b + c)
    ensures [] + b + c == b + c
  {
    assert [] + b == b;
  }
}
