/** Bit strings, most significant bit first, and the numbers they denote. */
module BitStrings {
  import opened Bytes

  type Bits = seq<bool>

  function Num(s: Bits): nat {
    if s == [] then 0 else 2 * Num(s[..|s| - 1]) + (if s[|s| - 1] then 1 else 0)
  }

  function ToBits(v: nat, n: nat): (s: Bits)
    ensures |s| == n
  {
    if n == 0 then [] else ToBits(v / 2, n - 1) + [v % 2 == 1]
  }

  lemma NumSnoc(s: Bits, b: bool)
    ensures Num(s + [b]) == 2 * Num(s) + (if b then 1 else 0)
  {
    assert (s + [b])[..|s|] == s;
  }

  lemma {:induction false} NumBound(s: Bits)
    ensures Num(s) < Pow2(|s|)
  {
    if s != [] { NumBound(s[..|s| - 1]); }
  }

  lemma NumNone()
    ensures Num([]) == 0
  {
  }

  lemma {:induction false} NumToBits(v: nat, n: nat)
    requires v < Pow2(n)
    ensures Num(ToBits(v, n)) == v
  {
    hide Num;
    if n == 0 {
      NumNone();
    } else {
      NumToBits(v / 2, n - 1);
      NumSnoc(ToBits(v / 2, n - 1), v % 2 == 1);
    }
  }

  lemma {:induction false} ToBitsNum(s: Bits)
    ensures ToBits(Num(s), |s|) == s
  {
    hide Num;
    if s != [] {
      var t := s[..|s| - 1];
      ToBitsNum(t);
      NumSnoc(t, s[|s| - 1]);
      assert s == t + [s[|s| - 1]];
    }
  }

  lemma {:induction false} NumConcat(s: Bits, t: Bits)
    ensures Num(s + t) == Shl(Num(s), |t|) + Num(t)
    decreases |t|
  {
    if t == [] {
      assert s + t == s;
    } else {
      var u := t[..|t| - 1];
      NumConcat(s, u);
      assert s + t == (s + u) + [t[|t| - 1]];
      NumSnoc(s + u, t[|t| - 1]);
    }
  }

  /** Only the low n bits of a number matter. */
  lemma {:induction false} ToBitsLow(g: nat, v: nat, n: nat)
    requires v < Pow2(n)
    ensures (ShlNonNegative(g, n); ToBits(Shl(g, n) + v, n)) == ToBits(v, n)
  {
    ShlNonNegative(g, n);
    if n != 0 {
      ShlNonNegative(g, n - 1);
      ToBitsLow(g, v / 2, n - 1);
      var w := Shl(g, n) + v;
      assert w == 2 * (Shl(g, n - 1) + v / 2) + v % 2;
      assert w / 2 == Shl(g, n - 1) + v / 2 && w % 2 == v % 2;
    }
  }

  lemma ToBitsConcat(u: nat, v: nat, m: nat, n: nat, w: nat)
    requires u < Pow2(m) && v < Pow2(n) && w == Shl(u, n) + v
    ensures w < Pow2(m + n) && ToBits(w, m + n) == ToBits(u, m) + ToBits(v, n)
  {
    hide Num, ToBits, Shl, Pow2;
    var s, t := ToBits(u, m), ToBits(v, n);
    NumToBits(u, m);
    NumToBits(v, n);
    NumConcat(s, t);
    NumBound(s + t);
    ToBitsNum(s + t);
    assert |s + t| == m + n;
  }

  /** The bits of a byte string. */
  function ByteBits(s: seq<byte>): Bits {
    if s == [] then [] else ToBits(s[0], 8) + ByteBits(s[1..])
  }

  lemma {:induction false} ByteBitsConcat(s: seq<byte>, t: seq<byte>)
    ensures ByteBits(s + t) == ByteBits(s) + ByteBits(t)
  {
    if s == [] {
      assert s + t == t;
    } else {
      ByteBitsConcat(s[1..], t);
      assert (s + t)[1..] == s[1..] + t;
      Reassociate(ToBits(s[0], 8), ByteBits(s[1..]), ByteBits(t));
    }
  }

  lemma {:induction false} ByteBitsLength(s: seq<byte>)
    ensures |ByteBits(s)| == 8 * |s|
  {
    if s != [] { ByteBitsLength(s[1..]); }
  }
}
