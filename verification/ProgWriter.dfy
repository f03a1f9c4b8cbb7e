/** The bit writer of the progressive Huffman encoder: up to 7 bits wait at the top of a 24-bit field. */
module ProgWriter {
  import opened Bytes
  import opened BitStrings
  import opened BitWriter

  lemma {:induction false} OrBits(x: nat, y: nat, n: nat)
    ensures forall i :: 0 <= i < n ==> ToBits(Or(x, y), n)[i] == (ToBits(x, n)[i] || ToBits(y, n)[i])
    decreases n
  {
    if n != 0 {
      hide Or;
      OrHalf(x, y);
      OrBits(x / 2, y / 2, n - 1);
    }
  }

  lemma OrHalf(x: nat, y: nat)
    ensures Or(x, y) / 2 == Or(x / 2, y / 2) && (Or(x, y) % 2 == 1 <==> x % 2 == 1 || y % 2 == 1)
  {
  }

  function NoBits(n: nat): Bits {
    seq(n, _ => false)
  }

  lemma {:induction false} ZeroWord(n: nat)
    ensures ToBits(0, n) == NoBits(n)
  {
    if n != 0 { ZeroWord(n - 1); }
  }

  /** The top k of the 24 bits are in use, and the others are clear. */
  predicate TopAligned(word: nat, k: nat) {
    k <= 24 && ToBits(word, 24)[k..] == NoBits(24 - k)
  }

  function Top(word: nat, k: nat): Bits
    requires k <= 24
  {
    ToBits(word, 24)[..k]
  }

  /** Aligning new bits after those in use, and merging. */
  lemma MergeBits(word: nat, k: nat, code: nat, size: nat)
    requires TopAligned(word, k) && k + size <= 24 && code < Pow2(size)
    ensures Shl(code, 24 - k - size) >= 0
    ensures var w := Or(Shl(code, 24 - k - size), word);
      TopAligned(w, k + size) && Top(w, k + size) == Top(word, k) + ToBits(code, size)
  {
    hide Shl, Pow2, ToBits, Or;
    var s := 24 - k - size;
    ShlNonNegative(code, s);
    AlignedBits(code, size, k, s);
    OrBits(Shl(code, s), word, 24);
    var a, b, w := ToBits(Shl(code, s), 24), ToBits(word, 24), ToBits(Or(Shl(code, s), word), 24);
    forall i | 0 <= i < 24
      ensures w[i] == if i < k then b[i] else if i < k + size then ToBits(code, size)[i - k] else false
    {
      assert i >= k ==> b[k..][i - k] == b[i];
    }
  }

  lemma AlignedBits(code: nat, size: nat, k: nat, s: nat)
    requires k + size + s == 24 && code < Pow2(size) && Shl(code, s) >= 0
    ensures ToBits(Shl(code, s), 24) == NoBits(k) + ToBits(code, size) + NoBits(s)
  {
    hide Shl, Pow2, ToBits;
    AppendBits(code, k + size, 0, s);
    ZeroWord(s);
    ZeroWord(k);
    ShlZero(size);
    AppendBits(0, k, code, size);
  }

  /** Taking the top byte off. */
  lemma TakeByte(word: nat, k: nat)
    requires TopAligned(word, k) && k >= 8
    ensures ToBits(Shr(word, 16) % 256, 8) + Top(Shl256(word), k - 8) == Top(word, k)
    ensures TopAligned(Shl256(word), k - 8)
  {
    hide Pow2, ToBits, Shr;
    LowEight(Shr(word, 16));
    SplitBits(word, 8, 16);
    var a, b := ToBits(Shr(word, 16), 8), ToBits(word, 16);
    Shl256Bits(word);
    ZeroWord(8);
    var w, w' := a + b, b + NoBits(8);
    assert w[..k] == a + b[..k - 8];
    assert w'[..k - 8] == b[..k - 8];
    assert w'[k - 8..] == w[k..] + NoBits(8);
  }

  // put_buffer << 8, in a 64-bit word
  function Shl256(word: nat): nat {
    256 * word % Pow2(64)
  }

  lemma Shl256Bits(word: nat)
    ensures ToBits(Shl256(word), 24) == ToBits(word, 16) + ToBits(0, 8)
  {
    hide ToBits, Pow2;
    ShlEight(word);
    WrapBits(256 * word, 24, 64);
    assert 0 < Pow2(8);
    AppendBits(word, 16, 0, 8);
  }

  class Emitter {
    var put_buffer: nat
    var put_bits: nat
    var out: seq<byte>

    ghost const head: seq<byte>
    ghost var data: seq<byte>

    ghost predicate Valid()
      reads this
    {
      put_bits < 8 && TopAligned(put_buffer, put_bits) && out == head + Stuff(data)
    }

    /** All bits written so far. */
    ghost function Written(): Bits
      requires Valid()
      reads this
    {
      ByteBits(data) + Top(put_buffer, put_bits)
    }

    constructor (head: seq<byte>)
      ensures Valid() && Written() == [] && this.head == head
    {
      put_buffer, put_bits, out := 0, 0, head;
      this.head, data := head, [];
      new;
      ZeroWord(24);
      assert head + [] == head;
    }

    // A data byte, with a zero byte after 0xFF.
    method EmitByte(c: byte)
      requires out == head + Stuff(data)
      modifies `out, `data
      ensures out == head + Stuff(data) && data == old(data) + [c]
    {
      out := out + [c];
      if c == 0xFF {
        out := out + [0];
      }
      StuffSnoc(data, c);
      data := data + [c];
      Reassociate(head, Stuff(old(data)), StuffByte(c));
      if c == 0xFF { Reassociate(old(out), [c], [0]); assert [c] + [0] == StuffByte(c); }
    }

    /** emit_bits: fails, with no effect, if the size is 0 (a symbol without a code). */
    method EmitBits(code: nat, size: nat) returns (ok: bool)
      requires Valid() && size <= 16
      modifies `put_buffer, `put_bits, `out, `data
      ensures Valid() && (ok <==> size > 0)
      ensures ok ==> Written() == old(Written()) + ToBits(code, size)
      ensures !ok ==> unchanged(this)
    {
      hide Pow2, ToBits, Or, Shl, Top, TopAligned, ByteBits, Stuff;
      if size == 0 {
        return false;
      }
      ok := true;
      ghost var before := Written();
      WrapBits(code, size, size);
      var masked := code % Pow2(size);
      MergeBits(put_buffer, put_bits, masked, size);
      Reassociate(ByteBits(data), Top(put_buffer, put_bits), ToBits(code, size));
      put_buffer := Or(Shl(masked, 24 - put_bits - size), put_buffer);
      put_bits := put_bits + size;
      while put_bits >= 8
        invariant put_bits <= 24 && TopAligned(put_buffer, put_bits) && out == head + Stuff(data)
        invariant ByteBits(data) + Top(put_buffer, put_bits) == before + ToBits(code, size)
      {
        TakeByte(put_buffer, put_bits);
        ByteOut(data, Shr(put_buffer, 16) % 256);
        Reassociate(ByteBits(data), ToBits(Shr(put_buffer, 16) % 256, 8), Top(Shl256(put_buffer), put_bits - 8));
        EmitByte(Shr(put_buffer, 16) % 256);
        put_buffer := Shl256(put_buffer);
        put_bits := put_bits - 8;
      }
    }

    /** flush_bits: fill any partial byte with ones, and reset the bit buffer to empty. */
    method FlushBits()
      requires Valid()
      modifies `put_buffer, `put_bits, `out, `data
      ensures Valid() && put_bits == 0
      ensures Written() == ByteBits(data) == old(Written()) + Padding((8 - |old(Written())| % 8) % 8)
    {
      hide Pow2, ToBits, Or, Shl, TopAligned, ByteBits, Stuff;
      ghost var before := Written();
      var ok := EmitBits(0x7F, 7);
      SevenOnes();
      ByteBitsLength(data);
      Trimmed(ByteBits(data), Top(put_buffer, put_bits), before);
      assert TopAligned(0, 0) by { ZeroAligned(); }
      put_buffer, put_bits := 0, 0;
      assert ByteBits(data) + [] == ByteBits(data);
    }
  }

  lemma ZeroAligned()
    ensures TopAligned(0, 0)
  {
    ZeroWord(24);
  }

  lemma SevenOnes()
    ensures ToBits(0x7F, 7) == Padding(7)
  {
    assert Pow2(7) == 128 by { ShlEight(1); }
    AllOnes(7);
  }

  lemma WholeBytes(whole: nat, rest: nat, before: nat)
    requires whole + rest == before + 7 && whole % 8 == 0 && rest < 8
    ensures whole == before + (8 - before % 8) % 8
  {
  }

  lemma Trimmed(whole: Bits, rest: Bits, before: Bits)
    requires whole + rest == before + Padding(7) && |whole| % 8 == 0 && |rest| < 8
    ensures whole == before + Padding((8 - |before| % 8) % 8)
  {
    var n := (8 - |before| % 8) % 8;
    WholeBytes(|whole|, |rest|, |before|);
    assert whole == (whole + rest)[..|whole|];
    assert (before + Padding(7))[..|whole|] == before + Padding(n);
  }
}
