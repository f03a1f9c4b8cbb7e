/** The 64-bit buffered bit writer of the Huffman encoder. */
module BitWriter {
  import opened Bytes
  import opened BitStrings

  const BIT_BUF_SIZE := 64

  // ----- Words as bytes

  /** The low n bytes of a word, most significant first. */
  function BytesOf(x: nat, n: nat): (s: seq<byte>)
    ensures |s| == n
  {
    if n == 0 then [] else BytesOf(x / 256, n - 1) + [x % 256]
  }

  // 0x01...01, n bytes
  function Ones(n: nat): nat {
    if n == 0 then 0 else 256 * Ones(n - 1) + 1
  }

  /** x & 0x80...80 & ~(x + 0x01...01), on n bytes: is there a byte whose top bit is set in x and clear
      in the sum? */
  predicate MaskTest(x: nat, n: nat) {
    TopBitCleared(BytesOf(x, n), BytesOf(x + Ones(n), n))
  }

  predicate TopBitCleared(s: seq<byte>, t: seq<byte>) {
    exists i :: 0 <= i < |s| && i < |t| && s[i] >= 0x80 && t[i] < 0x80
  }

  lemma NoBytes(x: nat, y: nat)
    ensures !TopBitCleared(BytesOf(x, 0), BytesOf(y, 0)) && 0xFF !in BytesOf(x, 0)
    ensures BytesOf(x + Ones(0) + y, 0) == BytesOf(y, 0)
  {
  }

  lemma TopBitSnoc(s: seq<byte>, t: seq<byte>, a: byte, b: byte)
    requires |s| == |t|
    ensures TopBitCleared(s + [a], t + [b]) <==> TopBitCleared(s, t) || (a >= 0x80 && b < 0x80)
  {
    var u, v := s + [a], t + [b];
    if a >= 0x80 && b < 0x80 {
      assert u[|s|] >= 0x80 && v[|s|] < 0x80;
    }
    if i :| 0 <= i < |s| && s[i] >= 0x80 && t[i] < 0x80 {
      assert u[i] >= 0x80 && v[i] < 0x80;
    }
  }

  /** With a carry into the lowest byte, the test finds a 0xFF byte, or 0xFE as the lowest one. */
  lemma {:induction false} CarryTest(x: nat, n: nat, c: nat)
    requires c <= 1
    ensures TopBitCleared(BytesOf(x, n), BytesOf(x + Ones(n) + c, n)) <==>
      0xFF in BytesOf(x, n) || (c == 1 && n > 0 && x % 256 == 0xFE)
  {
    hide TopBitCleared;
    if n == 0 {
      NoBytes(x, c);
    } else {
      var y := x + Ones(n) + c;
      var d := (x % 256 + 1 + c) / 256;
      assert y == 256 * (x / 256 + Ones(n - 1) + d) + (x % 256 + 1 + c) % 256;
      assert y % 256 == (x % 256 + 1 + c) % 256 && y / 256 == x / 256 + Ones(n - 1) + d;
      CarryTest(x / 256, n - 1, d);
      TopBitSnoc(BytesOf(x / 256, n - 1), BytesOf(y / 256, n - 1), x % 256, y % 256);
    }
  }

  /** The mask test of FLUSH is exact: it is positive if and only if some byte is 0xFF. */
  lemma MaskTestExact(x: nat, n: nat)
    ensures MaskTest(x, n) <==> 0xFF in BytesOf(x, n)
  {
    CarryTest(x, n, 0);
  }

  lemma {:induction false} NothingToStuff(s: seq<byte>)
    requires 0xFF !in s
    ensures Stuff(s) == s
  {
    if s != [] {
      assert s[0] in s;
      NothingToStuff(s[1..]);
    }
  }

  /** The bytes of a word spell its bits. */
  lemma {:induction false} BytesSpell(x: nat, n: nat)
    ensures ByteBits(BytesOf(x, n)) == ToBits(x, 8 * n)
  {
    if n > 0 {
      BytesSpell(x / 256, n - 1);
      ByteBitsConcat(BytesOf(x / 256, n - 1), [x % 256]);
      assert [x % 256][1..] == [];
      assert ByteBits([x % 256]) == ToBits(x % 256, 8) + [];
      LowByte(x, 8 * (n - 1));
    }
  }

  lemma LowByte(x: nat, n: nat)
    ensures ToBits(x, n + 8) == ToBits(x / 256, n) + ToBits(x % 256, 8)
  {
    SplitBits(x, n, 8);
    ShlEight(x / 256);
    assert Pow2(8) == 256 by { ShlEight(1); }
    ToBitsLow(x / 256, x % 256, 8);
    ShrShl(x / 256, x % 256, 8);
  }

  // ----- Shifts of a word

  /** x >> n */
  function Shr(x: nat, n: nat): nat {
    if n == 0 then x else Shr(x / 2, n - 1)
  }

  lemma {:induction false} ShrShl(x: nat, y: nat, n: nat)
    requires y < Pow2(n)
    ensures Shl(x, n) >= 0 && Shr(Shl(x, n) + y, n) == x
  {
    if n != 0 {
      ShrShl(x, y / 2, n - 1);
      assert (Shl(x, n) + y) / 2 == Shl(x, n - 1) + y / 2;
    }
  }

  /** The high and the low bits of a number. */
  lemma {:induction false} SplitBits(x: nat, m: nat, n: nat)
    ensures ToBits(x, m + n) == ToBits(Shr(x, n), m) + ToBits(x, n)
    decreases n
  {
    if n == 0 {
      assert ToBits(x, m) + [] == ToBits(x, m);
    } else {
      SplitBits(x / 2, m, n - 1);
      Reassociate(ToBits(Shr(x, n), m), ToBits(x / 2, n - 1), [x % 2 == 1]);
    }
  }

  lemma {:induction false} ShrBound(x: nat, m: nat, n: nat)
    requires x < Pow2(m + n)
    ensures Shr(x, n) < Pow2(m)
  {
    if n != 0 { ShrBound(x / 2, m, n - 1); }
  }

  /** Appending n bits to a word appends them to its low bits. */
  lemma AppendBits(x: nat, m: nat, code: nat, n: nat)
    requires code < Pow2(n)
    ensures Shl(x, n) >= 0 && ToBits(Shl(x, n) + code, m + n) == ToBits(x, m) + ToBits(code, n)
  {
    hide Shl, ToBits, Pow2, Shr;
    ShrShl(x, code, n);
    SplitBits(Shl(x, n) + code, m, n);
    ToBitsLow(x, code, n);
  }

  /** What does not fit in a word of w bits does not matter. */
  lemma WrapBits(x: nat, n: nat, w: nat)
    requires n <= w
    ensures ToBits(x % Pow2(w), n) == ToBits(x, n)
  {
    hide Shl, ToBits, Pow2, Shr;
    var q, r := x / Pow2(w), x % Pow2(w);
    ShlIsProduct(q, w);
    ToBitsLow(q, r, w);
    SplitBits(x, w - n, n);
    SplitBits(r, w - n, n);
    assert x == Shl(q, w) + r;
    LastBits(ToBits(Shr(x, n), w - n), ToBits(x, n), ToBits(Shr(r, n), w - n), ToBits(r, n));
  }

  /** A left shift within a word of w bits. */
  lemma WrapShl(x: nat, n: nat, w: nat)
    requires n <= w
    ensures Shl(x, n) >= 0 && Shl(x, n) % Pow2(w) == Shl(x % Pow2(w - n), n)
  {
    hide Shl, Pow2;
    var q, r := x / Pow2(w - n), x % Pow2(w - n);
    ShlNonNegative(x, n);
    ShlNonNegative(r, n);
    ShlIsProduct(q, w - n);
    ShlAdd(Shl(q, w - n), r, n);
    ShlShl(q, w - n, n);
    ShlBound(r, w - n, n);
    ShlQuotient(q, Shl(r, n), w, Shl(x, n));
  }

  lemma ShlBound(x: nat, m: nat, n: nat)
    requires x < Pow2(m)
    ensures Shl(x, n) + Pow2(n) <= Pow2(m + n)
  {
    ShlMonotonic(x + 1, Pow2(m), n);
    ShlAdd(x, 1, n);
    ShlShl(1, m, n);
  }

  /** The word after (x << n) | code. */
  lemma OrIntoWord(x: nat, m: nat, code: nat, n: nat)
    requires code < Pow2(n) && m + n <= BIT_BUF_SIZE
    ensures Shl(x, n) >= 0
    ensures Or(Shl(x, n) % Pow2(BIT_BUF_SIZE), code) < Pow2(BIT_BUF_SIZE)
    ensures ToBits(Or(Shl(x, n) % Pow2(BIT_BUF_SIZE), code), m + n) == ToBits(x, m) + ToBits(code, n)
  {
    hide Shl, Pow2, ToBits, Or;
    var y := x % Pow2(BIT_BUF_SIZE - n);
    WrapShl(x, n, BIT_BUF_SIZE);
    OrShifted(y, code, n);
    ShlBound(y, BIT_BUF_SIZE - n, n);
    AppendBits(y, m, code, n);
    WrapBits(x, m, BIT_BUF_SIZE - n);
  }

  lemma {:induction false} AllOnes(n: nat)
    ensures ToBits(Pow2(n) - 1, n) == Padding(n)
  {
    if n != 0 {
      AllOnes(n - 1);
      assert (Pow2(n) - 1) / 2 == Pow2(n - 1) - 1 && (Pow2(n) - 1) % 2 == 1;
    }
  }

  function Padding(n: nat): Bits {
    seq(n, _ => true)
  }

  /** The last byte: n bits and ones after them. */
  lemma LastByte(x: nat, n: nat)
    requires 0 < n < 8
    ensures Shl(x, 8 - n) >= 0
    ensures var b := Or(Shl(x, 8 - n) % 256, Shr(0xFF, n));
      b < 256 && ToBits(b, 8) == ToBits(x, n) + Padding(8 - n)
  {
    hide Shl, Pow2, ToBits, Or, Shr;
    var y, m := x % Pow2(n), 8 - n;
    assert Pow2(8) == 256 by { ShlEight(1); }
    WrapShl(x, m, 8);
    OnesShifted(n);
    OrShifted(y, Pow2(m) - 1, m);
    ShlBound(y, n, m);
    AppendBits(y, n, Pow2(m) - 1, m);
    WrapBits(x, n, n);
    AllOnes(m);
  }

  lemma OnesShifted(n: nat)
    requires n <= 8
    ensures Shr(0xFF, n) == Pow2(8 - n) - 1
  {
    ShlEight(1);
    ShlShl(1, 8 - n, n);
    ShlAdd(Pow2(8 - n) - 1, 1, n);
    ShrShl(Pow2(8 - n) - 1, Pow2(n) - 1, n);
  }

  lemma LastBits(a: Bits, b: Bits, c: Bits, d: Bits)
    requires a + b == c + d && |b| == |d|
    ensures b == d
  {
    assert b == (a + b)[|a|..];
    assert d == (c + d)[|c|..];
  }

  // ----- Bitwise or

  function Or(x: nat, y: nat): nat
    decreases x + y
  {
    if x == 0 && y == 0 then 0 else 2 * Or(x / 2, y / 2) + (if x % 2 == 1 || y % 2 == 1 then 1 else 0)
  }

  lemma {:induction false} OrZero(x: nat)
    ensures Or(x, 0) == x
  {
    if x != 0 { OrZero(x / 2); }
  }

  /** Numbers without a common bit are added by or. */
  lemma {:induction false} OrShifted(x: nat, y: nat, n: nat)
    requires y < Pow2(n)
    ensures Shl(x, n) >= 0 && Or(Shl(x, n), y) == Shl(x, n) + y
  {
    if n == 0 {
      OrZero(x);
    } else {
      OrShifted(x, y / 2, n - 1);
    }
  }

  // ----- The writer

  class Writer {
    var put_buffer: nat
    var free_bits: int
    var out: seq<byte>

    ghost var head: seq<byte>
    ghost var data: seq<byte>

    ghost predicate Valid()
      reads this
    {
      put_buffer < Pow2(BIT_BUF_SIZE) && 0 <= free_bits <= BIT_BUF_SIZE && out == head + Stuff(data)
    }

    /** The low bits of the word, those not yet in the output. */
    function Pending(): Bits
      requires 0 <= free_bits <= BIT_BUF_SIZE
      reads this
    {
      ToBits(put_buffer, BIT_BUF_SIZE - free_bits)
    }

    /** All bits written so far. */
    ghost function Written(): Bits
      requires Valid()
      reads this
    {
      ByteBits(data) + Pending()
    }

    constructor (head: seq<byte>)
      ensures Valid() && Written() == [] && this.head == head
    {
      put_buffer, free_bits, out := 0, BIT_BUF_SIZE, head;
      this.head, data := head, [];
      new;
      assert 0 < Pow2(BIT_BUF_SIZE);
      assert head + [] == head;
    }

    // EMIT_BYTE
    method EmitByte(b: byte)
      requires Valid()
      modifies `out, `data
      ensures Valid() && data == old(data) + [b]
    {
      out := out + [b];
      if b >= 0xFF {
        out := out + [0];
      }
      StuffSnoc(data, b);
      data := data + [b];
      Reassociate(head, Stuff(old(data)), StuffByte(b));
      if b == 0xFF { Reassociate(old(out), [b], [0]); assert [b] + [0] == StuffByte(b); }
    }

    // FLUSH: output the entire bit buffer; if there are no 0xFF bytes in it, write directly.
    method Flush()
      requires Valid()
      modifies `out, `data
      ensures Valid() && data == old(data) + BytesOf(put_buffer, 8)
    {
      var bytes := BytesOf(put_buffer, 8);
      if MaskTest(put_buffer, 8) {
        EmitAll(bytes);
      } else {
        out := out + bytes;
        MaskTestExact(put_buffer, 8);
        NothingToStuff(bytes);
        StuffConcat(data, bytes);
        data := data + bytes;
        Reassociate(head, Stuff(old(data)), bytes);
      }
    }

    method EmitAll(bytes: seq<byte>)
      requires Valid()
      modifies `out, `data
      ensures Valid() && data == old(data) + bytes
    {
      var i := 0;
      while i < |bytes|
        invariant 0 <= i <= |bytes| && Valid() && data == old(data) + bytes[..i]
      {
        EmitByte(bytes[i]);
        assert bytes[..i + 1] == bytes[..i] + [bytes[i]];
        i := i + 1;
      }
      assert bytes[..i] == bytes;
    }

    // PUT_AND_FLUSH: fill the bit buffer to capacity with the leading bits from code, then output it and
    // put the remaining bits from code into it.
    method PutAndFlush(code: nat, size: nat)
      requires put_buffer < Pow2(BIT_BUF_SIZE) && out == head + Stuff(data)
      requires 0 <= size + free_bits < BIT_BUF_SIZE && free_bits < 0 && code < Pow2(size) && size < BIT_BUF_SIZE
      modifies this
      ensures Valid() && head == old(head)
      ensures Written() ==
        ByteBits(old(data)) + (ToBits(old(put_buffer), BIT_BUF_SIZE - size - old(free_bits)) + ToBits(code, size))
    {
      hide Shl, Pow2, ToBits, Or, Shr, ByteBits, BytesOf, MaskTest, Stuff;
      ghost var before, m, f, k := put_buffer, BIT_BUF_SIZE - size - free_bits, size + free_bits, -free_bits;
      ShrBound(code, f, k);
      OrIntoWord(put_buffer, m, Shr(code, k), f);
      put_buffer := Or(Shl(put_buffer, size + free_bits) % Pow2(BIT_BUF_SIZE), Shr(code, -free_bits));
      free_bits := free_bits + BIT_BUF_SIZE;
      Flush();
      BytesSpell(put_buffer, 8);
      ByteBitsConcat(old(data), BytesOf(put_buffer, 8));
      SplitBits(code, f, k);
      Pow2Below(size, BIT_BUF_SIZE);
      put_buffer := code;
      Regroup(ByteBits(old(data)), ToBits(before, m), ToBits(Shr(code, k), f), ToBits(code, k));
    }

    // PUT_BITS: insert code into the bit buffer and output the bit buffer if needed.
    method PutBits(code: nat, size: nat)
      requires Valid() && code < Pow2(size) && size <= 32
      modifies this
      ensures Valid() && head == old(head) && Written() == old(Written()) + ToBits(code, size)
    {
      hide Shl, Pow2, ToBits, Or, Shr, ByteBits, Stuff;
      ghost var m := BIT_BUF_SIZE - free_bits;
      Reassociate(ByteBits(data), ToBits(put_buffer, m), ToBits(code, size));
      free_bits := free_bits - size;
      if free_bits < 0 {
        PutAndFlush(code, size);
      } else {
        OrIntoWord(put_buffer, m, code, size);
        put_buffer := Or(Shl(put_buffer, size) % Pow2(BIT_BUF_SIZE), code);
      }
    }

    // One of the whole bytes in the word, above its k low bits.
    method EmitBits(k: nat)
      requires Valid()
      modifies `out, `data
      ensures Valid() && ByteBits(data) + ToBits(put_buffer, k) == old(ByteBits(data)) + ToBits(put_buffer, 8 + k)
    {
      hide Shl, Pow2, ToBits, Or, Shr, ByteBits, Stuff;
      EmitByte(Shr(put_buffer, k) % 256);
      ByteOut(old(data), Shr(put_buffer, k) % 256);
      LowEight(Shr(put_buffer, k));
      SplitBits(put_buffer, 8, k);
      Reassociate(ByteBits(old(data)), ToBits(Shr(put_buffer, k), 8), ToBits(put_buffer, k));
    }

    // A marker between two segments of entropy-coded data.
    method EmitMarker(code: byte)
      requires Valid() && free_bits == BIT_BUF_SIZE
      modifies this
      ensures Valid() && Written() == [] && head == old(out) + [0xFF, code]
    {
      out := out + [0xFF];
      out := out + [code];
      Reassociate(old(out), [0xFF], [code]);
      head, data := out, [];
      assert out + [] == out;
    }

    // flush_bits: output the whole bytes, then fill a partial byte with ones.
    method FlushBits()
      requires Valid()
      modifies this
      ensures Valid() && free_bits == BIT_BUF_SIZE && head == old(head)
      ensures Written() == ByteBits(data) == old(Written()) + Padding((8 - |old(Written())| % 8) % 8)
    {
      hide Shl, Pow2, ToBits, Or, Shr, ByteBits, Stuff;
      ghost var written := Written();
      var put_bits := BIT_BUF_SIZE - free_bits;
      while put_bits >= 8
        invariant Valid() && free_bits == old(free_bits) && put_buffer == old(put_buffer) && head == old(head)
        invariant 0 <= put_bits && ByteBits(data) + ToBits(put_buffer, put_bits) == old(Written())
      {
        put_bits := put_bits - 8;
        EmitBits(put_bits);
      }
      FlushPartial(put_bits, written);
    }

    // Fill any partial byte with ones, and reset the buffer to empty.
    method FlushPartial(put_bits: nat, ghost written: Bits)
      requires Valid() && put_bits < 8 && ByteBits(data) + ToBits(put_buffer, put_bits) == written
      modifies this
      ensures Valid() && free_bits == BIT_BUF_SIZE && head == old(head)
      ensures Written() == ByteBits(data) == written + Padding((8 - |written| % 8) % 8)
    {
      hide Shl, Pow2, ToBits, Or, Shr, ByteBits, Stuff;
      ByteBitsLength(data);
      ghost var whole, rest := ByteBits(data), ToBits(put_buffer, put_bits);
      Reassociate(whole, rest, Padding(8 - put_bits));
      if put_bits > 0 {
        LastByte(put_buffer, put_bits);
        ByteOut(data, Or(Shl(put_buffer, 8 - put_bits) % 256, Shr(0xFF, put_bits)));
        EmitByte(Or(Shl(put_buffer, 8 - put_bits) % 256, Shr(0xFF, put_bits)));
      } else {
        assert rest == [] && whole + rest == whole && whole + Padding(0) == whole;
      }
      put_buffer, free_bits := 0, BIT_BUF_SIZE;
      assert ByteBits(data) + ToBits(0, 0) == ByteBits(data);
    }
  }

  lemma LowEight(x: nat)
    ensures ToBits(x % 256, 8) == ToBits(x, 8)
  {
    assert Pow2(8) == 256 by { ShlEight(1); }
    WrapBits(x, 8, 8);
  }

  lemma Regroup(a: Bits, b: Bits, c: Bits, d: Bits)
    ensures (a + (b + c)) + d == a + (b + (c + d))
  {
  }

  lemma ByteOut(data: seq<byte>, b: byte)
    ensures ByteBits(data + [b]) == ByteBits(data) + ToBits(b, 8)
  {
    ByteBitsConcat(data, [b]);
    assert [b][1..] == [];
    assert ByteBits([b]) == ToBits(b, 8) + [];
  }
}
