/** The buffered bit reader of the Huffman decoders. */
module BitReader {
  import opened Bytes
  import opened BitStrings
  import opened BitWriter
  import opened HuffTable
  import opened HuffDecode
  import opened Segments

  const MIN_GET_BITS := BIT_BUF_SIZE - 7

  predicate AllZero(s: Bits) {
    forall i :: 0 <= i < |s| ==> !s[i]
  }

  /** Before n bits were read there was before, now there is after.  Past the end of the data, zero bits
      are read. */
  predicate Consumed(before: Bits, n: nat, after: Bits) {
    if n <= |before| then after == before[n..] else AllZero(after)
  }

  /** The data, or the data and so many zero bits that there are n bits at least. */
  predicate Supplied(before: Bits, n: nat, after: Bits) {
    if n <= |before| then after == before
    else n <= |after| && after[..|before|] == before && AllZero(after[|before|..])
  }

  lemma ConsumedMore(a: Bits, m: nat, b: Bits, n: nat, c: Bits)
    requires Consumed(a, m, b) && Consumed(b, n, c)
    ensures Consumed(a, m + n, c) && (m <= |a| && n <= |b| ==> m + n <= |a|)
  {
    if m + n <= |a| {
      assert a[m..][n..] == a[m + n..];
    }
  }

  lemma TakenFromSupply(before: Bits, n: nat, mid: Bits, after: Bits)
    requires Supplied(before, n, mid) && Consumed(mid, n, after)
    ensures Consumed(before, n, after) && Peek(mid, n) == Peek(before, n)
  {
    if n > |before| {
      forall i | 0 <= i < |mid[n..]|
        ensures !mid[n..][i]
      {
        assert mid[|before|..][n - |before| + i] == mid[n..][i];
      }
    }
    PeekSupplied(before, n, mid, n);
  }

  lemma {:induction false} PeekSupplied(before: Bits, n: nat, mid: Bits, k: nat)
    requires Supplied(before, n, mid) && k <= n
    ensures Peek(mid, k) == Peek(before, k)
    decreases k
  {
    if k != 0 {
      PeekSupplied(before, n, mid, k - 1);
      if k <= |before| {
        assert n > |before| ==> mid[..|before|][k - 1] == mid[k - 1];
      } else {
        assert mid[|before|..][k - 1 - |before|] == mid[k - 1];
      }
    }
  }

  /** Reading on: the bits after the first m. */
  lemma {:induction false} PeekMore(a: Bits, m: nat, b: Bits, n: nat)
    requires Consumed(a, m, b)
    ensures Peek(a, m + n) == Shl(Peek(a, m), n) + Peek(b, n)
  {
    if n != 0 {
      PeekMore(a, m, b, n - 1);
    }
  }

  lemma {:induction false} ZeroBits(n: nat)
    ensures AllZero(ToBits(0, n))
  {
    if n != 0 { ZeroBits(n - 1); }
  }

  // ----- Reading bytes

  lemma FirstOf(s: seq<byte>, more: seq<byte>)
    requires s != []
    ensures s + more != [] && (s + more)[0] == s[0] && (s + more)[1..] == s[1..] + more
  {
  }

  // One data byte with its stuffing, or a marker, of a source to which more may be added.  Fails at the end of the
  // source.
  method NextByte(source: seq<byte>, ghost more: seq<byte>) returns (ok: bool, c: byte, rest: seq<byte>, marker: byte)
    ensures !ok && more == [] ==> NextMark(source, 0) == NoMark
    ensures ok ==> |rest| < |source| && NextMark(source + more, 0) == NextMark(rest + more, marker)
    ensures ok ==> Payload(source + more, 0) == if marker == 0 then [c] + Payload(rest + more, 0) else []
  {
    ok, c, rest, marker := false, 0, source, 0;
    if rest == [] {
      assert source + more == more;
      return;
    }
    FirstOf(rest, more);
    c, rest := rest[0], rest[1..];
    if c == 0xFF {
      // discard any padding 0xFF bytes on a terminating marker
      while rest != [] && rest[0] == 0xFF
        invariant SkipFill(rest + more) == SkipFill(source[1..] + more) && |rest| < |source|
        decreases |rest|
      {
        FirstOf(rest, more);
        rest := rest[1..];
      }
      if rest == [] {
        assert [] + more == more && source + [] == source && source[1..] + [] == source[1..];
        return;
      }
      FirstOf(rest, more);
      c, rest := rest[0], rest[1..];
      if c == 0 {
        c := 0xFF;  // 0xFF/0x00 represents a 0xFF data byte
      } else {
        marker := c;
      }
    }
    ok := true;
  }

  // ----- The reader

  lemma NothingHeld(input: seq<byte>)
    ensures Held(0, 0, input, 0) == ByteBits(Payload(input, 0)) && 0 < Pow2(BIT_BUF_SIZE)
  {
    hide ByteBits, Payload;
    assert [] + ByteBits(Payload(input, 0)) == ByteBits(Payload(input, 0));
  }

  class Reader {
    var get_buffer: nat
    var bits_left: int
    var unread: seq<byte>
    var unread_marker: byte

    ghost const future: seq<byte>  // what the data source has not delivered yet

    ghost predicate Valid()
      reads this
    {
      get_buffer < Pow2(BIT_BUF_SIZE) && 0 <= bits_left <= BIT_BUF_SIZE
    }

    /** All bits up to the next marker. */
    ghost function Available(): Bits
      requires 0 <= bits_left
      reads this
    {
      Held(get_buffer, bits_left, unread + future, unread_marker)
    }

    /** The marker the reader will run into. */
    ghost function Ahead(): Mark
      reads this
    {
      NextMark(unread + future, unread_marker)
    }

    /** The whole input has arrived, with a marker at its end: the reader will not have to wait. */
    ghost predicate Complete()
      reads this
    {
      future == [] && Ahead().Mark?
    }

    constructor (input: seq<byte>, ghost future: seq<byte>)
      ensures Valid() && Available() == ByteBits(Payload(input + future, 0)) && unread == input && unread_marker == 0
      ensures this.future == future && Ahead() == NextMark(input + future, 0)
      ensures future == [] ==> Available() == ByteBits(Payload(input, 0)) && Ahead() == NextMark(input, 0)
    {
      get_buffer, bits_left, unread, unread_marker := 0, 0, input, 0;
      this.future := future;
      new;
      NothingHeld(input + future);
      assert input + [] == input;
    }

    lemma Arrived()
      requires Valid() && future == []
      ensures Ahead() == NextMark(unread, unread_marker) && Available() == Held(get_buffer, bits_left, unread, unread_marker)
    {
      assert unread + [] == unread;
    }

    // The data source has delivered more bytes.
    constructor Refilled(rd: Reader, more: seq<byte>, ghost later: seq<byte>)
      requires rd.Valid() && rd.future == more + later
      ensures Valid() && Available() == rd.Available() && Ahead() == rd.Ahead() && future == later
    {
      get_buffer, bits_left, unread, unread_marker := rd.get_buffer, rd.bits_left, rd.unread + more, rd.unread_marker;
      future := later;
      new;
      assert (rd.unread + more) + later == rd.unread + (more + later);
    }

    // jpeg_fill_bit_buffer: load up the bit buffer to a depth of at least nbits.  Fails, with no effect, if
    // the source runs out before a marker.
    method FillBitBuffer(nbits: nat) returns (ok: bool)
      requires Valid() && nbits <= MIN_GET_BITS
      modifies this
      ensures Valid()
      ensures old(Complete()) ==> ok
      ensures ok ==> Ahead() == old(Ahead())
      ensures !ok ==> unchanged(this)
      ensures ok ==> Supplied(old(Available()), nbits, Available()) && bits_left >= nbits
      ensures ok && bits_left < MIN_GET_BITS ==> |Available()| == bits_left
      ensures ok && !Ahead().Mark? ==> nbits <= |old(Available())|
    {
      hide Shl, Pow2, ToBits, Or, ByteBits, Payload, NextMark;
      var buf: nat, left: nat, src, marker := get_buffer, bits_left, unread, unread_marker;
      while left < MIN_GET_BITS && marker == 0  // cannot advance past a marker
        invariant buf < Pow2(BIT_BUF_SIZE) && 0 <= left <= BIT_BUF_SIZE && unchanged(this)
        invariant Held(buf, left, src + future, marker) == old(Available())
        invariant NextMark(src + future, marker) == old(Ahead())
        decreases |src|
      {
        var c;
        ghost var src0 := src;
        ok, c, src, marker := NextByte(src, future);
        if !ok {
          assert src0 + [] == src0;
          return;
        }
        if marker == 0 {
          LoadByte(buf, left, c, src0 + future, src + future);
          buf := Or(Shl(buf, 8) % Pow2(BIT_BUF_SIZE), c);
          left := left + 8;
        } else {
          NoMoreBytes(buf, left, src0 + future, src + future, marker);
        }
      }
      MarkedAhead(src + future, marker);
      if marker != 0 && nbits > left {
        // Fill the buffer with zero bits
        ZeroFill(buf, left, src + future, marker, nbits);
        buf := Shl(buf, MIN_GET_BITS - left) % Pow2(BIT_BUF_SIZE);
        left := MIN_GET_BITS;
      } else {
        EnoughHeld(buf, left, src + future, marker, nbits);
      }
      get_buffer, bits_left, unread, unread_marker := buf, left, src, marker;
      ok := true;
    }

    // CHECK_BIT_BUFFER and GET_BITS: past the end of the data, bits read as zeros.
    method GetBits(n: nat) returns (ok: bool, v: nat)
      requires Valid() && n <= 32
      modifies this
      ensures Valid()
      ensures old(Complete()) ==> ok
      ensures ok ==> Ahead() == old(Ahead())
      ensures ok ==> v == Peek(old(Available()), n) && Consumed(old(Available()), n, Available())
      ensures ok && !Ahead().Mark? ==> n <= |old(Available())|
    {
      hide Shr, Pow2, Held, Supplied, Consumed, Peek, NextMark;
      ok, v := true, 0;
      if bits_left < n {
        ok := FillBitBuffer(n);
        if !ok {
          return;
        }
      } else {
        EnoughHeld(get_buffer, bits_left, unread + future, unread_marker, n);
      }
      ghost var mid := Available();
      bits_left := bits_left - n;
      TakeBits(get_buffer, bits_left, n, unread + future, unread_marker);
      TakenFromSupply(old(Available()), n, mid, Available());
      v := Shr(get_buffer, bits_left) % Pow2(n);
    }

    // HUFF_DECODE: the lookahead table gives short codes at once.
    method HuffDecode(d: DecoderTable, ghost t: Table) returns (ok: bool, result: byte)
      requires Valid() && WellFormed(t) && LegalTree(t.bits) && Decodes(d, t)
      modifies this
      ensures Valid()
      ensures old(Complete()) ==> ok
      ensures ok ==> Ahead() == old(Ahead())
      ensures ok ==> var r := SymbolFrom(t, old(Available()), 1);
        && result == r.value && Consumed(old(Available()), r.length, Available())
        && (!Ahead().Mark? ==> r.length <= |old(Available())|)
    {
      hide Shr, Pow2, Held, Peek, NextMark, LookupEntry, LegalTree, SymbolFrom;
      ok, result := true, 0;
      if bits_left < HUFF_LOOKAHEAD {
        ok := FillBitBuffer(0);
        if !ok {
          return;
        }
        assert Available() == old(Available());
        if bits_left < HUFF_LOOKAHEAD {
          ok, result := SlowDecode(d, t, 1);
          return;
        }
      }
      var left := bits_left - HUFF_LOOKAHEAD;
      TakeBits(get_buffer, left, HUFF_LOOKAHEAD, unread + future, unread_marker);
      LookaheadAgrees(t, Available(), 1);
      PeekBound(Available(), 8);
      assert Pow2(8) == 256 by { ShlEight(1); }
      var look := Shr(get_buffer, left) % Pow2(HUFF_LOOKAHEAD);
      var nb := d.lookup[look] / 256;
      if nb <= HUFF_LOOKAHEAD {
        EntryLength(t, look, 1);
        result := d.lookup[look] % 256;
        TakeBits(get_buffer, bits_left - nb, nb, unread + future, unread_marker);
        EnoughHeld(get_buffer, bits_left, unread + future, unread_marker, nb);
        bits_left := bits_left - nb;
      } else {
        ok, result := SlowDecode(d, t, nb);
      }
    }

    // jpeg_huff_decode: the code has at least min_bits bits; collect the rest one bit at a time.
    method SlowDecode(d: DecoderTable, ghost t: Table, min_bits: nat) returns (ok: bool, result: byte)
      requires Valid() && WellFormed(t) && LegalTree(t.bits) && Decodes(d, t) && 1 <= min_bits <= 9
      requires SymbolFrom(t, Available(), 1) == SymbolFrom(t, Available(), min_bits)
      modifies this
      ensures Valid()
      ensures old(Complete()) ==> ok
      ensures ok ==> Ahead() == old(Ahead())
      ensures ok ==> var r := SymbolFrom(t, old(Available()), 1);
        && result == r.value && Consumed(old(Available()), r.length, Available())
        && (!Ahead().Mark? ==> r.length <= |old(Available())|)
    {
      hide Pow2, Held, Peek, NextMark, LookupEntry, LegalTree, SymbolFrom, Consumed;
      ghost var start := Available();
      var l, code := min_bits, 0;
      result := 0;
      ok, code := GetBits(l);
      if !ok {
        return;
      }
      CodeInRange(t, start, l);
      while code > d.maxcode[l]
        invariant Valid() && 1 <= l <= 17 && code == Peek(start, l) && Consumed(start, l, Available())
        invariant !Ahead().Mark? ==> l <= |start|
        invariant Ahead() == old(Ahead())
        invariant SymbolFrom(t, start, 1) == SymbolFrom(t, start, l) && InRange(t, start, l)
        decreases 17 - l
      {
        assert l < 17 ==> Limits(t, l, d.maxcode[l], d.valoffset[l]);
        NextLength(t, start, l, Available(), d.maxcode[l]);
        code := 2 * code;
        ghost var mid := Available();
        var bit;
        ok, bit := GetBits(1);
        if !ok {
          return;
        }
        ConsumedMore(start, l, mid, 1, Available());
        code := code + bit;
        l := l + 1;
        CodeInRange(t, start, l);
      }
      // With garbage input we may reach the sentinel value l = 17.
      FoundAt(t, start, l, d.maxcode[l], d.valoffset[l]);
      if l > 16 {
        return;  // fake a zero as the safest result
      }
      result := d.vals[code + d.valoffset[l]];
    }
  }

  /** The bits in the buffer and in the unread data. */
  ghost function Held(buf: nat, left: nat, src: seq<byte>, marker: byte): Bits {
    ToBits(buf, left) + ByteBits(Payload(src, marker))
  }

  lemma LoadByte(buf: nat, left: nat, c: byte, src0: seq<byte>, src: seq<byte>)
    requires left + 8 <= BIT_BUF_SIZE && Payload(src0, 0) == [c] + Payload(src, 0)
    ensures Shl(buf, 8) >= 0
    ensures var w := Or(Shl(buf, 8) % Pow2(BIT_BUF_SIZE), c);
      w < Pow2(BIT_BUF_SIZE) && Held(w, left + 8, src, 0) == Held(buf, left, src0, 0)
  {
    hide Shl, Pow2, ToBits, Or, Payload;
    assert Pow2(8) == 256 by { ShlEight(1); }
    OrIntoWord(buf, left, c, 8);
    var p := Payload(src, 0);
    assert ([c] + p)[1..] == p;
    Reassociate(ToBits(buf, left), ToBits(c, 8), ByteBits(p));
  }

  lemma NoMoreBytes(buf: nat, left: nat, src0: seq<byte>, src: seq<byte>, marker: byte)
    requires marker != 0 && Payload(src0, 0) == []
    ensures Held(buf, left, src, marker) == Held(buf, left, src0, 0)
  {
  }

  lemma ZeroFill(buf: nat, left: nat, src: seq<byte>, marker: byte, nbits: nat)
    requires marker != 0 && left < nbits <= MIN_GET_BITS
    ensures Shl(buf, MIN_GET_BITS - left) >= 0
    ensures var w := Shl(buf, MIN_GET_BITS - left) % Pow2(BIT_BUF_SIZE);
      && w < Pow2(BIT_BUF_SIZE)
      && Supplied(Held(buf, left, src, marker), nbits, Held(w, MIN_GET_BITS, src, marker))
  {
    hide Shl, Pow2, ToBits, Or;
    var k := MIN_GET_BITS - left;
    OrIntoWord(buf, left, 0, k);
    OrZero(Shl(buf, k) % Pow2(BIT_BUF_SIZE));
    ZeroBits(k);
    var a, z := ToBits(buf, left), ToBits(0, k);
    assert a + [] == a && (a + z) + [] == a + z;
    assert (a + z)[..left] == a && (a + z)[left..] == z;
  }

  lemma MarkedAhead(src: seq<byte>, marker: byte)
    ensures marker != 0 ==> NextMark(src, marker).Mark?
  {
  }

  lemma EnoughHeld(buf: nat, left: nat, src: seq<byte>, marker: byte, nbits: nat)
    requires nbits <= left
    ensures var h := Held(buf, left, src, marker);
      Supplied(h, nbits, h) && nbits <= left <= |h| && (marker != 0 ==> |h| == left)
  {
    hide ToBits;
  }

  lemma TakeBits(buf: nat, left: nat, n: nat, src: seq<byte>, marker: byte)
    ensures Peek(Held(buf, left + n, src, marker), n) == Shr(buf, left) % Pow2(n)
    ensures Consumed(Held(buf, left + n, src, marker), n, Held(buf, left, src, marker))
  {
    hide ToBits, Shr, Pow2, Peek;
    var h, s := Held(buf, left + n, src, marker), Shr(buf, left);
    var a, b, c := ToBits(s, n), ToBits(buf, left), ByteBits(Payload(src, marker));
    SplitBits(buf, n, left);
    Reassociate(a, b, c);
    assert h == a + (b + c);
    PeekNum(h, n);
    assert h[..n] == a;
    WrapBits(s, n, n);
    NumToBits(s % Pow2(n), n);
  }

  lemma {:induction false} EntryLength(t: Table, look: nat, l: nat)
    requires WellFormed(t) && 1 <= l <= 9
    ensures 1 <= LookupEntry(t, look, l) / 256 <= 9
    decreases 9 - l
  {
    if l < 9 { EntryLength(t, look, l + 1); }
  }

  /** The l bits read are not below the codes of length l. */
  predicate InRange(t: Table, s: Bits, l: nat)
    requires WellFormed(t) && 1 <= l <= 17
  {
    Peek(s, l) >= 2 * Filled(t.bits, l - 1)
  }

  lemma CodeInRange(t: Table, s: Bits, l: nat)
    requires WellFormed(t) && 1 <= l <= 17 && SymbolFrom(t, s, 1) == SymbolFrom(t, s, l)
    ensures InRange(t, s, l)
  {
    hide Filled;
    assert Peek(s, 0) == 0 == Filled(t.bits, 0) by { FilledNothing(t.bits); }
    NotFoundAbove(t, s, 1, l);
  }

  lemma FilledNothing(bits: seq<int>)
    requires |bits| > 0
    ensures Filled(bits, 0) == 0
  {
  }

  lemma NextLength(t: Table, s: Bits, l: nat, after: Bits, maxcode: int)
    requires WellFormed(t) && 1 <= l <= 17 && Consumed(s, l, after) && Peek(s, l) > maxcode
    requires if l == 17 then maxcode == 0xFFFFF else exists offset :: Limits(t, l, maxcode, offset)
    ensures l < 17 && SymbolFrom(t, s, l) == SymbolFrom(t, s, l + 1)
    ensures Peek(s, l + 1) == 2 * Peek(s, l) + Peek(after, 1)
  {
    hide Filled;
    PeekMore(s, l, after, 1);
    assert Shl(Peek(s, l), 1) == 2 * Peek(s, l);
    if l == 17 {
      SentinelBound();
      PeekBound(s, 17);
    }
  }

  lemma SentinelBound()
    ensures Pow2(17) == 0x20000
  {
    ShlEight(1);
    ShlEight(256);
    ShlShl(1, 8, 8);
    assert Pow2(17) == 2 * Pow2(16);
  }

  lemma FoundAt(t: Table, s: Bits, l: nat, maxcode: int, offset: int)
    requires WellFormed(t) && LegalTree(t.bits) && 1 <= l <= 17 && Peek(s, l) <= maxcode && InRange(t, s, l)
    requires l <= 16 ==> Limits(t, l, maxcode, offset)
    ensures if l == 17 then SymbolFrom(t, s, l) == Symbol(0, 17)
            else 0 <= Peek(s, l) + offset < 256 && SymbolFrom(t, s, l) == Symbol(t.vals[Peek(s, l) + offset], l)
  {
    hide LegalTree;
    if l <= 16 {
      CodesMonotonic(t.bits, 0, l - 1);
      CodesLegal(t.bits, l);
    }
  }

  lemma CodesLegal(bits: seq<int>, l: nat)
    requires |bits| == 17 && LegalTree(bits) && l <= 16
    ensures CodesTo(bits, l) <= 256
  {
  }
}
