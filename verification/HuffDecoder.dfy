/** The sequential Huffman decoder, on arbitrary input. */
module HuffDecoder {
  import opened Bytes
  import opened BitStrings
  import opened BitReader
  import opened HuffTable
  import opened HuffDecode
  import opened HuffBlock
  import opened ZigZag

  // ----- The bits a reader has against the bits that are left

  /** The reader has these bits, or supplies zeros after the last of them. */
  predicate Alike(bits: Bits, available: Bits) {
    available == bits || (bits == [] && AllZero(available))
  }

  /** What a reader has of these bits: all of them if a marker follows, else so many of them as have
      arrived. */
  predicate Seen(marked: bool, bits: Bits, available: Bits) {
    if marked then Alike(bits, available) else available <= bits
  }

  lemma SeenAfter(marked: bool, bits: Bits, before: Bits, n: nat, after: Bits)
    requires Seen(marked, bits, before) && Consumed(before, n, after) && (!marked ==> n <= |before|)
    ensures Seen(marked, Drop(bits, n), after)
  {
    if !marked {
      assert after == bits[n..][..|after|];
    }
  }

  lemma {:induction false} PeekSeen(marked: bool, bits: Bits, available: Bits, n: nat)
    requires Seen(marked, bits, available) && (!marked ==> n <= |available|)
    ensures Peek(available, n) == Peek(bits, n)
  {
    if n != 0 { PeekSeen(marked, bits, available, n - 1); }
  }

  lemma {:induction false} SymbolSeen(t: Table, marked: bool, bits: Bits, available: Bits, l: nat)
    requires WellFormed(t) && Seen(marked, bits, available) && 1 <= l <= 17
    requires !marked ==> SymbolFrom(t, available, l).length <= |available|
    ensures SymbolFrom(t, available, l) == SymbolFrom(t, bits, l)
    decreases 17 - l
  {
    hide Peek, Filled, Seen;
    if l < 17 {
      PeekSeen(marked, bits, available, l);
      if !(Peek(available, l) < Filled(t.bits, l) && t.bits[l] > 0) {
        SymbolSeen(t, marked, bits, available, l + 1);
      }
    }
  }

  /** A decoded symbol is one of the table, or the stand-in for a bad code. */
  lemma {:induction false} SymbolListed(t: Table, s: Bits, l: nat)
    requires WellFormed(t) && LegalTree(t.bits) && 1 <= l <= 17 && Peek(s, l - 1) >= Filled(t.bits, l - 1)
    ensures var r := SymbolFrom(t, s, l);
      r.value == 0 || exists p :: 0 <= p < 256 && p < CodesTo(t.bits, 16) && t.vals[p] == r.value
    decreases 17 - l
  {
    hide LegalTree;
    if l < 17 {
      if Peek(s, l) < Filled(t.bits, l) && t.bits[l] > 0 {
        CodesMonotonic(t.bits, 0, l - 1);
        CodesMonotonic(t.bits, l, 16);
        CodesLegal(t.bits, l);
        var p := Peek(s, l) - 2 * Filled(t.bits, l - 1) + CodesTo(t.bits, l - 1);
        assert 0 <= p < CodesTo(t.bits, l) <= 256;
        assert t.vals[p] == SymbolFrom(t, s, l).value;
      } else {
        SymbolListed(t, s, l + 1);
      }
    }
  }

  // ----- Reading symbols and values

  /** The reader stands at these bits. */
  ghost predicate At(rd: Reader, bits: Bits)
    reads rd
  {
    rd.Valid() && Seen(rd.Ahead().Mark?, bits, rd.Available())
  }

  /** A decoder's table and the table it derives from. */
  ghost predicate Matches(d: DecoderTable, t: Table) {
    WellFormed(t) && LegalTree(t.bits) && Decodes(d, t)
  }

  method ReadSymbol(rd: Reader, d: DecoderTable, ghost t: Table, ghost bits: Bits) returns (ok: bool, symbol: byte)
    requires At(rd, bits) && Matches(d, t)
    modifies rd
    ensures rd.Valid() && (old(rd.Complete()) ==> ok) && (ok ==> rd.Ahead() == old(rd.Ahead()))
    ensures ok ==> WellFormed(t)
    ensures ok ==> var r := SymbolFrom(t, bits, 1); symbol == r.value && At(rd, Drop(bits, r.length))
  {
    hide SymbolFrom, Decodes, LegalTree, Reader.Available, Consumed, Seen, Reader.Ahead, Drop;
    ghost var before, marked := rd.Available(), rd.Ahead().Mark?;
    ok, symbol := rd.HuffDecode(d, t);
    if ok {
      SymbolSeen(t, marked, bits, before, 1);
      SeenAfter(marked, bits, before, SymbolFrom(t, bits, 1).length, rd.Available());
    }
  }

  method ReadValue(rd: Reader, s: nat, ghost bits: Bits) returns (ok: bool, v: int)
    requires At(rd, bits) && s <= 15
    modifies rd
    ensures rd.Valid() && (old(rd.Complete()) ==> ok) && (ok ==> rd.Ahead() == old(rd.Ahead()))
    ensures ok ==> v == DecodeValue(bits, s).v && At(rd, DecodeValue(bits, s).rest)
  {
    hide Reader.Available, Consumed, Seen, Reader.Ahead, Peek, Drop, Pow2;
    if s == 0 {
      return true, 0;
    }
    v := 0;
    ghost var before, marked := rd.Available(), rd.Ahead().Mark?;
    var r;
    ok, r := rd.GetBits(s);
    if ok {
      PeekSeen(marked, bits, before, s);
      SeenAfter(marked, bits, before, s, rd.Available());
      v := Extend(r, s);
    }
  }

  // ----- Blocks

  function ZeroBlock(): Block {
    seq(64, _ => 0)
  }

  datatype DecodedBlock = DecodedBlock(b: Block, last: int, rest: Bits)

  /** What a block decodes to, on any bit string. */
  function DecodeBlock(dc: Table, ac: Table, bits: Bits, last: int): DecodedBlock
    requires WellFormed(dc) && WellFormed(ac)
  {
    var d := DecodeDc(dc, bits);
    var r := DecodeAc(ac, d.rest, 1, ZeroBlock()[0 := Coef(d.v + last)]);
    DecodedBlock(r.b, d.v + last, r.rest)
  }

  /** The symbols of a DC table are bit counts. */
  predicate DcSymbols(t: Table)
    requires WellFormed(t)
  {
    forall p :: 0 <= p < CodesTo(t.bits, 16) && p < 256 ==> t.vals[p] <= 15
  }

  lemma DcSymbolSmall(t: Table, s: Bits)
    requires WellFormed(t) && LegalTree(t.bits) && DcSymbols(t)
    ensures SymbolFrom(t, s, 1).value <= 15
  {
    hide SymbolFrom, LegalTree;
    FilledNothing(t.bits);
    SymbolListed(t, s, 1);
  }

  // Section F.2.2.1: decode the DC coefficient difference.
  method ReadDc(rd: Reader, dctbl: DecoderTable, ghost dc: Table, ghost bits: Bits) returns (ok: bool, diff: int)
    requires At(rd, bits) && Matches(dctbl, dc) && DcSymbols(dc)
    modifies rd
    ensures rd.Valid() && (old(rd.Complete()) ==> ok) && (ok ==> rd.Ahead() == old(rd.Ahead()))
    ensures ok ==> WellFormed(dc) && diff == DecodeDc(dc, bits).v && At(rd, DecodeDc(dc, bits).rest)
  {
    hide SymbolFrom, Decodes, LegalTree, Reader.Ahead, At, DecodeValue, DcSymbols, Drop;
    DcSymbolSmall(dc, bits);
    diff := 0;
    var s;
    ok, s := ReadSymbol(rd, dctbl, dc, bits);
    if ok {
      ok, diff := ReadValue(rd, s, Drop(bits, SymbolFrom(dc, bits, 1).length));
    }
  }

  // Section F.2.2.2: decode the AC coefficients.  Zeroes are skipped: the block is cleared beforehand.
  method ReadAc(rd: Reader, block: array<int>, actbl: DecoderTable, ghost ac: Table, ghost bits: Bits) returns (ok: bool)
    requires At(rd, bits) && Matches(actbl, ac) && block.Length == 64
    modifies rd, block
    ensures rd.Valid() && (old(rd.Complete()) ==> ok) && (ok ==> rd.Ahead() == old(rd.Ahead()))
    ensures ok ==> WellFormed(ac)
    ensures ok ==> var r := DecodeAc(ac, bits, 1, old(block[..])); block[..] == r.b && At(rd, r.rest)
  {
    hide SymbolFrom, Matches, Reader.Ahead, Seen, Reader.Available, DecodeValue, Drop, NaturalAt, DecodeAc;
    MatchParts(actbl, ac);
    ghost var goal := DecodeAc(ac, bits, 1, block[..]);
    ghost var left := bits;
    var k: nat := 1;
    while k < 64
      invariant k >= 1 && At(rd, left) && rd.Valid() && rd.Ahead() == old(rd.Ahead())
      invariant DecodeAc(ac, left, k, block[..]) == goal
      decreases 64 - k
    {
      var more;
      ok, k, more, left := ReadCoef(rd, block, actbl, ac, k, left);
      if !ok || !more {
        return;
      }
    }
    AcDone(ac, left, k, block[..]);
    ok := true;
  }

  method ReadCoef(rd: Reader, block: array<int>, actbl: DecoderTable, ghost ac: Table, k0: nat, ghost bits: Bits)
    returns (ok: bool, k: nat, more: bool, ghost left: Bits)
    requires At(rd, bits) && Matches(actbl, ac) && block.Length == 64 && 1 <= k0 < 64
    modifies rd, block
    ensures rd.Valid() && (old(rd.Complete()) ==> ok) && (ok ==> rd.Ahead() == old(rd.Ahead())) && k >= k0 && (ok && more ==> k > k0)
    ensures ok ==> WellFormed(ac) && At(rd, left)
    ensures ok ==>
      DecodeAc(ac, bits, k0, old(block[..])) == (if more then DecodeAc(ac, left, k, block[..]) else Decoded(block[..], left))
  {
    hide SymbolFrom, Matches, Reader.Ahead, At, DecodeValue, Drop, NaturalAt, DecodeAc;
    MatchParts(actbl, ac);
    k, more, left := k0, true, [];
    CoefStep(ac, bits, k0, block[..]);
    var s;
    ok, s := ReadSymbol(rd, actbl, ac, bits);
    if !ok {
      return;
    }
    left := Drop(bits, SymbolFrom(ac, bits, 1).length);
    var r := s / 16;
    s := s % 16;
    if s != 0 {
      var v;
      ok, v := ReadValue(rd, s, left);
      if !ok {
        return;
      }
      left := DecodeValue(left, s).rest;
      k := k + r;
      // the extra entries in the order save us if k >= 64
      block[NaturalAt(k)] := v;
      k := k + 1;
    } else if r != 15 {
      more := false;
    } else {
      k := k + 16;
    }
  }

  lemma MatchParts(d: DecoderTable, t: Table)
    requires Matches(d, t)
    ensures WellFormed(t)
  {
  }

  lemma AcDone(t: Table, bits: Bits, k: nat, b: Block)
    requires WellFormed(t) && k >= 64
    ensures DecodeAc(t, bits, k, b) == Decoded(b, bits)
  {
  }

  lemma CoefStep(t: Table, bits: Bits, k: nat, b: Block)
    requires WellFormed(t) && k < 64
    ensures var sym := SymbolFrom(t, bits, 1);
      var r, s, rest := sym.value / 16, sym.value % 16, Drop(bits, sym.length);
      DecodeAc(t, bits, k, b) ==
        if s != 0 then
          DecodeAc(t, DecodeValue(rest, s).rest, k + r + 1, b[NaturalAt(k + r) := DecodeValue(rest, s).v])
        else if r != 15 then Decoded(b, rest)
        else DecodeAc(t, rest, k + 16, b)
  {
    hide SymbolFrom, NaturalAt, DecodeValue, Drop;
  }

  method DecodeOneBlock(rd: Reader, block: array<int>, last_dc_val: int, dctbl: DecoderTable, actbl: DecoderTable,
                        ghost dc: Table, ghost ac: Table, ghost bits: Bits) returns (ok: bool, last: int)
    requires At(rd, bits) && Matches(dctbl, dc) && DcSymbols(dc) && Matches(actbl, ac)
    requires block.Length == 64 && forall i :: 0 <= i < 64 ==> block[i] == 0
    modifies rd, block
    ensures rd.Valid() && (old(rd.Complete()) ==> ok) && (ok ==> rd.Ahead() == old(rd.Ahead()))
    ensures ok ==> WellFormed(dc) && WellFormed(ac)
    ensures ok ==> var r := DecodeBlock(dc, ac, bits, last_dc_val);
      block[..] == r.b && last == r.last && At(rd, r.rest)
  {
    hide SymbolFrom, Reader.Ahead, At, Matches, DecodeAc, DecodeDc, DcSymbols;
    MatchParts(dctbl, dc);
    MatchParts(actbl, ac);
    var s;
    ok, s := ReadDc(rd, dctbl, dc, bits);
    last := s + last_dc_val;
    if ok {
      block[0] := Coef(last);
      assert block[..] == ZeroBlock()[0 := Coef(last)];
      ok := ReadAc(rd, block, actbl, ac, DecodeDc(dc, bits).rest);
    }
  }
}
