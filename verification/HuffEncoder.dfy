/** The sequential Huffman encoder: coding a block, and counting the symbols a block would need. */
module HuffEncoder {
  import opened Bytes
  import opened BitStrings
  import opened BitWriter
  import opened HuffTable
  import opened HuffBlock
  import opened ZigZag

  /** The bits of a block. */
  function BlockBits(dctbl: EncoderTable, actbl: EncoderTable, diff: int, b: Block): Bits
    requires LegalEncoder(dctbl) && LegalEncoder(actbl) && LegalBlock(b) && Magnitude(diff) < 32768
  {
    ItemBits(dctbl, DcItem(diff)) + ItemsBits(actbl, AcItems(b, 1, 0))
  }

  // ----- Values as the encoder forms them

  // x ^ sign, where sign is -1 for negative numbers and 0 otherwise
  function Xor(sign: int, x: int): int {
    if sign < 0 then -1 - x else x
  }

  function Sign(v: int): int {
    if v < 0 then -1 else 0
  }

  lemma BranchFree(v: int)
    ensures Xor(Sign(v), v + Sign(v)) == Magnitude(v)
    ensures (v + Sign(v)) % Pow2(NBits(Magnitude(v))) == Extra(v)
  {
    hide Pow2, NBits;
    var p := Pow2(NBits(Magnitude(v)));
    if v < 0 {
      Wrapped(v - 1, p, -1);
    } else {
      Wrapped(v, p, 0);
    }
  }

  lemma Wrapped(x: int, p: int, q: int)
    requires q * p <= x < q * p + p
    ensures p > 0 && x % p == x - q * p
  {
    var d := q - x / p;
    Multiple(d, p);
    assert q * p == d * p + x / p * p;
  }

  // PUT_CODE: a Huffman code and the low bits of the value in one go.
  method PutCode(w: Writer, temp: int, nbits: nat, code: nat, size: nat, ghost v: int)
    requires w.Valid() && nbits == NBits(Magnitude(v)) <= 15 && temp == v + Sign(v) && code < Pow2(size) && size <= 16
    modifies w
    ensures w.Valid() && w.head == old(w.head) && w.Written() == old(w.Written()) + (ToBits(code, size) + ToBits(Extra(v), nbits))
  {
    hide Pow2, Shl, Or, ToBits, Writer.Valid, Writer.Written, Extra, NBits, Magnitude, Sign;
    BranchFree(v);
    var masked := temp % Pow2(nbits);
    OrShifted(code, masked, nbits);
    ToBitsConcat(code, masked, size, nbits, Shl(code, nbits) + masked);
    w.PutBits(Or(Shl(code, nbits), masked), size + nbits);
  }

  // A code without value bits.
  method PutSymbol(w: Writer, tbl: EncoderTable, symbol: byte)
    requires w.Valid() && LegalEncoder(tbl)
    modifies w
    ensures w.Valid() && w.head == old(w.head) && w.Written() == old(w.Written()) + ItemBits(tbl, Item(symbol, 0, 0))
  {
    hide Pow2, ToBits, Writer.Valid, Writer.Written;
    var code, size := tbl.ehufco[symbol], tbl.ehufsi[symbol];
    assert ToBits(code, size) + ToBits(0, 0) == ToBits(code, size);
    w.PutBits(code, size);
  }

  method PutValue(w: Writer, tbl: EncoderTable, run: nat, v: int)
    requires w.Valid() && LegalEncoder(tbl) && run <= 15 && Magnitude(v) < 32768
    modifies w
    ensures w.Valid() && w.head == old(w.head) && w.Written() == old(w.Written()) + ItemBits(tbl, ValueItem(run, v))
  {
    hide Pow2, ToBits, Writer.Valid, Writer.Written, Extra, NBits, Magnitude;
    BranchFree(v);
    Pow2Fifteen();
    NBitsBound(Magnitude(v), 15);
    var nbits := Sign(v);
    var temp := v + nbits;
    nbits := Xor(nbits, temp);
    nbits := NBits(nbits);  // JPEG_NBITS
    var r := 16 * run + nbits;
    PutCode(w, temp, nbits, tbl.ehufco[r], tbl.ehufsi[r], v);
  }

  method EncodeOneBlock(w: Writer, block: Block, last_dc_val: int, dctbl: EncoderTable, actbl: EncoderTable)
    requires w.Valid() && LegalEncoder(dctbl) && LegalEncoder(actbl)
    requires LegalBlock(block) && Magnitude(block[0] - last_dc_val) < 32768
    modifies w
    ensures w.Valid() && w.head == old(w.head) && w.Written() == old(w.Written()) + BlockBits(dctbl, actbl, block[0] - last_dc_val, block)
  {
    hide ItemBits, ItemsBits, AcItems, Writer.Valid, Writer.Written, Magnitude;
    var diff := block[0] - last_dc_val;
    PutValue(w, dctbl, 0, diff);
    Reassociate(old(w.Written()), ItemBits(dctbl, DcItem(diff)), ItemsBits(actbl, AcItems(block, 1, 0)));
    EncodeAc(w, block, actbl);
  }

  method EncodeAc(w: Writer, block: Block, actbl: EncoderTable)
    requires w.Valid() && LegalEncoder(actbl) && LegalBlock(block)
    modifies w
    ensures w.Valid() && w.head == old(w.head) && w.Written() == old(w.Written()) + ItemsBits(actbl, AcItems(block, 1, 0))
  {
    hide ItemsBits, AcItems, Writer.Valid, Writer.Written, NaturalAt;
    ghost var goal := w.Written() + ItemsBits(actbl, AcItems(block, 1, 0));
    var r := 0;  // run length of zeros, times 16
    for k := 1 to 64
      invariant w.Valid() && w.head == old(w.head) && r >= 0 && r % 16 == 0
      invariant w.Written() + ItemsBits(actbl, AcItems(block, k, r / 16)) == goal
    {
      r := EncodeCoef(w, block, actbl, k, r, goal);
    }
    AtEnd(actbl, block, r / 16);
    if r > 0 {
      PutSymbol(w, actbl, 0);  // end-of-block code
    }
  }

  // kloop: one coefficient; r is 16 times the run of zeros before it.
  method EncodeCoef(w: Writer, block: Block, actbl: EncoderTable, k: nat, r0: nat, ghost goal: Bits) returns (r: nat)
    requires w.Valid() && LegalEncoder(actbl) && LegalBlock(block) && 1 <= k < 64 && r0 % 16 == 0
    requires w.Written() + ItemsBits(actbl, AcItems(block, k, r0 / 16)) == goal
    modifies w
    ensures w.Valid() && w.head == old(w.head) && r % 16 == 0
    ensures w.Written() + ItemsBits(actbl, AcItems(block, k + 1, r / 16)) == goal
  {
    hide ItemsBits, ItemBits, AcItems, Writer.Valid, Writer.Written, NaturalAt, LegalBlock;
    r := r0;
    CoefSteps(actbl, block, k);
    var temp := block[NaturalAt(k)];
    if temp == 0 {
      r := r + 16;
    } else {
      while r >= 16 * 16
        invariant w.Valid() && w.head == old(w.head) && r >= 0 && r % 16 == 0
        invariant w.Written() + ItemsBits(actbl, AcItems(block, k, r / 16)) == goal
      {
        LongRun(actbl, block, k, r / 16);
        Reassociate(w.Written(), ItemBits(actbl, Item(0xF0, 0, 0)), ItemsBits(actbl, AcItems(block, k, r / 16 - 16)));
        r := r - 16 * 16;
        PutSymbol(w, actbl, 0xF0);
      }
      ShortRun(actbl, block, k, r / 16);
      Reassociate(w.Written(), ItemBits(actbl, ValueItem(r / 16, temp)), ItemsBits(actbl, AcItems(block, k + 1, 0)));
      PutValue(w, actbl, r / 16, temp);
      r := 0;
    }
  }

  lemma CoefSteps(e: EncoderTable, b: Block, k: nat)
    requires LegalEncoder(e) && LegalBlock(b) && 1 <= k < 64
    ensures Magnitude(b[NaturalAt(k)]) < 32768
    ensures b[NaturalAt(k)] == 0 ==> forall r: nat :: AcItems(b, k, r) == AcItems(b, k + 1, r + 1)
  {
    hide NaturalAt;
  }

  lemma LongRun(e: EncoderTable, b: Block, k: nat, r: nat)
    requires LegalEncoder(e) && LegalBlock(b) && 1 <= k < 64 && b[NaturalAt(k)] != 0 && r > 15
    ensures ItemsBits(e, AcItems(b, k, r)) == ItemBits(e, Item(0xF0, 0, 0)) + ItemsBits(e, AcItems(b, k, r - 16))
  {
    hide NaturalAt;
    var items := AcItems(b, k, r - 16);
    assert AcItems(b, k, r)[1..] == items;
  }

  lemma ShortRun(e: EncoderTable, b: Block, k: nat, r: nat)
    requires LegalEncoder(e) && LegalBlock(b) && 1 <= k < 64 && b[NaturalAt(k)] != 0 && r <= 15
    ensures ItemsBits(e, AcItems(b, k, r))
         == ItemBits(e, ValueItem(r, b[NaturalAt(k)])) + ItemsBits(e, AcItems(b, k + 1, 0))
  {
    hide NaturalAt, ItemBits;
    var items := AcItems(b, k + 1, 0);
    assert AcItems(b, k, r)[1..] == items;
  }

  lemma AtEnd(e: EncoderTable, b: Block, r: nat)
    requires LegalEncoder(e) && LegalBlock(b)
    ensures ItemsBits(e, AcItems(b, 64, r)) == if r > 0 then ItemBits(e, Item(0, 0, 0)) else []
  {
    if r > 0 {
      assert [Item(0, 0, 0)][1..] == [];
      assert ItemBits(e, Item(0, 0, 0)) + [] == ItemBits(e, Item(0, 0, 0));
    }
  }

  // ----- The statistics pass

  /** How often a symbol occurs. */
  function Tally(items: seq<Item>, symbol: int): nat {
    if items == [] then 0
    else Tally(items[..|items| - 1], symbol) + (if items[|items| - 1].symbol == symbol then 1 else 0)
  }

  /** The counts have grown by the symbols of the items. */
  ghost predicate Counted(before: seq<int>, items: seq<Item>, after: seq<int>) {
    |before| == |after| == 257 && forall s :: 0 <= s < 257 ==> after[s] == before[s] + Tally(items, s)
  }

  lemma CountedOne(before: seq<int>, items: seq<Item>, now: seq<int>, item: Item)
    requires Counted(before, items, now)
    ensures Counted(before, items + [item], now[item.symbol := now[item.symbol] + 1])
  {
    assert (items + [item])[..|items|] == items;
  }

  // The length of a magnitude, bit by bit.
  method CountBits(magnitude: nat) returns (nbits: nat)
    ensures nbits == NBits(magnitude)
  {
    var temp := magnitude;
    nbits := 0;
    while temp != 0
      invariant nbits + NBits(temp) == NBits(magnitude)
    {
      nbits := nbits + 1;
      temp := temp / 2;
    }
  }

  /** The coefficients the statistics pass accepts. */
  predicate CoefsFit(b: Block, last: int) {
    NBits(Magnitude(b[0] - last)) <= MAX_COEF_BITS + 1 && AcFits(b, 64)
  }

  predicate AcFits(b: Block, k: nat) {
    forall j :: 1 <= j < k && j < 64 ==> NBits(Magnitude(b[NaturalAt(j)])) <= MAX_COEF_BITS
  }

  /** Trial-encodes a block: counts exactly the symbols EncodeOneBlock emits. */
  method HtestOneBlock(block: Block, last_dc_val: int, dc_counts: array<nat>, ac_counts: array<nat>) returns (ok: bool)
    requires LegalBlock(block) && Magnitude(block[0] - last_dc_val) < 32768
    requires dc_counts.Length == ac_counts.Length == 257 && dc_counts != ac_counts
    modifies dc_counts, ac_counts
    ensures ok <==> CoefsFit(block, last_dc_val)
    ensures ok ==> Counted(old(dc_counts[..]), [DcItem(block[0] - last_dc_val)], dc_counts[..])
    ensures ok ==> Counted(old(ac_counts[..]), AcItems(block, 1, 0), ac_counts[..])
  {
    hide AcItems, NBits, Magnitude, NaturalAt, Extra;
    var nbits := CountBits(Magnitude(block[0] - last_dc_val));
    if nbits > MAX_COEF_BITS + 1 {
      return false;
    }
    CountedOne(dc_counts[..], [], dc_counts[..], DcItem(block[0] - last_dc_val));
    dc_counts[nbits] := dc_counts[nbits] + 1;
    ok := CountAc(block, ac_counts);
  }

  method CountAc(block: Block, ac_counts: array<nat>) returns (ok: bool)
    requires LegalBlock(block) && ac_counts.Length == 257
    modifies ac_counts
    ensures ok <==> AcFits(block, 64)
    ensures ok ==> Counted(old(ac_counts[..]), AcItems(block, 1, 0), ac_counts[..])
  {
    hide AcItems, NBits, Magnitude, NaturalAt, LegalBlock, Counted;
    ghost var done := [];
    NothingCounted(ac_counts[..]);
    var r := 0;
    for k := 1 to 64
      invariant r >= 0 && AcFits(block, k)
      invariant Counted(old(ac_counts[..]), done, ac_counts[..])
      invariant done + AcItems(block, k, r) == AcItems(block, 1, 0)
    {
      ok, r, done := CountCoef(block, ac_counts, k, r, old(ac_counts[..]), done);
      if !ok {
        return;
      }
    }
    if r > 0 {
      CountedOne(old(ac_counts[..]), done, ac_counts[..], Item(0, 0, 0));
      ac_counts[0] := ac_counts[0] + 1;
    }
    LastItem(block, r, done);
    ok := true;
  }

  method CountCoef(block: Block, ac_counts: array<nat>, k: nat, r0: nat, ghost before: seq<int>, ghost done0: seq<Item>)
    returns (ok: bool, r: nat, ghost done: seq<Item>)
    requires LegalBlock(block) && ac_counts.Length == 257 && 1 <= k < 64
    requires Counted(before, done0, ac_counts[..])
    modifies ac_counts
    ensures ok <==> NBits(Magnitude(block[NaturalAt(k)])) <= MAX_COEF_BITS
    ensures ok ==> Counted(before, done, ac_counts[..])
    ensures ok ==> done + AcItems(block, k + 1, r) == done0 + AcItems(block, k, r0)
  {
    hide AcItems, NBits, Magnitude, NaturalAt, LegalBlock, Counted, Extra;
    r, done := r0, done0;
    ItemSteps(block, k);
    var temp := block[NaturalAt(k)];
    if temp == 0 {
      SmallZero();
      return true, r + 1, done;
    }
    r, done := CountRuns(block, ac_counts, k, r0, before, done0);
    var nbits := CountBits(Magnitude(temp));
    if nbits > MAX_COEF_BITS {
      return false, r, done;
    }
    CountedOne(before, done, ac_counts[..], ValueItem(r, temp));
    ItemOf(block, k, r);
    Reassociate(done, [ValueItem(r, temp)], AcItems(block, k + 1, 0));
    ac_counts[16 * r + nbits] := ac_counts[16 * r + nbits] + 1;
    done := done + [ValueItem(r, temp)];
    r := 0;
    ok := true;
  }

  // Codes for runs of 16 zeros
  method CountRuns(block: Block, ac_counts: array<nat>, k: nat, r0: nat, ghost before: seq<int>, ghost done0: seq<Item>)
    returns (r: nat, ghost done: seq<Item>)
    requires LegalBlock(block) && ac_counts.Length == 257 && 1 <= k < 64 && block[NaturalAt(k)] != 0
    requires Counted(before, done0, ac_counts[..])
    modifies ac_counts
    ensures r <= 15 && Counted(before, done, ac_counts[..])
    ensures done + AcItems(block, k, r) == done0 + AcItems(block, k, r0)
  {
    hide AcItems, NBits, Magnitude, NaturalAt, LegalBlock, Counted, Extra;
    r, done := r0, done0;
    while r > 15
      invariant r >= 0 && Counted(before, done, ac_counts[..])
      invariant done + AcItems(block, k, r) == done0 + AcItems(block, k, r0)
    {
      RunOf16(block, k, r);
      CountedOne(before, done, ac_counts[..], Item(0xF0, 0, 0));
      Reassociate(done, [Item(0xF0, 0, 0)], AcItems(block, k, r - 16));
      ac_counts[0xF0] := ac_counts[0xF0] + 1;
      done := done + [Item(0xF0, 0, 0)];
      r := r - 16;
    }
  }

  lemma NothingCounted(s: seq<int>)
    requires |s| == 257
    ensures Counted(s, [], s)
  {
  }

  lemma SmallZero()
    ensures NBits(Magnitude(0)) == 0
  {
  }

  lemma LastItem(b: Block, r: nat, done: seq<Item>)
    requires LegalBlock(b)
    ensures done + AcItems(b, 64, r) == if r > 0 then done + [Item(0, 0, 0)] else done
  {
  }

  lemma RunOf16(b: Block, k: nat, r: nat)
    requires LegalBlock(b) && 1 <= k < 64 && b[NaturalAt(k)] != 0 && r > 15
    ensures AcItems(b, k, r) == [Item(0xF0, 0, 0)] + AcItems(b, k, r - 16)
  {
    hide NaturalAt, NBits, Extra;
  }

  lemma ItemOf(b: Block, k: nat, r: nat)
    requires LegalBlock(b) && 1 <= k < 64 && b[NaturalAt(k)] != 0 && r <= 15
    ensures AcItems(b, k, r) == [ValueItem(r, b[NaturalAt(k)])] + AcItems(b, k + 1, 0)
  {
  }

  lemma ItemSteps(b: Block, k: nat)
    requires LegalBlock(b) && 1 <= k < 64
    ensures Magnitude(b[NaturalAt(k)]) < 32768
    ensures b[NaturalAt(k)] == 0 ==> forall r: nat :: AcItems(b, k, r) == AcItems(b, k + 1, r + 1)
    ensures b[NaturalAt(k)] != 0 ==>
      forall r: nat :: AcItems(b, k, r) == if r > 15 then [Item(0xF0, 0, 0)] + AcItems(b, k, r - 16)
                                      else [ValueItem(r, b[NaturalAt(k)])] + AcItems(b, k + 1, 0)
  {
    hide NaturalAt;
  }
}
