/** Sequential Huffman coding of a block (sections F.1.2 and F.2.2 of ITU-T T.81): the symbols and
    value bits that code it, and what they decode to. */
module HuffBlock {
  import opened Bytes
  import opened BitStrings
  import opened HuffTable
  import opened HuffDecode
  import opened ZigZag

  const MAX_COEF_BITS := 10

  // ----- Values

  /** The number of bits of a magnitude. */
  function NBits(u: nat): (n: nat)
    ensures u < Pow2(n) && (u > 0 ==> n > 0 && Pow2(n - 1) <= u)
  {
    if u == 0 then 0 else 1 + NBits(u / 2)
  }

  /** The value bits of v: v itself if positive, the complement of its magnitude if negative. */
  function Extra(v: int): (x: nat)
    ensures x < Pow2(NBits(Magnitude(v)))
  {
    if v >= 0 then v else v + Pow2(NBits(-v)) - 1
  }

  /** Figure F.12: extend the sign bit of an s-bit value. */
  function Extend(x: nat, s: nat): int
    requires s > 0
  {
    if x < Pow2(s - 1) then x - Pow2(s) + 1 else x
  }

  lemma ExtendExtra(v: int)
    requires v != 0
    ensures NBits(Magnitude(v)) > 0 && Extend(Extra(v), NBits(Magnitude(v))) == v
  {
  }

  lemma {:induction false} NBitsBound(u: nat, n: nat)
    requires u < Pow2(n)
    ensures NBits(u) <= n
  {
    if u > 0 { NBitsBound(u / 2, n - 1); }
  }

  lemma Pow2Fifteen()
    ensures Pow2(15) == 32768
  {
    ShlEight(1);
    assert Pow2(15) == 2 * Pow2(14) == 4 * Pow2(13) == 8 * Pow2(12) == 16 * Pow2(11);
    assert Pow2(11) == 2 * Pow2(10) == 4 * Pow2(9) == 8 * Pow2(8);
  }

  // ----- Symbols and their bits

  /** A Huffman symbol followed by the n low bits of extra. */
  datatype Item = Item(symbol: byte, extra: nat, n: nat)

  predicate LegalItem(item: Item) {
    item.extra < Pow2(item.n) && item.n <= 15
  }

  predicate LegalItems(items: seq<Item>) {
    forall i :: 0 <= i < |items| ==> LegalItem(items[i])
  }

  /** A nonzero value in an AC symbol with a zero run. */
  function ValueItem(run: nat, v: int): (item: Item)
    requires run <= 15 && Magnitude(v) < 32768
    ensures LegalItem(item)
  {
    Pow2Fifteen();
    NBitsBound(Magnitude(v), 15);
    Item(16 * run + NBits(Magnitude(v)), Extra(v), NBits(Magnitude(v)))
  }

  predicate LegalEncoder(e: EncoderTable) {
    && |e.ehufco| == |e.ehufsi| == 256
    && forall i :: 0 <= i < 256 ==> 0 <= e.ehufsi[i] <= 16 && 0 <= e.ehufco[i] < Pow2(e.ehufsi[i])
  }

  function ItemBits(e: EncoderTable, item: Item): Bits
    requires LegalEncoder(e)
  {
    ToBits(e.ehufco[item.symbol], e.ehufsi[item.symbol]) + ToBits(item.extra, item.n)
  }

  function ItemsBits(e: EncoderTable, items: seq<Item>): Bits
    requires LegalEncoder(e)
  {
    if items == [] then [] else ItemBits(e, items[0]) + ItemsBits(e, items[1..])
  }

  /** The table has a code for every symbol. */
  predicate Covers(e: EncoderTable, items: seq<Item>)
    requires LegalEncoder(e)
  {
    forall i :: 0 <= i < |items| ==> e.ehufsi[items[i].symbol] > 0
  }

  /** The DC difference. */
  function DcItem(diff: int): (item: Item)
    requires Magnitude(diff) < 32768
    ensures LegalItem(item)
  {
    ValueItem(0, diff)
  }

  /** The AC coefficients from index k on, after r zeros. */
  function AcItems(b: Block, k: nat, r: nat): (items: seq<Item>)
    requires LegalBlock(b) && k <= 64
    ensures LegalItems(items)
    decreases 64 - k, r
  {
    if k == 64 then (if r > 0 then [Item(0, 0, 0)] else [])
    else
      var v := b[NaturalAt(k)];
      if v == 0 then AcItems(b, k + 1, r + 1)
      else if r > 15 then [Item(0xF0, 0, 0)] + AcItems(b, k, r - 16)
      else [ValueItem(r, v)] + AcItems(b, k + 1, 0)
  }

  // ----- Decoding, on any bit string

  function Drop(s: Bits, n: nat): Bits {
    if n <= |s| then s[n..] else []
  }

  datatype Value = Value(v: int, rest: Bits)

  /** s value bits with the sign extended; none for s == 0. */
  function DecodeValue(bits: Bits, s: nat): Value {
    if s == 0 then Value(0, bits) else Value(Extend(Peek(bits, s), s), Drop(bits, s))
  }

  function DecodeDc(t: Table, bits: Bits): Value
    requires WellFormed(t)
  {
    var sym := SymbolFrom(t, bits, 1);
    DecodeValue(Drop(bits, sym.length), sym.value)
  }

  datatype Decoded = Decoded(b: Block, rest: Bits)

  /** AC decoding from index k on; indices past the end go to the last coefficient. */
  function DecodeAc(t: Table, bits: Bits, k: nat, b: Block): Decoded
    requires WellFormed(t)
    decreases 64 - k
  {
    if k >= 64 then Decoded(b, bits)
    else
      var sym := SymbolFrom(t, bits, 1);
      var r, s, bits' := sym.value / 16, sym.value % 16, Drop(bits, sym.length);
      if s != 0 then
        var d := DecodeValue(bits', s);
        DecodeAc(t, d.rest, k + r + 1, b[NaturalAt(k + r) := d.v])
      else if r != 15 then Decoded(b, bits')
      else DecodeAc(t, bits', k + 16, b)
  }

  // ----- Round trip

  /** The decoder undoes a symbol the table has a code for. */
  lemma SymbolDecodes(e: EncoderTable, t: Table, symbol: byte, rest: Bits)
    requires WellFormed(t) && LegalTree(t.bits) && Encodes(e, t) && LegalEncoder(e) && e.ehufsi[symbol] > 0
    ensures var code := ToBits(e.ehufco[symbol], e.ehufsi[symbol]);
      SymbolFrom(t, code + rest, 1) == Symbol(symbol, |code|) && Drop(code + rest, |code|) == rest
  {
    hide LegalTree, CodeAt, HasLength, CodesTo, SymbolFrom;
    var p := Listed(e, t, symbol);
    CodeDecodes(t, p, e.ehufsi[symbol], rest);
  }

  lemma Listed(e: EncoderTable, t: Table, symbol: byte) returns (p: nat)
    requires WellFormed(t) && LegalTree(t.bits) && Encodes(e, t) && LegalEncoder(e) && e.ehufsi[symbol] > 0
    ensures p < 256 && t.vals[p] == symbol && HasLength(t.bits, p, e.ehufsi[symbol])
    ensures e.ehufco[symbol] == CodeAt(t.bits, p, e.ehufsi[symbol])
  {
    hide CodeAt, LegalTree;
    var n := Min256(CodesTo(t.bits, 16));
    assert symbol in t.vals[..n];
    p :| 0 <= p < n && t.vals[p] == symbol;
    assert HasLength(t.bits, p, LengthOf(t.bits, p, 1));
  }

  lemma EncoderIsLegal(e: EncoderTable, t: Table)
    requires WellFormed(t) && LegalTree(t.bits) && Encodes(e, t)
    ensures LegalEncoder(e)
  {
    hide CodeAt, LegalTree;
    var n := Min256(CodesTo(t.bits, 16));
    forall i | 0 <= i < 256
      ensures 0 <= e.ehufsi[i] <= 16 && 0 <= e.ehufco[i] < Pow2(e.ehufsi[i])
    {
      if i in t.vals[..n] {
        var p :| 0 <= p < n && t.vals[p] == i;
        var l := LengthOf(t.bits, p, 1);
        assert HasLength(t.bits, p, l);
        CodeFits(t.bits, p, l);
      }
    }
  }

  lemma ValueDecodes(v: int, rest: Bits)
    ensures DecodeValue(ToBits(Extra(v), NBits(Magnitude(v))) + rest, NBits(Magnitude(v))) == Value(v, rest)
  {
    hide ToBits, Extra, NBits;
    var n := NBits(Magnitude(v));
    var x := ToBits(Extra(v), n);
    if v == 0 {
      assert x == [] by { assert NBits(0) == 0 by { NBitsZero(); } }
      assert x + rest == rest;
    } else {
      ExtendExtra(v);
      PeekNum(x + rest, n);
      assert (x + rest)[..n] == x && (x + rest)[n..] == rest;
      NumToBits(Extra(v), n);
    }
  }

  lemma NBitsZero()
    ensures NBits(0) == 0
  {
  }

  /** DC differences are decoded. */
  lemma DcDecodes(e: EncoderTable, t: Table, diff: int, rest: Bits)
    requires WellFormed(t) && LegalTree(t.bits) && Encodes(e, t) && LegalEncoder(e)
    requires Magnitude(diff) < 32768 && e.ehufsi[DcItem(diff).symbol] > 0
    ensures DecodeDc(t, ItemBits(e, DcItem(diff)) + rest) == Value(diff, rest)
  {
    hide ToBits, LegalTree, Encodes, Extra, NBits, SymbolFrom;
    var item := DcItem(diff);
    var code, x := ToBits(e.ehufco[item.symbol], e.ehufsi[item.symbol]), ToBits(item.extra, item.n);
    Reassociate(code, x, rest);
    SymbolDecodes(e, t, item.symbol, x + rest);
    ValueDecodes(diff, rest);
  }

  /** What has been decoded when k coefficients are done. */
  ghost predicate Partial(b: Block, k: nat, part: Block) {
    forall j :: 0 <= j < 64 ==> part[NaturalAt(j)] == if j < k then b[NaturalAt(j)] else 0
  }

  lemma PartialAll(b: Block, part: Block)
    requires Partial(b, 64, part)
    ensures part == b
  {
    hide NaturalAt;
    NaturalOrderIsOrder();
    var order := NaturalOrder();
    forall i | 0 <= i < 64
      ensures part[i] == b[i]
    {
      assert i in order;
      var j :| 0 <= j < 64 && order[j] == i;
      assert NaturalAt(j) == i;
    }
  }

  lemma PartialNext(b: Block, k: nat, part: Block)
    requires Partial(b, k, part) && k < 64
    ensures 0 <= NaturalAt(k) < 64
    ensures Partial(b, k + 1, part[NaturalAt(k) := b[NaturalAt(k)]])
    ensures b[NaturalAt(k)] == 0 ==> Partial(b, k + 1, part)
  {
    hide NaturalAt;
    NaturalOrderIsOrder();
    var order := NaturalOrder();
    assert forall j :: 0 <= j < 64 ==> order[j] == NaturalAt(j);
  }

  /** A symbol and its value bits at the head of the rest of a block. */
  lemma FirstItem(e: EncoderTable, t: Table, item: Item, items: seq<Item>, rest: Bits)
    requires WellFormed(t) && LegalTree(t.bits) && Encodes(e, t) && LegalEncoder(e)
    requires Covers(e, [item] + items)
    ensures var code, x := ToBits(e.ehufco[item.symbol], e.ehufsi[item.symbol]), ToBits(item.extra, item.n);
      var bits, after := ItemsBits(e, [item] + items) + rest, ItemsBits(e, items) + rest;
      SymbolFrom(t, bits, 1) == Symbol(item.symbol, |code|) && Drop(bits, |code|) == x + after
  {
    hide ToBits, LegalTree, Encodes, SymbolFrom, Drop;
    var all := [item] + items;
    var code, x := ToBits(e.ehufco[item.symbol], e.ehufsi[item.symbol]), ToBits(item.extra, item.n);
    assert all[0] == item && all[1..] == items;
    Reassociate(code + x, ItemsBits(e, items), rest);
    Reassociate(code, x, ItemsBits(e, items) + rest);
    SymbolDecodes(e, t, item.symbol, x + (ItemsBits(e, items) + rest));
  }

  /** An encoder's table and the table it derives from. */
  ghost predicate Paired(e: EncoderTable, t: Table) {
    WellFormed(t) && LegalTree(t.bits) && Encodes(e, t) && LegalEncoder(e)
  }

  lemma DecodeEnd(e: EncoderTable, t: Table, k: nat, part: Block, rest: Bits)
    requires Paired(e, t) && Covers(e, [Item(0, 0, 0)]) && k < 64
    ensures DecodeAc(t, ItemsBits(e, [Item(0, 0, 0)]) + rest, k, part) == Decoded(part, rest)
  {
    hide ToBits, LegalTree, Encodes, SymbolFrom, Drop, NaturalAt, ItemsBits;
    EndOfBlock(e, rest);
    FirstItem(e, t, Item(0, 0, 0), [], rest);
  }

  lemma DecodeRun(e: EncoderTable, t: Table, items: seq<Item>, k: nat, part: Block, rest: Bits)
    requires Paired(e, t) && Covers(e, [Item(0xF0, 0, 0)] + items) && k < 64
    ensures DecodeAc(t, ItemsBits(e, [Item(0xF0, 0, 0)] + items) + rest, k, part)
         == DecodeAc(t, ItemsBits(e, items) + rest, k + 16, part)
  {
    hide ToBits, LegalTree, Encodes, SymbolFrom, Drop, NaturalAt, ItemsBits;
    FirstItem(e, t, Item(0xF0, 0, 0), items, rest);
    assert ToBits(0, 0) + (ItemsBits(e, items) + rest) == ItemsBits(e, items) + rest;
  }

  lemma DecodeCoef(e: EncoderTable, t: Table, r: nat, v: int, items: seq<Item>, k: nat, part: Block, rest: Bits)
    requires Paired(e, t) && r <= 15 && v != 0 && Magnitude(v) < 32768
    requires Covers(e, [ValueItem(r, v)] + items) && k + r < 64
    ensures DecodeAc(t, ItemsBits(e, [ValueItem(r, v)] + items) + rest, k, part)
         == DecodeAc(t, ItemsBits(e, items) + rest, k + r + 1, part[NaturalAt(k + r) := v])
  {
    hide ToBits, LegalTree, Encodes, SymbolFrom, Drop, NaturalAt, ItemsBits, Extra, NBits, DecodeValue;
    FirstItem(e, t, ValueItem(r, v), items, rest);
    SymbolParts(r, v);
    ValueDecodes(v, ItemsBits(e, items) + rest);
  }

  /** Decoding AC coefficients undoes coding them: the zero runs, the values and the end of block. */
  lemma {:induction false} AcDecodes(e: EncoderTable, t: Table, b: Block, k: nat, r: nat, part: Block, rest: Bits)
    requires Paired(e, t) && LegalBlock(b) && r <= k <= 64 && Partial(b, k, part)
    requires LegalEncoder(e) && Covers(e, AcItems(b, k, r))
    ensures WellFormed(t) && DecodeAc(t, ItemsBits(e, AcItems(b, k, r)) + rest, k - r, part) == Decoded(b, rest)
    decreases 64 - k, r
  {
    hide NaturalAt, Partial, ItemsBits, LegalEncoder, DecodeAc, ValueItem, Covers;
    PairedParts(e, t);
    if k == 64 {
      PartialAll(b, part);
      if r > 0 {
        DecodeEnd(e, t, k - r, part, rest);
      } else {
        DecodeNothing(e, t, part, rest);
      }
    } else {
      PartialNext(b, k, part);
      var v := b[NaturalAt(k)];
      if v == 0 {
        AcDecodes(e, t, b, k + 1, r + 1, part, rest);
      } else if r > 15 {
        var items := AcItems(b, k, r - 16);
        DecodeRun(e, t, items, k - r, part, rest);
        CoversRest(e, Item(0xF0, 0, 0), items);
        AcDecodes(e, t, b, k, r - 16, part, rest);
      } else {
        var items := AcItems(b, k + 1, 0);
        DecodeCoef(e, t, r, v, items, k - r, part, rest);
        CoversRest(e, ValueItem(r, v), items);
        AcDecodes(e, t, b, k + 1, 0, part[NaturalAt(k) := v], rest);
      }
    }
  }

  lemma PairedParts(e: EncoderTable, t: Table)
    requires Paired(e, t)
    ensures WellFormed(t) && LegalEncoder(e)
  {
  }

  lemma CoversRest(e: EncoderTable, item: Item, items: seq<Item>)
    requires LegalEncoder(e) && Covers(e, [item] + items)
    ensures Covers(e, items)
  {
    assert forall i :: 0 <= i < |items| ==> ([item] + items)[i + 1] == items[i];
  }

  lemma DecodeNothing(e: EncoderTable, t: Table, b: Block, rest: Bits)
    requires LegalEncoder(e) && WellFormed(t)
    ensures DecodeAc(t, ItemsBits(e, []) + rest, 64, b) == Decoded(b, rest)
  {
    NoItems(e, rest);
  }

  lemma SymbolParts(r: nat, v: int)
    requires r <= 15 && v != 0 && Magnitude(v) < 32768
    ensures var s := ValueItem(r, v).symbol; s / 16 == r && s % 16 == NBits(Magnitude(v)) > 0
  {
    Pow2Fifteen();
    NBitsBound(Magnitude(v), 15);
  }

  lemma NoItems(e: EncoderTable, rest: Bits)
    requires LegalEncoder(e)
    ensures ItemsBits(e, []) + rest == rest
  {
    assert [] + rest == rest;
  }

  lemma EndOfBlock(e: EncoderTable, rest: Bits)
    requires LegalEncoder(e)
    ensures ToBits(0, 0) + (ItemsBits(e, []) + rest) == rest
    ensures [Item(0, 0, 0)] + [] == [Item(0, 0, 0)]
  {
    assert [] + rest == rest;
  }
}
