/** What Huffman coded data looks like: canonical codes, the symbols of a block, the value bits, the padding. */
module HuffLaws {
  import opened Bytes
  import opened BitStrings
  import opened BitWriter
  import opened HuffBlock
  import opened HuffTable
  import opened ZigZag

  // ----- Canonical codes (Annex C)

  /** The first code is all zeros. */
  lemma FirstCode(bits: seq<int>, l: nat)
    requires |bits| == 17 && (forall i :: 1 <= i <= 16 ==> bits[i] >= 0) && HasLength(bits, 0, l)
    ensures CodeAt(bits, 0, l) == 0
  {
    CodesMonotonic(bits, 0, l - 1);
    NothingBefore(bits, l - 1);
  }

  /** Each code is the one before plus one, with zeros appended if it is longer. */
  lemma NextCode(bits: seq<int>, p: nat, k: nat, l: nat)
    requires |bits| == 17 && (forall i :: 1 <= i <= 16 ==> bits[i] >= 0) && HasLength(bits, p, k) && HasLength(bits, p + 1, l)
    ensures k <= l && CodeAt(bits, p + 1, l) == Shl(CodeAt(bits, p, k) + 1, l - k)
  {
    hide CodesTo, Filled;
    if l < k {
      CodesMonotonic(bits, l, k - 1);
      assert false;
    } else if k < l {
      CodesMonotonic(bits, k, l - 1);
      FilledBetween(bits, k, l - 1);
      FilledNext(bits, k);
    }
  }

  lemma FilledNext(bits: seq<int>, k: nat)
    requires |bits| == 17 && 1 <= k <= 16
    ensures Filled(bits, k) == 2 * Filled(bits, k - 1) + bits[k] && CodesTo(bits, k) == CodesTo(bits, k - 1) + bits[k]
  {
  }

  /** No codes between two lengths: the room of the shorter ones doubles. */
  lemma {:induction false} FilledBetween(bits: seq<int>, k: nat, l: nat)
    requires |bits| == 17 && (forall i :: 1 <= i <= 16 ==> bits[i] >= 0) && k <= l <= 16 && CodesTo(bits, k) == CodesTo(bits, l)
    ensures Filled(bits, l) == Shl(Filled(bits, k), l - k)
    decreases l
  {
    if k < l {
      CodesMonotonic(bits, k, l - 1);
      FilledBetween(bits, k, l - 1);
    }
  }

  /** Padding with ones never looks like a code. */
  lemma PaddingIsNoCode(bits: seq<int>, p: int, l: nat, n: nat)
    requires |bits| == 17 && (forall i :: 1 <= i <= 16 ==> bits[i] >= 0) && LegalTree(bits) && HasLength(bits, p, l)
    ensures 0 <= CodeAt(bits, p, l) && !(ToBits(CodeAt(bits, p, l), l) <= Padding(n))
  {
    hide LegalTree, CodeAt, Filled, CodesTo, Pow2;
    CodeFits(bits, p, l);
    var code := ToBits(CodeAt(bits, p, l), l);
    if code <= Padding(n) {
      assert code == Padding(l) by {
        forall i | 0 <= i < l
          ensures code[i] == Padding(l)[i]
        {
          assert code[i] == Padding(n)[i];
          OnesOnly(n, i);
          OnesOnly(l, i);
        }
      }
      AllOnes(l);
      NumToBits(CodeAt(bits, p, l), l);
      NumToBits(Pow2(l) - 1, l);
      assert false;
    }
  }

  lemma {:induction false} OnesOnly(n: nat, i: nat)
    requires i < n
    ensures Padding(n)[i]
  {
    if i < n - 1 { OnesOnly(n - 1, i); }
  }

  // ----- Symbols and values (section F.1.2)

  /** The symbol of a nonzero value: the zero run in the high four bits, the number of value bits in the low four, which is that
      of the magnitude. */
  lemma ValueSymbol(run: nat, v: int)
    requires run <= 15 && 0 < Magnitude(v) < 32768
    ensures var item := ValueItem(run, v);
      && item.symbol / 16 == run && item.symbol % 16 == item.n > 0
      && Pow2(item.n - 1) <= Magnitude(v) < Pow2(item.n)
  {
    hide Pow2;
    Pow2Fifteen();
    NBitsBound(Magnitude(v), 15);
  }

  /** The value bits number the values of n bits in their order, the negative ones first. */
  lemma ExtraIncreases(v: int, w: int)
    requires v < w && v != 0 && w != 0 && NBits(Magnitude(v)) == NBits(Magnitude(w))
    ensures Extra(v) < Extra(w) < Pow2(NBits(Magnitude(w)))
  {
    hide NBits;
  }

  /** Their first bit tells the sign. */
  lemma ExtraSign(v: int)
    requires v != 0
    ensures v > 0 <==> Extra(v) >= Pow2(NBits(Magnitude(v)) - 1)
  {
  }

  /** A zero run of 16 leads up to more, and the end of the block is told only once, at the end. */
  ghost predicate WellEnded(items: seq<Item>) {
    forall i :: 0 <= i < |items| ==> WellFollowed(items, i)
  }

  predicate WellFollowed(items: seq<Item>, i: int)
    requires 0 <= i < |items|
  {
    && (items[i].symbol == 0xF0 ==> i + 1 < |items| && items[i + 1].symbol != 0)
    && (items[i].symbol == 0 ==> i + 1 == |items|)
  }

  lemma WellEndedCons(a: Item, items: seq<Item>)
    requires WellEnded(items) && a.symbol != 0 && (a.symbol == 0xF0 ==> items != [] && items[0].symbol != 0)
    ensures WellEnded([a] + items)
  {
    var all := [a] + items;
    assert all[0] == a;
    forall i | 0 <= i < |all|
      ensures WellFollowed(all, i)
    {
      if i > 0 { assert all[i] == items[i - 1] && WellFollowed(items, i - 1); }
    }
  }

  /** The symbols of a block: zero runs only before a coefficient, EOB exactly if zeros are left at the end. */
  lemma {:induction false} AcItemsLaw(b: Block, k: nat, r: nat)
    requires LegalBlock(b) && 1 <= k <= 64
    ensures var items := AcItems(b, k, r);
      && WellEnded(items)
      && (k < 64 && b[NaturalAt(k)] != 0 ==> items != [] && items[0].symbol != 0)
    decreases 64 - k, r
  {
    hide NaturalAt, WellEnded, ValueItem, Magnitude;
    if k == 64 {
      EobOnly();
    } else {
      var v := b[NaturalAt(k)];
      if v == 0 {
        AcItemsLaw(b, k + 1, r + 1);
      } else if r > 15 {
        AcItemsLaw(b, k, r - 16);
        WellEndedCons(Item(0xF0, 0, 0), AcItems(b, k, r - 16));
      } else {
        AcItemsLaw(b, k + 1, 0);
        NotRun(r, v);
        assert Magnitude(v) < 32768 by { SmallEnough(v); }
        WellEndedCons(ValueItem(r, v), AcItems(b, k + 1, 0));
      }
    }
  }

  /** EOB is sent exactly if the last coefficient is zero. */
  lemma {:induction false} EobLaw(b: Block, k: nat, r: nat)
    requires LegalBlock(b) && 1 <= k <= 64
    ensures var items := AcItems(b, k, r);
      items != [] && items[|items| - 1].symbol == 0 <==> if k < 64 then b[NaturalAt(63)] == 0 else r > 0
    decreases 64 - k, r
  {
    hide NaturalAt, ValueItem, Magnitude, LegalItems;
    if k < 64 {
      var v := b[NaturalAt(k)];
      if v == 0 {
        EobLaw(b, k + 1, r + 1);
      } else if r > 15 {
        EobLaw(b, k, r - 16);
        AcItemsLaw(b, k, r - 16);
      } else {
        EobLaw(b, k + 1, 0);
        NotRun(r, v);
      }
    }
  }

  lemma SmallEnough(v: int)
    requires -16384 <= v <= 16383
    ensures Magnitude(v) < 32768
  {
  }

  lemma NotRun(r: nat, v: int)
    requires r <= 15 && v != 0 && -16384 <= v <= 16383
    ensures ValueItem(r, v).symbol != 0 && ValueItem(r, v).symbol != 0xF0
  {
    ValueSymbol(r, v);
  }

  lemma EobOnly()
    ensures WellEnded([]) && WellEnded([Item(0, 0, 0)])
  {
  }

  // ----- A block, coefficient by coefficient (Figure F.2)

  /** n runs of 16 zeros. */
  function ZeroRuns(n: nat): seq<Item> {
    if n == 0 then [] else [Item(0xF0, 0, 0)] + ZeroRuns(n - 1)
  }

  /** If the next nonzero coefficient after r zeros is at j, the zeros are told in runs of 16, and the rest of them with it. */
  lemma {:induction false} NextCoefLaw(b: Block, k: nat, r: nat, j: nat)
    requires LegalBlock(b) && 1 <= k <= j < 64 && b[NaturalAt(j)] != 0 && forall i :: k <= i < j ==> b[NaturalAt(i)] == 0
    ensures Magnitude(b[NaturalAt(j)]) < 32768
    ensures AcItems(b, k, r) == ZeroRuns((r + j - k) / 16) + ([ValueItem((r + j - k) % 16, b[NaturalAt(j)])] + AcItems(b, j + 1, 0))
    decreases j - k, r
  {
    hide NaturalAt, ValueItem, LegalItems;
    SmallEnough(b[NaturalAt(j)]);
    if k < j {
      NextCoefLaw(b, k + 1, r + 1, j);
    } else if r > 15 {
      NextCoefLaw(b, k, r - 16, j);
      SixteenLess(r);
      var v := b[NaturalAt(j)];
      Reassociate([Item(0xF0, 0, 0)], ZeroRuns((r - 16) / 16), [ValueItem((r - 16) % 16, v)] + AcItems(b, j + 1, 0));
    } else {
      assert r / 16 == 0 && r % 16 == r;
    }
  }

  lemma SixteenLess(r: nat)
    requires r > 15
    ensures r / 16 == (r - 16) / 16 + 1 && r % 16 == (r - 16) % 16
  {
  }

  /** If there is none, the block ends with EOB, unless it is complete. */
  lemma {:induction false} NoCoefLaw(b: Block, k: nat, r: nat)
    requires LegalBlock(b) && 1 <= k <= 64 && forall i :: k <= i < 64 ==> b[NaturalAt(i)] == 0
    ensures AcItems(b, k, r) == if r + (64 - k) > 0 then [Item(0, 0, 0)] else []
    decreases 64 - k
  {
    hide NaturalAt, LegalItems;
    if k < 64 { NoCoefLaw(b, k + 1, r + 1); }
  }
}
