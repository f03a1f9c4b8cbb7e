/** The zigzag order of coefficients within a block. */
module ZigZag {

  type Block = b: seq<int> | |b| == 64 witness seq(64, _ => 0)

  /** Coefficients of 8-bit data (-1024 .. 1023) or 12-bit data. */
  predicate LegalBlock(b: Block) {
    forall i :: 0 <= i < 64 ==> -16384 <= b[i] <= 16383
  }

  predicate LegalBlocks(bs: seq<Block>) {
    forall i :: 0 <= i < |bs| ==> LegalBlock(bs[i])
  }

  /** MCUs of n blocks. */
  predicate LegalMcu(n: nat, mcu: seq<Block>) {
    |mcu| == n && LegalBlocks(mcu)
  }

  predicate LegalMcus(n: nat, mcus: seq<seq<Block>>) {
    forall i :: 0 <= i < |mcus| ==> LegalMcu(n, mcus[i])
  }

  function Magnitude(v: int): nat {
    if v < 0 then -v else v
  }

  /** A (JCOEF) cast, to 16 bits. */
  function Coef(v: int): int {
    (v + 0x8000) % 0x10000 - 0x8000
  }

  /** A scanning order: a permutation of the 64 positions that starts with the DC coefficient. */
  predicate IsOrder(order: seq<int>) {
    && InRange(order) && order[0] == 0
    && (forall j, k :: 0 <= j < k < 64 ==> order[j] != order[k])
    && (forall i :: 0 <= i < 64 ==> i in order)
  }

  predicate InRange(order: seq<int>) {
    |order| == 64 && forall k :: 0 <= k < 64 ==> 0 <= order[k] < 64
  }

  /** The coefficients of a block in scanning order. */
  function Zig(order: seq<int>, b: Block): (z: seq<int>)
    requires InRange(order)
    ensures |z| == 64 && forall k :: 0 <= k < 64 ==> z[k] == b[order[k]]
  {
    seq(64, k requires 0 <= k < 64 => b[order[k]])
  }

  /** The scanned coefficients determine the block. */
  lemma ZigInjective(order: seq<int>, b: Block, c: Block)
    requires IsOrder(order)
    requires Zig(order, b) == Zig(order, c)
    ensures b == c
  {
    forall i | 0 <= i < 64
      ensures b[i] == c[i]
    {
      assert i in order;
      var k :| 0 <= k < 64 && order[k] == i;
      assert Zig(order, b)[k] == Zig(order, c)[k];
    }
  }

  // Positions past the end map to the last coefficient.
  function NaturalAt(k: int): (i: int)
    ensures 0 <= i < 64
  {
    match k
    case 0 => 0 case 1 => 1 case 2 => 8 case 3 => 16
    case 4 => 9 case 5 => 2 case 6 => 3 case 7 => 10
    case 8 => 17 case 9 => 24 case 10 => 32 case 11 => 25
    case 12 => 18 case 13 => 11 case 14 => 4 case 15 => 5
    case 16 => 12 case 17 => 19 case 18 => 26 case 19 => 33
    case 20 => 40 case 21 => 48 case 22 => 41 case 23 => 34
    case 24 => 27 case 25 => 20 case 26 => 13 case 27 => 6
    case 28 => 7 case 29 => 14 case 30 => 21 case 31 => 28
    case 32 => 35 case 33 => 42 case 34 => 49 case 35 => 56
    case 36 => 57 case 37 => 50 case 38 => 43 case 39 => 36
    case 40 => 29 case 41 => 22 case 42 => 15 case 43 => 23
    case 44 => 30 case 45 => 37 case 46 => 44 case 47 => 51
    case 48 => 58 case 49 => 59 case 50 => 52 case 51 => 45
    case 52 => 38 case 53 => 31 case 54 => 39 case 55 => 46
    case 56 => 53 case 57 => 60 case 58 => 61 case 59 => 54
    case 60 => 47 case 61 => 55 case 62 => 62 case _ => 63
  }

  // Where each position comes in the zigzag order.
  function IndexOf(k: int): int
  {
    match k
    case 0 => 0 case 1 => 1 case 2 => 5 case 3 => 6
    case 4 => 14 case 5 => 15 case 6 => 27 case 7 => 28
    case 8 => 2 case 9 => 4 case 10 => 7 case 11 => 13
    case 12 => 16 case 13 => 26 case 14 => 29 case 15 => 42
    case 16 => 3 case 17 => 8 case 18 => 12 case 19 => 17
    case 20 => 25 case 21 => 30 case 22 => 41 case 23 => 43
    case 24 => 9 case 25 => 11 case 26 => 18 case 27 => 24
    case 28 => 31 case 29 => 40 case 30 => 44 case 31 => 53
    case 32 => 10 case 33 => 19 case 34 => 23 case 35 => 32
    case 36 => 39 case 37 => 45 case 38 => 52 case 39 => 54
    case 40 => 20 case 41 => 22 case 42 => 33 case 43 => 38
    case 44 => 46 case 45 => 51 case 46 => 55 case 47 => 60
    case 48 => 21 case 49 => 34 case 50 => 37 case 51 => 47
    case 52 => 50 case 53 => 56 case 54 => 59 case 55 => 61
    case 56 => 35 case 57 => 36 case 58 => 48 case 59 => 49
    case 60 => 57 case 61 => 58 case 62 => 62 case _ => 63
  }

  function NaturalOrder(): (order: seq<int>)
    ensures |order| == 64
  {
    seq(64, k => NaturalAt(k))
  }

  lemma IndexOfNatural(k: int)
    requires 0 <= k < 64
    ensures IndexOf(NaturalAt(k)) == k
  {
  }

  lemma NaturalOfIndex(i: int)
    requires 0 <= i < 64
    ensures 0 <= IndexOf(i) < 64 && NaturalAt(IndexOf(i)) == i
  {
  }

  lemma NaturalOrderIsOrder()
    ensures IsOrder(NaturalOrder())
  {
    hide NaturalAt, IndexOf;
    var order := NaturalOrder();
    IndexOfNatural(0);
    forall k | 0 <= k < 64
      ensures IndexOf(order[k]) == k
    {
      IndexOfNatural(k);
    }
    forall i | 0 <= i < 64
      ensures i in order
    {
      NaturalOfIndex(i);
      assert order[IndexOf(i)] == i;
    }
    assert order[0] == 0 by { StartsWithDc(); }
  }

  lemma StartsWithDc()
    ensures NaturalAt(0) == 0
  {
  }

  // ----- The walk that gives the order its name

  /** The next position: up and to the right on an even diagonal, down and to the left on an odd one, and along the edge where
      that would leave the block. */
  function ZigNext(i: nat): nat {
    var row, col := i / 8, i % 8;
    if (row + col) % 2 == 0 then
      if col == 7 then i + 8 else if row == 0 then i + 1 else i - 7
    else
      if row == 7 then i + 1 else if col == 0 then i + 8 else i + 7
  }

  /** The k-th position of the walk that starts in the top left corner. */
  function Walk(k: nat): nat {
    if k == 0 then 0 else ZigNext(Walk(k - 1))
  }

  /** The table is this walk. */
  lemma {:induction false} NaturalIsWalk(k: nat)
    requires k < 64
    ensures NaturalAt(k) == Walk(k)
  {
    hide NaturalAt, ZigNext;
    if k == 0 {
      StartsWithDc();
    } else {
      NaturalIsWalk(k - 1);
      NaturalStep(k - 1);
    }
  }

  lemma NaturalStep(k: nat)
    requires k < 63
    ensures NaturalAt(k + 1) == ZigNext(NaturalAt(k))
  {
    if k < 20 { NaturalStepLow(k); } else if k < 42 { NaturalStepMiddle(k); } else { NaturalStepHigh(k); }
  }

  lemma NaturalStepLow(k: nat)
    requires k < 20
    ensures NaturalAt(k + 1) == ZigNext(NaturalAt(k))
  {
  }

  lemma NaturalStepMiddle(k: nat)
    requires 20 <= k < 42
    ensures NaturalAt(k + 1) == ZigNext(NaturalAt(k))
  {
  }

  lemma NaturalStepHigh(k: nat)
    requires 42 <= k < 63
    ensures NaturalAt(k + 1) == ZigNext(NaturalAt(k))
  {
  }

  /** The diagonal of a position, counted from the top left corner. */
  function Diagonal(i: nat): nat {
    i / 8 + i % 8
  }

  /** The order goes through the diagonals one after the other, upward through the even ones and downward through the odd ones. */
  lemma AlongDiagonals(k: nat)
    requires k < 63
    ensures var i, j := NaturalAt(k), NaturalAt(k + 1);
      if Diagonal(j) == Diagonal(i) then if Diagonal(i) % 2 == 0 then i / 8 == j / 8 + 1 else j / 8 == i / 8 + 1
      else Diagonal(j) == Diagonal(i) + 1
  {
    hide NaturalAt, IndexOf;
    var i := NaturalAt(k);
    NaturalStep(k);
    IndexOfNatural(k);
    IndexOfNatural(k + 1);
    StepOnDiagonal(i, NaturalAt(k + 1));
  }

  lemma StepOnDiagonal(i: nat, j: nat)
    requires i < 64 && j == ZigNext(i) && j < 64
    ensures if Diagonal(j) == Diagonal(i) then if Diagonal(i) % 2 == 0 then i / 8 == j / 8 + 1 else j / 8 == i / 8 + 1
      else Diagonal(j) == Diagonal(i) + 1
  {
  }
}
