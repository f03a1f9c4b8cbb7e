/** DC coefficients: differences from the block before of the same component, and single bits in refinements. */
module DcLaws {
  import opened Bytes
  import opened BitStrings
  import ArithCode
  import opened ArithMcu
  import opened HuffBlock
  import opened HuffPlan
  import opened HuffTable
  import opened ProgDc
  import opened ProgRefine
  import opened ZigZag

  /** The value of the last of the first i blocks of component c; before the first one, the value at the start. */
  function Previous(cis: seq<nat>, vs: seq<int>, start: seq<int>, c: nat, i: nat): int
    requires |cis| == |vs| && i <= |cis| && c < |start|
  {
    if i == 0 then start[c] else if cis[i - 1] == c then vs[i - 1] else Previous(cis, vs, start, c, i - 1)
  }

  lemma {:induction false} PreviousFront(cis: seq<nat>, vs: seq<int>, start: seq<int>, c: nat, i: nat)
    requires |cis| == |vs| && 1 <= i <= |cis| && c < |start| && cis[0] < |start|
    ensures Previous(cis, vs, start, c, i) == Previous(cis[1..], vs[1..], start[cis[0] := vs[0]], c, i - 1)
  {
    if i > 1 { PreviousFront(cis, vs, start, c, i - 1); }
  }

  // ----- Sequential Huffman coding

  function Dcs(bs: seq<Block>): (vs: seq<int>)
    ensures |vs| == |bs|
  {
    seq(|bs|, i requires 0 <= i < |bs| => bs[i][0])
  }

  /** Each block of an MCU is coded with the tables of its component and the difference from its predecessor. */
  lemma {:induction false} BlockStepLaw(c: Coding, n: nat, last: seq<int>, cis: seq<nat>, bs: seq<Block>, i: nat)
    requires ValidCoding(c, n) && LegalLast(c, last) && Members(c, cis) && |cis| == |bs| && LegalBlocks(bs) && i < |bs|
    ensures |BlockSteps(c, n, last, cis, bs)| == |bs| && cis[i] < |last|
    ensures BlockSteps(c, n, last, cis, bs)[i] ==
      Code(c.dcTbl[cis[i]], c.acTbl[cis[i]], bs[i][0] - Previous(cis, Dcs(bs), last, cis[i], i), bs[i])
    decreases |bs|
  {
    hide LegalBlock, LegalPlan, ValidCoding;
    assert Dcs(bs[1..]) == Dcs(bs)[1..];
    if i > 0 {
      BlockStepLaw(c, n, NextLast(c, last, cis[0], bs[0]), cis[1..], bs[1..], i - 1);
      PreviousFront(cis, Dcs(bs), last, cis[i], i);
    } else if |bs| > 1 {
      BlockStepLaw(c, n, NextLast(c, last, cis[0], bs[0]), cis[1..], bs[1..], 0);
    } else {
      assert bs[1..] == [];
    }
  }

  // ----- First DC scans

  /** The differences of all blocks. */
  function Differences(cis: seq<nat>, vs: seq<int>, last: seq<int>): (ds: seq<int>)
    requires |cis| == |vs| && Components(cis, |last|)
    ensures |ds| == |vs|
  {
    seq(|vs|, i requires 0 <= i < |vs| => vs[i] - Previous(cis, vs, last, cis[i], i))
  }

  lemma DifferencesFront(cis: seq<nat>, vs: seq<int>, last: seq<int>)
    requires |cis| == |vs| > 0 && Components(cis, |last|)
    ensures Differences(cis, vs, last) == [vs[0] - last[cis[0]]] + Differences(cis[1..], vs[1..], last[cis[0] := vs[0]])
  {
    var ds, more := Differences(cis, vs, last), Differences(cis[1..], vs[1..], last[cis[0] := vs[0]]);
    forall i | 1 <= i < |vs|
      ensures ds[i] == more[i - 1]
    {
      PreviousFront(cis, vs, last, cis[i], i);
    }
  }

  /** The scan codes exactly these differences, each with the table of its component. */
  function DifferenceBits(e: seq<EncoderTable>, cis: seq<nat>, ds: seq<int>): Bits
    requires |cis| == |ds| && Components(cis, |e|) && LegalEncodersOf(e) && forall i :: 0 <= i < |ds| ==> Magnitude(ds[i]) < 32768
  {
    if ds == [] then [] else ItemBits(e[cis[0]], DcItem(ds[0])) + DifferenceBits(e, cis[1..], ds[1..])
  }

  lemma {:induction false} DifferencesSmall(cis: seq<nat>, vs: seq<int>, last: seq<int>)
    requires |cis| == |vs| && Components(cis, |last|) && DcFits(cis, vs, last)
    ensures forall i :: 0 <= i < |vs| ==> Magnitude(Differences(cis, vs, last)[i]) < 32768
    decreases |vs|
  {
    hide DiffFits, Differences, Magnitude;
    if vs != [] {
      DifferencesFront(cis, vs, last);
      DiffIsSmall(vs[0] - last[cis[0]]);
      DifferencesSmall(cis[1..], vs[1..], last[cis[0] := vs[0]]);
    }
  }

  lemma {:induction false} DcBitsLaw(e: seq<EncoderTable>, cis: seq<nat>, vs: seq<int>, last: seq<int>)
    requires |cis| == |vs| && |e| == |last| && Components(cis, |last|) && LegalEncodersOf(e) && DcFits(cis, vs, last)
    ensures DcBits(e, cis, vs, last) == (DifferencesSmall(cis, vs, last); DifferenceBits(e, cis, Differences(cis, vs, last)))
    decreases |vs|
  {
    hide DiffFits, Differences, ItemBits, LegalEncoder, Magnitude, DcItem;
    DifferencesSmall(cis, vs, last);
    if vs != [] {
      DifferencesFront(cis, vs, last);
      DiffIsSmall(vs[0] - last[cis[0]]);
      DcBitsLaw(e, cis[1..], vs[1..], last[cis[0] := vs[0]]);
      DifferencesSmall(cis[1..], vs[1..], last[cis[0] := vs[0]]);
      assert Differences(cis, vs, last)[1..] == Differences(cis[1..], vs[1..], last[cis[0] := vs[0]]);
    }
  }

  // ----- DC refinements

  /** Bit al of the value, in two's complement. */
  lemma NextBitsLaw(bs: seq<Block>, al: nat, i: nat)
    requires i < |bs|
    ensures NextBits(bs, al)[i] <==> ShrFloor(bs[i][0], al) % 2 == 1
    ensures Shl(ShrFloor(bs[i][0], al), al) <= bs[i][0] < Shl(ShrFloor(bs[i][0], al) + 1, al)
  {
    hide TestBit, ShrFloor;
    ShrFloorHalf(bs[i][0], al);
    ShrFloorBounds(bs[i][0], al);
  }

  lemma {:induction false} ShrFloorBounds(v: int, n: nat)
    ensures Shl(ShrFloor(v, n), n) <= v < Shl(ShrFloor(v, n) + 1, n)
    decreases n
  {
    if n > 0 {
      ShrFloorBounds(v / 2, n - 1);
    }
  }

  // ----- Arithmetic coding

  /** What the coder remembers of a component: the value of its last block, from which the next difference is taken. */
  lemma {:induction false} DcAfterLaw(scan: ArithMcu.Scan, dc: DcState, cis: seq<nat>, bs: seq<Block>, c: nat)
    requires ValidScan(scan) && ValidDc(scan, dc) && LegalBlocks(bs) && |cis| == |bs| && c < |scan.comps|
    requires forall i :: 0 <= i < |cis| ==> cis[i] < |scan.comps|
    ensures DcAfter(scan, dc, cis, bs).last[c] == Previous(cis, Dcs(bs), dc.last, c, |bs|)
    decreases |bs|
  {
    hide ValidScan, DcContext, LegalBlock;
    if bs != [] {
      assert Dcs(bs[1..]) == Dcs(bs)[1..];
      DcAfterLaw(scan, NextDc(scan, dc, cis[0], bs[0]), cis[1..], bs[1..], c);
      PreviousFront(cis, Dcs(bs), dc.last, c, |bs|);
    }
  }

  /** A block starts with the difference of its DC coefficient: whether there is one, and whether the value has become smaller. */
  lemma BlockCodeLaw(scan: ArithMcu.Scan, dc: DcState, ci: nat, b: Block)
    requires ValidScan(scan) && ValidDc(scan, dc) && ci < |scan.comps|
    ensures var d, s0 := BlockCode(scan, dc, ci, b), ArithCode.Stat(ArithCode.DcStats(scan.comps[ci].dcTbl), dc.ctx[ci]);
      && |d| > 0 && d[0] == ArithCode.Decision(s0, b[0] != dc.last[ci])
      && (b[0] != dc.last[ci] ==> |d| > 1 && d[1].bit == (b[0] < dc.last[ci]))
  {
    hide AcFrom, Zig, ValidScan, ValidDc, DcMagnitude;
  }
}
