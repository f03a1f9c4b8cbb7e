/** Progressive DC scans (sections G.1.2.1 of ITU-T T.81): the first scan of DC coefficients after the point
    transform, and their refinement bit by bit. */
module ProgDc {
  import opened Bytes
  import opened BitStrings
  import opened BitReader
  import opened BitWriter
  import opened HuffTable
  import opened HuffDecode
  import opened HuffBlock
  import opened HuffDecoder
  import opened HuffEncoder
  import opened HuffTranscode
  import opened ProgDecoder
  import opened ProgRefine
  import opened ProgWriter
  import opened Segments
  import opened ZigZag

  // ----- Point transform

  /** v >> n, rounding toward minus infinity. */
  function ShrFloor(v: int, n: nat): int
    decreases n
  {
    if n == 0 then v else ShrFloor(v / 2, n - 1)
  }

  /** The coefficient rounded down to a multiple of 2^al. */
  function Floor(v: int, al: nat): int {
    Shl(ShrFloor(v, al), al)
  }

  lemma {:induction false} ShrFloorHalf(v: int, n: nat)
    ensures ShrFloor(v, n + 1) == ShrFloor(v, n) / 2 && TestBit(v, n) == (ShrFloor(v, n) % 2 == 1)
    decreases n
  {
    if n != 0 { ShrFloorHalf(v / 2, n - 1); }
  }

  /** The next bit of the two's-complement value makes the rounding finer by one bit. */
  lemma FloorFiner(v: int, al: nat)
    ensures !TestBit(Floor(v, al + 1), al)
    ensures Floor(v, al) == Floor(v, al + 1) + (if TestBit(v, al) then Pow2(al) else 0)
  {
    hide ShrFloor;
    var a := ShrFloor(v, al);
    var h := a / 2;
    ShrFloorHalf(v, al);
    TestShifted(h, al);
    DoubleShl(h, al);
    ShlAdd(2 * h, a % 2, al);
    ShlZero(al);
  }

  lemma {:induction false} FloorRange(v: int, n: nat, m: nat)
    requires -(Pow2(n + m) as int) <= v < Pow2(n + m)
    ensures -(Pow2(m) as int) <= ShrFloor(v, n) < Pow2(m) && -(Pow2(n + m) as int) <= Floor(v, n) <= v
    decreases n
  {
    if n != 0 {
      FloorRange(v / 2, n - 1, m);
      assert Floor(v, n) == 2 * Floor(v / 2, n - 1);
    }
  }

  lemma FloorIsCoef(v: int, al: nat)
    requires -32768 <= v <= 32767 && al <= 13
    ensures Coef(Floor(v, al)) == Floor(v, al)
  {
    hide ShrFloor, Floor;
    Pow2Fifteen();
    FloorRange(v, al, 15 - al);
  }

  // ----- The first DC scan.  For each block there is its component and its value after the point transform.

  predicate Components(cis: seq<nat>, n: nat) {
    forall i :: 0 <= i < |cis| ==> cis[i] < n
  }

  predicate DiffFits(diff: int) {
    NBits(Magnitude(diff)) <= MAX_COEF_BITS + 1
  }

  lemma DiffIsSmall(diff: int)
    requires DiffFits(diff)
    ensures Magnitude(diff) < 32768
  {
    Pow2Fifteen();
    Pow2Below(NBits(Magnitude(diff)), 15);
  }

  /** The differences a DC scan can code. */
  predicate DcFits(cis: seq<nat>, vs: seq<int>, last: seq<int>)
    requires |cis| == |vs| && Components(cis, |last|)
    decreases |vs|
  {
    vs != [] ==> DiffFits(vs[0] - last[cis[0]]) && DcFits(cis[1..], vs[1..], last[cis[0] := vs[0]])
  }

  /** Tables by component. */
  predicate LegalEncodersOf(e: seq<EncoderTable>) {
    forall i :: 0 <= i < |e| ==> LegalEncoder(e[i])
  }

  function DcBits(e: seq<EncoderTable>, cis: seq<nat>, vs: seq<int>, last: seq<int>): Bits
    requires |cis| == |vs| && |e| == |last| && Components(cis, |last|) && LegalEncodersOf(e) && DcFits(cis, vs, last)
    decreases |vs|
  {
    if vs == [] then []
    else
      DiffIsSmall(vs[0] - last[cis[0]]);
      ItemBits(e[cis[0]], DcItem(vs[0] - last[cis[0]])) + DcBits(e, cis[1..], vs[1..], last[cis[0] := vs[0]])
  }

  predicate DcCovered(e: seq<EncoderTable>, cis: seq<nat>, vs: seq<int>, last: seq<int>)
    requires |cis| == |vs| && |e| == |last| && Components(cis, |last|) && LegalEncodersOf(e) && DcFits(cis, vs, last)
    decreases |vs|
  {
    if vs == [] then true
    else
      DiffIsSmall(vs[0] - last[cis[0]]);
      e[cis[0]].ehufsi[DcItem(vs[0] - last[cis[0]]).symbol] > 0 && DcCovered(e, cis[1..], vs[1..], last[cis[0] := vs[0]])
  }

  datatype DcDecoded = DcDecoded(vs: seq<int>, rest: Bits)

  /** What a DC scan decodes to, on any bit string. */
  function DecodeDcs(t: seq<Table>, bits: Bits, cis: seq<nat>, last: seq<int>): DcDecoded
    requires |t| == |last| && Components(cis, |last|) && forall i :: 0 <= i < |t| ==> WellFormed(t[i])
    decreases |cis|
  {
    if cis == [] then DcDecoded([], bits)
    else
      var d := DecodeDc(t[cis[0]], bits);
      var v := d.v + last[cis[0]];
      var r := DecodeDcs(t, d.rest, cis[1..], last[cis[0] := v]);
      DcDecoded([v] + r.vs, r.rest)
  }

  ghost predicate PairedOf(e: seq<EncoderTable>, t: seq<Table>) {
    |e| == |t| && forall i :: 0 <= i < |e| ==> Paired(e[i], t[i]) && DcSymbols(t[i])
  }

  lemma PairedEach(e: seq<EncoderTable>, t: seq<Table>)
    requires PairedOf(e, t)
    ensures LegalEncodersOf(e) && forall i :: 0 <= i < |t| ==> WellFormed(t[i])
  {
    hide LegalEncoder, WellFormed;
    forall i | 0 <= i < |e|
      ensures LegalEncoder(e[i]) && WellFormed(t[i])
    {
      PairedParts(e[i], t[i]);
    }
  }

  /** Decoding a DC scan undoes coding it. */
  lemma {:induction false} DcsDecode(e: seq<EncoderTable>, t: seq<Table>, cis: seq<nat>, vs: seq<int>, last: seq<int>, rest: Bits)
    requires PairedOf(e, t) && |cis| == |vs| && |e| == |last| && Components(cis, |last|)
    requires LegalEncodersOf(e) && DcFits(cis, vs, last) && DcCovered(e, cis, vs, last)
    requires forall i :: 0 <= i < |t| ==> WellFormed(t[i])
    ensures DecodeDcs(t, DcBits(e, cis, vs, last) + rest, cis, last) == DcDecoded(vs, rest)
    decreases |vs|
  {
    hide ItemBits, DecodeDc, LegalEncoder, WellFormed, DcSymbols, DiffFits, DcItem, Paired, Magnitude;
    if vs == [] {
      assert [] + rest == rest;
    } else {
      var ci, diff := cis[0], vs[0] - last[cis[0]];
      DiffIsSmall(diff);
      var more := DcBits(e, cis[1..], vs[1..], last[ci := vs[0]]);
      Reassociate(ItemBits(e[ci], DcItem(diff)), more, rest);
      OneDcDecodes(e[ci], t[ci], diff, more + rest);
      DcsDecode(e, t, cis[1..], vs[1..], last[ci := vs[0]], rest);
      assert [vs[0]] + vs[1..] == vs;
    }
  }

  lemma OneDcDecodes(e: EncoderTable, t: Table, diff: int, rest: Bits)
    requires Paired(e, t) && LegalEncoder(e) && WellFormed(t) && Magnitude(diff) < 32768 && e.ehufsi[DcItem(diff).symbol] > 0
    ensures DecodeDc(t, ItemBits(e, DcItem(diff)) + rest) == Value(diff, rest)
  {
    hide ItemBits, DecodeDc, LegalTree, Encodes, DcItem;
    DcDecodes(e, t, diff, rest);
  }

  // The point transform of the blocks' DC coefficients.
  function PointDc(bs: seq<Block>, al: nat): (vs: seq<int>)
    ensures |vs| == |bs|
  {
    seq(|bs|, i requires 0 <= i < |bs| => ShrFloor(bs[i][0], al))
  }

  /** encode_mcu_DC_first, for all blocks of the scan: fails exactly if a difference is out of range or its
      symbol has no code. */
  method EncodeDcFirst(em: Emitter, e: seq<EncoderTable>, al: nat, cis: seq<nat>, bs: seq<Block>) returns (ok: bool)
    requires em.Valid() && LegalEncodersOf(e) && Components(cis, |e|) && |cis| == |bs|
    modifies em
    ensures em.Valid()
    ensures var vs, last := PointDc(bs, al), seq(|e|, _ => 0);
      && (ok <==> DcFits(cis, vs, last) && DcCovered(e, cis, vs, last))
      && (ok ==> em.Written() == old(em.Written()) + DcBits(e, cis, vs, last))
  {
    hide Emitter.Valid, Emitter.Written, DcFits, DcBits, DcCovered, LegalEncoder, ShrFloor;
    ghost var vs := PointDc(bs, al);
    var last_dc_val: seq<int> := seq(|e|, _ => 0);
    ghost var start := last_dc_val;
    NoDcs(e, last_dc_val);
    var blkn := 0;
    ghost var before := em.Written();
    assert cis[0..] == cis && vs[0..] == vs;
    while blkn < |bs|
      invariant 0 <= blkn <= |bs| && em.Valid() && |last_dc_val| == |e|
      invariant DcFits(cis[blkn..], vs[blkn..], last_dc_val) == DcFits(cis, vs, start)
      invariant DcFits(cis, vs, start) ==> DcCovered(e, cis[blkn..], vs[blkn..], last_dc_val) == DcCovered(e, cis, vs, start)
      invariant DcFits(cis, vs, start) ==>
        em.Written() + DcBits(e, cis[blkn..], vs[blkn..], last_dc_val) == before + DcBits(e, cis, vs, start)
    {
      var ci := cis[blkn];
      var temp2 := ShrFloor(bs[blkn][0], al);  // the point transform is an arithmetic right shift
      var temp := temp2 - last_dc_val[ci];
      FirstDc(e, cis[blkn..], vs[blkn..], last_dc_val);
      assert cis[blkn..][1..] == cis[blkn + 1..] && vs[blkn..][1..] == vs[blkn + 1..];
      if NBits(Magnitude(temp)) > MAX_COEF_BITS + 1 {
        return false;
      }
      DiffIsSmall(temp);
      ghost var w := em.Written();
      ok := EmitDiff(em, e[ci], temp);
      if !ok {
        return;
      }
      if DcFits(cis, vs, start) {
        Reassociate(w, ItemBits(e[ci], DcItem(temp)), DcBits(e, cis[blkn + 1..], vs[blkn + 1..], last_dc_val[ci := temp2]));
      }
      last_dc_val := last_dc_val[ci := temp2];
      blkn := blkn + 1;
    }
    assert cis[blkn..] == [] && vs[blkn..] == [];
    NoDcs(e, last_dc_val);
    ok := true;
    assert em.Written() + [] == em.Written();
  }

  lemma NoDcs(e: seq<EncoderTable>, last: seq<int>)
    requires LegalEncodersOf(e) && |e| == |last|
    ensures DcFits([], [], last) && DcCovered(e, [], [], last) && DcBits(e, [], [], last) == []
  {
  }

  lemma FirstDc(e: seq<EncoderTable>, cis: seq<nat>, vs: seq<int>, last: seq<int>)
    requires LegalEncodersOf(e) && |e| == |last| && |cis| == |vs| > 0 && Components(cis, |last|)
    ensures var ci := cis[0];
      var diff, next := vs[0] - last[ci], last[ci := vs[0]];
      && DcFits(cis, vs, last) == (DiffFits(diff) && DcFits(cis[1..], vs[1..], next))
      && (DcFits(cis, vs, last) ==>
           && Magnitude(diff) < 32768
           && DcCovered(e, cis, vs, last) == (e[ci].ehufsi[DcItem(diff).symbol] > 0 && DcCovered(e, cis[1..], vs[1..], next))
           && DcBits(e, cis, vs, last) == ItemBits(e[ci], DcItem(diff)) + DcBits(e, cis[1..], vs[1..], next))
  {
    hide DiffFits, DcItem, ItemBits, Magnitude;
    if DiffFits(vs[0] - last[cis[0]]) { DiffIsSmall(vs[0] - last[cis[0]]); }
  }

  method EmitDiff(em: Emitter, tbl: EncoderTable, diff: int) returns (ok: bool)
    requires em.Valid() && LegalEncoder(tbl) && Magnitude(diff) < 32768 && DiffFits(diff)
    modifies em
    ensures em.Valid() && (ok <==> tbl.ehufsi[DcItem(diff).symbol] > 0)
    ensures ok ==> em.Written() == old(em.Written()) + ItemBits(tbl, DcItem(diff))
  {
    hide Emitter.Valid, Emitter.Written, ToBits, NBits, Extra, Magnitude;
    var nbits := NBits(Magnitude(diff));
    ok := em.EmitBits(tbl.ehufco[nbits], tbl.ehufsi[nbits]);
    if !ok {
      return;
    }
    if nbits > 0 {  // emit_bits rejects calls with size 0
      Reassociate(old(em.Written()), ToBits(tbl.ehufco[nbits], tbl.ehufsi[nbits]), ToBits(Extra(diff), nbits));
      ok := em.EmitBits(Extra(diff), nbits);
    } else {
      assert ToBits(Extra(diff), 0) == [];
      assert ToBits(tbl.ehufco[nbits], tbl.ehufsi[nbits]) + [] == ToBits(tbl.ehufco[nbits], tbl.ehufsi[nbits]);
    }
  }

  /** The blocks with these DC coefficients. */
  function WithDcs(held: seq<Block>, vs: seq<int>): (r: seq<Block>)
    requires |held| == |vs|
    ensures |r| == |held|
  {
    seq(|held|, i requires 0 <= i < |held| => held[i][0 := vs[i]])
  }

  function Scaled16(vs: seq<int>, al: nat): (r: seq<int>)
    ensures |r| == |vs|
  {
    seq(|vs|, i requires 0 <= i < |vs| => Coef(Shl(vs[i], al)))
  }

  ghost predicate MatchesOf(d: seq<DecoderTable>, t: seq<Table>) {
    |d| == |t| && forall i :: 0 <= i < |d| ==> Matches(d[i], t[i]) && DcSymbols(t[i])
  }

  lemma MatchesEach(d: seq<DecoderTable>, t: seq<Table>)
    requires MatchesOf(d, t)
    ensures forall i :: 0 <= i < |t| ==> WellFormed(t[i])
  {
    hide WellFormed;
    forall i | 0 <= i < |t|
      ensures WellFormed(t[i])
    {
      MatchesWell(d[i], t[i]);
    }
  }

  /** decode_mcu_DC_first, for all blocks of the scan, on arbitrary input that ends in a marker. */
  method DecodeDcFirst(rd: Reader, d: seq<DecoderTable>, al: nat, cis: seq<nat>, held: seq<Block>, ghost t: seq<Table>, ghost bits: Bits)
    returns (result: seq<Block>)
    requires At(rd, bits) && rd.Complete() && MatchesOf(d, t) && Components(cis, |d|) && |cis| == |held|
    modifies rd
    ensures |t| == |d| && (forall i :: 0 <= i < |t| ==> WellFormed(t[i])) && rd.Valid() && rd.Ahead() == old(rd.Ahead())
    ensures var r := DecodeDcs(t, bits, cis, seq(|t|, _ => 0));
      |r.vs| == |held| && result == WithDcs(held, Scaled16(r.vs, al))
  {
    hide At, Reader.Ahead, MatchesOf, WellFormed, DecodeDc, DecodeDcs, Coef, Shl;
    MatchesEach(d, t);
    MatchesSize(d, t);
    var last_dc_val: seq<int> := seq(|d|, _ => 0);
    ghost var goal, vs, left := DecodeDcs(t, bits, cis, last_dc_val), [], bits;
    assert cis[0..] == cis;
    JoinedNothing(goal);
    result := [];
    var blkn := 0;
    while blkn < |held|
      invariant 0 <= blkn <= |held| && |vs| == |result| == blkn && |last_dc_val| == |d| && At(rd, left) && rd.Ahead() == old(rd.Ahead())
      invariant goal == Joined(vs, DecodeDcs(t, left, cis[blkn..], last_dc_val))
      invariant forall i :: 0 <= i < blkn ==> result[i] == held[i][0 := Coef(Shl(vs[i], al))]
    {
      hide Joined;
      var ci := cis[blkn];
      NextDcs(t, left, cis[blkn..], last_dc_val, vs);
      assert cis[blkn..][1..] == cis[blkn + 1..];
      var s;
      s, left := ReadOneDc(rd, d, ci, last_dc_val[ci], t, left);
      last_dc_val := last_dc_val[ci := s];
      vs := vs + [s];
      result := result + [held[blkn][0 := Coef(Shl(s, al))]];  // Scale and output the coefficient
      blkn := blkn + 1;
    }
    assert cis[blkn..] == [];
    AtValid(rd, left);
    AllDcs(t, left, last_dc_val, vs);
    assert result == WithDcs(held, Scaled16(vs, al));
  }

  lemma AtValid(rd: Reader, bits: Bits)
    requires At(rd, bits)
    ensures rd.Valid()
  {
  }

  method ReadOneDc(rd: Reader, d: seq<DecoderTable>, ci: nat, last: int, ghost t: seq<Table>, ghost bits: Bits)
    returns (s: int, ghost left: Bits)
    requires At(rd, bits) && rd.Complete() && MatchesOf(d, t) && ci < |d| && |d| == |t|
    modifies rd
    ensures WellFormed(t[ci]) && s == DecodeDc(t[ci], bits).v + last && left == DecodeDc(t[ci], bits).rest
    ensures At(rd, left) && rd.Ahead() == old(rd.Ahead())
  {
    hide At, Reader.Ahead, Matches, WellFormed, DecodeDc, DcSymbols;
    MatchesWell(d[ci], t[ci]);
    left := DecodeDc(t[ci], bits).rest;
    var ok;
    ok, s := ReadDc(rd, d[ci], t[ci], bits);
    s := s + last;
  }

  lemma MatchesSize(d: seq<DecoderTable>, t: seq<Table>)
    requires MatchesOf(d, t)
    ensures |d| == |t|
  {
  }

  lemma JoinedNothing(d: DcDecoded)
    ensures Joined([], d) == d
  {
    assert [] + d.vs == d.vs;
  }

  lemma AllDcs(t: seq<Table>, bits: Bits, last: seq<int>, vs: seq<int>)
    requires |t| == |last| && forall i :: 0 <= i < |t| ==> WellFormed(t[i])
    ensures Joined(vs, DecodeDcs(t, bits, [], last)) == DcDecoded(vs, bits)
  {
    assert vs + [] == vs;
  }

  function Joined(vs: seq<int>, d: DcDecoded): DcDecoded {
    DcDecoded(vs + d.vs, d.rest)
  }

  lemma NextDcs(t: seq<Table>, bits: Bits, cis: seq<nat>, last: seq<int>, vs: seq<int>)
    requires |t| == |last| && Components(cis, |last|) && cis != [] && forall i :: 0 <= i < |t| ==> WellFormed(t[i])
    ensures var d := DecodeDc(t[cis[0]], bits);
      var v := d.v + last[cis[0]];
      Joined(vs, DecodeDcs(t, bits, cis, last)) == Joined(vs + [v], DecodeDcs(t, d.rest, cis[1..], last[cis[0] := v]))
  {
    hide DecodeDc, WellFormed;
    var d := DecodeDc(t[cis[0]], bits);
    var v := d.v + last[cis[0]];
    Reassociate(vs, [v], DecodeDcs(t, d.rest, cis[1..], last[cis[0] := v]).vs);
  }

  /** Every symbol of the scan has a code. */
  predicate DcListed(t: seq<Table>, cis: seq<nat>, vs: seq<int>, last: seq<int>)
    requires |cis| == |vs| && |t| == |last| && Components(cis, |last|) && DcFits(cis, vs, last)
    requires forall i :: 0 <= i < |t| ==> WellFormed(t[i])
    decreases |vs|
  {
    if vs == [] then true
    else
      DiffIsSmall(vs[0] - last[cis[0]]);
      Lists(t[cis[0]], DcItem(vs[0] - last[cis[0]]).symbol) && DcListed(t, cis[1..], vs[1..], last[cis[0] := vs[0]])
  }

  lemma {:induction false} DcListedIsCovered(e: seq<EncoderTable>, t: seq<Table>, cis: seq<nat>, vs: seq<int>, last: seq<int>)
    requires PairedOf(e, t) && |cis| == |vs| && |t| == |last| && Components(cis, |last|) && DcFits(cis, vs, last)
    requires LegalEncodersOf(e) && forall i :: 0 <= i < |t| ==> WellFormed(t[i])
    ensures DcListed(t, cis, vs, last) == DcCovered(e, cis, vs, last)
    decreases |vs|
  {
    hide LegalEncoder, WellFormed, DcSymbols, DiffFits, DcItem, Paired, Magnitude, Lists;
    if vs != [] {
      var diff := vs[0] - last[cis[0]];
      DiffIsSmall(diff);
      HasCode(e[cis[0]], t[cis[0]], DcItem(diff).symbol);
      DcListedIsCovered(e, t, cis[1..], vs[1..], last[cis[0] := vs[0]]);
    }
  }

  /** The tables, by component, are such as both builders accept. */
  method BuildDcTables(t: seq<Table>) returns (ok: bool, e: seq<EncoderTable>, d: seq<DecoderTable>)
    requires forall i :: 0 <= i < |t| ==> WellFormed(t[i])
    ensures ok <==> forall i :: 0 <= i < |t| ==> LegalDc(t[i])
    ensures ok ==> PairedOf(e, t) && MatchesOf(d, t)
  {
    hide Paired, Matches, DcSymbols, LegalDc, WellFormed;
    e, d := [], [];
    for i := 0 to |t|
      invariant |e| == |d| == i
      invariant forall j :: 0 <= j < i ==> LegalDc(t[j]) && Paired(e[j], t[j]) && Matches(d[j], t[j]) && DcSymbols(t[j])
    {
      var e1, d1;
      ok, e1, d1 := BuildTable(t[i], true);
      if !ok {
        return;
      }
      e, d := e + [e1], d + [d1];
    }
    ok := true;
  }

  lemma SizesOf(e: seq<EncoderTable>, d: seq<DecoderTable>, t: seq<Table>)
    requires PairedOf(e, t) && MatchesOf(d, t)
    ensures |e| == |d| == |t|
  {
  }

  lemma FloorsOf(bs: seq<Block>, held: seq<Block>, al: nat)
    requires al <= 13 && |bs| == |held| && forall i :: 0 <= i < |bs| ==> -32768 <= bs[i][0] <= 32767
    ensures forall i :: 0 <= i < |bs| ==> WithDcs(held, Scaled16(PointDc(bs, al), al))[i] == held[i][0 := Floor(bs[i][0], al)]
  {
    hide ShrFloor, Coef;
    forall i | 0 <= i < |bs|
      ensures Coef(Shl(PointDc(bs, al)[i], al)) == Floor(bs[i][0], al)
    {
      FloorIsCoef(bs[i][0], al);
    }
  }

  lemma HasCode(e: EncoderTable, t: Table, symbol: byte)
    requires Paired(e, t) && LegalEncoder(e) && WellFormed(t)
    ensures Lists(t, symbol) <==> e.ehufsi[symbol] > 0
  {
    hide LegalTree, CodeAt, CodesTo;
    if Lists(t, symbol) { ListedHasCode(e, t, symbol); }
  }

  // ----- DC refinement

  /** The next bits of the DC coefficients. */
  function NextBits(bs: seq<Block>, al: nat): (s: Bits)
    ensures |s| == |bs|
  {
    seq(|bs|, i requires 0 <= i < |bs| => TestBit(bs[i][0], al))
  }

  /** encode_mcu_DC_refine, for all blocks of the scan. */
  method EncodeDcRefine(em: Emitter, al: nat, bs: seq<Block>)
    requires em.Valid()
    modifies em
    ensures em.Valid() && em.Written() == old(em.Written()) + NextBits(bs, al)
  {
    hide Emitter.Valid, Emitter.Written, TestBit;
    var blkn := 0;
    assert em.Written() + [] == em.Written();
    while blkn < |bs|
      invariant 0 <= blkn <= |bs| && em.Valid() && em.Written() == old(em.Written()) + NextBits(bs, al)[..blkn]
    {
      // We simply emit the Al'th bit of the DC coefficient value.
      ghost var bit := TestBit(bs[blkn][0], al);
      Reassociate(old(em.Written()), NextBits(bs, al)[..blkn], [bit]);
      assert NextBits(bs, al)[..blkn + 1] == NextBits(bs, al)[..blkn] + [bit];
      BitOf(bit);
      var ok := em.EmitBits(if TestBit(bs[blkn][0], al) then 1 else 0, 1);
      blkn := blkn + 1;
    }
    assert NextBits(bs, al)[..blkn] == NextBits(bs, al);
  }

  lemma BitOf(b: bool)
    ensures ToBits(if b then 1 else 0, 1) == [b]
  {
    assert ToBits(0, 0) == [];
  }

  // block[0] |= 1 << al, if the bit is set.
  function SetBit(v: int, bit: bool, al: nat): int {
    if bit && !TestBit(v, al) then v + Pow2(al) else v
  }

  /** decode_mcu_DC_refine, for all blocks of the scan. */
  method DecodeDcRefine(rd: Reader, al: nat, held: seq<Block>, ghost bits: Bits) returns (result: seq<Block>)
    requires At(rd, bits) && rd.Complete() && |bits| >= |held|
    modifies rd
    ensures |result| == |held| && forall i :: 0 <= i < |held| ==> result[i] == held[i][0 := SetBit(held[i][0], bits[i], al)]
    ensures rd.Valid() && rd.Ahead() == old(rd.Ahead())
  {
    hide At, Reader.Ahead, NextBit, Drop, SetBit;
    result := [];
    var blkn := 0;
    ghost var left := bits;
    while blkn < |held|
      invariant 0 <= blkn <= |held| && |result| == blkn && At(rd, left) && rd.Ahead() == old(rd.Ahead()) && left == bits[blkn..]
      invariant forall i :: 0 <= i < blkn ==> result[i] == held[i][0 := SetBit(held[i][0], bits[i], al)]
    {
      assert left == [bits[blkn]] + bits[blkn + 1..];
      FirstBit(bits[blkn], bits[blkn + 1..]);
      // Encoded data is simply the next bit of the two's-complement DC value
      var ok, bit := ReadBit(rd, left);
      left := bits[blkn + 1..];
      result := result + [held[blkn][0 := SetBit(held[blkn][0], bit, al)]];
      blkn := blkn + 1;
    }
    AtValid(rd, left);
  }

  lemma SetsFloor(v: int, al: nat)
    ensures SetBit(Floor(v, al + 1), TestBit(v, al), al) == Floor(v, al)
  {
    hide Floor, TestBit;
    FloorFiner(v, al);
  }
}
