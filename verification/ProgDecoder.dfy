/** The progressive decoder for AC scans, on arbitrary input: blocks are filled and refined in place, and a
    suspension in the middle of a block can be resumed. */
module ProgDecoder {
  import opened Bytes
  import opened BitStrings
  import opened BitReader
  import opened HuffTable
  import opened HuffDecode
  import opened HuffBlock
  import opened HuffDecoder
  import opened ProgFirst
  import opened ProgRefine
  import opened ProgRun
  import opened Segments
  import opened ZigZag

  // ----- Blocks in zigzag order

  function Z(b: Block): (z: seq<int>)
    ensures |z| == 64
  {
    Zig(NaturalOrder(), b)
  }

  lemma Stored(b: Block, k: nat, v: int)
    requires k < 64
    ensures b[NaturalAt(k)] == Z(b)[k] && Z(b[NaturalAt(k) := v]) == Z(b)[k := v]
  {
    hide NaturalAt;
    NaturalOrderIsOrder();
    var order := NaturalOrder();
    assert order[k] == NaturalAt(k);
    var z := Z(b[NaturalAt(k) := v]);
    forall j | 0 <= j < 64
      ensures z[j] == Z(b)[k := v][j]
    {
      assert j != k ==> order[j] != order[k];
    }
  }

  // Positions past the end are the last one.
  lemma PastEnd(k: nat)
    ensures NaturalAt(k) == NaturalAt(Min63(k))
  {
  }

  // ----- What a suspended call leaves behind

  /** Advancing changes nothing before k, and nothing from where it stops on. */
  lemma {:induction false} AdvanceFrame(band: Band, bits: Bits, k: nat, r: nat, z: seq<int>)
    requires |z| == 64 && band.se < 64
    ensures var p := Advance(band, bits, k, r, z);
      && (k <= band.se + 1 ==> p.k <= band.se + 1)
      && forall j :: 0 <= j < 64 && (j < k || j >= p.k) ==> p.z[j] == z[j]
    decreases 64 - k
  {
    hide Correct, NextBit, Drop;
    if k <= band.se {
      if z[k] != 0 {
        AdvanceFrame(band, Drop(bits, 1), k + 1, r, z[k := Correct(z[k], NextBit(bits), band.al)]);
      } else if r != 0 {
        AdvanceFrame(band, bits, k + 1, r - 1, z);
      }
    }
  }

  lemma {:induction false} CorrectionsFrame(band: Band, bits: Bits, k: nat, z: seq<int>)
    requires |z| == 64 && band.se < 64
    ensures forall j :: 0 <= j < 64 && j < k ==> Corrections(band, bits, k, z).z[j] == z[j]
    decreases 64 - k
  {
    hide Correct, NextBit, Drop;
    if k <= band.se {
      if z[k] != 0 {
        CorrectionsFrame(band, Drop(bits, 1), k + 1, z[k := Correct(z[k], NextBit(bits), band.al)]);
      } else {
        CorrectionsFrame(band, bits, k + 1, z);
      }
    }
  }

  /** Decoding from k on changes nothing before k. */
  lemma {:induction false} CoefsFrame(t: Table, band: Band, bits: Bits, k: nat, z: seq<int>)
    requires WellFormed(t) && |z| == 64 && band.se < 64
    ensures forall j :: 0 <= j < 64 && j < k ==> DecodeCoefs(t, band, bits, k, z).z[j] == z[j]
    decreases 64 - k
  {
    hide SymbolFrom, Advance, Corrections, NextBit, Drop, Unit, RunLength;
    if k <= band.se {
      var sym := SymbolFrom(t, bits, 1);
      var r, s, after := sym.value / 16, sym.value % 16, Drop(bits, sym.length);
      if s != 0 {
        var p := Advance(band, Drop(after, 1), k, r, z);
        AdvanceFrame(band, Drop(after, 1), k, r, z);
        CoefsFrame(t, band, p.rest, p.k + 1, p.z[Min63(p.k) := Unit(NextBit(after), band.al)]);
      } else if r == 15 {
        var p := Advance(band, after, k, 15, z);
        AdvanceFrame(band, after, k, 15, z);
        CoefsFrame(t, band, p.rest, p.k + 1, p.z);
      } else {
        CorrectionsFrame(band, Drop(after, r), k, z);
      }
    }
  }

  // ----- Resuming

  /** A corrected value is not zero, and not that of a newly nonzero coefficient. */
  lemma CorrectNotNew(v: int, al: nat, positive: bool)
    requires v != 0
    ensures Correct(v, true, al) != 0
    ensures Correct(v, true, al) != v ==> Correct(v, true, al) != Unit(positive, al)
  {
  }

  /** Two states of a block that differ only in corrections already made. */
  predicate Alternative(band: Band, z: seq<int>, w: seq<int>, final: seq<int>, k: nat)
    requires |z| == |w| == |final| == 64
  {
    forall j :: 0 <= j < 64 ==>
      w[j] == z[j] || (k <= j <= band.se && z[j] != 0 && w[j] == Correct(z[j], true, band.al) == final[j])
  }

  /** Advancing over coefficients that are corrected already has the same effect. */
  lemma {:induction false} AdvanceAgain(band: Band, bits: Bits, k: nat, r: nat, z: seq<int>, w: seq<int>, final: seq<int>)
    requires |z| == |w| == |final| == 64 && band.se < 64 && Alternative(band, z, w, final, k)
    requires var p := Advance(band, bits, k, r, z); forall j :: 0 <= j < 64 && j < p.k ==> p.z[j] == final[j]
    ensures var p, q := Advance(band, bits, k, r, z), Advance(band, bits, k, r, w);
      p.k == q.k && p.rest == q.rest && Alternative(band, p.z, q.z, final, p.k)
    decreases 64 - k
  {
    hide Correct, NextBit, Drop;
    if k <= band.se {
      if z[k] != 0 {
        var c := Correct(z[k], NextBit(bits), band.al);
        AdvanceFrame(band, Drop(bits, 1), k + 1, r, z[k := c]);
        assert final[k] == c;
        CorrectAgain(z[k], NextBit(bits), band.al);
        CorrectNotNew(z[k], band.al, true);
        AdvanceAgain(band, Drop(bits, 1), k + 1, r, z[k := c], w[k := c], final);
      } else if r != 0 {
        AdvanceAgain(band, bits, k + 1, r - 1, z, w, final);
      }
    }
  }

  lemma {:induction false} CorrectionsAgain(band: Band, bits: Bits, k: nat, z: seq<int>, w: seq<int>, final: seq<int>)
    requires |z| == |w| == |final| == 64 && band.se < 64 && Alternative(band, z, w, final, k)
    requires Corrections(band, bits, k, z).z == final
    ensures Corrections(band, bits, k, w) == Corrections(band, bits, k, z)
    decreases 64 - k
  {
    hide Correct, NextBit, Drop;
    if k <= band.se {
      if z[k] != 0 {
        var c := Correct(z[k], NextBit(bits), band.al);
        CorrectionsFrame(band, Drop(bits, 1), k + 1, z[k := c]);
        assert final[k] == c;
        CorrectAgain(z[k], NextBit(bits), band.al);
        CorrectNotNew(z[k], band.al, true);
        CorrectionsAgain(band, Drop(bits, 1), k + 1, z[k := c], w[k := c], final);
      } else {
        CorrectionsAgain(band, bits, k + 1, z, w, final);
      }
    } else {
      assert w == z;
    }
  }

  /** Decoding a block that a suspended call has corrected in part gives the same result. */
  lemma {:induction false} CoefsAgain(t: Table, band: Band, bits: Bits, k: nat, z: seq<int>, w: seq<int>, final: seq<int>)
    requires WellFormed(t) && |z| == |w| == |final| == 64 && band.se < 64 && Alternative(band, z, w, final, k)
    requires DecodeCoefs(t, band, bits, k, z).z == final
    ensures DecodeCoefs(t, band, bits, k, w) == DecodeCoefs(t, band, bits, k, z)
    decreases 64 - k
  {
    hide SymbolFrom, Advance, Corrections, NextBit, Drop, Unit, RunLength, Correct;
    if k > band.se {
      assert w == z;
    } else {
      var sym := SymbolFrom(t, bits, 1);
      var r, s, after := sym.value / 16, sym.value % 16, Drop(bits, sym.length);
      if s != 0 {
        var v := Unit(NextBit(after), band.al);
        var p, q := AdvanceBoth(t, band, Drop(after, 1), k, r, z, w, v, final);
        CoefsAgain(t, band, p.rest, p.k + 1, p.z[Min63(p.k) := v], q.z[Min63(p.k) := v], final);
      } else if r == 15 {
        var p := Advance(band, after, k, 15, z);
        AdvanceFrame(band, after, k, 15, z);
        CoefsFrame(t, band, p.rest, p.k + 1, p.z);
        AdvanceAgain(band, after, k, 15, z, w, final);
        var q := Advance(band, after, k, 15, w);
        StopsAtZero(band, after, k, 15, z);
        CoefsAgain(t, band, p.rest, p.k + 1, p.z, q.z, final);
      } else {
        CorrectionsAgain(band, Drop(after, r), k, z, w, final);
      }
    }
  }

  /** The decoder stops advancing at a zero or at the end of the band. */
  lemma {:induction false} StopsAtZero(band: Band, bits: Bits, k: nat, r: nat, z: seq<int>)
    requires |z| == 64 && band.se < 64
    ensures var p := Advance(band, bits, k, r, z); p.k <= band.se ==> p.z[p.k] == 0
    decreases 64 - k
  {
    hide Correct, NextBit, Drop;
    if k <= band.se {
      if z[k] != 0 {
        StopsAtZero(band, Drop(bits, 1), k + 1, r, z[k := Correct(z[k], NextBit(bits), band.al)]);
      } else if r != 0 {
        StopsAtZero(band, bits, k + 1, r - 1, z);
      }
    }
  }

  lemma AdvanceBoth(t: Table, band: Band, bits: Bits, k: nat, r: nat, z: seq<int>, w: seq<int>, v: int, final: seq<int>)
    returns (p: Position, q: Position)
    requires WellFormed(t) && |z| == |w| == |final| == 64 && band.se < 64 && k <= band.se && Alternative(band, z, w, final, k)
    requires v == Unit(true, band.al) || v == Unit(false, band.al)
    requires var p := Advance(band, bits, k, r, z); DecodeCoefs(t, band, p.rest, p.k + 1, p.z[Min63(p.k) := v]).z == final
    ensures p == Advance(band, bits, k, r, z) && q == Advance(band, bits, k, r, w) && p.k == q.k && p.rest == q.rest
    ensures Alternative(band, p.z[Min63(p.k) := v], q.z[Min63(p.k) := v], final, p.k + 1)
  {
    hide SymbolFrom, Advance, DecodeCoefs, Unit, Correct;
    p, q := Advance(band, bits, k, r, z), Advance(band, bits, k, r, w);
    AdvanceFrame(band, bits, k, r, z);
    StopsAtZero(band, bits, k, r, z);
    CoefsFrame(t, band, p.rest, p.k + 1, p.z[Min63(p.k) := v]);
    var g := if p.k == 64 then final[63 := p.z[63]] else final;
    if z[63] != 0 {
      CorrectNotNew(z[63], band.al, true);
      CorrectNotNew(z[63], band.al, false);
    }
    assert Alternative(band, z, w, g, k);
    AdvanceAgain(band, bits, k, r, z, w, g);
  }

  /** A call that was suspended can be made again: with the block as the suspended call left it, decoding
      gives what it would have given at once. */
  lemma Resume(t: Table, band: Band, bits: Bits, eobrun: nat, z: seq<int>, w: seq<int>)
    requires WellFormed(t) && |z| == |w| == 64 && LegalBand(band)
    requires Alternative(band, z, w, DecodeRefine(t, band, bits, eobrun, z).z, band.ss)
    ensures DecodeRefine(t, band, bits, eobrun, w) == DecodeRefine(t, band, bits, eobrun, z)
  {
    hide DecodeCoefs, Corrections, Correct;
    var final := DecodeRefine(t, band, bits, eobrun, z).z;
    if eobrun == 0 {
      CoefsAgain(t, band, bits, band.ss, z, w, final);
    } else {
      CorrectionsAgain(band, bits, band.ss, z, w, final);
    }
  }

  // ----- The decoder

  // GET_BITS(1)
  method ReadBit(rd: Reader, ghost bits: Bits) returns (ok: bool, bit: bool)
    requires At(rd, bits)
    modifies rd
    ensures rd.Valid() && (old(rd.Complete()) ==> ok) && (ok ==> rd.Ahead() == old(rd.Ahead()))
    ensures ok ==> bit == NextBit(bits) && At(rd, Drop(bits, 1))
  {
    hide Reader.Available, Consumed, Seen, Reader.Ahead, Peek, Drop;
    ghost var before, marked := rd.Available(), rd.Ahead().Mark?;
    var v;
    ok, v := rd.GetBits(1);
    bit := v == 1;
    if ok {
      PeekSeen(marked, bits, before, 1);
      SeenAfter(marked, bits, before, 1, rd.Available());
    }
  }

  // A correction bit for the nonzero coefficient at index k.
  method CorrectOne(rd: Reader, block: array<int>, band: Band, k: nat, ghost bits: Bits) returns (ok: bool)
    requires At(rd, bits) && block.Length == 64 && k < 64
    modifies rd, block
    ensures rd.Valid() && (old(rd.Complete()) ==> ok) && (ok ==> rd.Ahead() == old(rd.Ahead()))
    ensures var z := old(Z(block[..]));
      if ok then At(rd, Drop(bits, 1)) && Z(block[..]) == z[k := Correct(z[k], NextBit(bits), band.al)] else Z(block[..]) == z
  {
    hide At, NextBit, Drop, TestBit, NaturalAt, Reader.Ahead, Reader.Valid, Zig;
    ghost var b := block[..];
    var bit;
    ok, bit := ReadBit(rd, bits);
    if ok {
      Stored(b, k, b[NaturalAt(k)]);
      Stored(b, k, Correct(b[NaturalAt(k)], bit, band.al));
      assert Z(b)[k := Z(b)[k]] == Z(b);
      if bit {
        if !TestBit(block[NaturalAt(k)], band.al) {  // do nothing if already set it
          if block[NaturalAt(k)] >= 0 {
            block[NaturalAt(k)] := block[NaturalAt(k)] + Pow2(band.al);
          } else {
            block[NaturalAt(k)] := block[NaturalAt(k)] - Pow2(band.al);
          }
        }
      }
    }
  }

  /** Corrections made so far, on the way from z to target. */
  ghost predicate PartWay(band: Band, z: seq<int>, now: seq<int>, target: seq<int>)
    requires |z| == |now| == |target| == 64
  {
    Alternative(band, z, now, target, band.ss)
  }

  // Advance over already-nonzero coefficients and r still-zero ones.
  method AdvanceOver(rd: Reader, block: array<int>, band: Band, k0: nat, r0: nat, ghost bits: Bits) returns (ok: bool, k: nat, ghost left: Bits)
    requires At(rd, bits) && block.Length == 64 && LegalBand(band) && band.ss <= k0 <= band.se
    modifies rd, block
    ensures rd.Valid() && (old(rd.Complete()) ==> ok) && (ok ==> rd.Ahead() == old(rd.Ahead()))
    ensures var p := Advance(band, bits, k0, r0, old(Z(block[..])));
      if ok then p == Position(Z(block[..]), k, left) && At(rd, left)
      else k0 <= k < p.k && PartWay(band, old(Z(block[..])), Z(block[..]), p.z)
           && forall j :: k <= j < 64 ==> Z(block[..])[j] == old(Z(block[..]))[j]
  {
    hide Seen, Reader.Available, NextBit, Drop, NaturalAt, Reader.Ahead, Reader.Valid, Correct, Zig;
    var r: int := r0;
    k, left := k0, bits;
    ghost var z := Z(block[..]);
    ghost var p := Advance(band, bits, k0, r0, z);
    while k <= band.se
      invariant k0 <= k <= band.se + 1 && r >= 0 && At(rd, left) && rd.Valid() && rd.Ahead() == old(rd.Ahead())
      invariant Advance(band, left, k, r, Z(block[..])) == p
      invariant forall j :: k <= j < 64 ==> Z(block[..])[j] == z[j]
      invariant PartWay(band, z, Z(block[..]), p.z)
      decreases 64 - k
    {
      ghost var now := Z(block[..]);
      Stored(block[..], k, 0);
      if block[NaturalAt(k)] != 0 {
        AdvanceFrame(band, Drop(left, 1), k + 1, r, now[k := Correct(now[k], NextBit(left), band.al)]);
        CorrectZero(now[k], NextBit(left), band.al);
        ok := CorrectOne(rd, block, band, k, left);
        if !ok {
          return;
        }
        left := Drop(left, 1);
      } else {
        r := r - 1;
        if r < 0 {
          break;  // reached target zero coefficient
        }
      }
      k := k + 1;
    }
    ok := true;
  }

  lemma CorrectZero(v: int, bit: bool, al: nat)
    ensures Correct(v, bit, al) == v || Correct(v, bit, al) == Correct(v, true, al)
  {
  }

  // Correction bits for the nonzero coefficients in the rest of the band.
  method CorrectRestOf(rd: Reader, block: array<int>, band: Band, k0: nat, ghost bits: Bits) returns (ok: bool, ghost left: Bits)
    requires At(rd, bits) && block.Length == 64 && LegalBand(band) && band.ss <= k0 <= band.se + 1
    modifies rd, block
    ensures rd.Valid() && (old(rd.Complete()) ==> ok) && (ok ==> rd.Ahead() == old(rd.Ahead()))
    ensures var p := Corrections(band, bits, k0, old(Z(block[..])));
      if ok then p.z == Z(block[..]) && p.rest == left && At(rd, left)
      else PartWay(band, old(Z(block[..])), Z(block[..]), p.z)
  {
    hide Seen, Reader.Available, NextBit, Drop, NaturalAt, Reader.Ahead, Reader.Valid, Correct, Zig;
    left := bits;
    var k := k0;
    ghost var z := Z(block[..]);
    ghost var p := Corrections(band, bits, k0, z);
    while k <= band.se
      invariant band.ss <= k <= band.se + 1 && At(rd, left) && rd.Valid() && rd.Ahead() == old(rd.Ahead())
      invariant Corrections(band, left, k, Z(block[..])) == p
      invariant forall j :: k <= j < 64 ==> Z(block[..])[j] == z[j]
      invariant PartWay(band, z, Z(block[..]), p.z)
      decreases 64 - k
    {
      ghost var now := Z(block[..]);
      Stored(block[..], k, 0);
      if block[NaturalAt(k)] != 0 {
        CorrectionsFrame(band, Drop(left, 1), k + 1, now[k := Correct(now[k], NextBit(left), band.al)]);
        CorrectZero(now[k], NextBit(left), band.al);
        ok := CorrectOne(rd, block, band, k, left);
        if !ok {
          return;
        }
        left := Drop(left, 1);
      }
      k := k + 1;
    }
    ok := true;
  }

  /** The newly nonzero coefficients are remembered, in natural positions, in case we have to suspend. */
  ghost predicate Remembered(newnz: seq<int>, z: seq<int>, now: seq<int>)
    requires |z| == |now| == 64
  {
    && (forall i :: 0 <= i < |newnz| ==> 0 <= newnz[i] < 64)
    && forall j :: 0 <= j < 64 ==> ((z[j] == 0 && now[j] != 0) <==> NaturalAt(j) in newnz)
  }

  // undoit: re-zero any output coefficients that we made newly nonzero.
  method Undo(block: array<int>, newnz_pos: seq<int>, ghost z: seq<int>)
    requires block.Length == 64 && |z| == 64 && Remembered(newnz_pos, z, Z(block[..]))
    modifies block
    ensures forall j :: 0 <= j < 64 ==> Z(block[..])[j] == if z[j] == 0 then 0 else old(Z(block[..]))[j]
  {
    hide NaturalAt;
    ghost var b := block[..];
    var num_newnz := |newnz_pos|;
    while num_newnz > 0
      invariant 0 <= num_newnz <= |newnz_pos|
      invariant forall i :: 0 <= i < 64 ==> block[i] == if i in newnz_pos[num_newnz..] then 0 else b[i]
    {
      num_newnz := num_newnz - 1;
      block[newnz_pos[num_newnz]] := 0;
    }
    assert newnz_pos[0..] == newnz_pos;
    forall j | 0 <= j < 64
      ensures Z(block[..])[j] == if z[j] == 0 then 0 else Z(b)[j]
    {
      Stored(b, j, 0);
      Stored(block[..], j, 0);
    }
  }

  // GET_BITS(n)
  method ReadBits(rd: Reader, n: nat, ghost bits: Bits) returns (ok: bool, v: nat)
    requires At(rd, bits) && n <= 16
    modifies rd
    ensures rd.Valid() && (old(rd.Complete()) ==> ok) && (ok ==> rd.Ahead() == old(rd.Ahead()))
    ensures ok ==> v == Peek(bits, n) && At(rd, Drop(bits, n))
  {
    hide Reader.Available, Consumed, Seen, Reader.Ahead, Peek, Drop;
    ghost var before, marked := rd.Available(), rd.Ahead().Mark?;
    ok, v := rd.GetBits(n);
    if ok {
      PeekSeen(marked, bits, before, n);
      SeenAfter(marked, bits, before, n, rd.Available());
    }
  }

  /** A symbol of a refinement scan with the bits that follow it: a zero run and a new value (0 for a run of
      16 zeros), or the length of an EOB run. */
  datatype Order = Order(r: nat, s: int, eobrun: nat, rest: Bits)

  function NextOrder(t: Table, band: Band, bits: Bits): Order
    requires WellFormed(t)
  {
    var sym := SymbolFrom(t, bits, 1);
    var r, s, after := sym.value / 16, sym.value % 16, Drop(bits, sym.length);
    if s != 0 then Order(r, Unit(NextBit(after), band.al), 0, Drop(after, 1))
    else if r == 15 then Order(15, 0, 0, after)
    else Order(0, 0, RunLength(after, r), Drop(after, r))
  }

  lemma OrderDecides(t: Table, band: Band, bits: Bits, k: nat, z: seq<int>)
    requires WellFormed(t) && |z| == 64 && k <= band.se < 64
    ensures var o := NextOrder(t, band, bits);
      && (o.s == 0 || o.s == Unit(true, band.al) || o.s == Unit(false, band.al))
      && DecodeCoefs(t, band, bits, k, z) ==
         if o.eobrun > 0 then
           var p := Corrections(band, o.rest, k, z);
           Refined(p.z, o.eobrun - 1, p.rest)
         else
           var p := Advance(band, o.rest, k, o.r, z);
           DecodeCoefs(t, band, p.rest, p.k + 1, if o.s != 0 then p.z[Min63(p.k) := o.s] else p.z)
  {
    hide SymbolFrom, Advance, Corrections, NextBit, Drop, Peek;
  }

  method ReadOrder(rd: Reader, d: DecoderTable, band: Band, ghost t: Table, ghost bits: Bits)
    returns (ok: bool, r: nat, s: int, eobrun: nat, ghost left: Bits)
    requires At(rd, bits) && Matches(d, t)
    modifies rd
    ensures rd.Valid() && (old(rd.Complete()) ==> ok) && (ok ==> rd.Ahead() == old(rd.Ahead()))
    ensures ok ==> WellFormed(t) && Order(r, s, eobrun, left) == NextOrder(t, band, bits) && At(rd, left)
  {
    hide SymbolFrom, Matches, At, Drop, Reader.Ahead, NextBit, Peek, Pow2;
    MatchesWell(d, t);
    r, s, eobrun, left := 0, 0, 0, bits;
    var sym;
    ok, sym := ReadSymbol(rd, d, t, bits);
    if !ok {
      return;
    }
    left := Drop(bits, SymbolFrom(t, bits, 1).length);
    r := sym / 16;
    s := sym % 16;
    if s != 0 {
      // size of new coef should always be 1
      var bit;
      ok, bit := ReadBit(rd, left);
      s := Unit(bit, band.al);
      left := Drop(left, 1);
    } else if r != 15 {
      var v;
      ok, v := ReadBits(rd, r, left);  // run length is 2^r + appended bits
      eobrun := Pow2(r) + v;
      left := Drop(left, r);
      r := 0;
    }
  }

  lemma MatchesWell(d: DecoderTable, t: Table)
    requires Matches(d, t)
    ensures WellFormed(t)
  {
  }

  /** A block z on its way to final: what was nonzero has perhaps been corrected, what has become nonzero is
      remembered. */
  ghost predicate Halfway(band: Band, z: seq<int>, now: seq<int>, newnz: seq<int>, final: seq<int>)
    requires |z| == |now| == |final| == 64
  {
    && Remembered(newnz, z, now)
    && forall j :: 0 <= j < 64 && z[j] != 0 ==>
         now[j] == z[j] || (band.ss <= j <= band.se && now[j] == Correct(z[j], true, band.al) == final[j])
  }

  /** The same, with the coefficients from k on untouched. */
  ghost predicate Underway(band: Band, z: seq<int>, now: seq<int>, k: nat, newnz: seq<int>, final: seq<int>)
    requires |z| == |now| == |final| == 64
  {
    Halfway(band, z, now, newnz, final) && forall j :: k <= j < 64 ==> now[j] == z[j]
  }

  lemma UnderwayStart(band: Band, z: seq<int>, final: seq<int>)
    requires |z| == |final| == 64
    ensures Underway(band, z, z, band.ss, [], final)
  {
  }

  /** When the call gives up, what has been done can be resumed. */
  lemma GiveUp(band: Band, z: seq<int>, now: seq<int>, newnz: seq<int>, final: seq<int>, undone: seq<int>)
    requires |z| == |now| == |final| == |undone| == 64 && Halfway(band, z, now, newnz, final)
    requires forall j :: 0 <= j < 64 ==> undone[j] == if z[j] == 0 then 0 else now[j]
    ensures Alternative(band, z, undone, final, band.ss)
  {
  }

  lemma {:induction false} AdvanceValues(band: Band, bits: Bits, k: nat, r: nat, z: seq<int>)
    requires |z| == 64 && band.se < 64
    ensures forall j :: 0 <= j < 64 ==>
      var v := Advance(band, bits, k, r, z).z[j]; v == z[j] || (z[j] != 0 && v == Correct(z[j], true, band.al))
    decreases 64 - k
  {
    hide Correct, NextBit, Drop;
    if k <= band.se {
      if z[k] != 0 {
        var c := Correct(z[k], NextBit(bits), band.al);
        CorrectZero(z[k], NextBit(bits), band.al);
        AdvanceFrame(band, Drop(bits, 1), k + 1, r, z[k := c]);
        AdvanceValues(band, Drop(bits, 1), k + 1, r, z[k := c]);
      } else if r != 0 {
        AdvanceValues(band, bits, k + 1, r - 1, z);
      }
    }
  }

  lemma PositionsDiffer(j: nat, k: nat)
    requires j < 64 && k < 64 && j != k
    ensures NaturalAt(j) != NaturalAt(k)
  {
    hide NaturalAt;
    NaturalOrderIsOrder();
    var order := NaturalOrder();
    assert order[j] == NaturalAt(j) && order[k] == NaturalAt(k);
  }

  /** A correction keeps a coefficient nonzero; so what is remembered stays right. */
  lemma StillRemembered(band: Band, newnz: seq<int>, z: seq<int>, now: seq<int>, next: seq<int>)
    requires |z| == |now| == |next| == 64 && Remembered(newnz, z, now)
    requires forall j :: 0 <= j < 64 ==> next[j] == now[j] || (now[j] != 0 && next[j] == Correct(now[j], true, band.al))
    ensures Remembered(newnz, z, next)
  {
    hide Correct, NaturalAt;
    forall j | 0 <= j < 64
      ensures next[j] != 0 <==> now[j] != 0
    {
      if now[j] != 0 { CorrectNotNew(now[j], band.al, true); }
    }
  }

  lemma UnderwayStep(t: Table, band: Band, z: seq<int>, now: seq<int>, k: nat, newnz: seq<int>, final: seq<int>, o: Order)
    requires WellFormed(t) && |z| == |now| == |final| == 64 && LegalBand(band) && band.ss <= k <= band.se
    requires Underway(band, z, now, k, newnz, final) && (o.s == 0 || o.s == Unit(true, band.al) || o.s == Unit(false, band.al))
    requires var p := Advance(band, o.rest, k, o.r, now);
      DecodeCoefs(t, band, p.rest, p.k + 1, if o.s != 0 then p.z[Min63(p.k) := o.s] else p.z).z == final
    ensures var p := Advance(band, o.rest, k, o.r, now);
      p.k <= band.se ==> Underway(band, z, if o.s != 0 then p.z[p.k := o.s] else p.z, p.k + 1,
                                  if o.s != 0 then newnz + [NaturalAt(p.k)] else newnz, final)
  {
    hide Advance, DecodeCoefs, Correct, NaturalAt, Unit, Remembered;
    var p := Advance(band, o.rest, k, o.r, now);
    AdvanceFrame(band, o.rest, k, o.r, now);
    AdvanceValues(band, o.rest, k, o.r, now);
    StopsAtZero(band, o.rest, k, o.r, now);
    StillRemembered(band, newnz, z, now, p.z);
    if p.k <= band.se {
      var next := if o.s != 0 then p.z[p.k := o.s] else p.z;
      CoefsFrame(t, band, p.rest, p.k + 1, next);
      if o.s != 0 { RememberNew(newnz, z, p.z, p.k, o.s); }
    }
  }

  lemma RememberNew(newnz: seq<int>, z: seq<int>, now: seq<int>, k: nat, s: int)
    requires |z| == |now| == 64 && k < 64 && Remembered(newnz, z, now) && z[k] == 0 && s != 0
    ensures Remembered(newnz + [NaturalAt(k)], z, now[k := s])
  {
    hide NaturalAt;
    var more := newnz + [NaturalAt(k)];
    forall j | 0 <= j < 64
      ensures (z[j] == 0 && now[k := s][j] != 0) <==> NaturalAt(j) in more
    {
      if j != k {
        PositionsDiffer(j, k);
      } else {
        assert more[|newnz|] == NaturalAt(k);
      }
    }
  }

  lemma UnderwayStopped(t: Table, band: Band, z: seq<int>, now: seq<int>, k: nat, newnz: seq<int>, final: seq<int>, o: Order,
                        next: seq<int>, stop: nat)
    requires WellFormed(t) && |z| == |now| == |final| == |next| == 64 && LegalBand(band) && band.ss <= k <= band.se
    requires Underway(band, z, now, k, newnz, final)
    requires var p := Advance(band, o.rest, k, o.r, now);
      && DecodeCoefs(t, band, p.rest, p.k + 1, if o.s != 0 then p.z[Min63(p.k) := o.s] else p.z).z == final
      && k <= stop < p.k && PartWay(band, now, next, p.z) && forall j :: stop <= j < 64 ==> next[j] == now[j]
    ensures Halfway(band, z, next, newnz, final)
  {
    hide Advance, DecodeCoefs, Correct, NaturalAt, Remembered;
    var p := Advance(band, o.rest, k, o.r, now);
    AdvanceFrame(band, o.rest, k, o.r, now);
    AlternativeValues(band, now, next, p.z);
    StillRemembered(band, newnz, z, now, next);
    CoefsFrame(t, band, p.rest, p.k + 1, if o.s != 0 then p.z[Min63(p.k) := o.s] else p.z);
  }

  lemma CorrectionsStopped(band: Band, z: seq<int>, now: seq<int>, k: nat, newnz: seq<int>, final: seq<int>, bits: Bits, next: seq<int>)
    requires |z| == |now| == |final| == |next| == 64 && LegalBand(band) && Underway(band, z, now, k, newnz, final)
    requires Corrections(band, bits, k, now).z == final && PartWay(band, now, next, final)
    ensures Halfway(band, z, next, newnz, final)
  {
    hide Corrections, Correct, NaturalAt, Remembered;
    CorrectionsFrame(band, bits, k, now);
    AlternativeValues(band, now, next, final);
    StillRemembered(band, newnz, z, now, next);
  }

  lemma AlternativeValues(band: Band, z: seq<int>, w: seq<int>, final: seq<int>)
    requires |z| == |w| == |final| == 64 && PartWay(band, z, w, final)
    ensures forall j :: 0 <= j < 64 ==> w[j] == z[j] || (z[j] != 0 && w[j] == Correct(z[j], true, band.al))
  {
  }

  // ----- First scans

  lemma {:induction false} FirstFrame(t: Table, band: Band, bits: Bits, k: nat, z: seq<int>)
    requires WellFormed(t) && |z| == 64 && band.se < 64
    ensures forall j :: 0 <= j < 63 && j < k ==> DecodeFirst(t, band, bits, k, z).z[j] == z[j]
    decreases 64 - k
  {
    hide SymbolFrom, Drop, DecodeValue, Coef, RunLength;
    if k <= band.se {
      var sym := SymbolFrom(t, bits, 1);
      var r, s, after := sym.value / 16, sym.value % 16, Drop(bits, sym.length);
      if s != 0 {
        var d := DecodeValue(after, s);
        FirstFrame(t, band, d.rest, k + r + 1, z[Min63(k + r) := Coef(Shl(d.v, band.al))]);
      } else if r == 15 {
        FirstFrame(t, band, after, k + 16, z);
      }
    }
  }

  /** Each coefficient is as it was before the call, or as it will be after it. */
  predicate Between2(z: seq<int>, w: seq<int>, final: seq<int>)
    requires |z| == |w| == |final| == 64
  {
    forall j :: 0 <= j < 64 ==> w[j] == z[j] || w[j] == final[j]
  }

  /** A call of the first scan that was suspended can be made again. */
  lemma {:induction false} ResumeFirst(t: Table, band: Band, bits: Bits, k: nat, z: seq<int>, w: seq<int>)
    requires WellFormed(t) && |z| == |w| == 64 && band.se < 64 && Between2(z, w, DecodeFirst(t, band, bits, k, z).z)
    ensures DecodeFirst(t, band, bits, k, w) == DecodeFirst(t, band, bits, k, z)
    decreases 64 - k
  {
    hide SymbolFrom, Drop, DecodeValue, Coef, RunLength;
    if k <= band.se {
      var sym := SymbolFrom(t, bits, 1);
      var r, s, after := sym.value / 16, sym.value % 16, Drop(bits, sym.length);
      if s != 0 {
        var d := DecodeValue(after, s);
        var v := Coef(Shl(d.v, band.al));
        ResumeFirst(t, band, d.rest, k + r + 1, z[Min63(k + r) := v], w[Min63(k + r) := v]);
      } else if r == 15 {
        ResumeFirst(t, band, after, k + 16, z, w);
      } else {
        assert w == z;
      }
    } else {
      assert w == z;
    }
  }

  /** A symbol of a first scan with the bits that follow it: r coefficients to skip and then a value of s
      bits (none for a run of 16 zeros), or the length of an EOB run. */
  datatype FirstOrderOf = FirstOrderOf(r: nat, s: nat, v: int, eobrun: nat, rest: Bits)

  function FirstOrder(t: Table, bits: Bits): FirstOrderOf
    requires WellFormed(t)
  {
    var sym := SymbolFrom(t, bits, 1);
    var r, s, after := sym.value / 16, sym.value % 16, Drop(bits, sym.length);
    if s != 0 then FirstOrderOf(r, s, DecodeValue(after, s).v, 0, DecodeValue(after, s).rest)
    else if r == 15 then FirstOrderOf(15, 0, 0, 0, after)
    else FirstOrderOf(0, 0, 0, RunLength(after, r), Drop(after, r))
  }

  lemma FirstDecides(t: Table, band: Band, bits: Bits, k: nat, z: seq<int>)
    requires WellFormed(t) && |z| == 64 && k <= band.se < 64
    ensures var o := FirstOrder(t, bits);
      DecodeFirst(t, band, bits, k, z) ==
        if o.eobrun > 0 then Refined(z, o.eobrun - 1, o.rest)
        else DecodeFirst(t, band, o.rest, k + o.r + 1, if o.s != 0 then z[Min63(k + o.r) := Coef(Shl(o.v, band.al))] else z)
  {
    hide SymbolFrom, Drop, DecodeValue, Coef, Peek;
  }

  lemma FirstDone(t: Table, band: Band, bits: Bits, k: nat, z: seq<int>)
    requires WellFormed(t) && |z| == 64 && k > band.se && band.se < 64
    ensures DecodeFirst(t, band, bits, k, z) == Refined(z, 0, bits)
  {
  }

  /** A stored coefficient is final, unless it is the last one and garbage runs past the end of the block. */
  lemma FirstStored(t: Table, band: Band, bits: Bits, k: nat, z: seq<int>, v: int)
    requires WellFormed(t) && |z| == 64 && band.se < 64
    ensures DecodeFirst(t, band, bits, k + 1, z[Min63(k) := v]).z[Min63(k)] == v
  {
    if k >= 63 {
      FirstDone(t, band, bits, k + 1, z[Min63(k) := v]);
    } else {
      FirstFrame(t, band, bits, k + 1, z[Min63(k) := v]);
    }
  }

  method ReadFirstOrder(rd: Reader, d: DecoderTable, ghost t: Table, ghost bits: Bits)
    returns (ok: bool, r: nat, s: nat, v: int, eobrun: nat, ghost left: Bits)
    requires At(rd, bits) && Matches(d, t)
    modifies rd
    ensures rd.Valid() && (old(rd.Complete()) ==> ok) && (ok ==> rd.Ahead() == old(rd.Ahead()))
    ensures ok ==> WellFormed(t) && FirstOrderOf(r, s, v, eobrun, left) == FirstOrder(t, bits) && At(rd, left)
  {
    hide SymbolFrom, Matches, At, Drop, Reader.Ahead, Peek, Pow2, DecodeValue;
    MatchesWell(d, t);
    r, s, v, eobrun, left := 0, 0, 0, 0, bits;
    var sym;
    ok, sym := ReadSymbol(rd, d, t, bits);
    if !ok {
      return;
    }
    left := Drop(bits, SymbolFrom(t, bits, 1).length);
    r := sym / 16;
    s := sym % 16;
    if s != 0 {
      ok, v := ReadValue(rd, s, left);
      left := DecodeValue(left, s).rest;
    } else if r != 15 {
      var n;
      ok, n := ReadBits(rd, r, left);  // EOBr, run length is 2^r + appended bits
      eobrun := Pow2(r) + n;
      left := Drop(left, r);
      r := 0;
    }
  }

  class PhuffDecoder {
    const reader: Reader
    const tbl: DecoderTable
    ghost const t: Table
    var EOBRUN: nat

    ghost predicate Valid()
      reads this, reader
    {
      WellFormed(t) && Matches(tbl, t) && reader.Valid()
    }

    constructor (input: seq<byte>, ghost future: seq<byte>, tbl: DecoderTable, ghost t: Table)
      requires WellFormed(t) && Matches(tbl, t)
      ensures Valid() && fresh(reader) && EOBRUN == 0 && this.t == t && this.tbl == tbl && reader.future == future
      ensures At(reader, ByteBits(Payload(input + future, 0))) && reader.Ahead() == NextMark(input + future, 0)
      ensures future == [] ==> At(reader, ByteBits(Payload(input, 0))) && reader.Ahead() == NextMark(input, 0)
    {
      reader := new Reader(input, future);
      this.tbl, this.t, EOBRUN := tbl, t, 0;
    }

    // The same decoder, after its reader has been refilled.
    constructor Refilled(dec: PhuffDecoder, more: seq<byte>, ghost later: seq<byte>)
      requires dec.Valid() && dec.reader.future == more + later
      ensures Valid() && fresh(reader) && EOBRUN == dec.EOBRUN && t == dec.t && tbl == dec.tbl
      ensures reader.Available() == dec.reader.Available() && reader.Ahead() == dec.reader.Ahead() && reader.future == later
    {
      reader := new Reader.Refilled(dec.reader, more, later);
      tbl, t, EOBRUN := dec.tbl, dec.t, dec.EOBRUN;
    }

    /** decode_mcu_AC_refine: refines the block in place, whatever the input.  If the source is exhausted in
        the middle, the coefficients made nonzero are cleared, and the call can be repeated: Resume. */
    method DecodeMcuAcRefine(block: array<int>, band: Band, ghost bits: Bits) returns (ok: bool)
      requires Valid() && At(reader, bits) && block.Length == 64 && LegalBand(band)
      modifies this`EOBRUN, reader, block
      ensures Valid() && (old(reader.Complete()) ==> ok) && (ok ==> reader.Ahead() == old(reader.Ahead()))
      ensures var r := DecodeRefine(t, band, bits, old(EOBRUN), old(Z(block[..])));
        if ok then Z(block[..]) == r.z && EOBRUN == r.eobrun && At(reader, r.rest)
        else EOBRUN == old(EOBRUN) && Alternative(band, old(Z(block[..])), Z(block[..]), r.z, band.ss)
             && reader.get_buffer == old(reader.get_buffer) && reader.bits_left == old(reader.bits_left)
             && reader.unread == old(reader.unread) && reader.unread_marker == old(reader.unread_marker)
    {
      hide Seen, Reader.Available, Reader.Ahead, Matches, WellFormed, DecodeCoefs, Corrections, Alternative, Halfway, Zig, Remembered;
      // Load up working state
      var get_buffer, bits_left, unread, unread_marker := reader.get_buffer, reader.bits_left, reader.unread, reader.unread_marker;
      var newnz_pos, eobrun, k, left := [], EOBRUN, band.ss, bits;
      ghost var z := Z(block[..]);
      ghost var final := DecodeRefine(t, band, bits, EOBRUN, z).z;
      UnderwayStart(band, z, final);
      ok := true;
      if eobrun == 0 {
        ok, k, eobrun, newnz_pos, left := RefineCoefs(block, band, bits, z);
      }
      if ok && eobrun > 0 {
        ok, left := FinishBlock(block, band, k, left, z, newnz_pos, final);
        eobrun := eobrun - 1;
      }
      if ok {
        // Completed MCU, so update state
        EOBRUN := eobrun;
      } else {
        ghost var now := Z(block[..]);
        HalfwayRemembers(band, z, now, newnz_pos, final);
        Undo(block, newnz_pos, z);
        GiveUp(band, z, now, newnz_pos, final, Z(block[..]));
        reader.get_buffer, reader.bits_left, reader.unread, reader.unread_marker := get_buffer, bits_left, unread, unread_marker;
      }
    }

    /** decode_mcu_AC_first: fills the band of the block, whatever the input.  If the source is exhausted in
        the middle, the call can be repeated: ResumeFirst. */
    method DecodeMcuAcFirst(block: array<int>, band: Band, ghost bits: Bits) returns (ok: bool)
      requires Valid() && At(reader, bits) && block.Length == 64 && LegalBand(band)
      modifies this`EOBRUN, reader, block
      ensures Valid() && (old(reader.Complete()) ==> ok) && (ok ==> reader.Ahead() == old(reader.Ahead()))
      ensures var r := DecodeBand(t, Scan(band, true), bits, old(EOBRUN), old(Z(block[..])));
        if ok then Z(block[..]) == r.z && EOBRUN == r.eobrun && At(reader, r.rest)
        else EOBRUN == old(EOBRUN) && Between2(old(Z(block[..])), Z(block[..]), r.z)
             && reader.get_buffer == old(reader.get_buffer) && reader.bits_left == old(reader.bits_left)
             && reader.unread == old(reader.unread) && reader.unread_marker == old(reader.unread_marker)
    {
      hide Seen, Reader.Available, Reader.Ahead, Matches, WellFormed, DecodeFirst, Between2, Zig;
      var get_buffer, bits_left, unread, unread_marker := reader.get_buffer, reader.bits_left, reader.unread, reader.unread_marker;
      if EOBRUN > 0 {  // if it's a band of zeroes process it now (we do nothing)
        EOBRUN := EOBRUN - 1;
        return true;
      }
      var eobrun;
      ok, eobrun := FillCoefs(block, band, bits);
      if ok {
        EOBRUN := eobrun;
      } else {
        reader.get_buffer, reader.bits_left, reader.unread, reader.unread_marker := get_buffer, bits_left, unread, unread_marker;
      }
    }

    method FillCoefs(block: array<int>, band: Band, ghost bits: Bits) returns (ok: bool, eobrun: nat)
      requires Valid() && At(reader, bits) && block.Length == 64 && LegalBand(band)
      modifies reader, block
      ensures Valid() && (old(reader.Complete()) ==> ok) && (ok ==> reader.Ahead() == old(reader.Ahead()))
      ensures var d := DecodeFirst(t, band, bits, band.ss, old(Z(block[..])));
        if ok then d.z == Z(block[..]) && d.eobrun == eobrun && At(reader, d.rest)
        else Between2(old(Z(block[..])), Z(block[..]), d.z)
    {
      hide Seen, Reader.Available, Reader.Ahead, Reader.Valid, Matches, WellFormed, DecodeFirst, Zig, FirstOrder;
      ghost var d, z, left := DecodeFirst(t, band, bits, band.ss, Z(block[..])), Z(block[..]), bits;
      var k := band.ss;
      while k <= band.se
        invariant band.ss <= k && Valid() && At(reader, left) && reader.Ahead() == old(reader.Ahead())
        invariant DecodeFirst(t, band, left, k, Z(block[..])) == d
        invariant Between2(z, Z(block[..]), d.z)
        decreases 64 - k
      {
        FirstDecides(t, band, left, k, Z(block[..]));
        ghost var o := FirstOrder(t, left);
        var r, s, v;
        ok, r, s, v, eobrun, left := ReadFirstOrder(reader, tbl, t, left);
        if !ok {
          return;
        }
        if eobrun > 0 {
          eobrun := eobrun - 1;  // this band is processed at this moment
          return;
        }
        k := k + r;
        if s != 0 {
          PastEnd(k);
          Stored(block[..], Min63(k), Coef(Shl(v, band.al)));
          FirstStored(t, band, o.rest, k, Z(block[..]), Coef(Shl(v, band.al)));
          block[NaturalAt(k)] := Coef(Shl(v, band.al));  // Scale and output coefficient
        }
        k := k + 1;
      }
      FirstDone(t, band, left, k, Z(block[..]));
      ok, eobrun := true, 0;
    }

    // The loop over symbols, up to the end of the band or the start of an EOB run.
    method RefineCoefs(block: array<int>, band: Band, ghost bits: Bits, ghost z: seq<int>)
      returns (ok: bool, k: nat, eobrun: nat, newnz_pos: seq<int>, ghost left: Bits)
      requires Valid() && At(reader, bits) && block.Length == 64 && LegalBand(band) && z == Z(block[..])
      modifies reader, block
      ensures Valid() && (old(reader.Complete()) ==> ok) && (ok ==> reader.Ahead() == old(reader.Ahead()))
      ensures var d := DecodeCoefs(t, band, bits, band.ss, z);
        if !ok then Halfway(band, z, Z(block[..]), newnz_pos, d.z)
        else && At(reader, left)
             && if eobrun == 0 then d == Refined(Z(block[..]), 0, left)
                else band.ss <= k <= band.se && Underway(band, z, Z(block[..]), k, newnz_pos, d.z)
                     && var p := Corrections(band, left, k, Z(block[..])); d == Refined(p.z, eobrun - 1, p.rest)
    {
      hide Seen, Reader.Available, Reader.Ahead, Reader.Valid, Matches, WellFormed, DecodeCoefs, Corrections, Halfway, Zig, Advance,
           NextOrder;
      ghost var d := DecodeCoefs(t, band, bits, band.ss, z);
      k, eobrun, newnz_pos, left := band.ss, 0, [], bits;
      UnderwayStart(band, z, d.z);
      while k <= band.se
        invariant band.ss <= k && Valid() && At(reader, left) && reader.Ahead() == old(reader.Ahead())
        invariant DecodeCoefs(t, band, left, k, Z(block[..])) == d
        invariant k <= band.se + 1 ==> Underway(band, z, Z(block[..]), k, newnz_pos, d.z)
        decreases 64 - k
      {
        OrderDecides(t, band, left, k, Z(block[..]));
        ghost var o := NextOrder(t, band, left);
        var r, s;
        ok, r, s, eobrun, left := ReadOrder(reader, tbl, band, t, left);
        if !ok {
          return;
        }
        if eobrun > 0 {
          return;  // rest of block is handled by EOB logic
        }
        ok, k, newnz_pos, left := RefineOne(block, band, k, r, s, left, z, newnz_pos, d.z, o);
        if !ok {
          return;
        }
      }
      CoefsDone(t, band, left, k, Z(block[..]));
      ok := true;
      eobrun := 0;
    }

    // Advance, then output a newly nonzero coefficient if there is one.
    method RefineOne(block: array<int>, band: Band, k0: nat, r: nat, s: int, ghost bits: Bits, ghost z: seq<int>, newnz0: seq<int>,
                     ghost final: seq<int>, ghost o: Order)
      returns (ok: bool, k: nat, newnz_pos: seq<int>, ghost left: Bits)
      requires Valid() && At(reader, bits) && block.Length == 64 && LegalBand(band) && band.ss <= k0 <= band.se
      requires |z| == |final| == 64 && Underway(band, z, Z(block[..]), k0, newnz0, final)
      requires o == Order(r, s, 0, bits) && (s == 0 || s == Unit(true, band.al) || s == Unit(false, band.al))
      requires var p := Advance(band, bits, k0, r, Z(block[..]));
        DecodeCoefs(t, band, p.rest, p.k + 1, if s != 0 then p.z[Min63(p.k) := s] else p.z).z == final
      modifies reader, block
      ensures Valid() && (old(reader.Complete()) ==> ok) && (ok ==> reader.Ahead() == old(reader.Ahead()))
      ensures !ok ==> Halfway(band, z, Z(block[..]), newnz_pos, final)
      ensures ok ==> var p := Advance(band, bits, k0, r, old(Z(block[..])));
        && k == p.k + 1 && left == p.rest && At(reader, left)
        && Z(block[..]) == (if s != 0 then p.z[Min63(p.k) := s] else p.z)
        && (k <= band.se + 1 ==> Underway(band, z, Z(block[..]), k, newnz_pos, final))
    {
      hide Seen, Reader.Available, Reader.Ahead, Reader.Valid, Matches, WellFormed, DecodeCoefs, Corrections, Halfway, Zig, Advance,
           NaturalAt;
      newnz_pos := newnz0;
      ghost var now := Z(block[..]);
      UnderwayStep(t, band, z, now, k0, newnz0, final, o);
      ok, k, left := AdvanceOver(reader, block, band, k0, r, bits);
      if !ok {
        UnderwayStopped(t, band, z, now, k0, newnz0, final, o, Z(block[..]), k);
        return;
      }
      AdvanceFrame(band, bits, k0, r, now);
      if s != 0 {
        PastEnd(k);
        Stored(block[..], Min63(k), s);
        var pos := NaturalAt(k);
        block[pos] := s;  // Output newly nonzero coefficient
        newnz_pos := newnz_pos + [pos];  // Remember its position in case we have to suspend
      }
      k := k + 1;
    }

    // Scan any remaining coefficient positions after the end-of-band.
    method FinishBlock(block: array<int>, band: Band, k: nat, ghost bits: Bits, ghost z: seq<int>, ghost newnz: seq<int>, ghost final: seq<int>)
      returns (ok: bool, ghost left: Bits)
      requires Valid() && At(reader, bits) && block.Length == 64 && LegalBand(band) && band.ss <= k <= band.se
      requires |z| == |final| == 64 && Underway(band, z, Z(block[..]), k, newnz, final)
      requires Corrections(band, bits, k, Z(block[..])).z == final
      modifies reader, block
      ensures Valid() && (old(reader.Complete()) ==> ok) && (ok ==> reader.Ahead() == old(reader.Ahead()))
      ensures if ok then Z(block[..]) == final && left == Corrections(band, bits, k, old(Z(block[..]))).rest && At(reader, left)
              else Halfway(band, z, Z(block[..]), newnz, final)
    {
      hide Seen, Reader.Available, Reader.Ahead, Reader.Valid, Matches, WellFormed, Corrections, Halfway, Zig, PartWay;
      ghost var now := Z(block[..]);
      ok, left := CorrectRestOf(reader, block, band, k, bits);
      if !ok {
        CorrectionsStopped(band, z, now, k, newnz, final, bits, Z(block[..]));
      }
    }
  }

  lemma CoefsDone(t: Table, band: Band, bits: Bits, k: nat, z: seq<int>)
    requires WellFormed(t) && |z| == 64 && k > band.se && band.se < 64
    ensures DecodeCoefs(t, band, bits, k, z) == Refined(z, 0, bits)
  {
  }

  lemma HalfwayRemembers(band: Band, z: seq<int>, now: seq<int>, newnz: seq<int>, final: seq<int>)
    requires |z| == |now| == |final| == 64 && Halfway(band, z, now, newnz, final)
    ensures Remembered(newnz, z, now)
  {
  }
}
