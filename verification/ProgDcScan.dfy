/** Progressive DC scans, with restart markers: the first scan of the DC coefficients, and refinement scans. */
module ProgDcScan {
  import opened Bytes
  import opened BitStrings
  import opened BitReader
  import opened BitWriter
  import opened HuffTable
  import opened HuffBlock
  import opened HuffDecode
  import opened HuffDecoder
  import opened HuffTranscode
  import opened ProgDc
  import opened ProgRefine
  import opened ProgWriter
  import opened Restarts
  import opened Segments
  import opened ZigZag

  /** A first scan, or a refinement; bit position; the component of each block is given by cis. */
  datatype DcScan = DcScan(first: bool, al: nat)

  predicate Shaped(sc: DcScan, cis: seq<nat>, n: nat) {
    sc.first ==> Components(cis, n)
  }

  function Zeros(n: nat): (s: seq<int>)
    ensures |s| == n
  {
    seq(n, _ => 0)
  }

  // ----- One restart interval

  /** The differences are in range and have codes; a refinement scan has no codes. */
  predicate DcOk(sc: DcScan, e: seq<EncoderTable>, cis: seq<nat>, bs: seq<Block>)
    requires LegalEncodersOf(e) && Shaped(sc, cis, |e|) && |cis| == |bs|
  {
    sc.first ==>
      DcFits(cis, PointDc(bs, sc.al), Zeros(|e|)) && DcCovered(e, cis, PointDc(bs, sc.al), Zeros(|e|))
  }

  function DcCode(sc: DcScan, e: seq<EncoderTable>, cis: seq<nat>, bs: seq<Block>): Bits
    requires LegalEncodersOf(e) && Shaped(sc, cis, |e|) && |cis| == |bs| && DcOk(sc, e, cis, bs)
  {
    if sc.first then DcBits(e, cis, PointDc(bs, sc.al), Zeros(|e|)) else NextBits(bs, sc.al)
  }

  ghost predicate DcWritten(sc: DcScan, e: seq<EncoderTable>, cis: seq<nat>, bs: seq<Block>, data: seq<byte>) {
    && LegalEncodersOf(e) && Shaped(sc, cis, |e|) && |cis| == |bs| && DcOk(sc, e, cis, bs)
    && exists pad: Bits :: ByteBits(data) == DcCode(sc, e, cis, bs) + pad
  }

  method EncodeSection(em: Emitter, sc: DcScan, e: seq<EncoderTable>, cis: seq<nat>, bs: seq<Block>)
    returns (ok: bool, ghost data: seq<byte>)
    requires em.Valid() && em.Written() == [] && LegalEncodersOf(e) && Shaped(sc, cis, |e|) && |cis| == |bs|
    modifies em
    ensures ok <==> DcOk(sc, e, cis, bs)
    ensures ok ==> em.out == em.head + Stuff(data) && DcWritten(sc, e, cis, bs, data)
  {
    hide Emitter.Written, DcFits, DcBits, DcCovered, ShrFloor, LegalEncodersOf, ByteBits, Stuff, Padding, TopAligned, PointDc, NextBits;
    data := [];
    ok := true;
    if sc.first {
      ok := EncodeDcFirst(em, e, sc.al, cis, bs);
      if !ok {
        return;
      }
      assert [] + DcCode(sc, e, cis, bs) == DcCode(sc, e, cis, bs);
    } else {
      EncodeDcRefine(em, sc.al, bs);
      assert [] + DcCode(sc, e, cis, bs) == DcCode(sc, e, cis, bs);
    }
    em.FlushBits();
    data := em.data;
  }

  /** What these blocks become when this segment is read into them. */
  ghost predicate DcRead(sc: DcScan, t: seq<Table>, cis: seq<nat>, held: seq<Block>, data: seq<byte>, result: seq<Block>) {
    && |result| == |held| == |cis|
    && if sc.first then
         && Shaped(sc, cis, |t|) && (forall i :: 0 <= i < |t| ==> WellFormed(t[i]))
         && var r := DecodeDcs(t, ByteBits(data), cis, Zeros(|t|));
            |r.vs| == |held| && result == WithDcs(held, Scaled16(r.vs, sc.al))
       else
         && |ByteBits(data)| >= |held|
         && forall i :: 0 <= i < |held| ==> result[i] == held[i][0 := SetBit(held[i][0], ByteBits(data)[i], sc.al)]
  }

  method DecodeSection(rd: Reader, sc: DcScan, d: seq<DecoderTable>, cis: seq<nat>, held: seq<Block>, ghost t: seq<Table>,
                       ghost data: seq<byte>) returns (result: seq<Block>)
    requires At(rd, ByteBits(data)) && rd.Complete() && MatchesOf(d, t) && Shaped(sc, cis, |d|) && |cis| == |held|
    requires !sc.first ==> |ByteBits(data)| >= |held|
    modifies rd
    ensures DcRead(sc, t, cis, held, data, result) && rd.Valid() && rd.Ahead() == old(rd.Ahead())
  {
    hide At, Reader.Ahead, MatchesOf, WellFormed, DecodeDcs, Scaled16, WithDcs, SetBit, ByteBits;
    if sc.first {
      result := DecodeDcFirst(rd, d, sc.al, cis, held, t, ByteBits(data));
    } else {
      result := DecodeDcRefine(rd, sc.al, held, ByteBits(data));
    }
  }

  // ----- Sections

  lemma {:induction false} SplitParts<T>(s: seq<T>, interval: nat, done: seq<seq<T>>, rest: seq<T>)
    requires Split(s, interval) == done + Split(rest, interval)
    ensures if Goes(rest, interval) then Split(s, interval) == (done + [rest[..interval]]) + Split(rest[interval..], interval)
            else Split(s, interval) == done + [rest]
  {
    if Goes(rest, interval) {
      Reassociate(done, [rest[..interval]], Split(rest[interval..], interval));
    }
  }

  /** The restart intervals of a list, of which those before index i are done. */
  ghost predicate Upto<T>(s: seq<T>, interval: nat, done: seq<seq<T>>, i: nat) {
    i <= |s| && Split(s, interval) == done + Split(s[i..], interval)
  }

  lemma UptoStart<T>(s: seq<T>, interval: nat)
    ensures Upto(s, interval, [], 0)
  {
    assert s[0..] == s && [] + Split(s, interval) == Split(s, interval);
  }

  lemma UptoLeaves<T>(s: seq<T>, interval: nat, done: seq<seq<T>>, i: nat)
    requires Upto(s, interval, done, i)
    ensures |done| < |Split(s, interval)|
  {
    hide Split;
  }

  lemma UptoNext<T>(s: seq<T>, interval: nat, done: seq<seq<T>>, i: nat)
    requires Upto(s, interval, done, i)
    ensures if 0 < interval < |s| - i then Upto(s, interval, done + [s[i..i + interval]], i + interval)
            else Split(s, interval) == done + [s[i..]]
  {
    hide Split;
    SplitParts(s, interval, done, s[i..]);
    if 0 < interval < |s| - i {
      assert s[i..][..interval] == s[i..i + interval] && s[i..][interval..] == s[i + interval..];
    }
  }

  /** All intervals can be coded. */
  predicate DcAllOk(sc: DcScan, e: seq<EncoderTable>, cs: seq<seq<nat>>, parts: seq<seq<Block>>)
    requires LegalEncodersOf(e)
  {
    |cs| == |parts| && forall i :: 0 <= i < |parts| ==> Shaped(sc, cs[i], |e|) && |cs[i]| == |parts[i]| && DcOk(sc, e, cs[i], parts[i])
  }

  ghost predicate DcAllWritten(sc: DcScan, e: seq<EncoderTable>, cs: seq<seq<nat>>, parts: seq<seq<Block>>, datas: seq<seq<byte>>) {
    |cs| == |parts| == |datas| && forall i :: 0 <= i < |parts| ==> DcWritten(sc, e, cs[i], parts[i], datas[i])
  }

  lemma DcWrittenOk(sc: DcScan, e: seq<EncoderTable>, cs: seq<seq<nat>>, parts: seq<seq<Block>>, datas: seq<seq<byte>>)
    requires LegalEncodersOf(e) && DcAllWritten(sc, e, cs, parts, datas)
    ensures DcAllOk(sc, e, cs, parts)
  {
    hide DcOk, LegalEncodersOf;
  }

  lemma DcNotOk(sc: DcScan, e: seq<EncoderTable>, cs: seq<seq<nat>>, parts: seq<seq<Block>>, i: nat)
    requires LegalEncodersOf(e) && i < |cs| && i < |parts| && Shaped(sc, cs[i], |e|) && |cs[i]| == |parts[i]| && !DcOk(sc, e, cs[i], parts[i])
    ensures !DcAllOk(sc, e, cs, parts)
  {
    hide DcOk, LegalEncodersOf;
  }

  /** Writes a DC scan; fails exactly if a difference is out of range or has no code. */
  method WriteDcScan(sc: DcScan, e: seq<EncoderTable>, interval: nat, cis: seq<nat>, bs: seq<Block>)
    returns (ok: bool, out: seq<byte>, ghost datas: seq<seq<byte>>)
    requires LegalEncodersOf(e) && Shaped(sc, cis, |e|) && |cis| == |bs|
    ensures ok <==> DcAllOk(sc, e, Split(cis, interval), Split(bs, interval))
    ensures ok ==> out == Sections(datas, 0) && DcAllWritten(sc, e, Split(cis, interval), Split(bs, interval), datas)
  {
    hide DcOk, LegalEncodersOf, DcWritten, Split, Upto, HeadOf, Sections, Stuff, Emitter.Valid, Emitter.Written, DcAllOk;
    ghost var cs, parts := [], [];
    UptoStart(cis, interval);
    UptoStart(bs, interval);
    NoHead();
    FirstNumber();
    out, datas := [], [];
    var i, next_restart_num := 0, 0;
    while true
      invariant 0 <= i <= |bs| && Upto(cis, interval, cs, i) && Upto(bs, interval, parts, i) && out == HeadOf(datas)
      invariant Numbered(next_restart_num, |datas|) && DcAllWritten(sc, e, cs, parts, datas)
      decreases |bs| - i
    {
      UptoNext(cis, interval, cs, i);
      UptoNext(bs, interval, parts, i);
      var more := 0 < interval < |bs| - i;
      var n := if more then interval else |bs| - i;
      assert more ==> cis[i..i + n] == cis[i..i + interval] && bs[i..i + n] == bs[i..i + interval];
      assert !more ==> cis[i..i + n] == cis[i..] && bs[i..i + n] == bs[i..];
      ghost var c, p, data := cis[i..i + n], bs[i..i + n], [];
      var em := new Emitter(out);
      ok, data := EncodeSection(em, sc, e, cis[i..i + n], bs[i..i + n]);
      if !ok {
        SectionIn(cis, interval, cs, i, n);
        SectionIn(bs, interval, parts, i, n);
        DcNotOk(sc, e, Split(cis, interval), Split(bs, interval), |parts|);
        return;
      }
      NextNumber(next_restart_num, |datas|);
      NextHead(datas, data);
      HeadAndSegment(datas, data);
      out, datas, cs, parts := em.out, datas + [data], cs + [c], parts + [p];
      if !more {
        DcWrittenOk(sc, e, cs, parts, datas);
        return;
      }
      // emit_restart
      out := out + [0xFF, 0xD0 + next_restart_num];
      next_restart_num := (next_restart_num + 1) % 8;
      i := i + n;
    }
  }

  lemma NoHead()
    ensures HeadOf([]) == []
  {
  }

  lemma SectionIn<T>(s: seq<T>, interval: nat, done: seq<seq<T>>, i: nat, n: nat)
    requires Upto(s, interval, done, i) && n == if 0 < interval < |s| - i then interval else |s| - i
    ensures |done| < |Split(s, interval)| && Split(s, interval)[|done|] == s[i..i + n]
  {
    hide Split;
    UptoNext(s, interval, done, i);
    if 0 < interval < |s| - i {
      hide Split;
    } else {
      assert s[i..i + n] == s[i..];
    }
  }

  ghost predicate DcAllRead(sc: DcScan, t: seq<Table>, cs: seq<seq<nat>>, hs: seq<seq<Block>>, datas: seq<seq<byte>>, rs: seq<seq<Block>>) {
    |cs| == |hs| == |rs| <= |datas| && forall i :: 0 <= i < |rs| ==> DcRead(sc, t, cs[i], hs[i], datas[i], rs[i])
  }

  /** Each segment of a refinement scan has a bit for each block. */
  predicate EnoughBits(sc: DcScan, hs: seq<seq<Block>>, datas: seq<seq<byte>>) {
    |hs| == |datas| && (!sc.first ==> forall i :: 0 <= i < |hs| ==> |ByteBits(datas[i])| >= |hs[i]|)
  }

  /** Reads a DC scan into the blocks. */
  method ReadDcScan(sc: DcScan, d: seq<DecoderTable>, interval: nat, cis: seq<nat>, held: seq<Block>, input: seq<byte>,
                    ghost t: seq<Table>, ghost datas: seq<seq<byte>>, ghost marker: byte, ghost tail: seq<byte>)
    returns (result: seq<Block>, ghost rs: seq<seq<Block>>)
    requires MatchesOf(d, t) && Shaped(sc, cis, |d|) && |cis| == |held| && 0 < marker < 0xFF
    requires input == Sections(datas, 0) + [0xFF, marker] + tail && EnoughBits(sc, Split(held, interval), datas)
    ensures result == Flat(rs) && |rs| == |datas|
    ensures DcAllRead(sc, t, Split(cis, interval), Split(held, interval), datas, rs)
  {
    hide MatchesOf, DcRead, Split, Upto, Sections, MarkAfter, NextMark, Payload, ByteBits, Reader.Valid, Reader.Ahead, Reader.Available, At, Flat, EnoughBits, Numbered;
    ghost var cs, hs := [], [];
    UptoStart(cis, interval);
    UptoStart(held, interval);
    FirstNumber();
    NothingFlat();
    result, rs := [], [];
    var i, next_restart_num, source := 0, 0, input;
    assert datas[0..] == datas;
    HasBits(sc, Split(held, interval), datas, 0);
    while true
      invariant 0 <= i <= |held| && Upto(cis, interval, cs, i) && Upto(held, interval, hs, i) && |rs| < |datas|
      invariant source == Sections(datas[|rs|..], |rs|) + [0xFF, marker] + tail && result == Flat(rs)
      invariant Numbered(next_restart_num, |rs|) && DcAllRead(sc, t, cs, hs, datas, rs) && |hs| == |cs| == |rs|
      decreases |held| - i
    {
      var more := 0 < interval < |held| - i;
      var n := if more then interval else |held| - i;
      SectionIn(cis, interval, cs, i, n);
      SectionIn(held, interval, hs, i, n);
      HasBits(sc, Split(held, interval), datas, |rs|);
      ghost var c, h, data := cis[i..i + n], held[i..i + n], datas[|rs|];
      var rd := OpenSegment(source, datas, |rs|, marker, tail);
      var r := DecodeSection(rd, sc, d, cis[i..i + n], held[i..i + n], t, data);
      UptoNext(cis, interval, cs, i);
      UptoNext(held, interval, hs, i);
      assert !more ==> cis[i..i + n] == cis[i..] && held[i..i + n] == held[i..];
      FlatSnoc(rs, r);
      result, rs, cs, hs := result + r, rs + [r], cs + [c], hs + [h];
      if !more {
        return;
      }
      UptoLeaves(held, interval, hs, i + n);
      HasBits(sc, Split(held, interval), datas, 0);
      // process_restart
      source, next_restart_num := PassMarker(rd, datas, |rs| - 1, marker, tail, next_restart_num);
      i := i + n;
    }
  }

  lemma NothingFlat()
    ensures Flat<Block>([]) == []
  {
  }

  lemma HasBits(sc: DcScan, hs: seq<seq<Block>>, datas: seq<seq<byte>>, i: nat)
    requires EnoughBits(sc, hs, datas)
    ensures |hs| == |datas| && (i < |datas| ==> (!sc.first ==> |ByteBits(datas[i])| >= |hs[i]|))
  {
  }

  method OpenSegment(source: seq<byte>, ghost datas: seq<seq<byte>>, ghost k: nat, ghost marker: byte, ghost tail: seq<byte>)
    returns (rd: Reader)
    requires k < |datas| && 0 < marker < 0xFF && source == Sections(datas[k..], k) + [0xFF, marker] + tail
    ensures fresh(rd) && At(rd, ByteBits(datas[k])) && rd.future == [] && rd.Ahead() == MarkAfter(datas[k..], k, marker, tail)
  {
    hide NextMark, Payload, ByteBits, Sections, MarkAfter;
    ReadSections(datas[k..], k, marker, tail);
    rd := new Reader(source, []);
  }

  method PassMarker(rd: Reader, ghost datas: seq<seq<byte>>, ghost k: nat, ghost marker: byte, ghost tail: seq<byte>, num: nat)
    returns (source: seq<byte>, next: nat)
    requires rd.Valid() && rd.future == [] && k + 1 < |datas| && rd.Ahead() == MarkAfter(datas[k..], k, marker, tail) && Numbered(num, k)
    ensures source == Sections(datas[k + 1..], k + 1) + [0xFF, marker] + tail && Numbered(next, k + 1)
  {
    hide NextMark, Sections, RestartCode;
    NextNumber(num, k);
    assert datas[k..][1..] == datas[k + 1..];
    rd.Arrived();
    var ok;
    ok, source := ReadRestartMarker(rd.unread, rd.unread_marker, num);
    next := (num + 1) % 8;
  }

  // ----- Both

  /** The blocks with each DC coefficient rounded down at bit al. */
  predicate DcDelivered(sc: DcScan, bs: seq<Block>, held: seq<Block>, result: seq<Block>) {
    |result| == |bs| == |held| && forall i :: 0 <= i < |bs| ==> result[i] == held[i][0 := Floor(bs[i][0], sc.al)]
  }

  /** A refinement scan starts from coefficients rounded down at bit al + 1. */
  predicate DcReadyFor(sc: DcScan, bs: seq<Block>, held: seq<Block>) {
    && |bs| == |held| && (sc.first ==> sc.al <= 13 && forall i :: 0 <= i < |bs| ==> -32768 <= bs[i][0] <= 32767)
    && (!sc.first ==> forall i :: 0 <= i < |bs| ==> held[i][0] == Floor(bs[i][0], sc.al + 1))
  }

  lemma DcSectionDelivered(sc: DcScan, e: seq<EncoderTable>, t: seq<Table>, cis: seq<nat>, bs: seq<Block>, held: seq<Block>,
                           data: seq<byte>, result: seq<Block>)
    requires PairedOf(e, t) && |e| == |t| && DcReadyFor(sc, bs, held)
    requires DcWritten(sc, e, cis, bs, data) && DcRead(sc, t, cis, held, data, result)
    ensures DcDelivered(sc, bs, held, result)
  {
    hide PairedOf, DcFits, DcCovered, DcBits, DecodeDcs, Floor, ByteBits, Scaled16, WithDcs, SetBit, PointDc, LegalEncodersOf;
    var pad: Bits :| ByteBits(data) == DcCode(sc, e, cis, bs) + pad;
    if sc.first {
      DcsDecode(e, t, cis, PointDc(bs, sc.al), Zeros(|e|), pad);
      FloorsOf(bs, held, sc.al);
      WithDcsSize(held, Scaled16(PointDc(bs, sc.al), sc.al));
    } else {
      forall i | 0 <= i < |bs|
        ensures result[i] == held[i][0 := Floor(bs[i][0], sc.al)]
      {
        assert ByteBits(data)[i] == NextBits(bs, sc.al)[i];
        SetsFloor(bs[i][0], sc.al);
      }
    }
  }

  lemma WithDcsSize(held: seq<Block>, vs: seq<int>)
    requires |held| == |vs|
    ensures |WithDcs(held, vs)| == |held|
  {
  }

  lemma {:induction false} DcAllDelivered(sc: DcScan, e: seq<EncoderTable>, t: seq<Table>, interval: nat, cis: seq<nat>, bs: seq<Block>,
                                          held: seq<Block>, datas: seq<seq<byte>>, rs: seq<seq<Block>>)
    requires PairedOf(e, t) && |e| == |t| && DcReadyFor(sc, bs, held) && |cis| == |bs| && |rs| == |datas|
    requires DcAllWritten(sc, e, Split(cis, interval), Split(bs, interval), datas)
    requires DcAllRead(sc, t, Split(cis, interval), Split(held, interval), datas, rs)
    ensures DcDelivered(sc, bs, held, Flat(rs))
    decreases |bs|
  {
    hide PairedOf, DcWritten, DcRead, Floor;
    if Goes(bs, interval) {
      var c, b, h := cis[..interval], bs[..interval], held[..interval];
      DcSectionDelivered(sc, e, t, c, b, h, datas[0], rs[0]);
      DcAllDelivered(sc, e, t, interval, cis[interval..], bs[interval..], held[interval..], datas[1..], rs[1..]);
      var f := Flat(rs[1..]);
      forall i | 0 <= i < |bs|
        ensures (rs[0] + f)[i] == held[i][0 := Floor(bs[i][0], sc.al)]
      {
        if i >= interval { assert bs[i] == bs[interval..][i - interval] && held[i] == held[interval..][i - interval]; }
      }
    } else {
      DcSectionDelivered(sc, e, t, cis, bs, held, datas[0], rs[0]);
      assert rs == [rs[0]] && rs[1..] == [] && rs[0] + [] == rs[0];
      NothingFlat();
    }
  }

  lemma {:induction false} DcEnough(sc: DcScan, e: seq<EncoderTable>, interval: nat, cis: seq<nat>, bs: seq<Block>, held: seq<Block>,
                                    datas: seq<seq<byte>>)
    requires |bs| == |held| == |cis| && DcAllWritten(sc, e, Split(cis, interval), Split(bs, interval), datas)
    ensures EnoughBits(sc, Split(held, interval), datas)
    decreases |bs|
  {
    hide DcOk, DcBits, LegalEncodersOf, ByteBits, PointDc, DcWritten;
    WrittenBits(sc, e, Split(cis, interval)[0], Split(bs, interval)[0], datas[0]);
    if Goes(bs, interval) {
      DcEnough(sc, e, interval, cis[interval..], bs[interval..], held[interval..], datas[1..]);
      var hs, rest := Split(held, interval), Split(held[interval..], interval);
      assert hs[1..] == rest;
    }
  }

  lemma WrittenBits(sc: DcScan, e: seq<EncoderTable>, cis: seq<nat>, bs: seq<Block>, data: seq<byte>)
    requires DcWritten(sc, e, cis, bs, data)
    ensures !sc.first ==> |ByteBits(data)| >= |bs|
  {
    hide DcOk, DcBits, LegalEncodersOf, ByteBits, PointDc;
  }

  /** All symbols have codes. */
  predicate DcListedAll(sc: DcScan, t: seq<Table>, cs: seq<seq<nat>>, parts: seq<seq<Block>>)
    requires forall i :: 0 <= i < |t| ==> WellFormed(t[i])
  {
    |cs| == |parts| && forall i :: 0 <= i < |parts| ==> Shaped(sc, cs[i], |t|) && |cs[i]| == |parts[i]| && DcListedIn(sc, t, cs[i], parts[i])
  }

  predicate DcListedIn(sc: DcScan, t: seq<Table>, cis: seq<nat>, bs: seq<Block>)
    requires Shaped(sc, cis, |t|) && |cis| == |bs| && forall i :: 0 <= i < |t| ==> WellFormed(t[i])
  {
    sc.first ==> DcFits(cis, PointDc(bs, sc.al), Zeros(|t|)) && DcListed(t, cis, PointDc(bs, sc.al), Zeros(|t|))
  }

  lemma DcAllListed(sc: DcScan, e: seq<EncoderTable>, t: seq<Table>, cs: seq<seq<nat>>, parts: seq<seq<Block>>)
    requires PairedOf(e, t) && |e| == |t| && LegalEncodersOf(e) && forall i :: 0 <= i < |t| ==> WellFormed(t[i])
    ensures DcAllOk(sc, e, cs, parts) <==> DcListedAll(sc, t, cs, parts)
  {
    hide PairedOf, LegalEncodersOf, WellFormed, DcFits, DcListed, DcCovered, PointDc;
    forall i | 0 <= i < |parts| && |cs| == |parts| && Shaped(sc, cs[i], |t|) && |cs[i]| == |parts[i]|
      ensures DcOk(sc, e, cs[i], parts[i]) <==> DcListedIn(sc, t, cs[i], parts[i])
    {
      var vs := PointDc(parts[i], sc.al);
      if sc.first && DcFits(cs[i], vs, Zeros(|t|)) { DcListedIsCovered(e, t, cs[i], vs, Zeros(|t|)); }
    }
  }

  /** A DC scan, in restart intervals of any length or without restarts.  A first scan gives the decoder every DC
      coefficient rounded down to a multiple of 2^al; a refinement scan one bit more. */
  method TranscodeDcScan(sc: DcScan, interval: nat, cis: seq<nat>, bs: seq<Block>, held: seq<Block>, t: seq<Table>,
                         marker: byte, tail: seq<byte>) returns (ok: bool, result: seq<Block>)
    requires DcReadyFor(sc, bs, held) && Shaped(sc, cis, |t|) && |cis| == |bs| && 0 < marker < 0xFF
    requires forall i :: 0 <= i < |t| ==> WellFormed(t[i])
    ensures ok <==> (sc.first ==>
      (forall i :: 0 <= i < |t| ==> LegalDc(t[i])) && DcListedAll(sc, t, Split(cis, interval), Split(bs, interval)))
    ensures ok ==> DcDelivered(sc, bs, held, result)
  {
    hide WellFormed, LegalDc, PairedOf, MatchesOf, LegalEncodersOf, DcReadyFor, DcListedAll, DcAllOk, DcDelivered, Split, Flat, Sections,
         DcWritten, DcRead, EnoughBits;
    result := held;
    var e, d, tables := [], [], if sc.first then t else [];  // DC refinement needs no table
    ok, e, d := BuildDcTables(tables);
    if !ok {
      return;
    }
    PairedEach(e, tables);
    SizesOf(e, d, tables);
    DcAllListed(sc, e, tables, Split(cis, interval), Split(bs, interval));
    if !sc.first { RefinementListed(sc, tables, interval, cis, bs); }
    var out;
    ghost var datas, rs;
    ok, out, datas := WriteDcScan(sc, e, interval, cis, bs);
    if !ok {
      return;
    }
    ReadySizes(sc, bs, held);
    DcEnough(sc, e, interval, cis, bs, held, datas);
    result, rs := ReadDcScan(sc, d, interval, cis, held, out + [0xFF, marker] + tail, tables, datas, marker, tail);
    DcAllDelivered(sc, e, tables, interval, cis, bs, held, datas, rs);
  }

  lemma {:induction false} RefinementListed(sc: DcScan, t: seq<Table>, interval: nat, cis: seq<nat>, bs: seq<Block>)
    requires !sc.first && t == [] && |cis| == |bs|
    ensures DcListedAll(sc, t, Split(cis, interval), Split(bs, interval))
    decreases |bs|
  {
    if Goes(bs, interval) {
      RefinementListed(sc, t, interval, cis[interval..], bs[interval..]);
      var cs, parts := Split(cis, interval), Split(bs, interval);
      assert cs[1..] == Split(cis[interval..], interval) && parts[1..] == Split(bs[interval..], interval);
      forall i | 0 < i < |parts|
        ensures |cs[i]| == |parts[i]|
      {
        assert cs[i] == cs[1..][i - 1] && parts[i] == parts[1..][i - 1];
      }
    }
  }

  lemma ReadySizes(sc: DcScan, bs: seq<Block>, held: seq<Block>)
    requires DcReadyFor(sc, bs, held)
    ensures |bs| == |held|
  {
  }
}
