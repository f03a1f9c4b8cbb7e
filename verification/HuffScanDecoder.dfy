/** The sequential Huffman decoder for whole MCUs, with restart markers; on arbitrary input. */
module HuffScanDecoder {
  import opened Bytes
  import opened Restarts
  import opened BitStrings
  import opened BitReader
  import opened HuffTable
  import opened HuffDecode
  import opened HuffBlock
  import opened HuffDecoder
  import opened HuffPlan
  import opened HuffScanEncoder
  import opened Segments
  import opened ZigZag

  // ----- Blocks

  datatype DecodedBlocks = DecodedBlocks(bs: seq<Block>, last: seq<int>, rest: Bits)

  ghost predicate LegalTables(t: Tables, n: nat) {
    && |t.dc| == |t.ac| == n
    && forall i :: 0 <= i < n ==> WellFormed(t.dc[i]) && WellFormed(t.ac[i])
  }

  /** What a run of blocks decodes to, on any bit string. */
  ghost function DecodeBlocks(t: Tables, c: Coding, n: nat, bits: Bits, last: seq<int>, cis: seq<nat>): (r: DecodedBlocks)
    requires LegalTables(t, n) && ValidCoding(c, n) && |last| == |c.dcTbl| && Members(c, cis)
    ensures |r.last| == |c.dcTbl|
    decreases |cis|
  {
    if cis == [] then DecodedBlocks([], last, bits)
    else
      var ci := cis[0];
      var d := DecodeBlock(t.dc[c.dcTbl[ci]], t.ac[c.acTbl[ci]], bits, last[ci]);
      var r := DecodeBlocks(t, c, n, d.rest, last[ci := d.last], cis[1..]);
      DecodedBlocks([d.b] + r.bs, r.last, r.rest)
  }

  datatype DecoderTables = DecoderTables(dc: seq<DecoderTable>, ac: seq<DecoderTable>)

  ghost predicate MatchesAll(d: DecoderTables, t: Tables, n: nat) {
    && |d.dc| == |d.ac| == n && LegalTables(t, n)
    && forall i :: 0 <= i < n ==> Matches(d.dc[i], t.dc[i]) && DcSymbols(t.dc[i]) && Matches(d.ac[i], t.ac[i])
  }

  class ScanDecoder {
    const coding: Coding
    const tables: DecoderTables
    const reader: Reader
    const n: nat
    ghost const t: Tables
    var last_dc_val: seq<int>
    var restarts_to_go: nat
    var next_restart_num: nat

    ghost predicate Valid()
      reads this, reader
    {
      && ValidCoding(coding, n) && MatchesAll(tables, t, n) && |last_dc_val| == |coding.dcTbl|
      && next_restart_num < 8 && reader.Valid() && reader.future == []
    }

    constructor (coding: Coding, n: nat, tables: DecoderTables, input: seq<byte>, ghost t: Tables)
      requires ValidCoding(coding, n) && MatchesAll(tables, t, n)
      ensures Valid() && fresh(reader) && this.coding == coding && this.n == n && this.t == t
      ensures last_dc_val == NoPrediction(coding) && restarts_to_go == coding.interval && next_restart_num == 0
      ensures At(reader, ByteBits(Payload(input, 0))) && reader.Ahead() == NextMark(input, 0)
    {
      this.coding, this.n, this.tables, this.t := coding, n, tables, t;
      reader := new Reader(input, []);
      last_dc_val := NoPrediction(coding);
      restarts_to_go, next_restart_num := coding.interval, 0;
    }

    // process_restart: advance past the expected restart marker and reset the predictions.  Fails if there
    // is another marker or none.
    method ProcessRestart() returns (ok: bool)
      requires Valid()
      modifies this, reader
      ensures Valid()
      ensures ok <==> old(reader.Ahead()).Mark? && old(reader.Ahead()).code == RestartCode(old(next_restart_num))
      ensures ok ==> var rest := old(reader.Ahead()).rest;
        At(reader, ByteBits(Payload(rest, 0))) && reader.Ahead() == NextMark(rest, 0)
      ensures ok ==> last_dc_val == NoPrediction(coding) && restarts_to_go == coding.interval
      ensures ok ==> next_restart_num == (old(next_restart_num) + 1) % 8
    {
      hide MatchesAll, NextMark, Payload, ByteBits;
      reader.Arrived();
      // Throw away any unused bits remaining in bit buffer
      reader.bits_left := 0;
      if reader.unread_marker == 0 {
        var c, rest;
        ok, c, rest := FindMarker(reader.unread);
        if !ok {
          return;
        }
        reader.unread, reader.unread_marker := rest, c;
      }
      MarkNow(reader.unread, reader.unread_marker);
      ok := reader.unread_marker == 0xD0 + next_restart_num;
      if !ok {
        return;
      }
      reader.unread_marker := 0;
      EmptyBuffer(reader.get_buffer, reader.unread);
      reader.Arrived();
      last_dc_val := NoPrediction(coding);
      restarts_to_go := coding.interval;
      next_restart_num := (next_restart_num + 1) % 8;
    }

    // decode_mcu
    method DecodeMcu(ghost bits: Bits) returns (ok: bool, mcu: seq<Block>)
      requires Valid() && At(reader, bits)
      modifies this, reader
      ensures Valid()
      ensures ok ==> restarts_to_go == ToGo(coding, old(restarts_to_go))
      ensures ok ==> var due := RestartDue(coding, old(restarts_to_go));
        && (due ==> old(reader.Ahead()).Mark?)
        && var start := if due then NoPrediction(coding) else old(last_dc_val);
           var from := if due then ByteBits(Payload(old(reader.Ahead()).rest, 0)) else bits;
           var r := DecodeBlocks(t, coding, n, from, start, coding.membership);
           mcu == r.bs && last_dc_val == r.last && At(reader, r.rest)
      ensures if RestartDue(coding, old(restarts_to_go)) then
          var m := old(reader.Ahead());
          && (m.Mark? && m.code == RestartCode(old(next_restart_num)) && NextMark(m.rest, 0).Mark? ==> ok)
          && (ok ==> m.Mark? && reader.Ahead() == NextMark(m.rest, 0) && next_restart_num == (old(next_restart_num) + 1) % 8)
        else
          && (old(reader.Complete()) ==> ok)
          && (ok ==> reader.Ahead() == old(reader.Ahead()) && next_restart_num == old(next_restart_num))
    {
      hide MatchesAll, NextMark, Payload, ByteBits, DecodeBlocks, At, ValidCoding;
      CodingParts(coding, n);
      mcu := [];
      ghost var from := bits;
      if coding.interval != 0 {
        if restarts_to_go == 0 {
          from := if reader.Ahead().Mark? then ByteBits(Payload(reader.Ahead().rest, 0)) else [];
          ok := ProcessRestart();
          if !ok {
            return;
          }
        }
      }
      ok, mcu := DecodeMcuSlow(from);
      if ok && coding.interval != 0 {
        restarts_to_go := restarts_to_go - 1;
      }
    }

    // decode_mcu_slow: each block in the MCU.
    method DecodeMcuSlow(ghost bits: Bits) returns (ok: bool, mcu: seq<Block>)
      requires Valid() && At(reader, bits)
      modifies this`last_dc_val, reader
      ensures Valid() && (old(reader.Complete()) ==> ok) && (ok ==> reader.Ahead() == old(reader.Ahead()))
      ensures ok ==> var r := DecodeBlocks(t, coding, n, bits, old(last_dc_val), coding.membership);
        mcu == r.bs && last_dc_val == r.last && At(reader, r.rest)
    {
      hide MatchesAll, DecodeBlocks, At, Reader.Ahead, LegalTables, Reader.Valid, DecodeBlock;
      mcu := [];
      TablesLegal(tables, t, n);
      ghost var left, cis := bits, coding.membership;
      ghost var goal := DecodeBlocks(t, coding, n, bits, last_dc_val, cis);
      assert cis[0..] == cis;
      var blkn := 0;
      while blkn < |coding.membership|
        invariant 0 <= blkn <= |cis| && Valid() && At(reader, left) && reader.Ahead() == old(reader.Ahead())
        invariant goal == Prepend(mcu, DecodeBlocks(t, coding, n, left, last_dc_val, cis[blkn..]))
      {
        var b;
        FirstBlock(t, coding, n, left, last_dc_val, cis[blkn..], mcu);
        assert cis[blkn..][1..] == cis[blkn + 1..];
        ok, b, left := DecodeNext(coding.membership[blkn], left);
        if !ok {
          return;
        }
        mcu := mcu + [b];
        blkn := blkn + 1;
      }
      assert cis[blkn..] == [];
      LastBlock(t, coding, n, left, last_dc_val, mcu);
      ok := true;
    }

    method DecodeNext(ci: nat, ghost bits: Bits) returns (ok: bool, b: Block, ghost left: Bits)
      requires Valid() && At(reader, bits) && ci < |coding.dcTbl|
      modifies this`last_dc_val, reader
      ensures Valid() && (old(reader.Complete()) ==> ok) && (ok ==> reader.Ahead() == old(reader.Ahead()))
      ensures ok ==> var d := DecodeBlock(t.dc[coding.dcTbl[ci]], t.ac[coding.acTbl[ci]], bits, old(last_dc_val)[ci]);
        b == d.b && last_dc_val == old(last_dc_val)[ci := d.last] && left == d.rest && At(reader, left)
    {
      hide At, DecodeBlock, Matches, DcSymbols, Reader.Ahead, WellFormed;
      var block := new int[64](_ => 0);
      var dc, ac := coding.dcTbl[ci], coding.acTbl[ci];
      var last;
      ok, last := DecodeOneBlock(reader, block, last_dc_val[ci], tables.dc[dc], tables.ac[ac], t.dc[dc], t.ac[ac], bits);
      left := DecodeBlock(t.dc[dc], t.ac[ac], bits, last_dc_val[ci]).rest;
      last_dc_val := last_dc_val[ci := last];
      b := block[..];
    }
  }

  lemma TablesLegal(d: DecoderTables, t: Tables, n: nat)
    requires MatchesAll(d, t, n)
    ensures LegalTables(t, n)
  {
  }

  function Prepend(mcu: seq<Block>, d: DecodedBlocks): DecodedBlocks {
    DecodedBlocks(mcu + d.bs, d.last, d.rest)
  }

  lemma FirstBlock(t: Tables, c: Coding, n: nat, bits: Bits, last: seq<int>, cis: seq<nat>, mcu: seq<Block>)
    requires LegalTables(t, n) && ValidCoding(c, n) && |last| == |c.dcTbl| && Members(c, cis) && cis != []
    ensures var ci := cis[0];
      var d := DecodeBlock(t.dc[c.dcTbl[ci]], t.ac[c.acTbl[ci]], bits, last[ci]);
      Prepend(mcu, DecodeBlocks(t, c, n, bits, last, cis))
      == Prepend(mcu + [d.b], DecodeBlocks(t, c, n, d.rest, last[ci := d.last], cis[1..]))
  {
    hide DecodeBlock, WellFormed;
    var ci := cis[0];
    var d := DecodeBlock(t.dc[c.dcTbl[ci]], t.ac[c.acTbl[ci]], bits, last[ci]);
    Reassociate(mcu, [d.b], DecodeBlocks(t, c, n, d.rest, last[ci := d.last], cis[1..]).bs);
  }

  lemma LastBlock(t: Tables, c: Coding, n: nat, bits: Bits, last: seq<int>, mcu: seq<Block>)
    requires LegalTables(t, n) && ValidCoding(c, n) && |last| == |c.dcTbl|
    ensures Prepend(mcu, DecodeBlocks(t, c, n, bits, last, [])) == DecodedBlocks(mcu, last, bits)
  {
  }

  lemma EmptyBuffer(buf: nat, s: seq<byte>)
    ensures Held(buf, 0, s, 0) == ByteBits(Payload(s, 0))
  {
    assert [] + ByteBits(Payload(s, 0)) == ByteBits(Payload(s, 0));
  }
}
