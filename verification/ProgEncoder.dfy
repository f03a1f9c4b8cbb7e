/** The progressive Huffman encoder for AC scans: symbols and bits are emitted, or only counted in the
    statistics pass. */
module ProgEncoder {
  import opened Bytes
  import opened BitStrings
  import opened BitWriter
  import opened HuffTable
  import opened HuffBlock
  import opened ProgFirst
  import opened ProgRefine
  import opened ProgRun
  import opened ProgWriter
  import opened ZigZag

  // ----- Chunks under construction

  /** More bits after the last symbol. */
  function AppendLast(log: seq<Chunk>, bits: Bits): seq<Chunk>
    requires log != []
  {
    log[..|log| - 1] + [Chunk(log[|log| - 1].symbol, log[|log| - 1].bits + bits)]
  }

  lemma AppendedBits(e: EncoderTable, log: seq<Chunk>, bits: Bits)
    requires LegalEncoder(e) && log != []
    ensures ChunksBits(e, AppendLast(log, bits)) == ChunksBits(e, log) + bits
    ensures CoversChunks(e, log) ==> CoversChunks(e, AppendLast(log, bits))
  {
    hide ChunksBits, ToBits, Pow2;
    var n := |log| - 1;
    var front, c := log[..n], log[n];
    assert log == front + [c];
    EncoderSize(e);
    ChunksSnoc(e, front, c);
    ChunksSnoc(e, front, Chunk(c.symbol, c.bits + bits));
    var code := ToBits(e.ehufco[c.symbol], e.ehufsi[c.symbol]);
    Reassociate(code, c.bits, bits);
    Reassociate(ChunksBits(e, front), ChunkBits(e, c), bits);
  }

  lemma AppendTwice(log: seq<Chunk>, a: Bits, b: Bits)
    requires log != []
    ensures AppendLast(AppendLast(log, a), b) == AppendLast(log, a + b)
    ensures AppendLast(log, []) == log
  {
    var c := log[|log| - 1];
    Reassociate(c.bits, a, b);
    assert c.bits + [] == c.bits;
    assert AppendLast(log, a)[..|log| - 1] == log[..|log| - 1];
  }

  lemma AppendNew(log: seq<Chunk>, symbol: byte, bits: Bits)
    ensures AppendLast(log + [Chunk(symbol, [])], bits) == log + [Chunk(symbol, bits)]
  {
    assert [] + bits == bits;
  }

  /** How often a symbol occurs. */
  function Uses(log: seq<Chunk>, symbol: int): nat {
    if log == [] then 0
    else Uses(log[..|log| - 1], symbol) + (if log[|log| - 1].symbol == symbol then 1 else 0)
  }

  lemma UsesNew(log: seq<Chunk>, c: Chunk, symbol: int)
    ensures Uses(log + [c], symbol) == Uses(log, symbol) + (if c.symbol == symbol then 1 else 0)
  {
    assert (log + [c])[..|log|] == log;
  }

  lemma UsesAppended(past: seq<Chunk>, log: seq<Chunk>, bits: Bits, symbol: int)
    requires log != []
    ensures Uses(past + AppendLast(log, bits), symbol) == Uses(past + log, symbol)
  {
    var a, b := past + AppendLast(log, bits), past + log;
    assert a[..|a| - 1] == b[..|b| - 1];
  }

  // ----- The encoder

  class PhuffEncoder {
    const gather_statistics: bool
    const tbl: EncoderTable
    const counts: array<nat>
    const emitter: Emitter
    const bit_buffer: array<bool>
    var EOBRUN: nat
    var BE: nat

    ghost const past: seq<Chunk>  // what was counted in earlier restart intervals
    ghost var log: seq<Chunk>

    ghost predicate Valid()
      reads this, counts, emitter, bit_buffer
    {
      && LegalEncoder(tbl) && emitter.Valid() && counts.Length == 257 && bit_buffer.Length == MAX_CORR_BITS
      && EOBRUN <= MAX_EOBRUN && BE <= MAX_CORR_BITS && (EOBRUN == 0 ==> BE == 0)
      && Recorded()
    }

    /** Everything in the log has been counted, or everything has been written. */
    ghost predicate Recorded()
      reads `log, counts, emitter
      requires LegalEncoder(tbl) && emitter.Valid() && counts.Length == 257
    {
      if gather_statistics then forall s :: 0 <= s < 257 ==> counts[s] == Uses(past + log, s)
      else CoversChunks(tbl, log) && emitter.Written() == ChunksBits(tbl, log)
    }

    ghost function State(): Run
      reads this, bit_buffer
      requires BE <= bit_buffer.Length
    {
      Run(log, EOBRUN, bit_buffer[..BE])
    }

    constructor (gather_statistics: bool, tbl: EncoderTable, head: seq<byte>, counts: array<nat>, ghost past: seq<Chunk>)
      requires LegalEncoder(tbl) && counts.Length == 257
      requires gather_statistics ==> forall s :: 0 <= s < 257 ==> counts[s] == Uses(past, s)
      ensures Valid() && State() == Run([], 0, []) && this.gather_statistics == gather_statistics && this.tbl == tbl
      ensures emitter.head == head && fresh(emitter) && fresh(bit_buffer) && this.counts == counts && this.past == past
    {
      this.gather_statistics, this.tbl, this.counts, this.past := gather_statistics, tbl, counts, past;
      emitter := new Emitter(head);
      bit_buffer := new bool[MAX_CORR_BITS];
      EOBRUN, BE, log := 0, 0, [];
      assert past + [] == past;
    }

    // emit_symbol: emit (or just count) a Huffman symbol; fails if it has no code.
    method EmitSymbol(symbol: byte) returns (ok: bool)
      requires Valid()
      modifies `log, counts, emitter
      ensures Valid() && (gather_statistics ==> ok) && (!ok ==> tbl.ehufsi[symbol] == 0)
      ensures ok ==> log == old(log) + [Chunk(symbol, [])]
      ensures !ok ==> log == old(log)
    {
      hide ChunksBits, Emitter.Written, Emitter.Valid, Uses;
      ghost var c := Chunk(symbol, []);
      ok := true;
      if gather_statistics {
        forall s | 0 <= s < 257
          ensures Uses(past + (log + [c]), s) == Uses(past + log, s) + (if symbol == s then 1 else 0)
        {
          UsesNew(past + log, c, s);
          Reassociate(past, log, [c]);
        }
        counts[symbol] := counts[symbol] + 1;
      } else {
        ok := emitter.EmitBits(tbl.ehufco[symbol], tbl.ehufsi[symbol]);
        if !ok {
          return;
        }
        ChunksSnoc(tbl, log, c);
        assert ToBits(tbl.ehufco[symbol], tbl.ehufsi[symbol]) + [] == ToBits(tbl.ehufco[symbol], tbl.ehufsi[symbol]);
      }
      log := log + [c];
    }

    // emit_bits: emit some bits, unless we are in gather mode.
    method EmitBits(code: nat, size: nat)
      requires Valid() && log != [] && 1 <= size <= 16
      modifies `log, emitter
      ensures Valid() && log == AppendLast(old(log), ToBits(code, size))
    {
      hide ChunksBits, Emitter.Written, Emitter.Valid, Uses, AppendLast, ToBits, CoversChunks;
      ghost var bits := ToBits(code, size);
      AppendedBits(tbl, log, bits);
      forall s
        ensures Uses(past + AppendLast(log, bits), s) == Uses(past + log, s)
      {
        UsesAppended(past, log, bits, s);
      }
      if !gather_statistics {
        var ok := emitter.EmitBits(code, size);
      }
      log := AppendLast(log, bits);
    }

    // emit_buffered_bits: emit bits from the correction bit buffer.
    method EmitBufferedBits(start: nat, nbits: nat)
      requires Valid() && log != [] && start + nbits <= bit_buffer.Length
      modifies `log, emitter
      ensures Valid() && log == AppendLast(old(log), bit_buffer[start..start + nbits])
    {
      hide Recorded, Emitter.Written, Emitter.Valid, AppendLast;
      AppendTwice(log, [], []);
      assert bit_buffer[start..start] == [];
      var i := 0;
      while i < nbits
        invariant 0 <= i <= nbits && Valid() && log != []
        invariant log == AppendLast(old(log), bit_buffer[start..start + i])
      {
        ghost var bit := [bit_buffer[start + i]];
        OneBit(bit_buffer[start + i]);
        AppendTwice(old(log), bit_buffer[start..start + i], bit);
        assert bit_buffer[start..start + (i + 1)] == bit_buffer[start..start + i] + bit;
        NotEmpty(log, bit);
        EmitBits(if bit_buffer[start + i] then 1 else 0, 1);
        i := i + 1;
      }
    }

    // emit_eobrun: emit any pending EOBRUN symbol.
    method EmitEobrun() returns (ok: bool)
      requires Valid()
      modifies `log, `EOBRUN, `BE, counts, emitter
      ensures Valid() && (gather_statistics ==> ok)
      ensures ok ==> log == Flushed(old(State())) && EOBRUN == 0 && BE == 0
      ensures !ok ==> log == old(log) && old(EOBRUN) > 0
                      && tbl.ehufsi[EobChunk(old(EOBRUN), old(bit_buffer[..BE])).symbol] == 0
    {
      hide Recorded, Emitter.Written, Emitter.Valid, AppendLast, NBits, ToBits, Pow2;
      ok := true;
      if EOBRUN > 0 {  // if there is any pending EOBRUN
        ghost var be := bit_buffer[..BE];
        RunBits(EOBRUN);
        var nbits := NBits(EOBRUN) - 1;
        assert nbits <= 14;  // the source checks this, and says that it should not happen
        ok := EmitSymbol(16 * nbits);
        if !ok {
          return;
        }
        ghost var log0 := old(log);
        if nbits > 0 {
          AppendNew(log0, 16 * nbits, ToBits(EOBRUN, nbits));
          EmitBits(EOBRUN, nbits);
        } else {
          assert ToBits(EOBRUN, 0) == [];
        }
        AppendNew(log0, 16 * nbits, ToBits(EOBRUN, nbits) + be);
        AppendTwice(log0 + [Chunk(16 * nbits, [])], ToBits(EOBRUN, nbits), be);
        // Emit any buffered correction bits
        EmitBufferedBits(0, BE);
        EOBRUN, BE := 0, 0;
      }
    }

    // A symbol after any pending EOBRUN, with its sign bit if it has one, and with the buffered correction
    // bits that must be associated with it.
    method EmitGroup(symbol: byte, signed: bool, positive: bool, start: nat, BR: nat) returns (ok: bool)
      requires Valid() && start + BR <= bit_buffer.Length
      modifies `log, `EOBRUN, `BE, counts, emitter
      ensures Valid() && (gather_statistics ==> ok)
      ensures var c := Chunk(symbol, (if signed then [positive] else []) + bit_buffer[start..start + BR]);
        && (ok ==> log == Flushed(old(State())) + [c] && EOBRUN == 0 && BE == 0)
        && (!ok ==> forall more :: !CoversChunks(tbl, Flushed(old(State())) + [c] + more))
    {
      hide Recorded, Emitter.Written, Emitter.Valid, AppendLast, ToBits, EobChunk, CoversChunks;
      ghost var s, br := State(), bit_buffer[start..start + BR];
      ghost var c := Chunk(symbol, (if signed then [positive] else []) + br);
      ok := EmitEobrun();
      if !ok {
        forall more
          ensures !CoversChunks(tbl, Flushed(s) + [c] + more)
        {
          Reassociate(s.log + [EobChunk(s.eobrun, s.be)], [c], more);
          NotCovered(tbl, s.log, EobChunk(s.eobrun, s.be), [c] + more);
        }
        return;
      }
      ok := EmitSymbol(symbol);
      if !ok {
        forall more
          ensures !CoversChunks(tbl, Flushed(s) + [c] + more)
        {
          NotCovered(tbl, Flushed(s), c, more);
        }
        return;
      }
      AppendNew(Flushed(s), symbol, if signed then [positive] else []);
      AppendNew(Flushed(s), symbol, c.bits);
      AppendTwice(Flushed(s) + [Chunk(symbol, [])], if signed then [positive] else [], br);
      if signed {
        OneBit(positive);
        EmitBits(if positive then 1 else 0, 1);
      }
      EmitBufferedBits(start, BR);
    }

    /** The encoder is at coefficient k of a block, with r zeros and BR correction bits that await a
        symbol; before the block it was in state s. */
    ghost predicate InBlock(band: Band, x: seq<int>, k: nat, r: nat, BR: nat, s: Run)
      reads this, counts, emitter, bit_buffer
    {
      && Valid() && LegalRun(s) && |x| == 64 && LegalBand(band) && band.ss <= k <= band.se + 1
      && BR <= k - band.ss && BE <= MAX_CORR_BITS - 63 && |s.log| <= |log|
      && var w, start := Awaiting(r, bit_buffer[BE..BE + BR]), Awaiting(0, []);
         var head := Head(band, x, band.ss, start);
         && Flushed(State()) + Head(band, x, k, w) == Flushed(s) + head
         && Tail(band, x, k, w) == Tail(band, x, band.ss, start)
         && (EOBRUN > 0 ==> State() == s && Head(band, x, k, w) == head)
         && (EOBRUN == 0 && s.eobrun > 0 ==> head != [])
    }

    // A run of 16 zeros.
    method EmitZrl(band: Band, ghost x: seq<int>, k: nat, r: nat, BR: nat, ghost s: Run) returns (ok: bool)
      requires InBlock(band, x, k, r, BR, s) && k <= band.se && r > 15 && k <= Eob(band, x) && Scaled(x[k], band.al) != 0
      modifies `log, `EOBRUN, `BE, counts, emitter
      ensures gather_statistics ==> ok
      ensures ok ==> InBlock(band, x, k, r - 16, 0, s)
      ensures !ok ==> Head(band, x, band.ss, Awaiting(0, [])) != []
                      && !CoversChunks(tbl, Flushed(s) + Head(band, x, band.ss, Awaiting(0, [])))
    {
      hide Recorded, Emitter.Written, Emitter.Valid, EobChunk, CoversChunks, Scaled, Eob, Head, Tail, Flushed;
      NothingPendingNow(State());
      NothingPendingNow(s);
      ghost var br := bit_buffer[BE..BE + BR];
      ghost var more := Head(band, x, k, Awaiting(r - 16, []));
      HeadSteps(band, x, k, Awaiting(r, br));
      Reassociate(Flushed(State()), [Chunk(0xF0, br)], more);
      assert [] + br == br;
      ok := EmitGroup(0xF0, false, false, BE, BR);
      if ok {
        NothingPendingNow(State());
        StillHead(Flushed(old(State())), Chunk(0xF0, br), more, s, Head(band, x, band.ss, Awaiting(0, [])), old(State()));
      }
    }

    // A newly nonzero coefficient.
    method EmitNew(band: Band, ghost x: seq<int>, k: nat, positive: bool, r: nat, BR: nat, ghost s: Run) returns (ok: bool)
      requires InBlock(band, x, k, r, BR, s) && k <= band.se && r <= 15
      requires Scaled(x[k], band.al) == 1 && positive == (x[k] >= 0)
      modifies `log, `EOBRUN, `BE, counts, emitter
      ensures gather_statistics ==> ok
      ensures ok ==> InBlock(band, x, k + 1, 0, 0, s)
      ensures !ok ==> Head(band, x, band.ss, Awaiting(0, [])) != []
                      && !CoversChunks(tbl, Flushed(s) + Head(band, x, band.ss, Awaiting(0, [])))
    {
      hide Recorded, Emitter.Written, Emitter.Valid, EobChunk, CoversChunks, Scaled, Eob, Head, Tail, Flushed;
      ghost var br := bit_buffer[BE..BE + BR];
      NothingPendingNow(State());
      NothingPendingNow(s);
      ghost var c := Chunk(16 * r + 1, [positive] + br);
      ghost var more := Head(band, x, k + 1, Awaiting(0, []));
      HeadSteps(band, x, k, Awaiting(r, br));
      Reassociate(Flushed(State()), [c], more);
      ok := EmitGroup(16 * r + 1, true, positive, BE, BR);
      if ok {
        NothingPendingNow(State());
        StillHead(Flushed(old(State())), c, more, s, Head(band, x, band.ss, Awaiting(0, [])), old(State()));
      }
    }

    // A correction bit: append to the bits of this block.
    method AppendCorrection(band: Band, ghost x: seq<int>, k: nat, temp: nat, r: nat, BR: nat, ghost s: Run)
      requires InBlock(band, x, k, r, BR, s) && k <= band.se
      requires temp == Scaled(x[k], band.al) > 1 && (r <= 15 || k > Eob(band, x))
      modifies bit_buffer
      ensures InBlock(band, x, k + 1, r, BR + 1, s)
    {
      hide Recorded, Emitter.Written, Emitter.Valid, EobChunk, CoversChunks, Scaled, Eob, Head, Tail, Flushed;
      ghost var before, pending := bit_buffer[BE..BE + BR], bit_buffer[..BE];
      HeadSteps(band, x, k, Awaiting(r, before));
      bit_buffer[BE + BR] := temp % 2 == 1;
      assert bit_buffer[BE..BE + (BR + 1)] == before + [temp % 2 == 1];
      assert bit_buffer[..BE] == pending;
    }

    // One coefficient: its magnitude after the point transform, and its sign.
    method EncodeCoef(band: Band, ghost x: seq<int>, k: nat, temp: nat, positive: bool, eob: nat, r0: nat, BR0: nat, ghost s: Run)
      returns (ok: bool, r: nat, BR: nat)
      requires InBlock(band, x, k, r0, BR0, s) && k <= band.se && eob == Eob(band, x)
      requires temp == Scaled(x[k], band.al) && positive == (x[k] >= 0)
      modifies `log, `EOBRUN, `BE, counts, emitter, bit_buffer
      ensures gather_statistics ==> ok
      ensures ok ==> InBlock(band, x, k + 1, r, BR, s)
      ensures !ok ==> Head(band, x, band.ss, Awaiting(0, [])) != []
                      && !CoversChunks(tbl, Flushed(s) + Head(band, x, band.ss, Awaiting(0, [])))
    {
      hide Recorded, Emitter.Written, Emitter.Valid, EobChunk, CoversChunks, Scaled, Eob, Head, Tail, Flushed;
      ok, r, BR := true, r0, BR0;
      if temp == 0 {
        HeadSteps(band, x, k, Awaiting(r, bit_buffer[BE..BE + BR]));
        r := r + 1;
        return;
      }
      // Emit any required ZRLs, but not if they can be folded into EOB
      while r > 15 && k <= eob
        invariant InBlock(band, x, k, r, BR, s)
      {
        ok := EmitZrl(band, x, k, r, BR, s);
        if !ok {
          return;
        }
        r := r - 16;
        BR := 0;
      }
      // If the coef was previously nonzero, it only needs a correction bit.
      if temp > 1 {
        AppendCorrection(band, x, k, temp, r, BR, s);
        BR := BR + 1;
      } else {
        NewInBand(band, x, k);
        ok := EmitNew(band, x, k, positive, r, BR, s);
        BR := 0;
        r := 0;
      }
    }

    // encode_mcu_AC_refine: MCU encoding for AC successive approximation refinement scan.
    method EncodeMcuAcRefine(block: Block, sc: Scan) returns (ok: bool)
      requires Valid() && LegalRun(State()) && LegalScan(sc) && !sc.first
      modifies `log, `EOBRUN, `BE, counts, emitter, bit_buffer
      ensures gather_statistics ==> ok
      ensures ok ==> Valid() && State() == AcStep(sc, old(State()), Zig(NaturalOrder(), block))
      ensures !ok ==> !CoversChunks(tbl, AcStep(sc, old(State()), Zig(NaturalOrder(), block)).log)
    {
      hide Recorded, Emitter.Written, Emitter.Valid, CoversChunks, Scaled, Head, Tail, Flushed, NaturalAt, Eob, InBlock, AtBlockEnd;
      var band := sc.band;
      ghost var s, x := State(), Zig(NaturalOrder(), block);
      var absvalues, eob := Prepare(block, band);
      var r, BR := 0, 0;
      BlockStarts(band, x);
      var k := band.ss;
      while k <= band.se
        invariant band.ss <= k <= band.se + 1 && InBlock(band, x, k, r, BR, s) && fresh(absvalues)
        invariant forall j :: band.ss <= j <= band.se ==> absvalues[j] == Scaled(x[j], band.al)
      {
        assert x[k] == block[NaturalAt(k)];
        ok, r, BR := EncodeCoef(band, x, k, absvalues[k], block[NaturalAt(k)] >= 0, eob, r, BR, s);
        if !ok {
          FailedHead(tbl, sc, s, x);
          return;
        }
        k := k + 1;
      }
      BlockEnds(sc, x, r, BR, s);
      ok := EndBlock(sc, x, r, BR, s);
    }

    lemma BlockStarts(band: Band, x: seq<int>)
      requires Valid() && LegalRun(State()) && |x| == 64 && LegalBand(band)
      ensures InBlock(band, x, band.ss, 0, 0, State())
    {
      hide Recorded, Emitter.Written, Emitter.Valid, Head, Tail, Flushed;
      assert bit_buffer[BE..BE] == [];
    }

    lemma BlockEnds(sc: Scan, x: seq<int>, r: nat, BR: nat, s: Run)
      requires |x| == 64 && LegalScan(sc) && !sc.first && InBlock(sc.band, x, sc.band.se + 1, r, BR, s)
      ensures AtBlockEnd(sc, x, r, BR, s)
    {
      hide Recorded, Emitter.Written, Emitter.Valid, Head, Tail, Flushed;
      OverBand(sc.band, x, Awaiting(r, bit_buffer[BE..BE + BR]));
      assert Flushed(State()) + [] == Flushed(State());
    }

    /** A block has been coded up to its end, where r zeros and BR correction bits are left. */
    ghost predicate AtBlockEnd(sc: Scan, x: seq<int>, r: nat, BR: nat, s: Run)
      reads this, counts, emitter, bit_buffer
      requires |x| == 64 && LegalScan(sc)
    {
      && Valid() && LegalRun(s) && BE <= MAX_CORR_BITS - 63 && BR <= 63
      && Awaiting(r, bit_buffer[BE..BE + BR]) == BlockTail(sc, x)
      && Flushed(State()) == Flushed(s) + BlockHead(sc, x)
      && (EOBRUN > 0 ==> State() == s && BlockHead(sc, x) == [])
      && (EOBRUN == 0 && s.eobrun > 0 ==> BlockHead(sc, x) != [])
    }

    method EndBlock(sc: Scan, ghost x: seq<int>, r: nat, BR: nat, ghost s: Run) returns (ok: bool)
      requires |x| == 64 && LegalScan(sc) && AtBlockEnd(sc, x, r, BR, s)
      modifies `log, `EOBRUN, `BE, counts, emitter
      ensures gather_statistics ==> ok
      ensures ok ==> Valid() && State() == AcStep(sc, s, x)
      ensures !ok ==> !CoversChunks(tbl, AcStep(sc, s, x).log)
    {
      hide Recorded, Emitter.Written, Emitter.Valid, EobChunk, CoversChunks, BlockHead, BlockTail, Flushed, LegalEncoder;
      ghost var w := Awaiting(r, bit_buffer[BE..BE + BR]);
      BlockDone(sc, x, s, State(), w);
      ok := true;
      if r > 0 || BR > 0 {  // If there are trailing zeroes,
        assert bit_buffer[..BE + BR] == bit_buffer[..BE] + bit_buffer[BE..BE + BR];
        EOBRUN := EOBRUN + 1;  // count an EOB
        BE := BE + BR;  // concat my correction bits to older ones
        // Force out the EOB if we risk overflow of the EOB counter, or of the correction bit buffer during
        // the next MCU.
        if EOBRUN == MAX_EOBRUN || BE > MAX_CORR_BITS - 64 + 1 {
          ghost var after := State();
          ok := EmitEobrun();
          if !ok {
            FlushNotCovered(tbl, after);
          }
        }
      }
    }

    /** The encoder is at coefficient k of a block of a first scan, with r zeros before it. */
    ghost predicate InFirst(band: Band, x: seq<int>, k: nat, r: nat, s: Run)
      reads this, counts, emitter, bit_buffer
    {
      && Valid() && LegalRun(s) && |x| == 64 && LegalBand(band) && band.ss <= k <= band.se + 1 && |s.log| <= |log|
      && var head := FirstHead(band, x, band.ss, 0);
         && Flushed(State()) + FirstHead(band, x, k, r) == Flushed(s) + head
         && FirstTail(band, x, k, r) == FirstTail(band, x, band.ss, 0)
         && (EOBRUN > 0 ==> State() == s && FirstHead(band, x, k, r) == head)
         && (EOBRUN == 0 && s.eobrun > 0 ==> head != [])
    }

    // A symbol of a first scan, after any pending EOBRUN, and its value bits.
    method EmitFirst(band: Band, ghost x: seq<int>, k: nat, r: nat, symbol: byte, v: int, ghost s: Run, k': nat, r': nat) returns (ok: bool)
      requires InFirst(band, x, k, r, s) && band.ss <= k' <= band.se + 1
      requires var n := NBits(Magnitude(v));
        && FirstHead(band, x, k, r) == [Chunk(symbol, ToBits(Extra(v), n))] + FirstHead(band, x, k', r')
        && FirstTail(band, x, k, r) == FirstTail(band, x, k', r') && n <= 16
      modifies `log, `EOBRUN, `BE, counts, emitter
      ensures gather_statistics ==> ok
      ensures ok ==> InFirst(band, x, k', r', s)
      ensures !ok ==> FirstHead(band, x, band.ss, 0) != [] && !CoversChunks(tbl, Flushed(s) + FirstHead(band, x, band.ss, 0))
    {
      hide Recorded, Emitter.Written, Emitter.Valid, EobChunk, CoversChunks, FirstHead, FirstTail, Flushed, NBits, Extra, ToBits;
      ghost var c := Chunk(symbol, ToBits(Extra(v), NBits(Magnitude(v))));
      ghost var more := FirstHead(band, x, k', r');
      NothingPendingNow(State());
      NothingPendingNow(s);
      Reassociate(Flushed(State()), [c], more);
      ok := EmitValue(symbol, v);
      if ok {
        NothingPendingNow(State());
        StillHead(Flushed(old(State())), c, more, s, FirstHead(band, x, band.ss, 0), old(State()));
      }
    }

    method EmitValue(symbol: byte, v: int) returns (ok: bool)
      requires Valid() && NBits(Magnitude(v)) <= 16
      modifies `log, `EOBRUN, `BE, counts, emitter
      ensures Valid() && (gather_statistics ==> ok)
      ensures var c := Chunk(symbol, ToBits(Extra(v), NBits(Magnitude(v))));
        && (ok ==> log == Flushed(old(State())) + [c] && EOBRUN == 0 && BE == 0)
        && (!ok ==> forall more :: !CoversChunks(tbl, Flushed(old(State())) + [c] + more))
    {
      hide Recorded, Emitter.Written, Emitter.Valid, AppendLast, ToBits, EobChunk, CoversChunks, NBits, Extra, Magnitude;
      ghost var s := State();
      ghost var n := NBits(Magnitude(v));
      ghost var c := Chunk(symbol, ToBits(Extra(v), n));
      ok := EmitEobrun();
      if !ok {
        forall more
          ensures !CoversChunks(tbl, Flushed(s) + [c] + more)
        {
          Reassociate(s.log + [EobChunk(s.eobrun, s.be)], [c], more);
          NotCovered(tbl, s.log, EobChunk(s.eobrun, s.be), [c] + more);
        }
        return;
      }
      ok := EmitSymbol(symbol);
      if !ok {
        forall more
          ensures !CoversChunks(tbl, Flushed(s) + [c] + more)
        {
          NotCovered(tbl, Flushed(s), c, more);
        }
        return;
      }
      AppendNew(Flushed(s), symbol, ToBits(Extra(v), n));
      var nbits := NBits(Magnitude(v));
      if nbits > 0 {
        EmitBits(Extra(v), nbits);
      } else {
        assert ToBits(Extra(v), 0) == [];
      }
    }

    // encode_mcu_AC_first: MCU encoding for AC initial scan; fails also if a coefficient is out of range.
    method EncodeMcuAcFirst(block: Block, sc: Scan) returns (ok: bool)
      requires Valid() && LegalRun(State()) && LegalScan(sc) && sc.first
      requires forall i :: 0 <= i < 64 ==> -32768 <= block[i] <= 32767
      modifies `log, `EOBRUN, `BE, counts, emitter, bit_buffer
      ensures ok ==> FirstFits(sc.band, Zig(NaturalOrder(), block))
      ensures ok ==> Valid() && State() == AcStep(sc, old(State()), Zig(NaturalOrder(), block))
      ensures !ok && FirstFits(sc.band, Zig(NaturalOrder(), block)) ==>
        !gather_statistics && !CoversChunks(tbl, AcStep(sc, old(State()), Zig(NaturalOrder(), block)).log)
    {
      hide Recorded, Emitter.Written, Emitter.Valid, EobChunk, CoversChunks, Scaled, FirstHead, FirstTail, Flushed, NaturalAt, NBits, Zig;
      var band := sc.band;
      ghost var s, x := State(), Zig(NaturalOrder(), block);
      ZigValues(block);
      var r := 0;
      var k := band.ss;
      while k <= band.se
        invariant InFirst(band, x, k, r, s)
        invariant forall j :: band.ss <= j < k ==> NBits(Scaled(x[j], band.al)) <= MAX_COEF_BITS
      {
        ok, r := EncodeFirstCoef(band, x, k, block[NaturalAt(k)], r, s);
        if !ok {
          if NBits(Scaled(x[k], band.al)) <= MAX_COEF_BITS { FailedHead(tbl, sc, s, x); }
          return;
        }
        k := k + 1;
      }
      OverFirst(band, x, r);
      assert Flushed(State()) + [] == Flushed(State()) && bit_buffer[BE..BE + 0] == [];
      ok := EndBlock(sc, x, r, 0, s);
    }

    method EncodeFirstCoef(band: Band, ghost x: seq<int>, k: nat, coef: int, r0: nat, ghost s: Run) returns (ok: bool, r: nat)
      requires |x| == 64 && InFirst(band, x, k, r0, s) && k <= band.se && coef == x[k] && -32768 <= coef <= 32767
      modifies `log, `EOBRUN, `BE, counts, emitter
      ensures ok ==> InFirst(band, x, k + 1, r, s) && NBits(Scaled(x[k], band.al)) <= MAX_COEF_BITS
      ensures !ok && NBits(Scaled(x[k], band.al)) <= MAX_COEF_BITS ==>
        && !gather_statistics && FirstHead(band, x, band.ss, 0) != []
        && !CoversChunks(tbl, Flushed(s) + FirstHead(band, x, band.ss, 0))
    {
      hide InFirst, CoversChunks, FirstHead, FirstTail, Flushed, Shr;
      ok, r := true, r0;
      var temp := Shr(Magnitude(coef), band.al);  // apply the point transform
      if temp == 0 {
        StillInFirst(band, x, k, r, s);
        r := r + 1;
        return;
      }
      // if run length > 15, must emit special run-length-16 codes (0xF0)
      while r > 15
        invariant InFirst(band, x, k, r, s)
      {
        ok := EmitFirstZrl(band, x, k, r, s);
        if !ok {
          return;
        }
        r := r - 16;
      }
      var nbits := NBits(temp);
      if nbits > MAX_COEF_BITS {
        return false, r;
      }
      ok := EmitFirstValue(band, x, k, r, coef, nbits, s);
      r := 0;
    }

    lemma StillInFirst(band: Band, x: seq<int>, k: nat, r: nat, s: Run)
      requires InFirst(band, x, k, r, s) && k <= band.se && |x| == 64 && Scaled(x[k], band.al) == 0
      ensures InFirst(band, x, k + 1, r + 1, s) && NBits(Scaled(x[k], band.al)) <= MAX_COEF_BITS
    {
      hide Recorded, Emitter.Written, Emitter.Valid, EobChunk, FirstHead, FirstTail, Flushed, Scaled;
      FirstSteps(band, x, k, r);
      NoValueBits();
    }

    method EmitFirstZrl(band: Band, ghost x: seq<int>, k: nat, r: nat, ghost s: Run) returns (ok: bool)
      requires InFirst(band, x, k, r, s) && k <= band.se && |x| == 64 && Scaled(x[k], band.al) != 0 && r > 15
      modifies `log, `EOBRUN, `BE, counts, emitter
      ensures ok ==> InFirst(band, x, k, r - 16, s)
      ensures !ok ==>
        && LegalBand(band) && LegalRun(s) && LegalEncoder(tbl) && FirstHead(band, x, band.ss, 0) != []
        && !gather_statistics && !CoversChunks(tbl, Flushed(s) + FirstHead(band, x, band.ss, 0))
    {
      hide Recorded, Emitter.Written, Emitter.Valid, EobChunk, CoversChunks, FirstHead, FirstTail, Flushed, Scaled;
      FirstSteps(band, x, k, r);
      NoValueBits();
      ok := EmitFirst(band, x, k, r, 0xF0, 0, s, k, r - 16);
    }

    method EmitFirstValue(band: Band, ghost x: seq<int>, k: nat, r: nat, coef: int, nbits: nat, ghost s: Run) returns (ok: bool)
      requires InFirst(band, x, k, r, s) && k <= band.se && |x| == 64 && Scaled(x[k], band.al) != 0 && r <= 15
      requires coef == x[k] && -32768 <= coef <= 32767 && nbits == NBits(Scaled(x[k], band.al)) <= MAX_COEF_BITS
      modifies `log, `EOBRUN, `BE, counts, emitter
      ensures ok ==> InFirst(band, x, k + 1, 0, s)
      ensures !ok ==>
        && LegalBand(band) && LegalRun(s) && LegalEncoder(tbl) && FirstHead(band, x, band.ss, 0) != []
        && !gather_statistics && !CoversChunks(tbl, Flushed(s) + FirstHead(band, x, band.ss, 0))
    {
      hide Recorded, Emitter.Written, Emitter.Valid, EobChunk, CoversChunks, FirstHead, FirstTail, Flushed, Scaled, NBits, Extra, ToBits;
      FirstSteps(band, x, k, r);
      PointScales(coef, band.al);
      ok := EmitFirst(band, x, k, r, 16 * r + nbits, Point(coef, band.al), s, k + 1, 0);
    }
  }

  lemma ZigValues(block: Block)
    requires forall i :: 0 <= i < 64 ==> -32768 <= block[i] <= 32767
    ensures var x := Zig(NaturalOrder(), block);
      |x| == 64 && forall k :: 0 <= k < 64 ==> x[k] == block[NaturalAt(k)] && -32768 <= x[k] <= 32767
  {
    hide NaturalAt;
  }

  lemma NoValueBits()
    ensures NBits(Magnitude(0)) == 0 && ToBits(Extra(0), 0) == []
  {
  }

  lemma OverFirst(band: Band, x: seq<int>, r: nat)
    requires |x| == 64 && LegalBand(band)
    ensures FirstHead(band, x, band.se + 1, r) == [] && FirstTail(band, x, band.se + 1, r) == r
  {
  }

  /** The definition of FirstHead and FirstTail, case by case. */
  lemma FirstSteps(band: Band, x: seq<int>, k: nat, r: nat)
    requires |x| == 64 && LegalBand(band) && band.ss <= k <= band.se
    ensures var a := Scaled(x[k], band.al);
      if a == 0 then
        FirstHead(band, x, k, r) == FirstHead(band, x, k + 1, r + 1) && FirstTail(band, x, k, r) == FirstTail(band, x, k + 1, r + 1)
      else if r > 15 then
        && FirstHead(band, x, k, r) == [Chunk(0xF0, [])] + FirstHead(band, x, k, r - 16)
        && FirstTail(band, x, k, r) == FirstTail(band, x, k, r - 16)
      else
        && FirstHead(band, x, k, r) == [FirstChunk1(r, Point(x[k], band.al))] + FirstHead(band, x, k + 1, 0)
        && FirstTail(band, x, k, r) == FirstTail(band, x, k + 1, 0)
  {
    hide Scaled, FirstChunk1, Point;
  }

  lemma FailedHead(e: EncoderTable, sc: Scan, s: Run, x: seq<int>)
    requires LegalEncoder(e) && |x| == 64 && LegalScan(sc) && LegalRun(s)
    requires BlockHead(sc, x) != [] && !CoversChunks(e, Flushed(s) + BlockHead(sc, x))
    ensures !CoversChunks(e, AcStep(sc, s, x).log)
  {
    hide BlockHead, BlockTail, CoversChunks, LegalEncoder;
    var after := AfterBlock(sc, s, x);
    if CoversChunks(e, Forced(after).log) {
      PartOfForced(e, after);
    }
  }

  // The pre-pass: absolute values after the point transform, and the index of the last newly nonzero
  // coefficient.
  method Prepare(block: Block, band: Band) returns (absvalues: array<nat>, eob: nat)
    requires LegalBand(band)
    ensures fresh(absvalues) && absvalues.Length == 64
    ensures var x := Zig(NaturalOrder(), block);
      eob == Eob(band, x) && forall k :: band.ss <= k <= band.se ==> absvalues[k] == Scaled(x[k], band.al)
  {
    hide NaturalAt, Shr, Magnitude;
    absvalues := new nat[64](_ => 0);
    ghost var x := Zig(NaturalOrder(), block);
    eob := band.ss;
    var k := band.ss;
    while k <= band.se
      invariant band.ss <= k <= band.se + 1
      invariant eob == if k == band.ss then band.ss else LastNew(band, x, k - 1)
      invariant forall j :: band.ss <= j < k ==> absvalues[j] == Scaled(x[j], band.al)
    {
      var temp := Magnitude(block[NaturalAt(k)]);
      assert x[k] == block[NaturalAt(k)];
      temp := Shr(temp, band.al);  // apply the point transform
      absvalues[k] := temp;
      if temp == 1 {
        eob := k;
      }
      k := k + 1;
    }
  }

  lemma BlockDone(sc: Scan, x: seq<int>, s: Run, now: Run, w: Awaiting)
    requires |x| == 64 && LegalScan(sc) && LegalRun(s) && now.eobrun <= MAX_EOBRUN && (now.eobrun == 0 ==> now.be == [])
    requires Flushed(now) == Flushed(s) + BlockHead(sc, x) && w == BlockTail(sc, x)
    requires (now.eobrun > 0 ==> now == s && BlockHead(sc, x) == []) && (now.eobrun == 0 && s.eobrun > 0 ==> BlockHead(sc, x) != [])
    ensures AfterBlock(sc, s, x) == if HasTail(w) then Run(now.log, now.eobrun + 1, now.be + w.br) else now
  {
    hide BlockHead, BlockTail, Flushed;
    NothingPendingNow(s);
    NothingPendingNow(now);
    if BlockHead(sc, x) == [] {
      QuietTail(sc, x);
      assert Flushed(s) + [] == Flushed(s);
    }
    assert [] + w.br == w.br;
  }

  lemma NewInBand(band: Band, x: seq<int>, k: nat)
    requires |x| == 64 && LegalBand(band) && band.ss <= k <= band.se && Scaled(x[k], band.al) == 1
    ensures k <= Eob(band, x)
  {
    hide Scaled;
  }

  lemma NothingPendingNow(s: Run)
    requires s.eobrun <= MAX_EOBRUN
    ensures s.eobrun == 0 ==> Flushed(s) == s.log
    ensures |Flushed(s)| >= |s.log|
  {
  }

  lemma StillHead(log: seq<Chunk>, c: Chunk, more: seq<Chunk>, s: Run, head: seq<Chunk>, before: Run)
    requires s.eobrun <= MAX_EOBRUN && log + ([c] + more) == Flushed(s) + head
    requires before.eobrun <= MAX_EOBRUN && log == Flushed(before)
    requires before.eobrun > 0 ==> before == s
    requires before.eobrun == 0 && s.eobrun > 0 ==> head != []
    ensures s.eobrun > 0 ==> head != []
    ensures (log + [c]) + more == Flushed(s) + head
  {
    hide Flushed;
    Reassociate(log, [c], more);
    assert |log + ([c] + more)| == |log| + 1 + |more|;
  }

  /** The definition of Head and Tail, case by case. */
  lemma HeadSteps(band: Band, x: seq<int>, k: nat, w: Awaiting)
    requires |x| == 64 && LegalBand(band) && band.ss <= k <= band.se
    ensures var a := Scaled(x[k], band.al);
      if a == 0 then
        var w' := Awaiting(w.r + 1, w.br);
        Head(band, x, k, w) == Head(band, x, k + 1, w') && Tail(band, x, k, w) == Tail(band, x, k + 1, w')
      else if w.r > 15 && k <= Eob(band, x) then
        var w' := Awaiting(w.r - 16, []);
        Head(band, x, k, w) == [Chunk(0xF0, w.br)] + Head(band, x, k, w') && Tail(band, x, k, w) == Tail(band, x, k, w')
      else if a > 1 then
        var w' := Awaiting(w.r, w.br + [a % 2 == 1]);
        Head(band, x, k, w) == Head(band, x, k + 1, w') && Tail(band, x, k, w) == Tail(band, x, k + 1, w')
      else
        var w' := Awaiting(0, []);
        && w.r <= 15 && Head(band, x, k, w) == [Chunk(16 * w.r + 1, [x[k] >= 0] + w.br)] + Head(band, x, k + 1, w')
        && Tail(band, x, k, w) == Tail(band, x, k + 1, w')
  {
    hide Scaled;
  }

  lemma OverBand(band: Band, x: seq<int>, w: Awaiting)
    requires |x| == 64 && LegalBand(band)
    ensures Head(band, x, band.se + 1, w) == [] && Tail(band, x, band.se + 1, w) == w
  {
  }

  lemma FlushNotCovered(e: EncoderTable, s: Run)
    requires LegalEncoder(e) && 0 < s.eobrun <= MAX_EOBRUN && e.ehufsi[EobChunk(s.eobrun, s.be).symbol] == 0
    ensures !CoversChunks(e, Flushed(s))
  {
    hide EobChunk;
    NotCovered(e, s.log, EobChunk(s.eobrun, s.be), []);
    assert Flushed(s) == s.log + [EobChunk(s.eobrun, s.be)] + [];
  }

  /** A chunk without a code is not covered. */
  lemma NotCovered(e: EncoderTable, a: seq<Chunk>, c: Chunk, b: seq<Chunk>)
    requires LegalEncoder(e) && e.ehufsi[c.symbol] == 0
    ensures !CoversChunks(e, a + [c] + b)
  {
    assert (a + [c] + b)[|a|] == c;
  }

  lemma OneBit(b: bool)
    ensures ToBits(if b then 1 else 0, 1) == [b]
  {
    assert ToBits(0, 0) == [];
  }

  lemma NotEmpty(log: seq<Chunk>, bits: Bits)
    requires log != []
    ensures AppendLast(log, bits) != []
  {
  }
}
