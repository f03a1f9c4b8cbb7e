/** AC scans of a sequence of blocks: EOB runs that span blocks, and the correction bits that wait for
    them. */
module ProgRun {
  import opened Bytes
  import opened BitStrings
  import opened HuffTable
  import opened HuffDecode
  import opened HuffBlock
  import opened ProgFirst
  import opened ProgRefine

  const MAX_CORR_BITS := 1000
  const MAX_EOBRUN := 0x7FFF

  /** What the encoder has emitted, the length of the pending EOB run, and the correction bits of its
      blocks. */
  datatype Run = Run(log: seq<Chunk>, eobrun: nat, be: Bits)

  /** An AC scan: the first one of its band, or a refinement by one bit. */
  datatype Scan = Scan(band: Band, first: bool)

  predicate LegalScan(sc: Scan) {
    LegalBand(sc.band)
  }

  /** What a block emits before its end. */
  function BlockHead(sc: Scan, x: seq<int>): seq<Chunk>
    requires |x| == 64 && LegalScan(sc)
  {
    if sc.first then FirstHead(sc.band, x, sc.band.ss, 0) else Head(sc.band, x, sc.band.ss, Awaiting(0, []))
  }

  /** What a block leaves for the EOB symbol. */
  function BlockTail(sc: Scan, x: seq<int>): Awaiting
    requires |x| == 64 && LegalScan(sc)
  {
    if sc.first then Awaiting(FirstTail(sc.band, x, sc.band.ss, 0), []) else Tail(sc.band, x, sc.band.ss, Awaiting(0, []))
  }

  /** Decoding a block. */
  function DecodeBand(t: Table, sc: Scan, bits: Bits, eobrun: nat, z: seq<int>): (d: Refined)
    requires WellFormed(t) && |z| == 64 && sc.band.se < 64
    ensures |d.z| == 64
  {
    if !sc.first then DecodeRefine(t, sc.band, bits, eobrun, z)
    else if eobrun > 0 then Refined(z, eobrun - 1, bits)  // a band of zeroes
    else DecodeFirst(t, sc.band, bits, sc.band.ss, z)
  }

  /** What the decoder holds before the scan. */
  predicate Before(sc: Scan, x: seq<int>, z: seq<int>) {
    |x| == |z| == 64 && if sc.first then Blank(sc.band, z) && FirstFits(sc.band, x) else Coarse(sc.band, x, z)
  }

  predicate LegalRun(s: Run) {
    s.eobrun < MAX_EOBRUN && |s.be| <= MAX_CORR_BITS - 63 && (s.eobrun == 0 ==> s.be == [])
  }

  /** The pending EOB run emitted. */
  function Flushed(s: Run): seq<Chunk>
    requires s.eobrun <= MAX_EOBRUN
  {
    if s.eobrun > 0 then s.log + [EobChunk(s.eobrun, s.be)] else s.log
  }

  /** The run after a block, before a check for overflow. */
  function AfterBlock(sc: Scan, s: Run, x: seq<int>): (r: Run)
    requires |x| == 64 && LegalScan(sc) && LegalRun(s)
    ensures r.eobrun <= MAX_EOBRUN && (r.eobrun == 0 ==> r.be == [])
  {
    var head, end := BlockHead(sc, x), BlockTail(sc, x);
    if head == [] then Run(s.log, s.eobrun + 1, s.be + end.br)
    else if HasTail(end) then Run(Flushed(s) + head, 1, end.br)
    else Run(Flushed(s) + head, 0, [])
  }

  /** Force out the EOB run if the counter or the correction bit buffer may overflow in the next block. */
  function Forced(s: Run): Run
    requires s.eobrun <= MAX_EOBRUN
  {
    if s.eobrun == MAX_EOBRUN || |s.be| > MAX_CORR_BITS - 63 then Run(Flushed(s), 0, []) else s
  }

  function AcStep(sc: Scan, s: Run, x: seq<int>): (r: Run)
    requires |x| == 64 && LegalScan(sc) && LegalRun(s)
    ensures LegalRun(r)
  {
    Forced(AfterBlock(sc, s, x))
  }

  /** The run after these blocks. */
  function AcRun(sc: Scan, xs: seq<seq<int>>): (s: Run)
    requires LegalScan(sc) && forall i :: 0 <= i < |xs| ==> |xs[i]| == 64
    ensures LegalRun(s)
  {
    if xs == [] then Run([], 0, []) else AcStep(sc, AcRun(sc, xs[..|xs| - 1]), xs[|xs| - 1])
  }

  // ----- Decoding a sequence of blocks

  datatype RefinedAll = RefinedAll(zs: seq<seq<int>>, eobrun: nat, rest: Bits)

  function DecodeAll(t: Table, sc: Scan, bits: Bits, zs: seq<seq<int>>): (d: RefinedAll)
    requires WellFormed(t) && sc.band.se < 64 && forall i :: 0 <= i < |zs| ==> |zs[i]| == 64
  {
    if zs == [] then RefinedAll([], 0, bits)
    else
      var r := DecodeAll(t, sc, bits, zs[..|zs| - 1]);
      var d := DecodeBand(t, sc, r.rest, r.eobrun, zs[|zs| - 1]);
      RefinedAll(r.zs + [d.z], d.eobrun, d.rest)
  }

  // ----- Chunks

  lemma {:induction false} ChunksConcat(e: EncoderTable, a: seq<Chunk>, b: seq<Chunk>)
    requires LegalEncoder(e)
    ensures ChunksBits(e, a + b) == ChunksBits(e, a) + ChunksBits(e, b)
  {
    hide ChunkBits;
    if a == [] {
      assert a + b == b && [] + ChunksBits(e, b) == ChunksBits(e, b);
    } else {
      ChunksConcat(e, a[1..], b);
      assert (a + b)[1..] == a[1..] + b;
      Reassociate(ChunkBits(e, a[0]), ChunksBits(e, a[1..]), ChunksBits(e, b));
    }
  }

  lemma ChunksSnoc(e: EncoderTable, a: seq<Chunk>, c: Chunk)
    requires LegalEncoder(e)
    ensures ChunksBits(e, a + [c]) == ChunksBits(e, a) + ChunkBits(e, c)
  {
    hide ChunkBits;
    ChunksConcat(e, a, [c]);
    assert [c][1..] == [] && ChunkBits(e, c) + [] == ChunkBits(e, c);
  }

  // ----- The invariant: a decoder that reads what is emitted, and then an EOB run of any length m that
  // covers the pending blocks, ends up with these blocks refined and m less the pending blocks to go.

  ghost predicate Stands(e: EncoderTable, t: Table, sc: Scan, s: Run, zs: seq<seq<int>>, rs: seq<seq<int>>)
    requires LegalEncoder(e) && WellFormed(t) && LegalScan(sc) && forall i :: 0 <= i < |zs| ==> |zs[i]| == 64
  {
    if s.eobrun == 0 then
      forall rest: Bits :: DecodeAll(t, sc, ChunksBits(e, s.log) + rest, zs) == RefinedAll(rs, 0, rest)
    else
      forall m: nat, rest: Bits :: s.eobrun <= m <= MAX_EOBRUN && e.ehufsi[EobChunk(m, []).symbol] > 0 ==>
        DecodeAll(t, sc, ChunksBits(e, s.log) + (ChunkBits(e, EobChunk(m, s.be)) + rest), zs)
        == RefinedAll(rs, m - s.eobrun, rest)
  }

  lemma StandsStart(e: EncoderTable, t: Table, sc: Scan)
    requires LegalEncoder(e) && WellFormed(t) && LegalScan(sc)
    ensures Stands(e, t, sc, Run([], 0, []), [], [])
  {
    forall rest: Bits
      ensures DecodeAll(t, sc, ChunksBits(e, []) + rest, []) == RefinedAll([], 0, rest)
    {
      NoChunks(e, rest);
    }
  }

  /** Emitting the pending EOB run. */
  lemma StandsFlushed(e: EncoderTable, t: Table, sc: Scan, s: Run, zs: seq<seq<int>>, rs: seq<seq<int>>)
    requires LegalEncoder(e) && WellFormed(t) && LegalScan(sc) && forall i :: 0 <= i < |zs| ==> |zs[i]| == 64
    requires s.eobrun <= MAX_EOBRUN && Stands(e, t, sc, s, zs, rs)
    requires s.eobrun > 0 ==> e.ehufsi[EobChunk(s.eobrun, []).symbol] > 0
    ensures Stands(e, t, sc, Run(Flushed(s), 0, []), zs, rs)
  {
    hide DecodeAll, ChunkBits, EobChunk, ChunksBits;
    if s.eobrun > 0 {
      var c := EobChunk(s.eobrun, s.be);
      forall rest: Bits
        ensures DecodeAll(t, sc, ChunksBits(e, s.log + [c]) + rest, zs) == RefinedAll(rs, 0, rest)
      {
        ChunksSnoc(e, s.log, c);
        Reassociate(ChunksBits(e, s.log), ChunkBits(e, c), rest);
      }
    }
  }

  /** A block that emits nothing before its end has no newly nonzero coefficient; all its correction bits
      wait. */
  lemma {:induction false} QuietBlock(band: Band, x: seq<int>, k: nat, w: Awaiting)
    requires Between(band, x, band.ss, k, w) && LegalBand(band) && band.ss <= k && |x| == 64 && Head(band, x, k, w) == []
    ensures NoNew(band, x, band.ss, band.se + 1) && HasTail(Tail(band, x, k, w))
    ensures Tail(band, x, k, w).br == Corr(band, x, band.ss, band.se + 1)
    decreases 64 - k
  {
    hide Scaled, Corr, Zeros, Eob, NoNew;
    BetweenParts(band, x, band.ss, k, w);
    if k > band.se {
      SomethingAwaits(band, x, band.ss);
    } else if Scaled(x[k], band.al) == 0 {
      NextZero(band, x, band.ss, k, w);
      QuietBlock(band, x, k + 1, Awaiting(w.r + 1, w.br));
    } else {
      NextNonzero(band, x, band.ss, k, w);
      QuietBlock(band, x, k + 1, Awaiting(w.r, w.br + [Scaled(x[k], band.al) % 2 == 1]));
    }
  }

  lemma {:induction false} QuietFirst(band: Band, x: seq<int>, k: nat, r: nat)
    requires LegalBand(band) && |x| == 64 && band.ss <= k <= band.se + 1 && FirstHead(band, x, k, r) == []
    ensures FirstTail(band, x, k, r) == r + (band.se + 1 - k)
    ensures forall j :: k <= j <= band.se ==> Scaled(x[j], band.al) == 0
    decreases 64 - k
  {
    hide Scaled;
    if k <= band.se { QuietFirst(band, x, k + 1, r + 1); }
  }

  /** A block that emits nothing before its end has a tail. */
  lemma QuietTail(sc: Scan, x: seq<int>)
    requires LegalScan(sc) && |x| == 64 && BlockHead(sc, x) == []
    ensures HasTail(BlockTail(sc, x))
  {
    hide Head, Tail, FirstHead, FirstTail;
    if sc.first {
      QuietFirst(sc.band, x, sc.band.ss, 0);
    } else {
      StartOver(sc.band, x, sc.band.ss);
      QuietBlock(sc.band, x, sc.band.ss, Awaiting(0, []));
    }
  }

  lemma DecodeSnoc(t: Table, sc: Scan, bits: Bits, zs: seq<seq<int>>, z: seq<int>)
    requires WellFormed(t) && sc.band.se < 64 && |z| == 64 && forall i :: 0 <= i < |zs| ==> |zs[i]| == 64
    ensures var r := DecodeAll(t, sc, bits, zs);
      var d := DecodeBand(t, sc, r.rest, r.eobrun, z);
      DecodeAll(t, sc, bits, zs + [z]) == RefinedAll(r.zs + [d.z], d.eobrun, d.rest)
  {
    hide DecodeBand;
    assert (zs + [z])[..|zs|] == zs;
  }

  lemma MixStart(band: Band, x: seq<int>, z: seq<int>)
    requires |x| == |z| == 64
    ensures Mix(band, x, z, band.ss) == z
  {
    hide Trunc;
  }

  lemma BeforeSize(sc: Scan, x: seq<int>, z: seq<int>)
    requires Before(sc, x, z)
    ensures |x| == |z| == 64
  {
  }

  lemma ScanInRange(sc: Scan)
    requires LegalScan(sc)
    ensures sc.band.se < 64
  {
  }

  /** The block as it is after the scan. */
  function After(sc: Scan, x: seq<int>, z: seq<int>): seq<int>
    requires |x| == |z| == 64
  {
    Mix(sc.band, x, z, sc.band.se + 1)
  }

  /** A block after which no earlier block is pending. */
  lemma StandsHead(e: EncoderTable, t: Table, sc: Scan, log: seq<Chunk>, zs: seq<seq<int>>, rs: seq<seq<int>>, x: seq<int>, z: seq<int>)
    requires LegalScan(sc) && (forall i :: 0 <= i < |zs| ==> |zs[i]| == 64) && Before(sc, x, z)
    requires Paired(e, t) && LegalEncoder(e) && WellFormed(t) && Stands(e, t, sc, Run(log, 0, []), zs, rs)
    requires CoversChunks(e, BlockHead(sc, x))
    ensures var head, end := BlockHead(sc, x), BlockTail(sc, x);
      Stands(e, t, sc, if HasTail(end) then Run(log + head, 1, end.br) else Run(log + head, 0, []), zs + [z], rs + [After(sc, x, z)])
  {
    hide DecodeAll, ChunkBits, EobChunk, ChunksBits, BlockHead, BlockTail, DecodeBand, After, LegalEncoder, Paired, Before, LegalScan;
    BeforeSize(sc, x, z);
    ScanInRange(sc);
    var head, end := BlockHead(sc, x), BlockTail(sc, x);
    ChunksConcat(e, log, head);
    forall m: nat, rest: Bits | 1 <= m <= MAX_EOBRUN && (HasTail(end) ==> |e.ehufsi| == 256 && e.ehufsi[EobChunk(m, []).symbol] > 0)
      ensures DecodeAll(t, sc, ChunksBits(e, log + head) + Finish(e, end, m, rest), zs + [z])
           == RefinedAll(rs + [After(sc, x, z)], if HasTail(end) then m - 1 else 0, rest)
    {
      var f := Finish(e, end, m, rest);
      Reassociate(ChunksBits(e, log), ChunksBits(e, head), f);
      DecodeSnoc(t, sc, ChunksBits(e, log + head) + f, zs, z);
      HeadOfBlock(e, t, sc, x, z, m, rest);
    }
    EncoderSize(e);
    if !HasTail(end) {
      forall rest: Bits
        ensures DecodeAll(t, sc, ChunksBits(e, log + head) + rest, zs + [z]) == RefinedAll(rs + [After(sc, x, z)], 0, rest)
      {
        assert Finish(e, end, 1, rest) == rest;
      }
    } else {
      forall m: nat, rest: Bits | 1 <= m <= MAX_EOBRUN
        ensures Finish(e, end, m, rest) == ChunkBits(e, EobChunk(m, end.br)) + rest
      {
      }
    }
  }

  lemma EncoderSize(e: EncoderTable)
    requires LegalEncoder(e)
    ensures |e.ehufsi| == 256
  {
  }

  lemma HeadOfBlock(e: EncoderTable, t: Table, sc: Scan, x: seq<int>, z: seq<int>, m: nat, rest: Bits)
    requires Paired(e, t) && LegalEncoder(e) && WellFormed(t) && Before(sc, x, z) && LegalScan(sc) && 1 <= m <= MAX_EOBRUN
    requires |x| == 64 && CoversChunks(e, BlockHead(sc, x))
    requires HasTail(BlockTail(sc, x)) ==> e.ehufsi[EobChunk(m, []).symbol] > 0
    ensures var head, end := BlockHead(sc, x), BlockTail(sc, x);
      DecodeBand(t, sc, ChunksBits(e, head) + Finish(e, end, m, rest), 0, z)
      == Refined(After(sc, x, z), if HasTail(end) then m - 1 else 0, rest)
  {
    hide ChunkBits, EobChunk, ChunksBits, Head, Tail, FirstHead, FirstTail, DecodeCoefs, DecodeFirst, Mix, Finish, Paired, FirstFits,
         Blank, LegalEncoder, Coarse;
    MixStart(sc.band, x, z);
    if sc.first {
      FirstDecodes(e, t, sc.band, x, z, sc.band.ss, 0, m, rest);
    } else {
      StartOver(sc.band, x, sc.band.ss);
      HeadDecodes(e, t, sc.band, x, z, sc.band.ss, sc.band.ss, Awaiting(0, []), m, rest);
    }
  }

  /** A block that joins the pending EOB run. */
  lemma StandsQuiet(e: EncoderTable, t: Table, sc: Scan, s: Run, zs: seq<seq<int>>, rs: seq<seq<int>>, x: seq<int>, z: seq<int>)
    requires LegalScan(sc) && (forall i :: 0 <= i < |zs| ==> |zs[i]| == 64) && Before(sc, x, z) && |x| == 64 && BlockHead(sc, x) == []
    requires LegalEncoder(e) && WellFormed(t) && 0 < s.eobrun < MAX_EOBRUN && Stands(e, t, sc, s, zs, rs)
    ensures Stands(e, t, sc, Run(s.log, s.eobrun + 1, s.be + BlockTail(sc, x).br), zs + [z], rs + [After(sc, x, z)])
  {
    hide DecodeAll, EobChunk, ChunksBits, After, LegalEncoder, BlockTail, ChunkBits, Before, DecodeBand, BlockHead, LegalScan;
    EncoderSize(e);
    BeforeSize(sc, x, z);
    ScanInRange(sc);
    var c := BlockTail(sc, x).br;
    forall m: nat, rest: Bits | s.eobrun + 1 <= m <= MAX_EOBRUN && e.ehufsi[EobChunk(m, []).symbol] > 0
      ensures DecodeAll(t, sc, ChunksBits(e, s.log) + (ChunkBits(e, EobChunk(m, s.be + c)) + rest), zs + [z])
           == RefinedAll(rs + [After(sc, x, z)], m - s.eobrun - 1, rest)
    {
      LongerEob(e, m, s.be, c, rest);
      DecodeSnoc(t, sc, ChunksBits(e, s.log) + (ChunkBits(e, EobChunk(m, s.be)) + (c + rest)), zs, z);
      QuietDecodes(t, sc, x, z, m - s.eobrun, rest);
    }
  }

  lemma LongerEob(e: EncoderTable, m: nat, be: Bits, c: Bits, rest: Bits)
    requires LegalEncoder(e) && 1 <= m <= MAX_EOBRUN
    ensures ChunkBits(e, EobChunk(m, be + c)) + rest == ChunkBits(e, EobChunk(m, be)) + (c + rest)
  {
    hide ToBits, NBits;
    var sym := EobChunk(m, be).symbol;
    var code, a := ToBits(e.ehufco[sym], e.ehufsi[sym]), ToBits(m, NBits(m) - 1);
    assert code + (a + (be + c)) + rest == code + (a + be) + (c + rest);
  }

  lemma QuietDecodes(t: Table, sc: Scan, x: seq<int>, z: seq<int>, eobrun: nat, rest: Bits)
    requires WellFormed(t) && LegalScan(sc) && Before(sc, x, z) && BlockHead(sc, x) == [] && eobrun > 0
    ensures DecodeBand(t, sc, BlockTail(sc, x).br + rest, eobrun, z) == Refined(After(sc, x, z), eobrun - 1, rest)
  {
    hide Corr, NoNew, Coarse, Corrections, Mix, Head, Tail, FirstHead, FirstTail, FirstFits, Blank;
    MixStart(sc.band, x, z);
    if sc.first {
      assert [] + rest == rest;
      QuietFirst(sc.band, x, sc.band.ss, 0);
      BlankStays(sc.band, x, z);
    } else {
      StartOver(sc.band, x, sc.band.ss);
      QuietBlock(sc.band, x, sc.band.ss, Awaiting(0, []));
      CorrectRest(sc.band, x, z, sc.band.ss, rest);
    }
  }

  lemma BlankStays(band: Band, x: seq<int>, z: seq<int>)
    requires LegalBand(band) && |x| == |z| == 64 && Blank(band, z) && FirstFits(band, x)
    requires forall j :: band.ss <= j <= band.se ==> Scaled(x[j], band.al) == 0
    ensures Mix(band, x, z, band.se + 1) == z
  {
    hide Scaled, Trunc, NBits;
    forall j | band.ss <= j <= band.se
      ensures Trunc(x[j], band.al) == 0
    {
      PointScales(x[j], band.al);
    }
  }

  /** Coding one more block keeps the invariant, if its symbols have codes. */
  lemma StandsStep(e: EncoderTable, t: Table, sc: Scan, s: Run, zs: seq<seq<int>>, rs: seq<seq<int>>, x: seq<int>, z: seq<int>)
    requires LegalScan(sc) && LegalRun(s) && (forall i :: 0 <= i < |zs| ==> |zs[i]| == 64)
    requires Paired(e, t) && LegalEncoder(e) && WellFormed(t) && Stands(e, t, sc, s, zs, rs) && Before(sc, x, z)
    requires CoversChunks(e, AcStep(sc, s, x).log)
    ensures Stands(e, t, sc, AcStep(sc, s, x), zs + [z], rs + [After(sc, x, z)])
  {
    hide BlockHead, BlockTail, After, LegalEncoder, Before, Stands, CoversChunks, Flushed, HasTail, Paired, LegalScan;
    BeforeSize(sc, x, z);
    var after := AfterBlock(sc, s, x);
    var head, end := BlockHead(sc, x), BlockTail(sc, x);
    PartOfForced(e, after);
    if head == [] { QuietTail(sc, x); }
    if head == [] && s.eobrun > 0 {
      StandsQuiet(e, t, sc, s, zs, rs, x, z);
    } else {
      PartOfAfter(e, sc, s, x);
      StandsFlushed(e, t, sc, s, zs, rs);
      StandsHead(e, t, sc, Flushed(s), zs, rs, x, z);
      if head == [] {
        NothingPending(s);
        assert s.be + end.br == end.br;
      }
    }
    if Forced(after) != after {
      StandsFlushed(e, t, sc, after, zs + [z], rs + [After(sc, x, z)]);
    }
  }

  lemma NothingPending(s: Run)
    requires s.eobrun == 0
    ensures Flushed(s) + [] == s.log
  {
  }

  lemma PartOfForced(e: EncoderTable, s: Run)
    requires LegalEncoder(e) && s.eobrun <= MAX_EOBRUN && CoversChunks(e, Forced(s).log)
    ensures CoversChunks(e, s.log)
    ensures Forced(s) != s ==> Forced(s) == Run(Flushed(s), 0, []) && (s.eobrun > 0 ==> e.ehufsi[EobChunk(s.eobrun, []).symbol] > 0)
  {
    hide CoversChunks, EobChunk;
    if Forced(s) != s && s.eobrun > 0 {
      SameSymbol(s.eobrun, s.be);
      CoversBoth(e, s.log, [EobChunk(s.eobrun, s.be)]);
      OneCovered(e, EobChunk(s.eobrun, s.be));
    }
  }

  lemma CoversBoth(e: EncoderTable, a: seq<Chunk>, b: seq<Chunk>)
    requires LegalEncoder(e) && CoversChunks(e, a + b)
    ensures CoversChunks(e, a) && CoversChunks(e, b)
  {
    assert forall i :: 0 <= i < |a| ==> (a + b)[i] == a[i];
    assert forall i :: 0 <= i < |b| ==> (a + b)[|a| + i] == b[i];
  }

  lemma PartOfAfter(e: EncoderTable, sc: Scan, s: Run, x: seq<int>)
    requires LegalScan(sc) && |x| == 64 && LegalRun(s) && LegalEncoder(e) && CoversChunks(e, AfterBlock(sc, s, x).log)
    ensures var head := BlockHead(sc, x);
      && CoversChunks(e, head)
      && (head != [] && s.eobrun > 0 ==> e.ehufsi[EobChunk(s.eobrun, []).symbol] > 0)
  {
    hide BlockHead, BlockTail, CoversChunks;
    var head := BlockHead(sc, x);
    if head != [] {
      CoversBoth(e, Flushed(s), head);
      if s.eobrun > 0 {
        CoversBoth(e, s.log, [EobChunk(s.eobrun, s.be)]);
        SameSymbol(s.eobrun, s.be);
        OneCovered(e, EobChunk(s.eobrun, s.be));
      }
    } else {
      assert CoversChunks(e, []) by { NoneCovered(e); }
    }
  }

  lemma OneCovered(e: EncoderTable, c: Chunk)
    requires LegalEncoder(e) && CoversChunks(e, [c])
    ensures e.ehufsi[c.symbol] > 0
  {
    assert [c][0] == c;
  }

  lemma NoneCovered(e: EncoderTable)
    requires LegalEncoder(e)
    ensures CoversChunks(e, [])
  {
  }

  /** A whole scan: decoding the run, with the last EOB run emitted, gives every block its new bits. */
  lemma {:induction false} RunStands(e: EncoderTable, t: Table, sc: Scan, xs: seq<seq<int>>, zs: seq<seq<int>>) returns (rs: seq<seq<int>>)
    requires LegalScan(sc) && |xs| == |zs| && (forall i :: 0 <= i < |xs| ==> |xs[i]| == 64 && |zs[i]| == 64 && Before(sc, xs[i], zs[i]))
    requires Paired(e, t) && LegalEncoder(e) && WellFormed(t) && CoversChunks(e, AcRun(sc, xs).log)
    ensures Stands(e, t, sc, AcRun(sc, xs), zs, rs)
    ensures |rs| == |xs| && forall i :: 0 <= i < |xs| ==> rs[i] == After(sc, xs[i], zs[i])
  {
    hide Stands, After, Before, LegalEncoder, Paired, AcStep, CoversChunks;
    if xs == [] {
      StandsStart(e, t, sc);
      rs := [];
    } else {
      var n := |xs| - 1;
      var s := AcRun(sc, xs[..n]);
      StepKeepsLog(e, sc, s, xs[n]);
      rs := RunStands(e, t, sc, xs[..n], zs[..n]);
      StandsStep(e, t, sc, s, zs[..n], rs, xs[n], zs[n]);
      assert zs == zs[..n] + [zs[n]];
      rs := rs + [After(sc, xs[n], zs[n])];
    }
  }

  lemma StepKeepsLog(e: EncoderTable, sc: Scan, s: Run, x: seq<int>)
    requires LegalScan(sc) && |x| == 64 && LegalRun(s) && LegalEncoder(e) && CoversChunks(e, AcStep(sc, s, x).log)
    ensures CoversChunks(e, s.log)
  {
    hide BlockHead, BlockTail, CoversChunks;
    var after := AfterBlock(sc, s, x);
    PartOfForced(e, after);
    var head := BlockHead(sc, x);
    if head != [] {
      CoversBoth(e, Flushed(s), head);
      if s.eobrun > 0 { CoversBoth(e, s.log, [EobChunk(s.eobrun, s.be)]); }
    }
  }
}
