/** Progressive scans with optimized tables: the tables made from the statistics pass have a code for every symbol
    of the output pass. */
module ProgTwoPass {
  import opened Bytes
  import opened BitStrings
  import opened Restarts
  import opened Sums
  import opened HuffOptimal
  import opened HuffBuild
  import opened HuffTable
  import opened HuffDecode
  import opened HuffBlock
  import opened HuffGen
  import opened HuffTranscode
  import H = HuffTwoPass
  import opened ProgFirst
  import opened ProgRefine
  import opened ProgRun
  import opened ProgDecoder
  import opened ProgEncoder
  import opened ProgTranscode
  import opened ProgScan
  import opened ZigZag

  // ----- The symbols of an AC scan

  /** The low half of each symbol is the size of a coefficient in range, or 0. */
  predicate SmallSymbols(cs: seq<Chunk>) {
    forall i :: 0 <= i < |cs| ==> cs[i].symbol % 16 <= MAX_COEF_BITS
  }

  lemma {:induction false} HeadSmall(band: Band, x: seq<int>, k: nat, w: Awaiting)
    requires |x| == 64 && LegalBand(band) && band.ss <= k <= band.se + 1
    ensures SmallSymbols(Head(band, x, k, w)) && |Head(band, x, k, w)| <= band.se + 1 - k + w.r
    decreases 64 - k, w.r
  {
    hide Scaled;
    if k <= band.se {
      var a := Scaled(x[k], band.al);
      if a == 0 {
        HeadSmall(band, x, k + 1, Awaiting(w.r + 1, w.br));
      } else if w.r > 15 && k <= Eob(band, x) {
        HeadSmall(band, x, k, Awaiting(w.r - 16, []));
      } else if a > 1 {
        HeadSmall(band, x, k + 1, Awaiting(w.r, w.br + [a % 2 == 1]));
      } else {
        HeadSmall(band, x, k + 1, Awaiting(0, []));
      }
    }
  }

  lemma {:induction false} FirstHeadSmall(band: Band, x: seq<int>, k: nat, r: nat)
    requires |x| == 64 && LegalBand(band) && k <= band.se + 1 && band.ss <= k && FirstFits(band, x)
    ensures SmallSymbols(FirstHead(band, x, k, r)) && |FirstHead(band, x, k, r)| <= band.se + 1 - k + r
    decreases 64 - k, r
  {
    hide Scaled, FirstChunk1;
    if k <= band.se {
      if Scaled(x[k], band.al) == 0 {
        FirstHeadSmall(band, x, k + 1, r + 1);
      } else if r > 15 {
        FirstHeadSmall(band, x, k, r - 16);
      } else {
        FirstHeadSmall(band, x, k + 1, 0);
        FitsAt(band, x, k);
        FirstSymbol(r, Point(x[k], band.al));
      }
    }
  }

  lemma BlockSmall(sc: Scan, x: seq<int>)
    requires |x| == 64 && LegalScan(sc) && (sc.first ==> FirstFits(sc.band, x))
    ensures SmallSymbols(BlockHead(sc, x)) && |BlockHead(sc, x)| <= 63
  {
    if sc.first {
      FirstHeadSmall(sc.band, x, sc.band.ss, 0);
    } else {
      HeadSmall(sc.band, x, sc.band.ss, Awaiting(0, []));
    }
  }

  /** At most 64 symbols for each block, at least one for all of them. */
  predicate Bounded(s: Run, n: nat) {
    && SmallSymbols(s.log) && |s.log| + (if s.eobrun > 0 then 1 else 0) <= 64 * n
    && (n > 0 ==> s.log != [] || s.eobrun > 0)
  }

  lemma {:induction false} RunBounded(sc: Scan, xs: seq<seq<int>>)
    requires LegalScan(sc) && forall i :: 0 <= i < |xs| ==> |xs[i]| == 64 && (sc.first ==> FirstFits(sc.band, xs[i]))
    ensures Bounded(AcRun(sc, xs), |xs|)
  {
    hide FirstFits, BlockHead, BlockTail, EobChunk;
    if xs != [] {
      var n := |xs| - 1;
      RunBounded(sc, xs[..n]);
      BlockSmall(sc, xs[n]);
      StepBounded(sc, AcRun(sc, xs[..n]), xs[n], n);
    }
  }

  lemma StepBounded(sc: Scan, s: Run, x: seq<int>, n: nat)
    requires |x| == 64 && LegalScan(sc) && LegalRun(s) && Bounded(s, n)
    requires SmallSymbols(BlockHead(sc, x)) && |BlockHead(sc, x)| <= 63
    ensures Bounded(AcStep(sc, s, x), n + 1)
  {
    hide BlockHead, BlockTail, EobChunk, SmallSymbols;
    FlushedSmall(s);
    SmallBoth(Flushed(s), BlockHead(sc, x));
    FlushedSmall(AfterBlock(sc, s, x));
  }

  lemma SmallBoth(a: seq<Chunk>, b: seq<Chunk>)
    requires SmallSymbols(a) && SmallSymbols(b)
    ensures SmallSymbols(a + b)
  {
  }

  lemma FlushedSmall(s: Run)
    requires s.eobrun <= MAX_EOBRUN && SmallSymbols(s.log)
    ensures SmallSymbols(Flushed(s)) && |Flushed(s)| == |s.log| + (if s.eobrun > 0 then 1 else 0)
  {
    hide EobChunk;
    if s.eobrun > 0 { EobSmall(s.eobrun, s.be); }
  }

  lemma EobSmall(m: nat, be: Bits)
    requires 1 <= m <= 0x7FFF
    ensures EobChunk(m, be).symbol % 16 == 0
  {
    Pow2Fifteen();
    NBitsBound(m, 15);
    SplitSymbol(NBits(m) - 1, 0);
  }

  lemma ScanSmall(sc: Scan, bs: seq<Block>)
    requires LegalScan(sc) && ScanFits(sc, bs)
    ensures SmallSymbols(ScanChunks(sc, bs)) && |ScanChunks(sc, bs)| <= 64 * |bs| && (bs != [] ==> ScanChunks(sc, bs) != [])
  {
    hide FirstFits, AcStep, EobChunk, Zig;
    RunBounded(sc, Zs(bs));
    FlushedSmall(AcRun(sc, Zs(bs)));
  }

  /** The coefficients are in range in every part as in the whole. */
  lemma {:induction false} PartsFit(sc: Scan, bs: seq<Block>, interval: nat)
    requires ScanFits(sc, bs)
    ensures forall i :: 0 <= i < |Split(bs, interval)| ==> ScanFits(sc, Split(bs, interval)[i])
    decreases |bs|
  {
    hide FirstFits;
    if Goes(bs, interval) {
      var parts, rest := Split(bs, interval), Split(bs[interval..], interval);
      PartsFit(sc, bs[interval..], interval);
      forall i | 0 <= i < |parts|
        ensures ScanFits(sc, parts[i])
      {
        if i > 0 { assert parts[i] == rest[i - 1]; }
      }
    }
  }

  lemma {:induction false} AllSmall(sc: Scan, parts: seq<seq<Block>>)
    requires LegalScan(sc) && forall i :: 0 <= i < |parts| ==> ScanFits(sc, parts[i])
    ensures SmallSymbols(AllChunks(sc, parts)) && |AllChunks(sc, parts)| <= 64 * |Flat(parts)|
    ensures Flat(parts) != [] ==> AllChunks(sc, parts) != []
    ensures forall i :: 0 <= i < |parts| ==> forall c :: c in ScanChunks(sc, parts[i]) ==> c in AllChunks(sc, parts)
  {
    hide ScanFits, ScanChunks;
    if parts != [] {
      var n := |parts| - 1;
      AllSmall(sc, parts[..n]);
      ScanSmall(sc, parts[n]);
      FlatSnoc(parts[..n], parts[n]);
      assert parts[..n] + [parts[n]] == parts;
    }
  }

  // ----- Counts

  function CountsOf(cs: seq<Chunk>): (w: seq<nat>)
    ensures |w| == N
  {
    seq(N, s => Uses(cs, s))
  }

  lemma {:induction false} CountsTotal(cs: seq<Chunk>)
    ensures Sum(CountsOf(cs)) == |cs|
  {
    hide Sum;
    if cs == [] {
      SumZero(CountsOf(cs));
    } else {
      var n := |cs| - 1;
      CountsTotal(cs[..n]);
      var w, s := CountsOf(cs[..n]), cs[n].symbol;
      SumUpdate(w, s, w[s] + 1);
      assert CountsOf(cs) == w[s := w[s] + 1];
    }
  }

  lemma {:induction false} SymbolUsed(cs: seq<Chunk>, c: Chunk)
    requires c in cs
    ensures Uses(cs, c.symbol) > 0
  {
    var n := |cs| - 1;
    if cs[n].symbol != c.symbol { SymbolUsed(cs[..n], c); }
  }

  lemma {:induction false} LargeUnused(cs: seq<Chunk>, s: int)
    requires SmallSymbols(cs) && s >= 0 && s % 16 > MAX_COEF_BITS
    ensures Uses(cs, s) == 0
  {
    if cs != [] { LargeUnused(cs[..|cs| - 1], s); }
  }

  /** The counts of a scan fit the table generator. */
  lemma CountsUsable(cs: seq<Chunk>)
    requires SmallSymbols(cs) && cs != []
    ensures 1 <= RealSymbols(CountsOf(cs)) <= 254 && Sum(WithPseudo(CountsOf(cs))) <= |cs| + 1
  {
    hide Used, Sum, Uses;
    var w := CountsOf(cs);
    LargeUnused(cs, 254);
    LargeUnused(cs, 255);
    H.AtMost254(w);
    SymbolUsed(cs, cs[0]);
    H.AtLeastOne(w[..256], cs[0].symbol);
    CountsTotal(cs);
    H.PseudoTotal(w);
  }

  /** The table for an AC scan: it fails if a coefficient is out of range, and otherwise not unless the scan is so
      long that code lengths above 32 could come up. */
  method OptimizeAcScan(sc: Scan, interval: nat, bs: seq<Block>) returns (ok: bool, t: Table)
    requires LegalScan(sc) && SixteenBit(bs) && bs != [] && 64 * |bs| < MAX_COUNT
    ensures ok ==> WellFormed(t) && LegalAc(t) && ScanFits(sc, bs) && ListsAll(t, sc, Split(bs, interval))
    ensures ScanFits(sc, bs) && 64 * |bs| + 1 < 9227465 ==> ok
  {
    hide ScanFits, SixteenBit, LegalAc, ListsAll, Split, Uses, AllChunks, Flat, H.Optimized, Sum, RealSymbols, WellFormed;
    t := Table([], []);
    var counts;
    ok, counts := GatherScan(sc, interval, bs, NoCodes());
    if !ok {
      return;
    }
    ghost var cs := AllChunks(sc, Split(bs, interval));
    PartsFit(sc, bs, interval);
    AllSmall(sc, Split(bs, interval));
    FlatSplit(bs, interval);
    CountsUsable(cs);
    assert counts[..] == CountsOf(cs);
    ok, t := H.OptimizeTable(counts, false);
    if ok { OptimizedLists(t, sc, Split(bs, interval)); }
  }

  // Gathering statistics needs no table.
  function NoCodes(): (e: EncoderTable)
    ensures LegalEncoder(e)
  {
    EncoderTable(seq(256, _ => 0), seq(256, _ => 0))
  }

  lemma OptimizedLists(t: Table, sc: Scan, parts: seq<seq<Block>>)
    requires LegalScan(sc) && forall i :: 0 <= i < |parts| ==> ScanFits(sc, parts[i])
    requires H.Optimized(t, CountsOf(AllChunks(sc, parts)), false)
    ensures WellFormed(t) && LegalAc(t) && ListsAll(t, sc, parts)
  {
    hide ScanFits, ScanChunks, AllChunks, Uses, LegalAc, Lists;
    AllSmall(sc, parts);
    var cs := AllChunks(sc, parts);
    forall i, j | 0 <= i < |parts| && 0 <= j < |ScanChunks(sc, parts[i])|
      ensures Lists(t, ScanChunks(sc, parts[i])[j].symbol)
    {
      var c := ScanChunks(sc, parts[i])[j];
      assert c in cs;
      SymbolUsed(cs, c);
      assert CountsOf(cs)[c.symbol] > 0;
    }
  }
}
