/** What AC scans write: EOB runs are as long as they can be, and zero runs lead up to a coefficient. */
module ProgLaws {
  import opened ZigZag
  import opened Bytes
  import opened BitStrings
  import opened HuffBlock
  import opened ProgFirst
  import opened ProgRefine
  import opened ProgRun

  /** The symbol of an EOB run. */
  predicate IsEob(c: Chunk) {
    c.symbol % 16 == 0 && c.symbol < 0xF0
  }

  predicate NoEob(cs: seq<Chunk>) {
    forall i :: 0 <= i < |cs| ==> !IsEob(cs[i])
  }

  /** The last symbol is that of a coefficient. */
  predicate EndsInCoef(cs: seq<Chunk>) {
    cs != [] ==> cs[|cs| - 1].symbol % 16 != 0
  }

  /** The block can be coded. */
  predicate Fits(sc: Scan, x: seq<int>) {
    |x| == 64 && (sc.first ==> FirstFits(sc.band, x))
  }

  lemma ConsLaw(c: Chunk, cs: seq<Chunk>)
    requires !IsEob(c) && NoEob(cs) && EndsInCoef(cs) && (cs == [] ==> c.symbol % 16 != 0)
    ensures NoEob([c] + cs) && EndsInCoef([c] + cs)
  {
  }

  // ----- Zero runs

  lemma {:induction false} FirstHeadLaw(band: Band, x: seq<int>, k: nat, r: nat)
    requires |x| == 64 && LegalBand(band) && FirstFits(band, x) && band.ss <= k
    ensures NoEob(FirstHead(band, x, k, r)) && EndsInCoef(FirstHead(band, x, k, r))
    ensures k <= band.se && Scaled(x[k], band.al) != 0 ==> FirstHead(band, x, k, r) != []
    decreases 64 - k, r
  {
    hide Scaled, NBits, Point, Extra, IsEob, NoEob, EndsInCoef;
    if k > band.se {
      NothingLaw();
    } else if Scaled(x[k], band.al) == 0 {
      FirstHeadLaw(band, x, k + 1, r + 1);
    } else if r > 15 {
      FirstHeadLaw(band, x, k, r - 16);
      ZrlLaw([]);
      ConsLaw(Chunk(0xF0, []), FirstHead(band, x, k, r - 16));
    } else {
      FirstHeadLaw(band, x, k + 1, 0);
      PointScales(x[k], band.al);
      CoefLaw(r, Point(x[k], band.al));
      ConsLaw(FirstChunk1(r, Point(x[k], band.al)), FirstHead(band, x, k + 1, 0));
    }
  }

  lemma NothingLaw()
    ensures NoEob([]) && EndsInCoef([])
  {
  }

  lemma ZrlLaw(bits: BitStrings.Bits)
    ensures !IsEob(Chunk(0xF0, bits))
  {
  }

  lemma CoefLaw(r: nat, v: int)
    requires r <= 15 && v != 0 && NBits(Magnitude(v)) <= MAX_COEF_BITS
    ensures FirstChunk1(r, v).symbol == 16 * r + NBits(Magnitude(v)) && FirstChunk1(r, v).symbol % 16 != 0
    ensures !IsEob(FirstChunk1(r, v))
  {
    hide Extra, ToBits, NBits;
    var n := NBits(Magnitude(v));
    assert n > 0 by { NoBits(Magnitude(v)); }
    Nibble(r, n);
  }

  lemma NoBits(u: nat)
    ensures NBits(u) == 0 <==> u == 0
  {
  }

  lemma Nibble(r: nat, n: nat)
    requires r <= 15 && n <= 15
    ensures (16 * r + n) % 256 == 16 * r + n && (16 * r + n) % 16 == n && (16 * r + n) / 16 == r
  {
  }

  lemma {:induction false} LastNewIsNew(band: Band, x: seq<int>, k: nat)
    requires |x| == 64 && k < 64
    ensures var r := LastNew(band, x, k); r > band.ss ==> r <= k && Scaled(x[r], band.al) == 1
  {
    hide Scaled;
    if k > band.ss { LastNewIsNew(band, x, k - 1); }
  }

  lemma EobIsNew(band: Band, x: seq<int>)
    requires |x| == 64 && LegalBand(band)
    ensures var r := Eob(band, x); r > band.ss ==> r <= band.se && Scaled(x[r], band.al) == 1
    ensures forall j :: band.ss <= j <= band.se && Scaled(x[j], band.al) == 1 ==> j <= Eob(band, x)
  {
    hide Scaled;
    LastNewIsNew(band, x, band.se);
  }

  lemma {:induction false} HeadLaw(band: Band, x: seq<int>, k: nat, w: Awaiting)
    requires |x| == 64 && LegalBand(band) && band.ss <= k && w.r <= k - band.ss
    ensures NoEob(Head(band, x, k, w)) && EndsInCoef(Head(band, x, k, w))
    ensures k <= band.se && k <= Eob(band, x) && Eob(band, x) > band.ss ==> Head(band, x, k, w) != []
    decreases 64 - k, w.r
  {
    hide Scaled, Eob, IsEob, NoEob, EndsInCoef;
    if k > band.se {
      NothingLaw();
    } else {
      EobIsNew(band, x);
      var a := Scaled(x[k], band.al);
      if a == 0 {
        HeadLaw(band, x, k + 1, Awaiting(w.r + 1, w.br));
      } else if w.r > 15 && k <= Eob(band, x) {
        HeadLaw(band, x, k, Awaiting(w.r - 16, []));
        ZrlLaw(w.br);
        ConsLaw(Chunk(0xF0, w.br), Head(band, x, k, Awaiting(w.r - 16, [])));
      } else if a > 1 {
        HeadLaw(band, x, k + 1, Awaiting(w.r, w.br + [a % 2 == 1]));
      } else {
        HeadLaw(band, x, k + 1, Awaiting(0, []));
        NewLaw(w.r, [x[k] >= 0] + w.br);
        ConsLaw(Chunk(16 * w.r + 1, [x[k] >= 0] + w.br), Head(band, x, k + 1, Awaiting(0, [])));
      }
    }
  }

  lemma NewLaw(r: nat, bits: BitStrings.Bits)
    requires r <= 15
    ensures !IsEob(Chunk(16 * r + 1, bits)) && Chunk(16 * r + 1, bits).symbol % 16 != 0
  {
  }

  /** Before its end a block writes coefficients and the zero runs before them, nothing else. */
  lemma BlockHeadLaw(sc: Scan, x: seq<int>)
    requires LegalScan(sc) && Fits(sc, x)
    ensures NoEob(BlockHead(sc, x)) && EndsInCoef(BlockHead(sc, x))
  {
    hide FirstFits, Head, FirstHead, NoEob, EndsInCoef;
    if sc.first {
      FirstHeadLaw(sc.band, x, sc.band.ss, 0);
    } else {
      HeadLaw(sc.band, x, sc.band.ss, Awaiting(0, []));
    }
  }

  // ----- EOB runs

  /** A block that writes nothing before its end joins the pending run, whenever the limits allow it. */
  lemma QuietJoins(sc: Scan, xs: seq<seq<int>>, x: seq<int>)
    requires LegalScan(sc) && (forall i :: 0 <= i < |xs| ==> |xs[i]| == 64) && |x| == 64 && BlockHead(sc, x) == []
    requires var s := AcRun(sc, xs); s.eobrun + 1 < MAX_EOBRUN && |s.be| + |BlockTail(sc, x).br| <= MAX_CORR_BITS - 63
    ensures var s := AcRun(sc, xs); AcRun(sc, xs + [x]) == Run(s.log, s.eobrun + 1, s.be + BlockTail(sc, x).br)
  {
    hide BlockHead, BlockTail;
    assert (xs + [x])[..|xs|] == xs;
  }

  function Corrected(sc: Scan, xs: seq<seq<int>>): BitStrings.Bits
    requires LegalScan(sc) && forall i :: 0 <= i < |xs| ==> |xs[i]| == 64
  {
    if xs == [] then [] else Corrected(sc, xs[..|xs| - 1]) + BlockTail(sc, xs[|xs| - 1]).br
  }

  /** Blocks that write nothing before their ends cost one symbol together, as long as they are fewer than 0x7FFF with no more
      than 937 correction bits. */
  lemma {:induction false} QuietRun(sc: Scan, xs: seq<seq<int>>)
    requires LegalScan(sc) && xs != [] && (forall i :: 0 <= i < |xs| ==> |xs[i]| == 64 && BlockHead(sc, xs[i]) == [])
    requires |xs| < MAX_EOBRUN && |Corrected(sc, xs)| <= MAX_CORR_BITS - 63
    ensures AcRun(sc, xs) == Run([], |xs|, Corrected(sc, xs)) && Flushed(AcRun(sc, xs)) == [EobChunk(|xs|, Corrected(sc, xs))]
    decreases |xs|
  {
    hide BlockHead, BlockTail, EobChunk;
    var n := |xs| - 1;
    assert xs == xs[..n] + [xs[n]];
    if n == 0 {
      assert AcRun(sc, xs[..n]) == Run([], 0, []) && Corrected(sc, xs[..n]) == [];
    } else {
      QuietRun(sc, xs[..n]);
    }
    QuietJoins(sc, xs[..n], xs[n]);
    assert [] + [EobChunk(|xs|, Corrected(sc, xs))] == [EobChunk(|xs|, Corrected(sc, xs))];
  }

  /** The run could not go on: its counter was at the limit, or the correction bits of one more block might not fit. */
  ghost predicate Full(c: Chunk) {
    exists m, be :: 1 <= m <= MAX_EOBRUN && c == EobChunk(m, be) && (m == MAX_EOBRUN || |be| > MAX_CORR_BITS - 63)
  }

  /** An EOB run directly follows another only if that one could not go on. */
  ghost predicate Apart(log: seq<Chunk>) {
    forall i :: 0 <= i < |log| - 1 && IsEob(log[i]) && IsEob(log[i + 1]) ==> Full(log[i])
  }

  // The same for a run that comes next.
  ghost predicate EndsApart(log: seq<Chunk>) {
    Apart(log) && (log != [] && IsEob(log[|log| - 1]) ==> Full(log[|log| - 1]))
  }

  lemma ApartHead(log: seq<Chunk>, head: seq<Chunk>)
    requires Apart(log) && NoEob(head) && head != []
    ensures EndsApart(log + head)
  {
    hide Full, IsEob;
    var all := log + head;
    assert forall i :: |log| <= i < |all| ==> all[i] == head[i - |log|];
    forall i | 0 <= i < |all| - 1 && IsEob(all[i]) && IsEob(all[i + 1])
      ensures Full(all[i])
    {
      assert i + 1 < |log|;
    }
  }

  lemma ApartEob(log: seq<Chunk>, c: Chunk)
    requires EndsApart(log)
    ensures Apart(log + [c]) && (Full(c) ==> EndsApart(log + [c]))
  {
    hide Full, IsEob;
    var all := log + [c];
    forall i | 0 <= i < |all| - 1 && IsEob(all[i]) && IsEob(all[i + 1])
      ensures Full(all[i])
    {
      assert all[i] == log[i];
    }
  }

  lemma FlushedApart(s: Run)
    requires s.eobrun <= MAX_EOBRUN && EndsApart(s.log)
    ensures Apart(Flushed(s)) && (Forced(s) != s ==> EndsApart(Flushed(s)))
  {
    hide EobChunk, Apart, IsEob;
    if s.eobrun > 0 { ApartEob(s.log, EobChunk(s.eobrun, s.be)); }
  }

  lemma StepApart(sc: Scan, s: Run, x: seq<int>)
    requires LegalScan(sc) && LegalRun(s) && Fits(sc, x) && EndsApart(s.log)
    ensures EndsApart(AcStep(sc, s, x).log)
  {
    hide BlockHead, BlockTail, EndsApart, Apart, Flushed, NoEob, EndsInCoef, Fits, HasTail, LegalScan;
    FitsSize(sc, x);
    var after := AfterBlock(sc, s, x);
    BlockHeadLaw(sc, x);
    FlushedApart(s);
    if BlockHead(sc, x) != [] { ApartHead(Flushed(s), BlockHead(sc, x)); }
    FlushedApart(after);
  }

  lemma FitsSize(sc: Scan, x: seq<int>)
    requires Fits(sc, x)
    ensures |x| == 64
  {
  }

  /** In everything a scan writes, an EOB run directly follows another only if that one had 0x7FFF blocks, or more than 937
      correction bits. */
  lemma {:induction false} RunsApart(sc: Scan, xs: seq<seq<int>>)
    requires LegalScan(sc) && forall i :: 0 <= i < |xs| ==> |xs[i]| == 64 && Fits(sc, xs[i])
    ensures EndsApart(AcRun(sc, xs).log) && Apart(Flushed(AcRun(sc, xs)))
    decreases |xs|
  {
    hide AcStep, EndsApart, Apart, Flushed, Fits, LegalScan;
    if xs == [] {
      NothingApart();
    } else {
      RunsApart(sc, xs[..|xs| - 1]);
      StepApart(sc, AcRun(sc, xs[..|xs| - 1]), xs[|xs| - 1]);
    }
    FlushedApart(AcRun(sc, xs));
  }

  lemma NothingApart()
    ensures EndsApart([])
  {
  }

  // ----- A block, coefficient by coefficient (Figures G.3 and G.7)

  function ZeroRuns(n: nat): seq<Chunk> {
    if n == 0 then [] else [Chunk(0xF0, [])] + ZeroRuns(n - 1)
  }

  /** In a first scan: the zeros before the next nonzero coefficient are told in runs of 16, and the rest of them with it. */
  lemma {:induction false} FirstCoefLaw(band: Band, x: seq<int>, k: nat, r: nat, j: nat)
    requires |x| == 64 && LegalBand(band) && k <= j <= band.se && Scaled(x[j], band.al) != 0
    requires forall i :: k <= i < j ==> Scaled(x[i], band.al) == 0
    ensures FirstHead(band, x, k, r) ==
      ZeroRuns((r + j - k) / 16) + ([FirstChunk1((r + j - k) % 16, Point(x[j], band.al))] + FirstHead(band, x, j + 1, 0))
    decreases j - k, r
  {
    hide Scaled, FirstChunk1, Point;
    if k < j {
      FirstCoefLaw(band, x, k + 1, r + 1, j);
    } else if r > 15 {
      FirstCoefLaw(band, x, k, r - 16, j);
      SixteenLess(r);
      Reassociate([Chunk(0xF0, [])], ZeroRuns((r - 16) / 16), [FirstChunk1((r - 16) % 16, Point(x[j], band.al))] + FirstHead(band, x, j + 1, 0));
    } else {
      assert r / 16 == 0 && r % 16 == r;
    }
  }

  lemma SixteenLess(r: nat)
    requires r > 15
    ensures r / 16 == (r - 16) / 16 + 1 && r % 16 == (r - 16) % 16
  {
  }

  /** In a refinement scan: coefficients that are not newly nonzero only count, as zeros or by their correction bits. */
  lemma {:induction false} PassLaw(band: Band, x: seq<int>, k: nat, j: nat, r: nat, br: BitStrings.Bits)
    requires |x| == 64 && LegalBand(band) && band.ss <= k <= j <= band.se + 1
    requires forall i :: k <= i < j ==> Scaled(x[i], band.al) != 1 && (Scaled(x[i], band.al) > 1 ==> r + Zeros(band, x, k, i) <= 15)
    ensures Head(band, x, k, Awaiting(r, br)) == Head(band, x, j, Awaiting(r + Zeros(band, x, k, j), br + Corr(band, x, k, j)))
    decreases j - k
  {
    hide Scaled, Eob, Zeros, Corr;
    if k == j {
      NothingPassed(band, x, k);
      assert br + [] == br;
    } else {
      ZerosFront(band, x, k, j);
      CorrFront(band, x, k, j);
      NothingPassed(band, x, k);
      forall i | k + 1 <= i < j && Scaled(x[i], band.al) > 1
        ensures Zeros(band, x, k, i) == (if Scaled(x[k], band.al) == 0 then 1 else 0) + Zeros(band, x, k + 1, i)
      {
        ZerosFront(band, x, k, i);
      }
      var a := Scaled(x[k], band.al);
      if a == 0 {
        PassLaw(band, x, k + 1, j, r + 1, br);
        assert [] + Corr(band, x, k + 1, j) == Corr(band, x, k + 1, j);
      } else {
        PassLaw(band, x, k + 1, j, r, br + [a % 2 == 1]);
        Reassociate(br, [a % 2 == 1], Corr(band, x, k + 1, j));
      }
    }
  }

  lemma NothingPassed(band: Band, x: seq<int>, k: nat)
    requires |x| == 64 && k <= 64
    ensures Zeros(band, x, k, k) == 0 && Corr(band, x, k, k) == []
  {
  }

  /** A newly nonzero coefficient is told with the zeros before it, its sign, and the correction bits of the others it passes. */
  lemma RefineCoefLaw(band: Band, x: seq<int>, k: nat, j: nat)
    requires |x| == 64 && LegalBand(band) && band.ss <= k <= j <= band.se && Scaled(x[j], band.al) == 1
    requires Zeros(band, x, k, j) <= 15 && forall i :: k <= i < j ==> Scaled(x[i], band.al) != 1 && Zeros(band, x, k, i) <= 15
    ensures Head(band, x, k, Awaiting(0, [])) ==
      [Chunk(16 * Zeros(band, x, k, j) + 1, [x[j] >= 0] + Corr(band, x, k, j))] + Head(band, x, j + 1, Awaiting(0, []))
  {
    hide Scaled, Eob, Zeros, Corr;
    PassLaw(band, x, k, j, 0, []);
    assert [] + Corr(band, x, k, j) == Corr(band, x, k, j);
  }

  /** A run of 16 zeros is told when a coefficient that is not zero is reached, if a newly nonzero one is still to come; with it go
      the correction bits so far. */
  lemma RefineRunLaw(band: Band, x: seq<int>, k: nat, j: nat)
    requires |x| == 64 && LegalBand(band) && band.ss <= k <= j <= band.se && Scaled(x[j], band.al) != 0 && j <= Eob(band, x)
    requires Zeros(band, x, k, j) > 15
    requires forall i :: k <= i < j ==> Scaled(x[i], band.al) != 1 && (Scaled(x[i], band.al) > 1 ==> Zeros(band, x, k, i) <= 15)
    ensures Head(band, x, k, Awaiting(0, [])) ==
      [Chunk(0xF0, Corr(band, x, k, j))] + Head(band, x, j, Awaiting(Zeros(band, x, k, j) - 16, []))
  {
    hide Scaled, Eob, Zeros, Corr;
    PassLaw(band, x, k, j, 0, []);
    assert [] + Corr(band, x, k, j) == Corr(band, x, k, j);
  }
}
