/** The adaptive binary arithmetic code of Annex D of ITU-T T.81 over exact, unbounded integers:
    what an encoder and a decoder with finite registers have to agree with. */
module ArithCode {
  import opened Bytes
  import opened ArithTable

  /** The statistics area of a DC or an AC conditioning table. */
  datatype Area = DcStats(tbl: nat) | AcStats(tbl: nat)

  /** A statistics bin: a byte of a statistics area, or the bin with fixed probability 0.5. */
  datatype Bin = Stat(area: Area, i: int) | Fixed

  type Stats = map<Bin, stat>

  datatype Decision = Decision(bin: Bin, bit: bool)

  /** The code values x with base <= x * 2^shifts < base + width; x ranges over [0, 0x10000). */
  datatype Interval = Interval(base: nat, width: nat, shifts: nat)

  datatype Coder = Coder(iv: Interval, stats: Stats)

  const START := Interval(0, 0x10000, 0)

  // ----- Encoding

  /** The MPS has the larger subinterval, and the upper subinterval has size Qe (section D.1.4). */
  predicate TakesUpper(width: nat, r: Rule, bit: bool) {
    (bit == r.mps) == (width - r.qe < r.qe)
  }

  function SubWidth(width: nat, r: Rule, bit: bool): (w: nat)
    requires width >= 0x8000
    ensures 0 < w <= width
  {
    if TakesUpper(width, r, bit) then r.qe else width - r.qe
  }

  /** Estimation happens only with renormalization (section D.1.5). */
  function Estimate(width: nat, r: Rule, bit: bool): stat {
    if bit != r.mps then r.afterLps
    else if width - r.qe >= 0x8000 then r.current
    else r.afterMps
  }

  function Renorm(iv: Interval): (r: Interval)
    requires iv.width > 0
    ensures r.width >= 0x8000
    decreases 0x8000 - iv.width
  {
    if iv.width >= 0x8000 then iv else Renorm(Interval(2 * iv.base, 2 * iv.width, iv.shifts + 1))
  }

  function Narrowed(iv: Interval, r: Rule, bit: bool): (n: Interval)
    requires iv.width >= 0x8000
    ensures n.width > 0
  {
    var base := if TakesUpper(iv.width, r, bit) then iv.base + (iv.width - r.qe) else iv.base;
    Interval(base, SubWidth(iv.width, r, bit), iv.shifts)
  }

  function Step(s: Coder, d: Decision): (r: Coder)
    requires s.iv.width >= 0x8000 && d.bin in s.stats
    ensures r.iv.width >= 0x8000 && r.stats.Keys == s.stats.Keys
  {
    var r := Lookup(s.stats[d.bin]);
    Coder(Renorm(Narrowed(s.iv, r, d.bit)), s.stats[d.bin := Estimate(s.iv.width, r, d.bit)])
  }

  predicate Legal(stats: Stats, ds: seq<Decision>) {
    forall i :: 0 <= i < |ds| ==> ds[i].bin in stats
  }

  function Run(s: Coder, ds: seq<Decision>): (r: Coder)
    requires s.iv.width >= 0x8000 && Legal(s.stats, ds)
    ensures r.iv.width >= 0x8000 && r.stats.Keys == s.stats.Keys
    decreases |ds|
  {
    if ds == [] then s else Run(Step(s, ds[0]), ds[1..])
  }

  lemma {:induction false} RunConcat(s: Coder, ds: seq<Decision>, es: seq<Decision>)
    requires s.iv.width >= 0x8000 && Legal(s.stats, ds + es)
    ensures Legal(s.stats, ds) && Legal(s.stats, es)
    ensures Run(s, ds + es) == Run(Run(s, ds), es)
    decreases |ds|
  {
    assert forall i :: 0 <= i < |es| ==> es[i] == (ds + es)[|ds| + i];
    assert forall i :: 0 <= i < |ds| ==> ds[i] == (ds + es)[i];
    if ds == [] {
      assert ds + es == es;
    } else {
      assert (ds + es)[1..] == ds[1..] + es;
      RunConcat(Step(s, ds[0]), ds[1..], es);
    }
  }

  // ----- Code values

  /** How far x lies above the base, in units of the current width. */
  function Offset(iv: Interval, x: real): real {
    Scale(x, iv.shifts) - iv.base as real
  }

  predicate Contains(iv: Interval, x: real) {
    0.0 <= Offset(iv, x) < iv.width as real
  }

  lemma {:induction false} RenormContains(iv: Interval, x: real)
    requires iv.width > 0
    ensures Contains(Renorm(iv), x) <==> Contains(iv, x)
    decreases 0x8000 - iv.width
  {
    if iv.width < 0x8000 {
      RenormContains(Interval(2 * iv.base, 2 * iv.width, iv.shifts + 1), x);
    }
  }

  /** The two subintervals partition the interval: x is in the one for bit exactly if it is in the
      interval and on the side of the cut that bit takes. */
  lemma NarrowedContains(iv: Interval, r: Rule, bit: bool, x: real)
    requires iv.width >= 0x8000
    ensures Contains(Renorm(Narrowed(iv, r, bit)), x) <==>
      Contains(iv, x) && (Offset(iv, x) >= (iv.width - r.qe) as real <==> TakesUpper(iv.width, r, bit))
  {
    RenormContains(Narrowed(iv, r, bit), x);
  }

  lemma {:induction false} RunContains(s: Coder, ds: seq<Decision>, x: real)
    requires s.iv.width >= 0x8000 && Legal(s.stats, ds)
    requires Contains(Run(s, ds).iv, x)
    ensures Contains(s.iv, x)
    decreases |ds|
  {
    if ds != [] {
      RunContains(Step(s, ds[0]), ds[1..], x);
      NarrowedContains(s.iv, Lookup(s.stats[ds[0].bin]), ds[0].bit, x);
    }
  }

  // ----- Decoding

  /** What a decoder knows: the offset of the code value in its interval, and the width of that,
      which is normalized only when the next decision is decoded. */
  datatype Window = Window(x: real, a: nat)

  datatype Decoded = Decoded(bit: bool, w: Window, sv: stat)

  function Normalize(w: Window): (r: Window)
    requires w.a > 0
    ensures r.a >= 0x8000
    decreases 0x8000 - w.a
  {
    if w.a >= 0x8000 then w else Normalize(Window(2.0 * w.x, 2 * w.a))
  }

  function DecodeBit(w: Window, r: Rule): (d: Decoded)
    requires w.a > 0
    ensures d.w.a > 0
  {
    var n := Normalize(w);
    var cut := n.a - r.qe;
    var upper := n.x >= cut as real;
    var bit := (upper == TakesUpper(n.a, r, true));
    Decoded(bit,
            Window(if upper then n.x - cut as real else n.x, SubWidth(n.a, r, bit)),
            Estimate(n.a, r, bit))
  }

  /** The decoder whose window is w is about to decode exactly the decisions ds. */
  predicate Follows(w: Window, stats: Stats, ds: seq<Decision>)
    decreases |ds|
  {
    ds == [] ||
    (&& w.a > 0
     && ds[0].bin in stats
     && var r := DecodeBit(w, Lookup(stats[ds[0].bin]));
        r.bit == ds[0].bit && Follows(r.w, stats[ds[0].bin := r.sv], ds[1..]))
  }

  function Bins(ds: seq<Decision>): seq<Bin> {
    seq(|ds|, i requires 0 <= i < |ds| => ds[i].bin)
  }

  function Bits(ds: seq<Decision>): seq<bool> {
    seq(|ds|, i requires 0 <= i < |ds| => ds[i].bit)
  }

  /** Decoder and encoder look at the same interval of code values. */
  predicate Tracks(w: Window, iv: Interval, x: real) {
    w.a > 0 && Normalize(w) == Window(Offset(iv, x), iv.width)
  }

  lemma {:induction false} NormalizeTracks(iv: Interval, x: real)
    requires iv.width > 0
    ensures Tracks(Window(Offset(iv, x), iv.width), Renorm(iv), x)
    decreases 0x8000 - iv.width
  {
    if iv.width < 0x8000 {
      NormalizeTracks(Interval(2 * iv.base, 2 * iv.width, iv.shifts + 1), x);
    }
  }

  /** One decision: if the code value ended up in the encoder's new interval, the decoder recovers
      the bit, makes the same estimate, and keeps track of the encoder. */
  lemma DecodeStep(iv: Interval, r: Rule, bit: bool, x: real, w: Window)
    requires iv.width >= 0x8000
    requires Tracks(w, iv, x) && Contains(Renorm(Narrowed(iv, r, bit)), x)
    ensures var d := DecodeBit(w, r);
      && d.bit == bit
      && d.sv == Estimate(iv.width, r, bit)
      && Tracks(d.w, Renorm(Narrowed(iv, r, bit)), x)
  {
    NarrowedContains(iv, r, bit, x);
    NormalizeTracks(Narrowed(iv, r, bit), x);
  }

  /** Code values in the final interval keep a decoder following the encoder's decisions. */
  lemma {:induction false} FollowsRun(s: Coder, ds: seq<Decision>, x: real, w: Window)
    requires s.iv.width >= 0x8000 && Legal(s.stats, ds)
    requires Tracks(w, s.iv, x) && Contains(Run(s, ds).iv, x)
    ensures Follows(w, s.stats, ds)
    decreases |ds|
  {
    if ds != [] {
      RunContains(Step(s, ds[0]), ds[1..], x);
      DecodeStep(s.iv, Lookup(s.stats[ds[0].bin]), ds[0].bit, x, w);
      FollowsRun(Step(s, ds[0]), ds[1..], x, DecodeBit(w, Lookup(s.stats[ds[0].bin])).w);
    }
  }

  lemma StartTracks(x: real)
    requires 0.0 <= x < 65536.0
    ensures Contains(START, x) && Tracks(Window(x, 0x10000), START, x)
  {
  }

  // ----- What the steps mean

  /** The two symbols divide the interval: the MPS gets the larger part, the upper part has size Qe, and nothing is lost. */
  lemma Subintervals(iv: Interval, r: Rule)
    requires iv.width >= 0x8000
    ensures var m, l := Narrowed(iv, r, r.mps), Narrowed(iv, r, !r.mps);
      && m.shifts == l.shifts == iv.shifts && l.width <= m.width && l.width + m.width == iv.width
      && var low, up := if m.base == iv.base then m else l, if m.base == iv.base then l else m;
         low.base == iv.base && up.base == iv.base + low.width && up.width == r.qe
  {
  }

  /** The statistics change exactly when the interval has to be renormalized, except that the last state stays; then the
      symbol coded decides which way. */
  lemma EstimatesWithRenorm(iv: Interval, sv: stat, bit: bool)
    requires iv.width >= 0x8000
    ensures var r := Lookup(sv);
      var after := Estimate(iv.width, r, bit);
      if Renorm(Narrowed(iv, r, bit)) == Narrowed(iv, r, bit) then after == sv
      else after == if bit == r.mps then r.afterMps else r.afterLps
  {
    hide Entry;
    var n := Narrowed(iv, Lookup(sv), bit);
    RenormShifts(n);
  }

  lemma {:induction false} RenormShifts(iv: Interval)
    requires iv.width > 0
    ensures Renorm(iv).shifts >= iv.shifts && (Renorm(iv) == iv <==> iv.width >= 0x8000)
    decreases 0x8000 - iv.width
  {
    if iv.width < 0x8000 { RenormShifts(Interval(2 * iv.base, 2 * iv.width, iv.shifts + 1)); }
  }

  /** One decision in this bin: an MPS never makes the LPS subinterval larger; an LPS makes it larger, or exchanges the sense
      in a switching state. */
  lemma StepAdapts(s: Coder, d: Decision)
    requires s.iv.width >= 0x8000 && d.bin in s.stats
    ensures Adapts(s.stats[d.bin], d.bit, Step(s, d).stats[d.bin])
  {
    hide Renorm, Narrowed, Switches, Lookup, Adapts;
    var before := s.stats[d.bin];
    EstimateAdapts(s.iv.width, before, d.bit);
  }

  /** What a symbol does to its bin. */
  predicate Adapts(before: stat, bit: bool, after: stat) {
    if bit == Sense(before) then Lookup(after).qe <= Lookup(before).qe && Sense(after) == Sense(before)
    else Lookup(after).qe > Lookup(before).qe || (Sense(after) != Sense(before) && Switches(before % 128)) || before % 128 == 113
  }

  lemma EstimateAdapts(width: nat, sv: stat, bit: bool)
    ensures Adapts(sv, bit, Estimate(width, Lookup(sv), bit))
  {
    hide Lookup, Sense, Switches;
    MpsAdapts(sv);
    LpsAdapts(sv);
    LookupCurrent(sv);
    RuleSense(sv);
  }

  lemma LookupCurrent(sv: stat)
    ensures Lookup(sv).current == sv
  {
    hide Entry;
  }

  lemma RuleSense(sv: stat)
    ensures Lookup(sv).mps == Sense(sv)
  {
    hide Entry;
  }

  /** All decisions in this bin are what is more probable at the time. */
  predicate OnlyMps(s: Coder, ds: seq<Decision>, b: Bin)
    requires s.iv.width >= 0x8000 && Legal(s.stats, ds)
    decreases |ds|
  {
    ds != [] ==> (ds[0].bin == b ==> ds[0].bit == Sense(s.stats[b])) && OnlyMps(Step(s, ds[0]), ds[1..], b)
  }

  /** Over any run of decisions, those that are only more probable symbols never make the LPS subinterval of their bin
      larger. */
  lemma {:induction false} RunAdapts(s: Coder, ds: seq<Decision>, b: Bin)
    requires s.iv.width >= 0x8000 && Legal(s.stats, ds) && b in s.stats && OnlyMps(s, ds, b)
    ensures var before, after := s.stats[b], Run(s, ds).stats[b];
      Lookup(after).qe <= Lookup(before).qe && Sense(after) == Sense(before)
    decreases |ds|
  {
    hide Lookup, Sense, Switches;
    if ds != [] {
      StepAdapts(s, ds[0]);
      if ds[0].bin != b { StepOthers(s, ds[0], b); }
      RunAdapts(Step(s, ds[0]), ds[1..], b);
    }
  }

  lemma StepOthers(s: Coder, d: Decision, b: Bin)
    requires s.iv.width >= 0x8000 && d.bin in s.stats && b in s.stats && b != d.bin
    ensures Step(s, d).stats[b] == s.stats[b]
  {
    hide Lookup;
  }

  // ----- Termination (section D.1.8)

  predicate IsAt(x: real, shifts: nat, e: int) {
    Scale(x, shifts) == e as real
  }

  predicate Rounded(y: int) {
    y % 0x10000 == 0
  }

  /** Of all code values in the interval x has the most trailing zero bits. */
  ghost predicate Roundest(iv: Interval, x: real) {
    exists e :: IsAt(x, iv.shifts, e) && e % 0x8000 == 0 && forall y :: iv.base <= y < iv.base + iv.width && Rounded(y) ==> y == e
  }

  /** Then no string of fewer bytes denotes a code value in the interval: the data is as short as can be. */
  lemma Shortest(iv: Interval, data: seq<byte>, s: seq<byte>)
    requires Roundest(iv, 65536.0 * Fraction(data)) && (data != [] ==> data[|data| - 1] != 0)
    requires Contains(iv, 65536.0 * Fraction(s))
    ensures |data| <= |s|
  {
    hide Fraction, Value, Scale, Shl, Rounded;
    var e :| IsAt(65536.0 * Fraction(data), iv.shifts, e) && e % 0x8000 == 0
      && forall y :: iv.base <= y < iv.base + iv.width && Rounded(y) ==> y == e;
    if |s| < |data| {
      var n := iv.shifts + 16;
      SixteenUp(Fraction(data), iv.shifts);
      SixteenUp(Fraction(s), iv.shifts);
      LastByteSet(data);
      FarDown(data, n, e);
      var y := Shl(Value(s), n - 8 * |s|);
      CodeOf(s, n);
      RoundedShl(Value(s), n - 8 * |s|);
      SameCode(data, s, n);
      assert false;
    }
  }

  lemma SixteenUp(f: real, n: nat)
    ensures Scale(65536.0 * f, n) == Scale(f, n + 16)
  {
    ScaleByte(f, n + 8);
    ScaleByte(256.0 * f, n);
  }

  lemma LastByteSet(data: seq<byte>)
    requires data != [] && data[|data| - 1] != 0
    ensures Value(data) % 256 != 0
  {
  }

  /** Where a byte string ends, as a number of n bits. */
  lemma CodeOf(s: seq<byte>, n: nat)
    requires 8 * |s| <= n
    ensures Scale(Fraction(s), n) == Shl(Value(s), n - 8 * |s|) as real
  {
    hide Fraction, Value;
    FractionIsValue(s);
    ScaleScale(Fraction(s), 8 * |s|, n - 8 * |s|);
    ScaleInt(Value(s), n - 8 * |s|);
  }

  lemma {:induction false} ShlTimes(k: int, x: int, n: nat)
    ensures Shl(k * x, n) == k * Shl(x, n)
  {
    if n != 0 {
      ShlTimes(k, x, n - 1);
      assert 2 * (k * Shl(x, n - 1)) == k * (2 * Shl(x, n - 1));
    }
  }

  lemma Sevenfold(x: int)
    ensures Shl(x, 7) == 128 * x
  {
    assert Shl(x, 3) == 2 * Shl(x, 2) == 4 * Shl(x, 1) == 8 * x;
    assert Shl(x, 6) == 2 * Shl(x, 5) == 4 * Shl(x, 4) == 8 * Shl(x, 3);
  }

  /** A last byte that is not zero does not reach down to the last 15 bits. */
  lemma FarDown(data: seq<byte>, n: nat, e: int)
    requires Value(data) % 256 != 0 && e % 0x8000 == 0 && Scale(Fraction(data), n) == e as real
    ensures n >= 8 * |data| + 8
  {
    hide Fraction, Value, Scale;
    if n <= 8 * |data| {
      WithinByte(data, n, e / 0x8000);
    } else if n < 8 * |data| + 8 {
      BelowByte(data, n, e / 0x8000);
    }
  }

  lemma Multiple256(v: int, k: int)
    requires v == 256 * k
    ensures v % 256 == 0
  {
  }

  lemma WithinByte(data: seq<byte>, n: nat, q: int)
    requires n <= 8 * |data| && Scale(Fraction(data), n) == (0x8000 * q) as real
    ensures Value(data) % 256 == 0
  {
    hide Fraction, Value, Scale, Shl;
    FractionIsValue(data);
    ScaleScale(Fraction(data), n, 8 * |data| - n);
    ScaleInt(0x8000 * q, 8 * |data| - n);
    ShlTimes(0x8000, q, 8 * |data| - n);
    Multiple256(Value(data), 128 * Shl(q, 8 * |data| - n));
  }

  lemma BelowByte(data: seq<byte>, n: nat, q: int)
    requires 8 * |data| <= n < 8 * |data| + 8 && Scale(Fraction(data), n) == (0x8000 * q) as real
    ensures Value(data) % 256 == 0
  {
    hide Fraction, Value, Scale, Shl;
    var v, j := Value(data), n - 8 * |data|;
    CodeOf(data, n);
    assert Shl(v, j) == 0x8000 * q;
    ShlShl(v, j, 7 - j);
    ShlTimes(0x8000, q, 7 - j);
    Sevenfold(v);
    Multiple256(v, Shl(q, 7 - j));
  }

  lemma RoundedShl(v: int, m: nat)
    requires m >= 16
    ensures Rounded(Shl(v, m))
  {
    hide Shl;
    ShlByte(v, m - 8);
    ShlByte(v, m - 16);
    RoundedTimes(Shl(v, m - 16));
  }

  lemma RoundedTimes(x: int)
    ensures Rounded(256 * (256 * x))
  {
  }

  lemma SameCode(data: seq<byte>, s: seq<byte>, n: nat)
    requires |s| < |data| && n >= 8 * |data| && Scale(Fraction(s), n) == Scale(Fraction(data), n)
    ensures Value(data) % 256 == 0
  {
    hide Fraction, Value, Scale, Shl;
    CodeOf(data, n);
    CodeOf(s, n);
    var m := n - 8 * |data|;
    ShlShl(Value(s), 8 * |data| - 8 * |s|, m);
    ShlMonotonic(Shl(Value(s), 8 * |data| - 8 * |s|), Value(data), m);
    ShlMonotonic(Value(data), Shl(Value(s), 8 * |data| - 8 * |s|), m);
    ShlByte(Value(s), 8 * |data| - 8 * |s| - 8);
  }
}
