/** The stream of markers and segments before a scan, and what is left when the input ends in the middle. */
module MarkerStream {
  import opened Bytes
  import opened MarkerProg
  import opened Segments

  // ----- Marker codes

  const M_SOI := 0xD8
  const M_EOI := 0xD9
  const M_SOS := 0xDA
  const M_DQT := 0xDB
  const M_DNL := 0xDC
  const M_DRI := 0xDD
  const M_DHT := 0xC4
  const M_DAC := 0xCC
  const M_TEM := 0x01
  const M_COM := 0xFE

  datatype Kind = Soi | Sof(is_prog: bool, is_arith: bool) | Sos | Eoi | Dqt | Dht | Dac | Dri | Skipped | Plain | Unsupported

  function KindOf(c: int): Kind {
    if c == M_SOI then Soi
    else if c == 0xC0 || c == 0xC1 then Sof(false, false)
    else if c == 0xC2 then Sof(true, false)
    else if c == 0xC9 then Sof(false, true)
    else if c == 0xCA then Sof(true, true)
    else if c == M_SOS then Sos
    else if c == M_EOI then Eoi
    else if c == M_DAC then Dac
    else if c == M_DHT then Dht
    else if c == M_DQT then Dqt
    else if c == M_DRI then Dri
    else if 0xE0 <= c <= 0xEF || c == M_COM || c == M_DNL then Skipped
    else if 0xD0 <= c <= 0xD7 || c == M_TEM then Plain
    else Unsupported
  }

  /** mem: tables and frame; scan: what SOS segments set. */
  datatype State = State(mem: Memory, scan: Memory, saw_SOI: bool, saw_SOF: bool)

  function Fetch(m: Memory, l: Loc): int {
    if l in m then m[l] else 0
  }

  /** The identifiers of the components that a scan can name. */
  function Ids(m: Memory): seq<int> {
    var n := Fetch(m, NumComponents);
    seq(if n < 0 then 0 else if n > MAX_COMPS_IN_SCAN then MAX_COMPS_IN_SCAN else n, i requires i >= 0 => Fetch(m, ComponentId(i)))
  }

  // get_soi: conditioning of the arithmetic coder, and no restarts.
  function Defaults(): seq<Store> {
    Conditioning(NUM_ARITH_TBLS) + [Store(RestartInterval, 0)]
  }

  function Conditioning(n: nat): seq<Store> {
    if n == 0 then [] else Conditioning(n - 1) + [Store(ArithDcL(n - 1), 0), Store(ArithDcU(n - 1), 1), Store(ArithAcK(n - 1), 5)]
  }

  ghost function SegmentProg(kind: Kind, st: State): Prog {
    match kind
    case Soi => if st.saw_SOI then Halt([], false) else Halt(Defaults(), true)
    case Sof(p, a) => SofProg(p, a, st.saw_SOF)
    case Sos => SosProg(st.saw_SOF, Ids(st.mem))
    case Dqt => DqtProg()
    case Dht => DhtProg()
    case Dac => DacProg()
    case Dri => DriProg()
    case Skipped => SkipProg()
    case _ => Halt([], kind == Plain)
  }

  /** The stores of a segment, complete or not. */
  function Stored(kind: Kind, log: seq<Store>, st: State): State {
    if kind == Sos then st.(scan := Apply(log, st.scan)) else st.(mem := Apply(log, st.mem))
  }

  /** What a complete segment does besides. */
  function Noted(kind: Kind, st: State): State {
    if kind == Soi then st.(saw_SOI := true) else if kind.Sof? then st.(saw_SOF := true) else st
  }

  datatype Final = NeedMore(st: State, rest: seq<byte>, marker: int) | Reached(sos: bool, st: State, rest: seq<byte>) | Bad

  /** The input from the restart point on, if next_marker finds no marker in it. */
  function Leftover(s: seq<byte>): (r: seq<byte>)
    ensures |r| <= |s|
    decreases |s|
  {
    if s == [] then []
    else if s[0] != 0xFF then Leftover(s[1..])
    else
      var r := SkipFill(s[1..]);
      if r != [] && r[0] == 0 then Leftover(r[1..]) else s
  }

  lemma {:induction false} MarkShorter(s: seq<byte>)
    ensures var m := NextMark(s, 0); m.Mark? ==> |m.rest| < |s| && 0 < m.code < 0xFF
    decreases |s|
  {
    if s != [] {
      if s[0] != 0xFF {
        MarkShorter(s[1..]);
      } else {
        var r := SkipFill(s[1..]);
        if r != [] && r[0] == 0 { MarkShorter(r[1..]); }
      }
    }
  }

  /** read_markers: what reading from here leads to.  marker: a marker already found, or 0. */
  ghost function Markers(s: seq<byte>, marker: int, st: State): Final
    decreases |s|, if marker == 0 then 0 else 1
  {
    if marker == 0 then
      if !st.saw_SOI then
        if |s| < 2 then NeedMore(st, s, 0)
        else if s[0] != 0xFF || s[1] != M_SOI then Bad
        else Markers(s[2..], M_SOI, st)
      else
        MarkShorter(s);
        match NextMark(s, 0)
        case NoMark => NeedMore(st, Leftover(s), 0)
        case Mark(c, rest) => Markers(rest, c, st)
    else
      var kind := KindOf(marker);
      if kind == Eoi then Reached(false, st, s)
      else
        var r := Run(SegmentProg(kind, st), s);
        match r.out
        case Failed => Bad
        case Suspended => NeedMore(Stored(kind, r.log, st), s, marker)
        case Done(n) =>
          var next := Noted(kind, Stored(kind, r.log, st));
          if kind == Sos then Reached(true, next, s[n..]) else Markers(s[n..], 0, next)
  }

  // ----- Input in pieces

  lemma {:induction false} SkipFillMore(s: seq<byte>, t: seq<byte>)
    ensures SkipFill(s) != [] ==> SkipFill(s + t) == SkipFill(s) + t
    ensures SkipFill(s) == [] ==> SkipFill(s + t) == SkipFill(t)
  {
    if s == [] {
      assert s + t == t;
    } else {
      assert (s + t)[0] == s[0] && (s + t)[1..] == s[1..] + t;
      if s[0] == 0xFF { SkipFillMore(s[1..], t); }
    }
  }

  /** More input after a restart point. */
  lemma {:induction false} NextMarkMore(s: seq<byte>, t: seq<byte>)
    ensures var m := NextMark(s, 0);
      if m.Mark? then NextMark(s + t, 0) == Mark(m.code, m.rest + t)
      else NextMark(s + t, 0) == NextMark(Leftover(s) + t, 0) && Leftover(s + t) == Leftover(Leftover(s) + t)
    decreases |s|
  {
    if s == [] {
      assert s + t == t && [] + t == t;
    } else {
      assert (s + t)[0] == s[0] && (s + t)[1..] == s[1..] + t;
      if s[0] != 0xFF {
        NextMarkMore(s[1..], t);
      } else {
        SkipFillMore(s[1..], t);
        var r := SkipFill(s[1..]);
        if r != [] {
          assert (r + t)[0] == r[0] && (r + t)[1..] == r[1..] + t;
          if r[0] == 0 { NextMarkMore(r[1..], t); }
        }
      }
    }
  }

  function With(f: Final, t: seq<byte>): Final {
    match f
    case Reached(sos, st, rest) => Reached(sos, st, rest + t)
    case _ => f
  }

  /** Input may be cut anywhere: going on from what is left gives what the whole input gives. */
  lemma {:induction false} MarkersMore(s: seq<byte>, t: seq<byte>, marker: int, st: State)
    ensures var a, b := Markers(s, marker, st), Markers(s + t, marker, st);
      if a.NeedMore? then b == Markers(a.rest + t, a.marker, a.st) else b == With(a, t)
    decreases |s|, if marker == 0 then 0 else 1
  {
    hide Run, SegmentProg, Stored, Noted, KindOf, SkipFill;
    if marker == 0 {
      if !st.saw_SOI {
        if |s| >= 2 {
          assert (s + t)[2..] == s[2..] + t;
          MarkersMore(s[2..], t, M_SOI, st);
        }
      } else {
        MarkShorter(s);
        MarkShorter(s + t);
        MarkShorter(Leftover(s) + t);
        NextMarkMore(s, t);
        var m := NextMark(s, 0);
        if m.Mark? { MarkersMore(m.rest, t, m.code, st); }
      }
    } else {
      SegmentMore(s, t, marker, st);
      var kind := KindOf(marker);
      var r := Run(SegmentProg(kind, st), s);
      if kind != Eoi && kind != Sos && r.out.Done? {
        var n := r.out.used;
        assert (s + t)[n..] == s[n..] + t;
        MarkersMore(s[n..], t, 0, Noted(kind, Stored(kind, r.log, st)));
      }
    }
  }

  lemma SegmentMore(s: seq<byte>, t: seq<byte>, marker: int, st: State)
    requires marker != 0
    ensures var kind := KindOf(marker);
      var a, b := Run(SegmentProg(kind, st), s), Run(SegmentProg(kind, st), s + t);
      && (kind == Eoi || !a.out.Suspended? ==> a == b)
      && (a.out.Suspended? && kind != Eoi ==>
            var left := Stored(kind, a.log, st);
            && SegmentProg(kind, left) == SegmentProg(kind, st)
            && Stored(kind, b.log, left) == Stored(kind, b.log, st))
  {
    hide Run, DqtProg, DhtProg, DacProg, DriProg, SofProg, SosProg, SkipProg, Defaults;
    var kind := KindOf(marker);
    var p := SegmentProg(kind, st);
    var a, b := Run(p, s), Run(p, s + t);
    RunMore(p, s, t);
    if kind == Eoi { HaltRuns(p, s, t); }
    if a.out.Suspended? {
      Again(a.log, b.log, st.mem);
      Again(a.log, b.log, st.scan);
      if p.Halt? { HaltRuns(p, s, t); }
    }
  }

  lemma HaltRuns(p: Prog, s: seq<byte>, t: seq<byte>)
    requires p.Halt?
    ensures Run(p, s) == Run(p, s + t) && !Run(p, s).out.Suspended?
  {
  }
}
