/** What the marker parsers do, as a function of the input: reading bytes one by one, and storing values in between.
    A parser that runs out of input gives up; it has then made some of its stores, and starts again later. */
module MarkerProg {
  import opened Bytes
  import opened ZigZag

  const DCTSIZE2 := 64
  const NUM_QUANT_TBLS := 4
  const NUM_HUFF_TBLS := 4
  const NUM_ARITH_TBLS := 16
  const MAX_COMPS_IN_SCAN := 4

  /** The variables of the decompressor that markers set. */
  datatype Loc =
    | Quant(n: nat, i: nat) | HuffBits(ac: bool, n: nat, i: nat) | HuffVal(ac: bool, n: nat, i: nat)
    | ArithDcL(n: nat) | ArithDcU(n: nat) | ArithAcK(n: nat) | RestartInterval
    | ProgressiveMode | ArithCode | DataPrecision | ImageHeight | ImageWidth | NumComponents
    | ComponentId(ci: nat) | HSamp(ci: nat) | VSamp(ci: nat) | QuantNo(ci: nat)
    | CompsInScan | CurComp(i: nat) | DcTblNo(ci: nat) | AcTblNo(ci: nat) | ScanSs | ScanSe | ScanAh | ScanAl

  datatype Store = Store(loc: Loc, val: int)

  type Memory = map<Loc, int>

  function Apply(log: seq<Store>, m: Memory): Memory {
    if log == [] then m else Apply(log[1..], m[log[0].loc := log[0].val])
  }

  lemma {:induction false} ApplyConcat(a: seq<Store>, b: seq<Store>, m: Memory)
    ensures Apply(a + b, m) == Apply(b, Apply(a, m))
    decreases |a|
  {
    if a == [] {
      assert a + b == b;
    } else {
      assert (a + b)[1..] == a[1..] + b;
      ApplyConcat(a[1..], b, m[a[0].loc := a[0].val]);
    }
  }

  /** The variables that a log sets. */
  function Locs(log: seq<Store>): set<Loc> {
    set i | 0 <= i < |log| :: log[i].loc
  }

  lemma FirstLoc(log: seq<Store>)
    requires log != []
    ensures Locs(log) == {log[0].loc} + Locs(log[1..])
  {
    forall i | 0 < i < |log|
      ensures log[i].loc in Locs(log[1..])
    {
      assert log[1..][i - 1].loc == log[i].loc;
    }
    forall i | 0 <= i < |log[1..]|
      ensures log[1..][i].loc in Locs(log)
    {
      assert log[i + 1].loc == log[1..][i].loc;
    }
  }

  /** What the memory was before matters only for variables that are not set. */
  lemma {:induction false} ApplySame(log: seq<Store>, m: Memory, m': Memory)
    requires forall l :: l !in Locs(log) ==> (l in m <==> l in m') && (l in m ==> m[l] == m'[l])
    ensures Apply(log, m) == Apply(log, m')
    decreases |log|
  {
    if log == [] {
      assert m == m';
    } else {
      FirstLoc(log);
      var s := log[0];
      ApplySame(log[1..], m[s.loc := s.val], m'[s.loc := s.val]);
    }
  }

  lemma {:induction false} ApplyFrame(log: seq<Store>, m: Memory, l: Loc)
    requires l !in Locs(log)
    ensures (l in Apply(log, m) <==> l in m) && (l in m ==> Apply(log, m)[l] == m[l])
    decreases |log|
  {
    if log != [] {
      FirstLoc(log);
      ApplyFrame(log[1..], m[log[0].loc := log[0].val], l);
    }
  }

  lemma PrefixLocs(part: seq<Store>, log: seq<Store>)
    requires part <= log
    ensures Locs(part) <= Locs(log)
  {
    forall i | 0 <= i < |part|
      ensures part[i].loc in Locs(log)
    {
      assert log[i].loc == part[i].loc;
    }
  }

  /** Stores made by an attempt that was given up do not matter: the next attempt makes them again. */
  lemma Again(part: seq<Store>, log: seq<Store>, m: Memory)
    requires part <= log
    ensures Apply(log, Apply(part, m)) == Apply(log, m)
  {
    PrefixLocs(part, log);
    forall l | l !in Locs(log)
      ensures (l in Apply(part, m) <==> l in m) && (l in m ==> Apply(part, m)[l] == m[l])
    {
      ApplyFrame(part, m, l);
    }
    ApplySame(log, Apply(part, m), m);
  }

  // ----- Programs

  /** Some stores, and then the end, or the next byte and what depends on it. */
  datatype Prog = Halt(log: seq<Store>, ok: bool) | Read(log: seq<Store>, k: byte -> Prog)

  datatype Outcome = Done(used: nat) | Suspended | Failed

  datatype Parsed = Parsed(log: seq<Store>, out: Outcome)

  function After(log: seq<Store>, used: nat, p: Parsed): Parsed {
    Parsed(log + p.log, if p.out.Done? then Done(used + p.out.used) else p.out)
  }

  ghost function Run(p: Prog, s: seq<byte>): (r: Parsed)
    ensures r.out.Done? ==> r.out.used <= |s|
    decreases |s|
  {
    if p.Halt? then Parsed(p.log, if p.ok then Done(0) else Failed)
    else if s == [] then Parsed(p.log, Suspended)
    else After(p.log, 1, Run(p.k(s[0]), s[1..]))
  }

  /** More input does not change the result of an attempt that came to an end; and it makes an attempt that did not go
      on from where it stopped. */
  lemma {:induction false} RunMore(p: Prog, s: seq<byte>, t: seq<byte>)
    ensures var a, b := Run(p, s), Run(p, s + t);
      if a.out.Suspended? then a.log <= b.log else a == b
    decreases |s|
  {
    if p.Read? {
      if s == [] {
        assert s + t == t;
      } else {
        assert (s + t)[0] == s[0] && (s + t)[1..] == s[1..] + t;
        RunMore(p.k(s[0]), s[1..], t);
      }
    }
  }

  ghost function ReadTwo(log: seq<Store>, k: int -> Prog): Prog {
    Read(log, (a: byte) => Read([], (b: byte) => k(256 * a + b)))
  }

  // ----- The parsers

  ghost function DqtProg(): Prog {
    ReadTwo([], length => DqtTables(length - 2, []))
  }

  ghost function DqtTables(length: int, log: seq<Store>): Prog
    decreases length, 65
  {
    if length <= 0 then Halt(log, length == 0)
    else Read(log, (n: byte) => if n % 16 >= NUM_QUANT_TBLS then Halt([], false) else DqtCoefs(n % 16, n / 16 > 0, 0, length, []))
  }

  ghost function DqtCoefs(n: nat, prec: bool, i: nat, length: int, log: seq<Store>): Prog
    requires i <= 64 && length > 0
    decreases length, 64 - i
  {
    if i == 64 then DqtTables(length - 65 - (if prec then 64 else 0), log)
    else if prec then ReadTwo(log, v => DqtCoefs(n, prec, i + 1, length, [Store(Quant(n, NaturalAt(i)), v)]))
    else Read(log, (v: byte) => DqtCoefs(n, prec, i + 1, length, [Store(Quant(n, NaturalAt(i)), v)]))
  }

  ghost function DhtProg(): Prog {
    ReadTwo([], length => DhtTables(length - 2, []))
  }

  ghost function DhtTables(length: int, log: seq<Store>): Prog
    decreases length, 300
  {
    if length <= 16 then Halt(log, length == 0)
    else Read(log, (index: byte) => DhtBits(index, [0], length - 17))
  }

  function Total(bits: seq<nat>): nat {
    if bits == [] then 0 else Total(bits[..|bits| - 1]) + bits[|bits| - 1]
  }

  ghost function DhtBits(index: nat, bits: seq<nat>, length: int): Prog
    requires 1 <= |bits| <= 17 && length >= 0
    decreases length + 17, 299 - |bits|
  {
    if |bits| < 17 then Read([], (b: byte) => DhtBits(index, bits + [b], length))
    else if Total(bits) > 256 || Total(bits) > length then Halt([], false)
    else DhtVals(index, bits, [], length)
  }

  ghost function DhtVals(index: nat, bits: seq<nat>, vals: seq<int>, length: int): Prog
    requires |bits| == 17 && |vals| <= 256 && Total(bits) <= 256 && Total(bits) <= length && length >= 0
    decreases length + 17, 256 - |vals|
  {
    if |vals| < Total(bits) then Read([], (v: byte) => DhtVals(index, bits, vals + [v], length))
    else if HuffIndex(index) >= NUM_HUFF_TBLS then Halt([], false)
    else DhtTables(length - Total(bits), StoreHuff(IsAc(index), HuffIndex(index), bits, vals))
  }

  predicate IsAc(index: nat) {
    index / 16 % 2 == 1
  }

  // The table number: the AC bit taken out.
  function HuffIndex(index: nat): nat {
    if IsAc(index) then index - 16 else index
  }

  /** Both arrays of a Huffman table; symbols that are not given are zero. */
  function StoreHuff(ac: bool, n: nat, bits: seq<nat>, vals: seq<int>): (log: seq<Store>)
    requires |bits| == 17
  {
    seq(17, i requires 0 <= i < 17 => Store(HuffBits(ac, n, i), bits[i]))
    + seq(256, i requires 0 <= i < 256 => Store(HuffVal(ac, n, i), if i < |vals| then vals[i] else 0))
  }

  ghost function DacProg(): Prog {
    ReadTwo([], length => DacEntries(length - 2, []))
  }

  ghost function DacEntries(length: int, log: seq<Store>): Prog
    decreases length
  {
    if length <= 0 then Halt(log, length == 0)
    else Read(log, (index: byte) => Read([], (val: byte) =>
      if index >= 2 * NUM_ARITH_TBLS then Halt([], false)
      else if index >= NUM_ARITH_TBLS then DacEntries(length - 2, [Store(ArithAcK(index - NUM_ARITH_TBLS), val)])
      else if val % 16 > val / 16 then Halt(StoreDc(index, val), false)
      else DacEntries(length - 2, StoreDc(index, val))))
  }

  function StoreDc(n: nat, val: nat): seq<Store> {
    [Store(ArithDcL(n), val % 16), Store(ArithDcU(n), val / 16)]
  }

  ghost function DriProg(): Prog {
    ReadTwo([], length => if length != 4 then Halt([], false) else ReadTwo([], v => Halt([Store(RestartInterval, v)], true)))
  }

  ghost function SofProg(is_prog: bool, is_arith: bool, saw_SOF: bool): Prog {
    ReadTwo(StoreProcess(is_prog, is_arith), length => SofPrecision(length, saw_SOF))
  }

  function StoreProcess(is_prog: bool, is_arith: bool): seq<Store> {
    [Store(ProgressiveMode, if is_prog then 1 else 0), Store(ArithCode, if is_arith then 1 else 0)]
  }

  ghost function SofPrecision(length: int, saw_SOF: bool): Prog {
    Read([], (prec: byte) => ReadTwo([Store(DataPrecision, prec)], height => SofWidth(length, saw_SOF, height)))
  }

  ghost function SofWidth(length: int, saw_SOF: bool, height: int): Prog {
    ReadTwo([Store(ImageHeight, height)], width => SofNum(length, saw_SOF, height, width))
  }

  ghost function SofNum(length: int, saw_SOF: bool, height: int, width: int): Prog {
    Read([Store(ImageWidth, width)], (num: byte) =>
      if saw_SOF || height <= 0 || width <= 0 || num <= 0 || length - 8 != 3 * num
      then Halt([Store(NumComponents, num)], false)
      else SofComps(num, 0, [Store(NumComponents, num)]))
  }

  ghost function SofComps(num: nat, ci: nat, log: seq<Store>): Prog
    requires ci <= num
    decreases num - ci
  {
    if ci == num then Halt(log, true)
    else
      Read(log, (id: byte) =>
        Read([Store(ComponentId(ci), id)], (c: byte) =>
          Read(StoreSamp(ci, c), (tq: byte) =>
            SofComps(num, ci + 1, [Store(QuantNo(ci), tq)]))))
  }

  function StoreSamp(ci: nat, c: nat): seq<Store> {
    [Store(HSamp(ci), c / 16), Store(VSamp(ci), c % 16)]
  }

  // ids: the identifiers of the components that a scan can name
  ghost function SosProg(saw_SOF: bool, ids: seq<int>): Prog {
    if !saw_SOF then Halt([], false)
    else
      ReadTwo([], length => SosCount(length, ids))
  }

  ghost function SosCount(length: int, ids: seq<int>): Prog {
    Read([], (n: byte) =>
      if length != 2 * n + 6 || n < 1 || n > MAX_COMPS_IN_SCAN then Halt([], false)
      else SosComps(n, [], ids, StartScan(n)))
  }

  function StartScan(n: nat): seq<Store> {
    [Store(CompsInScan, n), Store(CurComp(0), -1), Store(CurComp(1), -1), Store(CurComp(2), -1), Store(CurComp(3), -1)]
  }

  /** The component of this identifier, among those at whose index no component of the scan is stored yet. */
  function FindId(ids: seq<int>, cc: int, cur: seq<int>, ci: nat): (r: nat)
    requires ci <= |ids|
    ensures r <= |ids| && (r < |ids| ==> ids[r] == cc && r >= |cur| && r >= ci)
    decreases |ids| - ci
  {
    if ci == |ids| then ci
    else if ids[ci] == cc && ci >= |cur| then ci
    else FindId(ids, cc, cur, ci + 1)
  }

  // cur: the components found so far
  ghost function SosComps(n: nat, cur: seq<int>, ids: seq<int>, log: seq<Store>): Prog
    requires |cur| <= n
    decreases n - |cur|
  {
    if |cur| == n then SosParams(log)
    else
      Read(log, (cc: byte) => Read([], (c: byte) =>
        var ci := FindId(ids, cc, cur, 0);
        if ci == |ids| then Halt([], false)
        else if ci in cur then Halt(StoreComp(|cur|, ci, c), false)
        else SosComps(n, cur + [ci], ids, StoreComp(|cur|, ci, c))))
  }

  ghost function SosParams(log: seq<Store>): Prog {
    Read(log, (ss: byte) => Read([Store(ScanSs, ss)], (se: byte) => Read([Store(ScanSe, se)], (c: byte) =>
      Halt(StoreApprox(c), true))))
  }

  function StoreApprox(c: nat): seq<Store> {
    [Store(ScanAh, c / 16), Store(ScanAl, c % 16)]
  }

  function StoreComp(i: nat, ci: nat, c: nat): seq<Store> {
    [Store(CurComp(i), ci), Store(DcTblNo(ci), c / 16), Store(AcTblNo(ci), c % 16)]
  }

  // skip_variable, and the processing of APPn and COM segments, which sets none of these variables
  ghost function SkipProg(): Prog {
    ReadTwo([], length => SkipBytes(length - 2))
  }

  ghost function SkipBytes(n: int): Prog
    decreases n
  {
    if n <= 0 then Halt([], true) else Read([], (b: byte) => SkipBytes(n - 1))
  }
}
