/** The segments that the compressor writes before its scans, and that parsing them restores what they were made from. */
module MarkerSegments {
  import opened Bytes
  import opened MarkerProg
  import opened MarkerStream
  import opened ZigZag

  // ----- The variables of the compressor

  function Bit(m: Memory, ac: bool, n: nat, i: nat): int {
    Fetch(m, HuffBits(ac, n, i))
  }

  /** How many codes of at most i bits a Huffman table has. */
  function Codes(m: Memory, ac: bool, n: nat, i: nat): int {
    if i == 0 then 0 else Codes(m, ac, n, i - 1) + Bit(m, ac, n, i)
  }

  // DC needs no table in a refinement scan, AC needs none when not present.
  predicate CodesDc(m: Memory) {
    Fetch(m, ScanSs) == 0 && Fetch(m, ScanAh) == 0
  }

  predicate CodesAc(m: Memory) {
    Fetch(m, ScanSe) != 0
  }

  /** What the decompressor is told about a variable: unused entries are zero, and the restart interval is cut to 16 bits. */
  function Sent(m: Memory, l: Loc): int {
    match l
    case HuffBits(_, _, 0) => 0
    case HuffVal(ac, n, i) => if i < Codes(m, ac, n, 16) then Fetch(m, l) else 0
    case DcTblNo(_) => if CodesDc(m) then Fetch(m, l) else 0
    case AcTblNo(_) => if CodesAc(m) then Fetch(m, l) else 0
    case RestartInterval => Fetch(m, l) % 0x10000
    case _ => Fetch(m, l)
  }

  // ----- Logs that tell the variables of the compressor

  predicate Copies(log: seq<Store>, cfg: Memory) {
    forall i :: 0 <= i < |log| ==> log[i].val == Sent(cfg, log[i].loc)
  }

  /** Parsing has used so many bytes, and set exactly these variables, to what the compressor has. */
  ghost predicate Told(g: Parsed, used: nat, cfg: Memory, locs: set<Loc>) {
    g.out == Done(used) && Copies(g.log, cfg) && Locs(g.log) == locs
  }

  lemma LocsConcat(a: seq<Store>, b: seq<Store>)
    ensures Locs(a + b) == Locs(a) + Locs(b)
  {
    forall i | 0 <= i < |a + b|
      ensures (a + b)[i].loc in Locs(a) + Locs(b)
    {
      assert (a + b)[i] == if i < |a| then a[i] else b[i - |a|];
    }
    forall i | 0 <= i < |a|
      ensures a[i].loc in Locs(a + b)
    {
      assert (a + b)[i] == a[i];
    }
    forall i | 0 <= i < |b|
      ensures b[i].loc in Locs(a + b)
    {
      assert (a + b)[|a| + i] == b[i];
    }
  }

  lemma ToldAfter(log: seq<Store>, k: nat, g: Parsed, used: nat, cfg: Memory, locs: set<Loc>)
    requires Told(g, used, cfg, locs) && Copies(log, cfg)
    ensures Told(After(log, k, g), k + used, cfg, Locs(log) + locs)
  {
    LocsConcat(log, g.log);
  }

  lemma {:induction false} CopiesApply(log: seq<Store>, cfg: Memory, m: Memory, l: Loc)
    requires Copies(log, cfg)
    ensures Fetch(Apply(log, m), l) == if l in Locs(log) then Sent(cfg, l) else Fetch(m, l)
    decreases |log|
  {
    hide Sent;
    if log != [] {
      FirstLoc(log);
      var s := log[0];
      assert s.val == Sent(cfg, s.loc);
      CopiesApply(log[1..], cfg, m[s.loc := s.val], l);
    }
  }

  // ----- Bytes

  /** emit_byte and emit_2bytes keep the low bits. */
  function Low(v: int): byte {
    v % 256
  }

  function Two(v: int): seq<byte> {
    [v / 256 % 256, v % 256]
  }

  function Segment(code: byte, params: seq<byte>): seq<byte> {
    [0xFF, code] + (Two(|params| + 2) + params)
  }

  lemma RunRead(p: Prog, b: byte, s: seq<byte>)
    requires p.Read?
    ensures Run(p, [b] + s) == After(p.log, 1, Run(p.k(b), s))
  {
    assert ([b] + s)[1..] == s;
  }

  lemma RunTwo(log: seq<Store>, k: int -> Prog, v: int, s: seq<byte>)
    requires 0 <= v < 0x10000
    ensures Run(ReadTwo(log, k), Two(v) + s) == After(log, 2, Run(k(v), s))
  {
    hide Run;
    var p, a, b := ReadTwo(log, k), v / 256, v % 256;
    assert v / 256 % 256 == a;
    assert Two(v) + s == [a] + ([b] + s);
    RunRead(p, a, [b] + s);
    RunRead(p.k(a), b, s);
    var g := Run(k(v), s);
    assert After([], 1, g).log == g.log;
    assert After(log, 1, After([], 1, g)) == After(log, 2, g);
  }

  // ----- DQT

  predicate Wide(cfg: Memory, n: nat) {
    exists i :: 0 <= i < 64 && Fetch(cfg, Quant(n, i)) > 255
  }

  function QuantBytes(cfg: Memory, n: nat, prec: bool, i: nat): seq<byte>
    decreases 64 - i
  {
    if i >= 64 then []
    else
      var q := Fetch(cfg, Quant(n, NaturalAt(i)));
      (if prec then Two(q) else [Low(q)]) + QuantBytes(cfg, n, prec, i + 1)
  }

  function DqtParams(cfg: Memory, n: nat): seq<byte> {
    [Low(n + if Wide(cfg, n) then 16 else 0)] + QuantBytes(cfg, n, Wide(cfg, n), 0)
  }

  predicate LegalQuant(cfg: Memory, n: nat) {
    n < NUM_QUANT_TBLS && forall i :: 0 <= i < 64 ==> 0 <= Fetch(cfg, Quant(n, i)) < 0x10000
  }

  function QuantLocs(n: nat, i: nat): set<Loc>
    decreases 64 - i
  {
    if i >= 64 then {} else {Quant(n, NaturalAt(i))} + QuantLocs(n, i + 1)
  }

  lemma {:induction false} QuantSize(cfg: Memory, n: nat, prec: bool, i: nat)
    requires i <= 64
    ensures |QuantBytes(cfg, n, prec, i)| == (64 - i) * if prec then 2 else 1
    decreases 64 - i
  {
    hide NaturalAt;
    if i < 64 { QuantSize(cfg, n, prec, i + 1); }
  }

  lemma {:induction false} QuantRun(cfg: Memory, n: nat, prec: bool, i: nat, log: seq<Store>, rest: seq<byte>)
    requires LegalQuant(cfg, n) && i <= 64 && Copies(log, cfg) && (Wide(cfg, n) ==> prec)
    ensures var s := QuantBytes(cfg, n, prec, i);
      Told(Run(DqtCoefs(n, prec, i, if prec then 129 else 65, log), s + rest), |s|, cfg, Locs(log) + QuantLocs(n, i))
    decreases 64 - i
  {
    hide NaturalAt, Run, Told, DqtCoefs, Copies, Locs, Wide, LegalQuant;
    var s := QuantBytes(cfg, n, prec, i);
    if i == 64 {
      assert s + rest == rest;
      QuantRunEnd(cfg, n, prec, log, rest);
    } else {
      var l := Quant(n, NaturalAt(i));
      var next, t := Store(l, Fetch(cfg, l)), QuantBytes(cfg, n, prec, i + 1);
      OneCopy(next, cfg);
      QuantRun(cfg, n, prec, i + 1, [next], rest);
      QuantLocsNext(n, i, next);
      ValueRun(cfg, n, prec, i, log, t + rest, |t|, QuantLocs(n, i));
      assert s + rest == (if prec then Two(next.val) else [Low(next.val)]) + (t + rest);
    }
  }

  // One quantization value.
  lemma ValueRun(cfg: Memory, n: nat, prec: bool, i: nat, log: seq<Store>, s: seq<byte>, used: nat, locs: set<Loc>)
    requires LegalQuant(cfg, n) && i < 64 && Copies(log, cfg) && (Wide(cfg, n) ==> prec)
    requires var l, length := Quant(n, NaturalAt(i)), if prec then 129 else 65;
      Told(Run(DqtCoefs(n, prec, i + 1, length, [Store(l, Fetch(cfg, l))]), s), used, cfg, locs)
    ensures var q, length := Fetch(cfg, Quant(n, NaturalAt(i))), if prec then 129 else 65;
      Told(Run(DqtCoefs(n, prec, i, length, log), (if prec then Two(q) else [Low(q)]) + s), (if prec then 2 else 1) + used, cfg, Locs(log) + locs)
  {
    hide NaturalAt, Run, Told, Copies, Locs;
    var length, l := if prec then 129 else 65, Quant(n, NaturalAt(i));
    var q := Fetch(cfg, l);
    var g := Run(DqtCoefs(n, prec, i + 1, length, [Store(l, q)]), s);
    if prec {
      RunTwo(log, v => DqtCoefs(n, prec, i + 1, length, [Store(Quant(n, NaturalAt(i)), v)]), q, s);
      ToldAfter(log, 2, g, used, cfg, locs);
    } else {
      assert q <= 255;
      RunRead(DqtCoefs(n, prec, i, length, log), q, s);
      ToldAfter(log, 1, g, used, cfg, locs);
    }
  }

  lemma QuantLocsNext(n: nat, i: nat, s: Store)
    requires i < 64 && s.loc == Quant(n, NaturalAt(i))
    ensures Locs([s]) + QuantLocs(n, i + 1) == QuantLocs(n, i)
  {
    hide NaturalAt;
    assert [s][0].loc == s.loc;
  }

  lemma QuantRunEnd(cfg: Memory, n: nat, prec: bool, log: seq<Store>, rest: seq<byte>)
    requires Copies(log, cfg)
    ensures Told(Run(DqtCoefs(n, prec, 64, if prec then 129 else 65, log), rest), 0, cfg, Locs(log) + QuantLocs(n, 64))
  {
  }

  lemma DqtRun(cfg: Memory, n: nat, rest: seq<byte>)
    requires LegalQuant(cfg, n)
    ensures var s := Two(|DqtParams(cfg, n)| + 2) + DqtParams(cfg, n);
      Told(Run(DqtProg(), s + rest), |s|, cfg, QuantLocs(n, 0))
  {
    hide Run, Told, QuantBytes, DqtCoefs, Wide, QuantLocs, NaturalAt;
    var prec, params := Wide(cfg, n), DqtParams(cfg, n);
    var q := QuantBytes(cfg, n, prec, 0);
    var length, b := |params|, n + if prec then 16 else 0;
    QuantSize(cfg, n, prec, 0);
    QuantRun(cfg, n, prec, 0, [], rest);
    var p := DqtTables(length, []);
    RunRead(p, b, q + rest);
    assert p.k(b) == DqtCoefs(n, prec, 0, length, []);
    var g := Run(DqtCoefs(n, prec, 0, length, []), q + rest);
    assert Locs([]) + QuantLocs(n, 0) == QuantLocs(n, 0);
    ToldAfter([], 1, g, |q|, cfg, QuantLocs(n, 0));
    assert [b] + (q + rest) == params + rest;
    RunTwo([], length => DqtTables(length - 2, []), length + 2, params + rest);
    ToldAfter([], 2, Run(p, params + rest), |params|, cfg, QuantLocs(n, 0));
    assert (Two(length + 2) + params) + rest == Two(length + 2) + (params + rest);
  }

  // ----- DHT

  function BitBytes(cfg: Memory, ac: bool, n: nat, i: nat): seq<byte> {
    if i == 0 then [] else BitBytes(cfg, ac, n, i - 1) + [Low(Bit(cfg, ac, n, i))]
  }

  function ValBytes(cfg: Memory, ac: bool, n: nat, i: int): seq<byte> {
    if i <= 0 then [] else ValBytes(cfg, ac, n, i - 1) + [Low(Fetch(cfg, HuffVal(ac, n, i - 1)))]
  }

  function DhtParams(cfg: Memory, ac: bool, n: nat): seq<byte> {
    [Low(n + if ac then 16 else 0)] + (BitBytes(cfg, ac, n, 16) + ValBytes(cfg, ac, n, Codes(cfg, ac, n, 16)))
  }

  predicate LegalHuff(cfg: Memory, ac: bool, n: nat) {
    && n < NUM_HUFF_TBLS && Codes(cfg, ac, n, 16) <= 256
    && (forall i :: 1 <= i <= 16 ==> 0 <= Bit(cfg, ac, n, i) < 256)
    && (forall i: nat :: i < Codes(cfg, ac, n, 16) ==> 0 <= Fetch(cfg, HuffVal(ac, n, i)) < 256)
  }

  function HuffLocs(ac: bool, n: nat): set<Loc> {
    (set i: nat | i < 17 :: HuffBits(ac, n, i)) + (set i: nat | i < 256 :: HuffVal(ac, n, i))
  }

  // Reading more code counts, and more symbols.
  lemma {:induction false} BitsRun(index: nat, bits: seq<nat>, more: seq<byte>, length: int, s: seq<byte>)
    requires 1 <= |bits| && |bits| + |more| <= 17 && length >= 0
    ensures Run(DhtBits(index, bits, length), more + s) == After([], |more|, Run(DhtBits(index, bits + more, length), s))
    decreases |more|
  {
    hide Run, DhtBits, DhtVals;
    if more == [] {
      assert more + s == s && bits + more == bits;
      AfterNothing(Run(DhtBits(index, bits, length), s));
    } else {
      var b := more[0];
      BitsStep(index, bits, b, length);
      assert more + s == [b] + (more[1..] + s);
      RunRead(DhtBits(index, bits, length), b, more[1..] + s);
      BitsRun(index, bits + [b], more[1..], length, s);
      assert (bits + [b]) + more[1..] == bits + more;
    }
  }

  lemma BitsStep(index: nat, bits: seq<nat>, b: byte, length: int)
    requires 1 <= |bits| < 17 && length >= 0
    ensures var p := DhtBits(index, bits, length);
      p.Read? && p.log == [] && p.k(b) == DhtBits(index, bits + [b], length)
  {
    hide Total;
  }

  lemma AfterNothing(g: Parsed)
    ensures After([], 0, g) == g
  {
    assert [] + g.log == g.log;
  }

  lemma {:induction false} ValsRun(index: nat, bits: seq<nat>, vals: seq<int>, more: seq<byte>, length: int, s: seq<byte>)
    requires |bits| == 17 && |vals| + |more| <= Total(bits) <= 256 && Total(bits) <= length
    ensures Run(DhtVals(index, bits, vals, length), more + s) == After([], |more|, Run(DhtVals(index, bits, vals + more, length), s))
    decreases |more|
  {
    hide Run, DhtVals, Total;
    if more == [] {
      assert more + s == s && vals + more == vals;
      AfterNothing(Run(DhtVals(index, bits, vals, length), s));
    } else {
      var v := more[0];
      ValsStep(index, bits, vals, v, length);
      assert more + s == [v] + (more[1..] + s);
      RunRead(DhtVals(index, bits, vals, length), v, more[1..] + s);
      ValsRun(index, bits, vals + [v], more[1..], length, s);
      assert (vals + [v]) + more[1..] == vals + more;
    }
  }

  lemma ValsStep(index: nat, bits: seq<nat>, vals: seq<int>, v: byte, length: int)
    requires |bits| == 17 && |vals| < Total(bits) <= 256 && Total(bits) <= length
    ensures var p := DhtVals(index, bits, vals, length);
      p.Read? && p.log == [] && p.k(v) == DhtVals(index, bits, vals + [v], length)
  {
    hide Total;
  }

  lemma {:induction false} TotalCodes(cfg: Memory, ac: bool, n: nat, i: nat)
    requires LegalHuff(cfg, ac, n) && i <= 16
    ensures var bits: seq<nat> := [0] + BitBytes(cfg, ac, n, i);
      |bits| == i + 1 && Total(bits) == Codes(cfg, ac, n, i) && Codes(cfg, ac, n, i) <= Codes(cfg, ac, n, 16)
    decreases i
  {
    hide LegalHuff, Bit;
    TotalGrows(cfg, ac, n, i);
    var bits: seq<nat> := [0] + BitBytes(cfg, ac, n, i);
    if i > 0 {
      TotalCodes(cfg, ac, n, i - 1);
      BitByteAt(cfg, ac, n, i, i - 1);
      assert bits[..i] == [0] + BitBytes(cfg, ac, n, i - 1);
      assert bits[i] == BitBytes(cfg, ac, n, i)[i - 1];
    } else {
      assert bits == [0] && bits[..0] == [];
    }
  }

  lemma {:induction false} TotalGrows(cfg: Memory, ac: bool, n: nat, i: nat)
    requires LegalHuff(cfg, ac, n) && i <= 16
    ensures 0 <= Codes(cfg, ac, n, i) <= Codes(cfg, ac, n, 16)
    decreases 16 - i
  {
    CodesNonNegative(cfg, ac, n, i);
    if i < 16 { TotalGrows(cfg, ac, n, i + 1); }
  }

  lemma {:induction false} CodesNonNegative(cfg: Memory, ac: bool, n: nat, i: nat)
    requires LegalHuff(cfg, ac, n) && i <= 16
    ensures 0 <= Codes(cfg, ac, n, i)
    decreases i
  {
    if i > 0 { CodesNonNegative(cfg, ac, n, i - 1); }
  }

  lemma {:induction false} BitByteAt(cfg: Memory, ac: bool, n: nat, i: nat, k: nat)
    requires LegalHuff(cfg, ac, n) && k < i <= 16
    ensures |BitBytes(cfg, ac, n, i)| == i && BitBytes(cfg, ac, n, i)[k] == Bit(cfg, ac, n, k + 1)
    decreases i
  {
    if k < i - 1 { BitByteAt(cfg, ac, n, i - 1, k); }
    else if i > 1 { BitByteAt(cfg, ac, n, i - 1, 0); }
  }

  lemma {:induction false} ValBytesSize(cfg: Memory, ac: bool, n: nat, i: nat)
    ensures |ValBytes(cfg, ac, n, i)| == i
  {
    if i > 0 { ValBytesSize(cfg, ac, n, i - 1); }
  }

  lemma {:induction false} ValByteAt(cfg: Memory, ac: bool, n: nat, i: nat, k: nat)
    requires LegalHuff(cfg, ac, n) && k < i <= Codes(cfg, ac, n, 16)
    ensures |ValBytes(cfg, ac, n, i)| == i && ValBytes(cfg, ac, n, i)[k] == Fetch(cfg, HuffVal(ac, n, k))
    decreases i
  {
    hide Codes;
    ValBytesSize(cfg, ac, n, i - 1);
    if k < i - 1 { ValByteAt(cfg, ac, n, i - 1, k); }
  }

  /** Storing the parsed table tells every entry of it. */
  lemma StoredHuff(cfg: Memory, ac: bool, n: nat)
    requires LegalHuff(cfg, ac, n)
    ensures var bits, vals := [0] + BitBytes(cfg, ac, n, 16), ValBytes(cfg, ac, n, Codes(cfg, ac, n, 16));
      |bits| == 17 && Copies(StoreHuff(ac, n, bits, vals), cfg) && Locs(StoreHuff(ac, n, bits, vals)) == HuffLocs(ac, n)
  {
    hide Codes, BitBytes, ValBytes, LegalHuff;
    BitByteAt(cfg, ac, n, 16, 0);
    TotalCodes(cfg, ac, n, 16);
    var count := Codes(cfg, ac, n, 16);
    var bits, vals := [0] + BitBytes(cfg, ac, n, 16), ValBytes(cfg, ac, n, count);
    ValBytesSize(cfg, ac, n, count);
    var log := StoreHuff(ac, n, bits, vals);
    forall i | 0 <= i < |log|
      ensures log[i].val == Sent(cfg, log[i].loc)
    {
      if i == 0 {
        assert log[i] == Store(HuffBits(ac, n, 0), 0);
      } else if i < 17 {
        BitByteAt(cfg, ac, n, 16, i - 1);
        assert log[i] == Store(HuffBits(ac, n, i), bits[i]);
      } else {
        if i - 17 < count { ValByteAt(cfg, ac, n, count, i - 17); }
        assert log[i].loc == HuffVal(ac, n, i - 17);
      }
    }
    StoreHuffLocs(ac, n, bits, vals);
  }

  lemma StoreHuffLocs(ac: bool, n: nat, bits: seq<nat>, vals: seq<int>)
    requires |bits| == 17
    ensures Locs(StoreHuff(ac, n, bits, vals)) == HuffLocs(ac, n)
  {
    var log := StoreHuff(ac, n, bits, vals);
    forall l | l in HuffLocs(ac, n)
      ensures l in Locs(log)
    {
      var i := if l.HuffBits? then l.i else 17 + l.i;
      assert log[i].loc == l;
    }
  }

  lemma DhtRun(cfg: Memory, ac: bool, n: nat, rest: seq<byte>)
    requires LegalHuff(cfg, ac, n)
    ensures var s := Two(|DhtParams(cfg, ac, n)| + 2) + DhtParams(cfg, ac, n);
      Told(Run(DhtProg(), s + rest), |s|, cfg, HuffLocs(ac, n))
  {
    hide Run, Told, BitBytes, ValBytes, Codes, LegalHuff, Total, DhtBits, DhtVals, StoreHuff, HuffLocs, DhtTables;
    var params, count := DhtParams(cfg, ac, n), Codes(cfg, ac, n, 16);
    var index, b, v := TableIndex(cfg, ac, n), BitBytes(cfg, ac, n, 16), ValBytes(cfg, ac, n, count);
    LegalCount(cfg, ac, n);
    ValBytesSize(cfg, ac, n, count);
    HuffTableRun(cfg, ac, n, rest);
    var s := [index] + (b + (v + rest));
    assert params + rest == s;
    var g := Run(DhtTables(count + 17, []), s);
    RunTwo([], length => DhtTables(length - 2, []), |params| + 2, s);
    assert Locs([]) + HuffLocs(ac, n) == HuffLocs(ac, n);
    ToldAfter([], 2, g, |params|, cfg, HuffLocs(ac, n));
    assert (Two(|params| + 2) + params) + rest == Two(|params| + 2) + (params + rest);
  }

  function TableIndex(cfg: Memory, ac: bool, n: nat): (index: nat)
    requires LegalHuff(cfg, ac, n)
    ensures index < 20 && index == n + (if ac then 16 else 0) && IsAc(index) == ac && HuffIndex(index) == n
  {
    n + if ac then 16 else 0
  }

  lemma HuffTableRun(cfg: Memory, ac: bool, n: nat, rest: seq<byte>)
    requires LegalHuff(cfg, ac, n)
    ensures var count := Codes(cfg, ac, n, 16);
      var s := [TableIndex(cfg, ac, n)] + (BitBytes(cfg, ac, n, 16) + (ValBytes(cfg, ac, n, count) + rest));
      0 <= count && Told(Run(DhtTables(count + 17, []), s), 17 + count, cfg, HuffLocs(ac, n))
  {
    hide Run, Told, BitBytes, ValBytes, Codes, LegalHuff, Total, DhtBits, DhtVals, StoreHuff, HuffLocs, DhtTables, TableIndex, IsAc, HuffIndex;
    var count := Codes(cfg, ac, n, 16);
    var index, b, v := TableIndex(cfg, ac, n), BitBytes(cfg, ac, n, 16), ValBytes(cfg, ac, n, count);
    LegalCount(cfg, ac, n);
    TotalCodes(cfg, ac, n, 16);
    ValBytesSize(cfg, ac, n, count);
    var bits: seq<nat> := [0] + b;
    var p0, p1, p2 := DhtTables(count + 17, []), DhtBits(index, [0], count), DhtVals(index, bits, [], count);
    TableStep(index, count);
    RunRead(p0, index, b + (v + rest));
    BitsRun(index, [0], b, count, v + rest);
    BitsEnd(index, bits, count);
    ValsRun(index, bits, [], v, count, rest);
    assert [] + v == v;
    ValsEnd(index, bits, v, count);
    StoredHuff(cfg, ac, n);
    var log := StoreHuff(ac, n, bits, v);
    var g := Run(Halt(log, true), rest);
    TableEnd(log, rest);
    assert Locs([]) + HuffLocs(ac, n) == HuffLocs(ac, n);
    assert Told(g, 0, cfg, HuffLocs(ac, n)) by { HaltTold(log, rest, cfg); }
    ToldAfter([], count, g, 0, cfg, HuffLocs(ac, n));
    ToldAfter([], 16, Run(p2, v + rest), count, cfg, HuffLocs(ac, n));
    ToldAfter([], 1, Run(p1, b + (v + rest)), 16 + count, cfg, HuffLocs(ac, n));
  }

  lemma HaltTold(log: seq<Store>, rest: seq<byte>, cfg: Memory)
    requires Copies(log, cfg)
    ensures Told(Run(Halt(log, true), rest), 0, cfg, Locs(log))
  {
  }

  lemma TableEnd(log: seq<Store>, rest: seq<byte>)
    ensures DhtTables(0, log) == Halt(log, true)
  {
  }

  lemma LegalCount(cfg: Memory, ac: bool, n: nat)
    requires LegalHuff(cfg, ac, n)
    ensures 0 <= Codes(cfg, ac, n, 16) <= 256 && |BitBytes(cfg, ac, n, 16)| == 16 && n < 4
  {
    hide Codes, BitBytes;
    TotalGrows(cfg, ac, n, 16);
    BitByteAt(cfg, ac, n, 16, 0);
  }

  lemma TableStep(index: byte, count: nat)
    ensures var p := DhtTables(count + 17, []); p.Read? && p.log == [] && p.k(index) == DhtBits(index, [0], count)
  {
    hide DhtBits;
  }

  lemma BitsEnd(index: nat, bits: seq<nat>, length: nat)
    requires |bits| == 17 && Total(bits) <= 256 && Total(bits) <= length
    ensures DhtBits(index, bits, length) == DhtVals(index, bits, [], length)
  {
    hide Total, DhtVals;
  }

  lemma ValsEnd(index: nat, bits: seq<nat>, vals: seq<int>, length: nat)
    requires |bits| == 17 && |vals| == Total(bits) == length <= 256 && HuffIndex(index) < 4
    ensures DhtVals(index, bits, vals, length) == DhtTables(0, StoreHuff(IsAc(index), HuffIndex(index), bits, vals))
  {
    hide Total, StoreHuff, IsAc, HuffIndex, DhtTables;
  }

  // ----- DRI

  function DriParams(cfg: Memory): seq<byte> {
    Two(Fetch(cfg, RestartInterval))
  }

  lemma TwoLow(v: int)
    ensures Two(v) == Two(v % 0x10000)
  {
    var q, r := v / 0x10000, v % 0x10000;
    var a, b := r / 256, r % 256;
    assert v == 256 * (256 * q + a) + b;
    DivideByte(v, 256 * q + a, b);
    DivideByte(256 * q + a, q, a);
    DivideByte(a, 0, a);
  }

  lemma DivideByte(v: int, q: int, r: int)
    requires v == 256 * q + r && 0 <= r < 256
    ensures v / 256 == q && v % 256 == r
  {
  }

  lemma DriRun(cfg: Memory, rest: seq<byte>)
    ensures var s := Two(|DriParams(cfg)| + 2) + DriParams(cfg);
      Told(Run(DriProg(), s + rest), |s|, cfg, {RestartInterval})
  {
    hide Run;
    var v, s := Fetch(cfg, RestartInterval) % 0x10000, Two(4) + DriParams(cfg);
    TwoLow(Fetch(cfg, RestartInterval));
    assert s + rest == Two(4) + (DriParams(cfg) + rest);
    var k := v => Halt([Store(RestartInterval, v)], true);
    RunTwo([], length => if length != 4 then Halt([], false) else ReadTwo([], v => Halt([Store(RestartInterval, v)], true)), 4, DriParams(cfg) + rest);
    RunTwo([], k, v, rest);
    var log := [Store(RestartInterval, v)];
    HaltTold(log, rest, cfg);
    assert Locs(log) == {RestartInterval} by { assert log[0].loc == RestartInterval; }
    assert Locs([]) + {RestartInterval} == {RestartInterval};
    ToldAfter([], 2, Run(Halt(log, true), rest), 0, cfg, {RestartInterval});
    ToldAfter([], 2, After([], 2, Run(Halt(log, true), rest)), 2, cfg, {RestartInterval});
  }

  // ----- SOF

  function CompTriple(cfg: Memory, ci: nat): seq<byte> {
    [Low(Fetch(cfg, ComponentId(ci))), Low(16 * Fetch(cfg, HSamp(ci)) + Fetch(cfg, VSamp(ci))), Low(Fetch(cfg, QuantNo(ci)))]
  }

  function CompBytes(cfg: Memory, ci: nat): seq<byte>
    decreases Fetch(cfg, NumComponents) - ci
  {
    if ci >= Fetch(cfg, NumComponents) then [] else CompTriple(cfg, ci) + CompBytes(cfg, ci + 1)
  }

  function SofParams(cfg: Memory): seq<byte> {
    [Low(Fetch(cfg, DataPrecision))] + (Two(Fetch(cfg, ImageHeight)) + (Two(Fetch(cfg, ImageWidth))
    + ([Low(Fetch(cfg, NumComponents))] + CompBytes(cfg, 0))))
  }

  predicate LegalComp(cfg: Memory, ci: nat) {
    && 0 <= Fetch(cfg, ComponentId(ci)) < 256 && 0 <= Fetch(cfg, HSamp(ci)) < 16 && 0 <= Fetch(cfg, VSamp(ci)) < 16
    && 0 <= Fetch(cfg, QuantNo(ci)) < 256
  }

  predicate LegalFrame(cfg: Memory) {
    && 1 <= Fetch(cfg, NumComponents) < 256 && 0 <= Fetch(cfg, DataPrecision) < 256
    && 1 <= Fetch(cfg, ImageHeight) < 0x10000 && 1 <= Fetch(cfg, ImageWidth) < 0x10000
    && (forall ci: nat :: ci < Fetch(cfg, NumComponents) ==> LegalComp(cfg, ci))
  }

  function CompLocs(cfg: Memory, ci: nat): set<Loc>
    decreases Fetch(cfg, NumComponents) - ci
  {
    if ci >= Fetch(cfg, NumComponents) then {}
    else {ComponentId(ci), HSamp(ci), VSamp(ci), QuantNo(ci)} + CompLocs(cfg, ci + 1)
  }

  function FrameLocs(cfg: Memory): set<Loc> {
    {ProgressiveMode, ArithCode, DataPrecision, ImageHeight, ImageWidth, NumComponents} + CompLocs(cfg, 0)
  }

  lemma {:induction false} CompSize(cfg: Memory, ci: nat)
    requires ci <= Fetch(cfg, NumComponents)
    ensures |CompBytes(cfg, ci)| == 3 * (Fetch(cfg, NumComponents) - ci)
    decreases Fetch(cfg, NumComponents) - ci
  {
    if ci < Fetch(cfg, NumComponents) { CompSize(cfg, ci + 1); }
  }

  lemma LocsOne(a: Store)
    ensures Locs([a]) == {a.loc}
  {
    assert [a][0].loc == a.loc;
  }

  lemma LocsTwo(a: Store, b: Store)
    ensures Locs([a, b]) == {a.loc, b.loc}
  {
    assert [a, b][0].loc == a.loc && [a, b][1].loc == b.loc;
  }

  lemma {:induction false} CompsRun(cfg: Memory, ci: nat, log: seq<Store>, rest: seq<byte>)
    requires LegalFrame(cfg) && ci <= Fetch(cfg, NumComponents) && Copies(log, cfg)
    ensures Told(Run(SofComps(Fetch(cfg, NumComponents), ci, log), CompBytes(cfg, ci) + rest), |CompBytes(cfg, ci)|, cfg, Locs(log) + CompLocs(cfg, ci))
    decreases Fetch(cfg, NumComponents) - ci
  {
    hide Run, Told, Copies, SofComps;
    var num := Fetch(cfg, NumComponents);
    if ci == num {
      CompsEnd(num, log);
      assert CompBytes(cfg, ci) + rest == rest && Locs(log) + CompLocs(cfg, ci) == Locs(log);
      HaltTold(log, rest, cfg);
    } else {
      var last := [Store(QuantNo(ci), Fetch(cfg, QuantNo(ci)))];
      OneCopy(last[0], cfg);
      CompsRun(cfg, ci + 1, last, rest);
      LocsOne(last[0]);
      CompRun(cfg, ci, log, CompBytes(cfg, ci + 1) + rest, |CompBytes(cfg, ci + 1)|, Locs(last) + CompLocs(cfg, ci + 1));
      assert CompBytes(cfg, ci) + rest == CompTriple(cfg, ci) + (CompBytes(cfg, ci + 1) + rest);
      assert Locs(log) + ({ComponentId(ci), HSamp(ci), VSamp(ci)} + (Locs(last) + CompLocs(cfg, ci + 1))) == Locs(log) + CompLocs(cfg, ci);
    }
  }

  lemma OneCopy(s: Store, cfg: Memory)
    ensures s.val == Sent(cfg, s.loc) ==> Copies([s], cfg)
  {
  }

  lemma TwoCopies(a: Store, b: Store, cfg: Memory)
    ensures a.val == Sent(cfg, a.loc) && b.val == Sent(cfg, b.loc) ==> Copies([a, b], cfg)
  {
  }

  lemma CompsEnd(num: nat, log: seq<Store>)
    ensures SofComps(num, num, log) == Halt(log, true)
  {
  }

  lemma CompRun(cfg: Memory, ci: nat, log: seq<Store>, s: seq<byte>, used: nat, locs: set<Loc>)
    requires ci < Fetch(cfg, NumComponents) && LegalComp(cfg, ci) && Copies(log, cfg)
    requires Told(Run(SofComps(Fetch(cfg, NumComponents), ci + 1, [Store(QuantNo(ci), Fetch(cfg, QuantNo(ci)))]), s), used, cfg, locs)
    ensures Told(Run(SofComps(Fetch(cfg, NumComponents), ci, log), CompTriple(cfg, ci) + s), 3 + used, cfg,
                 Locs(log) + ({ComponentId(ci), HSamp(ci), VSamp(ci)} + locs))
  {
    hide Run, Told, Copies;
    var num, id, h, v, tq := Fetch(cfg, NumComponents), Fetch(cfg, ComponentId(ci)), Fetch(cfg, HSamp(ci)), Fetch(cfg, VSamp(ci)), Fetch(cfg, QuantNo(ci));
    var c := 16 * h + v;
    assert c / 16 == h && c % 16 == v;
    var p0 := SofComps(num, ci, log);
    var p1 := p0.k(id);
    var p2 := p1.k(c);
    assert p2.k(tq) == SofComps(num, ci + 1, [Store(QuantNo(ci), tq)]);
    assert CompTriple(cfg, ci) == [id, c, tq];
    assert CompTriple(cfg, ci) + s == [id] + ([c] + ([tq] + s));
    RunRead(p2, tq, s);
    RunRead(p1, c, [tq] + s);
    RunRead(p0, id, [c] + ([tq] + s));
    OneCopy(p1.log[0], cfg);
    TwoCopies(p2.log[0], p2.log[1], cfg);
    LocsOne(p1.log[0]);
    LocsTwo(p2.log[0], p2.log[1]);
    ToldAfter(p2.log, 1, Run(p2.k(tq), s), used, cfg, locs);
    ToldAfter(p1.log, 1, Run(p2, [tq] + s), 1 + used, cfg, {HSamp(ci), VSamp(ci)} + locs);
    ToldAfter(log, 1, Run(p1, [c] + ([tq] + s)), 2 + used, cfg, {ComponentId(ci)} + ({HSamp(ci), VSamp(ci)} + locs));
    assert {ComponentId(ci)} + ({HSamp(ci), VSamp(ci)} + locs) == {ComponentId(ci), HSamp(ci), VSamp(ci)} + locs;
  }

  lemma SofRun(cfg: Memory, rest: seq<byte>)
    requires LegalFrame(cfg) && Fetch(cfg, ProgressiveMode) in {0, 1} && Fetch(cfg, ArithCode) in {0, 1}
    ensures var s := Two(|SofParams(cfg)| + 2) + SofParams(cfg);
      Told(Run(SofProg(Fetch(cfg, ProgressiveMode) == 1, Fetch(cfg, ArithCode) == 1, false), s + rest), |s|, cfg, FrameLocs(cfg))
  {
    hide Run, Told, Copies, CompBytes, LegalComp, SofPrecision, CompLocs;
    var num, prog, arith := Fetch(cfg, NumComponents), Fetch(cfg, ProgressiveMode) == 1, Fetch(cfg, ArithCode) == 1;
    CompSize(cfg, 0);
    var params := SofParams(cfg);
    var length, log := |params| + 2, StoreProcess(prog, arith);
    SofParamsRun(cfg, rest);
    RunTwo(log, length => SofPrecision(length, false), length, params + rest);
    TwoCopies(log[0], log[1], cfg);
    LocsTwo(log[0], log[1]);
    var locs := {DataPrecision, ImageHeight, ImageWidth, NumComponents} + CompLocs(cfg, 0);
    ToldAfter(log, 2, Run(SofPrecision(length, false), params + rest), |params|, cfg, locs);
    assert {ProgressiveMode, ArithCode} + locs == FrameLocs(cfg);
    assert (Two(length) + params) + rest == Two(length) + (params + rest);
  }

  lemma SofParamsRun(cfg: Memory, rest: seq<byte>)
    requires LegalFrame(cfg)
    ensures Told(Run(SofPrecision(3 * Fetch(cfg, NumComponents) + 8, false), SofParams(cfg) + rest), |SofParams(cfg)|, cfg,
                 {DataPrecision, ImageHeight, ImageWidth, NumComponents} + CompLocs(cfg, 0))
  {
    hide Run, Told, Copies, CompBytes, LegalComp, CompLocs, SofNum;
    var prec, height, width := Fetch(cfg, DataPrecision), Fetch(cfg, ImageHeight), Fetch(cfg, ImageWidth);
    var length := 3 * Fetch(cfg, NumComponents) + 8;
    var last := [Low(Fetch(cfg, NumComponents))] + CompBytes(cfg, 0);
    NumRun(cfg, rest);
    var p0, l1, l2 := SofPrecision(length, false), [Store(DataPrecision, prec)], [Store(ImageHeight, height)];
    var s1 := Two(width) + (last + rest);
    var s0 := Two(height) + s1;
    assert SofParams(cfg) + rest == [prec] + s0;
    RunRead(p0, prec, s0);
    RunTwo(l1, height => SofWidth(length, false, height), height, s1);
    RunTwo(l2, width => SofNum(length, false, height, width), width, last + rest);
    OneCopy(l1[0], cfg);
    OneCopy(l2[0], cfg);
    LocsOne(l1[0]);
    LocsOne(l2[0]);
    var locs := {ImageWidth, NumComponents} + CompLocs(cfg, 0);
    ToldAfter(l2, 2, Run(SofNum(length, false, height, width), last + rest), |last|, cfg, locs);
    ToldAfter(l1, 2, Run(SofWidth(length, false, height), s1), 2 + |last|, cfg, {ImageHeight} + locs);
    assert Locs([]) == {};
    assert Copies([], cfg) by { NoCopies(cfg); }
    ToldAfter([], 1, Run(ReadTwo(l1, height => SofWidth(length, false, height)), s0), 4 + |last|, cfg, {DataPrecision} + ({ImageHeight} + locs));
    assert Locs([]) + ({DataPrecision} + ({ImageHeight} + locs)) == {DataPrecision, ImageHeight, ImageWidth, NumComponents} + CompLocs(cfg, 0);
  }

  lemma NoCopies(cfg: Memory)
    ensures Copies([], cfg)
  {
  }

  lemma NumRun(cfg: Memory, rest: seq<byte>)
    requires LegalFrame(cfg)
    ensures var last := [Low(Fetch(cfg, NumComponents))] + CompBytes(cfg, 0);
      Told(Run(SofNum(3 * Fetch(cfg, NumComponents) + 8, false, Fetch(cfg, ImageHeight), Fetch(cfg, ImageWidth)), last + rest), |last|, cfg,
           {ImageWidth, NumComponents} + CompLocs(cfg, 0))
  {
    hide Run, Told, Copies, CompBytes, LegalComp, CompLocs, SofComps;
    var num, width := Fetch(cfg, NumComponents), Fetch(cfg, ImageWidth);
    var log, first := [Store(NumComponents, num)], [Store(ImageWidth, width)];
    OneCopy(log[0], cfg);
    OneCopy(first[0], cfg);
    LocsOne(log[0]);
    LocsOne(first[0]);
    CompsRun(cfg, 0, log, rest);
    var p := SofNum(3 * num + 8, false, Fetch(cfg, ImageHeight), width);
    assert p.k(num) == SofComps(num, 0, log);
    assert [num] + CompBytes(cfg, 0) + rest == [num] + (CompBytes(cfg, 0) + rest);
    RunRead(p, num, CompBytes(cfg, 0) + rest);
    ToldAfter(first, 1, Run(SofComps(num, 0, log), CompBytes(cfg, 0) + rest), |CompBytes(cfg, 0)|, cfg, {NumComponents} + CompLocs(cfg, 0));
    assert {ImageWidth} + ({NumComponents} + CompLocs(cfg, 0)) == {ImageWidth, NumComponents} + CompLocs(cfg, 0);
  }

  // ----- SOS

  function CompAt(cfg: Memory, i: nat): nat {
    var ci := Fetch(cfg, CurComp(i));
    if ci < 0 then 0 else ci
  }

  function SpecBytes(cfg: Memory, i: nat): seq<byte>
    decreases Fetch(cfg, CompsInScan) - i
  {
    if i >= Fetch(cfg, CompsInScan) then [] else SpecPair(cfg, CompAt(cfg, i)) + SpecBytes(cfg, i + 1)
  }

  function SpecPair(cfg: Memory, ci: nat): seq<byte> {
    [Low(Fetch(cfg, ComponentId(ci))), Low(16 * Sent(cfg, DcTblNo(ci)) + Sent(cfg, AcTblNo(ci)))]
  }

  function ApproxBytes(cfg: Memory): seq<byte> {
    [Low(Fetch(cfg, ScanSs)), Low(Fetch(cfg, ScanSe)), Low(16 * Fetch(cfg, ScanAh) + Fetch(cfg, ScanAl))]
  }

  function SosParamBytes(cfg: Memory): seq<byte> {
    [Low(Fetch(cfg, CompsInScan))] + (SpecBytes(cfg, 0) + ApproxBytes(cfg))
  }

  predicate LegalApprox(cfg: Memory) {
    && 0 <= Fetch(cfg, ScanSs) < 256 && 0 <= Fetch(cfg, ScanSe) < 256 && 0 <= Fetch(cfg, ScanAh) < 16 && 0 <= Fetch(cfg, ScanAl) < 16
  }

  predicate LegalSpec(cfg: Memory, ci: int) {
    && 0 <= ci < Fetch(cfg, NumComponents) && 0 <= Fetch(cfg, ComponentId(ci)) < 256
    && 0 <= Fetch(cfg, DcTblNo(ci)) < 16 && 0 <= Fetch(cfg, AcTblNo(ci)) < 16
  }

  /** A scan: components in the order of the frame, as every valid script has them. */
  predicate LegalScanSpec(cfg: Memory) {
    && 1 <= Fetch(cfg, CompsInScan) <= MAX_COMPS_IN_SCAN && LegalApprox(cfg)
    && (forall i: nat :: i < Fetch(cfg, CompsInScan) ==> LegalSpec(cfg, Fetch(cfg, CurComp(i))))
    && (forall i: nat, j: nat :: i < j < Fetch(cfg, CompsInScan) ==> Fetch(cfg, CurComp(i)) < Fetch(cfg, CurComp(j)))
  }

  predicate DistinctIds(cfg: Memory) {
    forall i: nat, j: nat :: i < j < Fetch(cfg, NumComponents) ==> Fetch(cfg, ComponentId(i)) != Fetch(cfg, ComponentId(j))
  }

  function CompsUpTo(cfg: Memory, i: nat): seq<int> {
    seq(i, k requires k >= 0 => Fetch(cfg, CurComp(k)))
  }

  function SpecLocs(cfg: Memory, i: nat): set<Loc>
    decreases Fetch(cfg, CompsInScan) - i
  {
    if i >= Fetch(cfg, CompsInScan) then {ScanSs, ScanSe, ScanAh, ScanAl}
    else {CurComp(i), DcTblNo(CompAt(cfg, i)), AcTblNo(CompAt(cfg, i))} + SpecLocs(cfg, i + 1)
  }

  lemma {:induction false} Increasing(cfg: Memory, i: nat)
    requires LegalScanSpec(cfg) && i < Fetch(cfg, CompsInScan)
    ensures i <= Fetch(cfg, CurComp(i))
  {
    hide LegalSpec, LegalApprox;
    if i > 0 {
      Increasing(cfg, i - 1);
    } else {
      LegalAt(cfg, 0);
    }
  }

  lemma LegalAt(cfg: Memory, i: nat)
    requires LegalScanSpec(cfg) && i < Fetch(cfg, CompsInScan)
    ensures LegalSpec(cfg, CompAt(cfg, i)) && CompAt(cfg, i) == Fetch(cfg, CurComp(i))
  {
  }

  /** A component of the frame is found exactly if it is one of those that a scan can name. */
  lemma {:induction false} FindsId(cfg: Memory, cur: seq<int>, c: nat, ci: nat)
    requires DistinctIds(cfg) && |cur| <= c < Fetch(cfg, NumComponents) && ci <= |Ids(cfg)|
    ensures FindId(Ids(cfg), Fetch(cfg, ComponentId(c)), cur, ci) == if ci <= c < |Ids(cfg)| then c else |Ids(cfg)|
    decreases |Ids(cfg)| - ci
  {
    if ci < |Ids(cfg)| {
      assert Ids(cfg)[ci] == Fetch(cfg, ComponentId(ci));
      FindsId(cfg, cur, c, ci + 1);
    }
  }

  lemma ApproxRun(cfg: Memory, log: seq<Store>, rest: seq<byte>)
    requires LegalApprox(cfg) && Copies(log, cfg)
    ensures Told(Run(SosParams(log), ApproxBytes(cfg) + rest), 3, cfg, Locs(log) + {ScanSs, ScanSe, ScanAh, ScanAl})
  {
    hide Run, Told, Copies, Apply, Locs;
    var ss, se := Fetch(cfg, ScanSs), Fetch(cfg, ScanSe);
    var c := 16 * Fetch(cfg, ScanAh) + Fetch(cfg, ScanAl);
    var p0 := SosParams(log);
    var p1 := p0.k(ss);
    var p2 := p1.k(se);
    assert ApproxBytes(cfg) + rest == [ss] + ([se] + ([c] + rest));
    LastRun(cfg, p2.k(c), rest);
    RunRead(p2, c, rest);
    RunRead(p1, se, [c] + rest);
    RunRead(p0, ss, [se] + ([c] + rest));
    OneCopy(p1.log[0], cfg);
    OneCopy(p2.log[0], cfg);
    LocsOne(p1.log[0]);
    LocsOne(p2.log[0]);
    ToldAfter(p2.log, 1, Run(p2.k(c), rest), 0, cfg, {ScanAh, ScanAl});
    ToldAfter(p1.log, 1, Run(p2, [c] + rest), 1, cfg, {ScanSe} + {ScanAh, ScanAl});
    ToldAfter(log, 1, Run(p1, [se] + ([c] + rest)), 2, cfg, {ScanSs} + ({ScanSe} + {ScanAh, ScanAl}));
    assert {ScanSs} + ({ScanSe} + {ScanAh, ScanAl}) == {ScanSs, ScanSe, ScanAh, ScanAl};
  }

  lemma LastRun(cfg: Memory, p: Prog, rest: seq<byte>)
    requires LegalApprox(cfg) && p == Halt(StoreApprox(16 * Fetch(cfg, ScanAh) + Fetch(cfg, ScanAl)), true)
    ensures Told(Run(p, rest), 0, cfg, {ScanAh, ScanAl})
  {
    hide Run, Told, Copies, Locs;
    TwoCopies(p.log[0], p.log[1], cfg);
    LocsTwo(p.log[0], p.log[1]);
    HaltTold(p.log, rest, cfg);
  }

  // One component of the scan.
  lemma SpecRun(cfg: Memory, i: nat, log: seq<Store>, s: seq<byte>)
    requires LegalScanSpec(cfg) && DistinctIds(cfg) && i < Fetch(cfg, CompsInScan)
    ensures var n, ci, cur, ids := Fetch(cfg, CompsInScan), CompAt(cfg, i), CompsUpTo(cfg, i), Ids(cfg);
      Run(SosComps(n, cur, ids, log), SpecPair(cfg, ci) + s) ==
        After(log, 2, if ci < |ids| then Run(SosComps(n, CompsUpTo(cfg, i + 1), ids, SpecLog(cfg, i)), s) else Parsed([], Failed))
  {
    hide Run, FindId, LegalApprox, DistinctIds, Ids;
    var n, ci, cur, ids := Fetch(cfg, CompsInScan), CompAt(cfg, i), CompsUpTo(cfg, i), Ids(cfg);
    LegalAt(cfg, i);
    Increasing(cfg, i);
    FindsId(cfg, cur, ci, 0);
    var cc, td, ta := Fetch(cfg, ComponentId(ci)), Sent(cfg, DcTblNo(ci)), Sent(cfg, AcTblNo(ci));
    var c := 16 * td + ta;
    assert c / 16 == td && c % 16 == ta;
    var p := SosComps(n, cur, ids, log);
    assert SpecPair(cfg, ci) == [cc, c];
    assert SpecPair(cfg, ci) + s == [cc] + ([c] + s);
    RunRead(p, cc, [c] + s);
    RunRead(p.k(cc), c, s);
    assert ci !in cur;
    assert CompsUpTo(cfg, i + 1) == cur + [ci];
    var q := p.k(cc).k(c);
    var g := Run(q, s);
    assert After(log, 1, After([], 1, g)) == After(log, 2, g) by { assert [] + g.log == g.log; }
    if ci >= |ids| { HaltFails(s); }
  }

  lemma HaltFails(s: seq<byte>)
    ensures Run(Halt([], false), s) == Parsed([], Failed)
  {
  }

  function SpecLog(cfg: Memory, i: nat): seq<Store> {
    var ci := CompAt(cfg, i);
    [Store(CurComp(i), ci), Store(DcTblNo(ci), Sent(cfg, DcTblNo(ci))), Store(AcTblNo(ci), Sent(cfg, AcTblNo(ci)))]
  }

  lemma {:induction false} SpecsRun(cfg: Memory, i: nat, log: seq<Store>, rest: seq<byte>)
    requires LegalScanSpec(cfg) && DistinctIds(cfg) && i <= Fetch(cfg, CompsInScan) && Copies(log, cfg)
    requires NamedComps(cfg)
    ensures var n, s := Fetch(cfg, CompsInScan), SpecBytes(cfg, i) + ApproxBytes(cfg);
      Told(Run(SosComps(n, CompsUpTo(cfg, i), Ids(cfg), log), s + rest), |s|, cfg, Locs(log) + SpecLocs(cfg, i))
    decreases Fetch(cfg, CompsInScan) - i
  {
    hide Run, Told, Copies, Locs, SosComps, SosParams, LegalSpec, DistinctIds, Ids, LegalApprox, ApproxBytes;
    var n, s := Fetch(cfg, CompsInScan), SpecBytes(cfg, i) + ApproxBytes(cfg);
    if i == n {
      assert s == ApproxBytes(cfg);
      ApproxSize(cfg);
      SpecsEnd(cfg, log);
      ApproxRun(cfg, log, rest);
    } else {
      var t := SpecBytes(cfg, i + 1) + ApproxBytes(cfg);
      SpecLogCopies(cfg, i);
      SpecsRun(cfg, i + 1, SpecLog(cfg, i), rest);
      SpecRun(cfg, i, log, t + rest);
      NamedAt(cfg, i);
      assert s + rest == SpecPair(cfg, CompAt(cfg, i)) + (t + rest);
      var g := Run(SosComps(n, CompsUpTo(cfg, i + 1), Ids(cfg), SpecLog(cfg, i)), t + rest);
      ToldAfter(log, 2, g, |t|, cfg, Locs(SpecLog(cfg, i)) + SpecLocs(cfg, i + 1));
    }
  }

  lemma ApproxSize(cfg: Memory)
    ensures |ApproxBytes(cfg)| == 3
  {
  }

  lemma SpecsEnd(cfg: Memory, log: seq<Store>)
    requires Fetch(cfg, CompsInScan) >= 0
    ensures var n := Fetch(cfg, CompsInScan); SosComps(n, CompsUpTo(cfg, n), Ids(cfg), log) == SosParams(log)
  {
  }

  lemma SpecLogCopies(cfg: Memory, i: nat)
    requires LegalScanSpec(cfg) && i < Fetch(cfg, CompsInScan)
    ensures Copies(SpecLog(cfg, i), cfg)
    ensures Locs(SpecLog(cfg, i)) == {CurComp(i), DcTblNo(CompAt(cfg, i)), AcTblNo(CompAt(cfg, i))}
  {
    LegalAt(cfg, i);
    var log := SpecLog(cfg, i);
    assert Locs(log) == {log[0].loc, log[1].loc, log[2].loc};
  }

  /** All components of the scan are among those that a scan can name: the first four of the frame. */
  predicate NamedComps(cfg: Memory) {
    Fetch(cfg, CompsInScan) > 0 ==> Fetch(cfg, CurComp(Fetch(cfg, CompsInScan) - 1)) < MAX_COMPS_IN_SCAN
  }

  lemma NamedAt(cfg: Memory, i: nat)
    requires LegalScanSpec(cfg) && i < Fetch(cfg, CompsInScan) && NamedComps(cfg)
    ensures CompAt(cfg, i) < |Ids(cfg)|
  {
    LegalAt(cfg, i);
  }

  /** If not, parsing fails. */
  lemma {:induction false} SpecsFail(cfg: Memory, i: nat, log: seq<Store>, s: seq<byte>)
    requires LegalScanSpec(cfg) && DistinctIds(cfg) && i < Fetch(cfg, CompsInScan) && !NamedComps(cfg)
    ensures Run(SosComps(Fetch(cfg, CompsInScan), CompsUpTo(cfg, i), Ids(cfg), log), SpecBytes(cfg, i) + s).out == Failed
    decreases Fetch(cfg, CompsInScan) - i
  {
    hide Run, SosComps, LegalSpec, DistinctIds, Ids, CompsUpTo, LegalApprox;
    var n := Fetch(cfg, CompsInScan);
    var t := SpecBytes(cfg, i + 1) + s;
    SpecRun(cfg, i, log, t);
    assert SpecBytes(cfg, i) + s == SpecPair(cfg, CompAt(cfg, i)) + t;
    if i < n - 1 {
      SpecsFail(cfg, i + 1, SpecLog(cfg, i), s);
    } else {
      LegalAt(cfg, i);
      IdsSize(cfg);
    }
  }

  lemma IdsSize(cfg: Memory)
    ensures |Ids(cfg)| <= MAX_COMPS_IN_SCAN
  {
  }

  /** Parsing the header of a scan restores it, if its components are among the first four of the frame; otherwise it fails. */
  lemma SosRun(cfg: Memory, rest: seq<byte>)
    requires LegalScanSpec(cfg) && DistinctIds(cfg)
    ensures var s, n := Two(|SosParamBytes(cfg)| + 2) + SosParamBytes(cfg), Fetch(cfg, CompsInScan);
      var g := Run(SosProg(true, Ids(cfg)), s + rest);
      if NamedComps(cfg) then
        |g.log| >= 5 && Told(g.(log := g.log[5..]), |s|, cfg, SpecLocs(cfg, 0)) && g.log[..5] == StartScan(n)
      else g.out == Failed
  {
    hide Run, Told, Copies, Locs, SosComps, SpecBytes, ApproxBytes, LegalSpec, DistinctIds, Ids, LegalApprox, NamedComps, SpecLocs;
    var n, ids, params := Fetch(cfg, CompsInScan), Ids(cfg), SosParamBytes(cfg);
    var length, body := |params| + 2, SpecBytes(cfg, 0) + ApproxBytes(cfg);
    SpecSize(cfg, 0);
    ApproxSize(cfg);
    assert (Two(length) + params) + rest == Two(length) + ([n] + (body + rest));
    RunTwo([], length => SosCount(length, ids), length, [n] + (body + rest));
    var p := SosCount(length, ids);
    RunRead(p, n, body + rest);
    assert CompsUpTo(cfg, 0) == [];
    LogFirst(n, [], ids, StartScan(n), body + rest);
    var g := Run(SosComps(n, [], ids, []), body + rest);
    assert [] + ([] + (StartScan(n) + g.log)) == StartScan(n) + g.log;
    if NamedComps(cfg) {
      NoCopies(cfg);
      SpecsRun(cfg, 0, [], rest);
      LocsNone(SpecLocs(cfg, 0));
      ToldUsed(g, |body|, cfg, SpecLocs(cfg, 0), 3 + |body|);
    } else {
      assert body + rest == SpecBytes(cfg, 0) + (ApproxBytes(cfg) + rest);
      SpecsFail(cfg, 0, [], ApproxBytes(cfg) + rest);
    }
  }

  lemma LocsNone(locs: set<Loc>)
    ensures Locs([]) + locs == locs
  {
  }

  lemma ToldUsed(g: Parsed, used: nat, cfg: Memory, locs: set<Loc>, all: nat)
    requires Told(g, used, cfg, locs)
    ensures Told(g.(out := Done(all)), all, cfg, locs) && g.out == Done(used)
  {
  }

  lemma LogFirst(n: nat, cur: seq<int>, ids: seq<int>, log: seq<Store>, s: seq<byte>)
    requires |cur| < n
    ensures Run(SosComps(n, cur, ids, log), s) == After(log, 0, Run(SosComps(n, cur, ids, []), s))
  {
    hide Run;
    SameNext(SosComps(n, cur, ids, log), SosComps(n, cur, ids, []), s);
  }

  lemma SameNext(p: Prog, q: Prog, s: seq<byte>)
    requires p.Read? && q == Read([], p.k)
    ensures Run(p, s) == After(p.log, 0, Run(q, s))
  {
    if s != [] {
      var g := Run(p.k(s[0]), s[1..]);
      assert p.log + ([] + g.log) == p.log + g.log;
    }
  }

  lemma {:induction false} SpecSize(cfg: Memory, i: nat)
    requires i <= Fetch(cfg, CompsInScan)
    ensures |SpecBytes(cfg, i)| == 2 * (Fetch(cfg, CompsInScan) - i)
    decreases Fetch(cfg, CompsInScan) - i
  {
    hide CompAt;
    if i < Fetch(cfg, CompsInScan) { SpecSize(cfg, i + 1); }
  }

  // ----- DAC

  predicate DcInUse(cfg: Memory, i: nat) {
    CodesDc(cfg) && exists k: nat :: k < Fetch(cfg, CompsInScan) && Fetch(cfg, DcTblNo(CompAt(cfg, k))) == i
  }

  predicate AcInUse(cfg: Memory, i: nat) {
    CodesAc(cfg) && exists k: nat :: k < Fetch(cfg, CompsInScan) && Fetch(cfg, AcTblNo(CompAt(cfg, k))) == i
  }

  function DcEntry(cfg: Memory, i: nat): seq<byte> {
    if DcInUse(cfg, i) then [Low(i), Low(Fetch(cfg, ArithDcL(i)) + 16 * Fetch(cfg, ArithDcU(i)))] else []
  }

  function AcEntry(cfg: Memory, i: nat): seq<byte> {
    if AcInUse(cfg, i) then [Low(i + 16), Low(Fetch(cfg, ArithAcK(i)))] else []
  }

  function DacBytes(cfg: Memory, i: nat): seq<byte>
    decreases NUM_ARITH_TBLS - i
  {
    if i >= NUM_ARITH_TBLS then [] else DcEntry(cfg, i) + (AcEntry(cfg, i) + DacBytes(cfg, i + 1))
  }

  predicate LegalConditioning(cfg: Memory) {
    forall i: nat :: i < NUM_ARITH_TBLS ==>
      0 <= Fetch(cfg, ArithDcL(i)) <= Fetch(cfg, ArithDcU(i)) < 16 && 0 <= Fetch(cfg, ArithAcK(i)) < 256
  }

  function DcLocs(cfg: Memory, i: nat): set<Loc> {
    if DcInUse(cfg, i) then {ArithDcL(i), ArithDcU(i)} else {}
  }

  function AcLocs(cfg: Memory, i: nat): set<Loc> {
    if AcInUse(cfg, i) then {ArithAcK(i)} else {}
  }

  function DacLocs(cfg: Memory, i: nat): set<Loc>
    decreases NUM_ARITH_TBLS - i
  {
    if i >= NUM_ARITH_TBLS then {} else DcLocs(cfg, i) + (AcLocs(cfg, i) + DacLocs(cfg, i + 1))
  }

  // Two bytes at the head of a DAC segment: they make these stores, and what follows tells the rest.
  lemma EntryRun(cfg: Memory, index: byte, val: byte, here: seq<Store>, length: int, log: seq<Store>, s: seq<byte>, used: nat, locs: set<Loc>)
    requires length > 0 && index < 2 * NUM_ARITH_TBLS && Copies(log, cfg)
    requires if index < 16 then val % 16 <= val / 16 && here == StoreDc(index, val) else here == [Store(ArithAcK(index - 16), val)]
    requires Told(Run(DacEntries(length - 2, here), s), used, cfg, locs)
    ensures Told(Run(DacEntries(length, log), [index, val] + s), used + 2, cfg, Locs(log) + locs)
  {
    hide Run, Told, Copies, Locs, StoreDc;
    var p := DacEntries(length, log);
    var q := p.k(index);
    var g := Run(DacEntries(length - 2, here), s);
    assert q.k(val) == DacEntries(length - 2, here);
    assert [index, val] + s == [index] + ([val] + s);
    RunRead(q, val, s);
    RunRead(p, index, [val] + s);
    assert After(log, 1, After([], 1, g)) == After(log, 2, g) by { assert [] + g.log == g.log; }
    ToldAfter(log, 2, g, used, cfg, locs);
  }

  lemma DcRun(cfg: Memory, i: nat, length: int, log: seq<Store>, s: seq<byte>, used: nat, locs: set<Loc>)
    requires LegalConditioning(cfg) && i < NUM_ARITH_TBLS && Copies(log, cfg) && length >= |DcEntry(cfg, i)|
    requires forall l :: Copies(l, cfg) ==> Told(Run(DacEntries(length - |DcEntry(cfg, i)|, l), s), used, cfg, Locs(l) + locs)
    ensures Told(Run(DacEntries(length, log), DcEntry(cfg, i) + s), |DcEntry(cfg, i)| + used, cfg, Locs(log) + (DcLocs(cfg, i) + locs))
  {
    hide Run, Told, Copies, Locs, DacEntries, DcInUse;
    if DcInUse(cfg, i) {
      var lo, up := Fetch(cfg, ArithDcL(i)), Fetch(cfg, ArithDcU(i));
      var val := lo + 16 * up;
      assert val % 16 == lo && val / 16 == up;
      var here := StoreDc(i, val);
      TwoCopies(here[0], here[1], cfg);
      LocsTwo(here[0], here[1]);
      EntryRun(cfg, i, val, here, length, log, s, used, DcLocs(cfg, i) + locs);
    } else {
      assert DcEntry(cfg, i) + s == s && DcLocs(cfg, i) + locs == locs;
    }
  }

  lemma AcRun(cfg: Memory, i: nat, length: int, log: seq<Store>, s: seq<byte>, used: nat, locs: set<Loc>)
    requires LegalConditioning(cfg) && i < NUM_ARITH_TBLS && Copies(log, cfg) && length >= |AcEntry(cfg, i)|
    requires forall l :: Copies(l, cfg) ==> Told(Run(DacEntries(length - |AcEntry(cfg, i)|, l), s), used, cfg, Locs(l) + locs)
    ensures Told(Run(DacEntries(length, log), AcEntry(cfg, i) + s), |AcEntry(cfg, i)| + used, cfg, Locs(log) + (AcLocs(cfg, i) + locs))
  {
    hide Run, Told, Copies, Locs, DacEntries, AcInUse;
    if AcInUse(cfg, i) {
      var val := Fetch(cfg, ArithAcK(i));
      var here := [Store(ArithAcK(i), val)];
      OneCopy(here[0], cfg);
      LocsOne(here[0]);
      EntryRun(cfg, i + 16, val, here, length, log, s, used, AcLocs(cfg, i) + locs);
    } else {
      assert AcEntry(cfg, i) + s == s && AcLocs(cfg, i) + locs == locs;
    }
  }

  lemma {:induction false} EntriesRun(cfg: Memory, i: nat, log: seq<Store>, rest: seq<byte>)
    requires LegalConditioning(cfg) && i <= NUM_ARITH_TBLS && Copies(log, cfg)
    ensures var s := DacBytes(cfg, i); Told(Run(DacEntries(|s|, log), s + rest), |s|, cfg, Locs(log) + DacLocs(cfg, i))
    decreases NUM_ARITH_TBLS - i
  {
    hide Run, Told, Copies, Locs, DacEntries, DcEntry, AcEntry, DcLocs, AcLocs, LegalConditioning;
    var s := DacBytes(cfg, i);
    if i == NUM_ARITH_TBLS {
      assert s + rest == rest && Locs(log) + DacLocs(cfg, i) == Locs(log);
      EntriesEnd(log);
      HaltTold(log, rest, cfg);
    } else {
      var t := DacBytes(cfg, i + 1);
      var a, c := DcEntry(cfg, i), AcEntry(cfg, i);
      var locs := DacLocs(cfg, i + 1);
      forall l | Copies(l, cfg)
        ensures Told(Run(DacEntries(|c| + |t|, l), c + (t + rest)), |c| + |t|, cfg, Locs(l) + (AcLocs(cfg, i) + locs))
      {
        forall l' | Copies(l', cfg)
          ensures Told(Run(DacEntries(|t|, l'), t + rest), |t|, cfg, Locs(l') + locs)
        {
          EntriesRun(cfg, i + 1, l', rest);
        }
        AcRun(cfg, i, |c| + |t|, l, t + rest, |t|, locs);
      }
      DcRun(cfg, i, |s|, log, c + (t + rest), |c| + |t|, AcLocs(cfg, i) + locs);
      assert s + rest == a + (c + (t + rest));
    }
  }

  lemma EntriesEnd(log: seq<Store>)
    ensures DacEntries(0, log) == Halt(log, true)
  {
  }

  lemma {:induction false} DacSize(cfg: Memory, i: nat)
    requires i <= NUM_ARITH_TBLS
    ensures |DacBytes(cfg, i)| <= 4 * (NUM_ARITH_TBLS - i)
    decreases NUM_ARITH_TBLS - i
  {
    hide DcInUse, AcInUse;
    if i < NUM_ARITH_TBLS { DacSize(cfg, i + 1); }
  }

  lemma DacRun(cfg: Memory, rest: seq<byte>)
    requires LegalConditioning(cfg)
    ensures var s := Two(|DacBytes(cfg, 0)| + 2) + DacBytes(cfg, 0);
      Told(Run(DacProg(), s + rest), |s|, cfg, DacLocs(cfg, 0))
  {
    hide Run, Told, Copies, Locs, DacEntries, DacBytes, DacLocs, LegalConditioning;
    var params := DacBytes(cfg, 0);
    DacSize(cfg, 0);
    NoCopies(cfg);
    EntriesRun(cfg, 0, [], rest);
    LocsNone(DacLocs(cfg, 0));
    RunTwo([], length => DacEntries(length - 2, []), |params| + 2, params + rest);
    ToldAfter([], 2, Run(DacEntries(|params|, []), params + rest), |params|, cfg, DacLocs(cfg, 0));
    assert (Two(|params| + 2) + params) + rest == Two(|params| + 2) + (params + rest);
  }
}
