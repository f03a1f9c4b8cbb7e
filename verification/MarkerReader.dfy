/** The marker reader of the decompressor: parses segments in place, and can be suspended anywhere. */
module MarkerReader {
  import opened Bytes
  import opened MarkerProg
  import opened MarkerStream
  import opened Restarts
  import opened Segments
  import opened ZigZag

  datatype Return = True | False | ErrorExit

  /** A parser that ended in this way has done what its program does on the input s. */
  ghost predicate Finished(r: Return, p: Prog, s: seq<byte>, s': seq<byte>, m: Memory, m': Memory) {
    var g := Run(p, s);
    && m' == Apply(g.log, m)
    && match g.out
       case Done(n) => r == True && s' == s[n..]
       case Suspended => r == False && s' == s
       case Failed => r == ErrorExit
  }

  // ----- Parsers underway

  /** The program of a parser, the input and the variables at its start, and the stores before the last byte read. */
  datatype Job = Job(start: Prog, s: seq<byte>, m: Memory, log: seq<Store>)

  function Past(j: Job, p: Prog): Job {
    j.(log := j.log + p.log)
  }

  // The parser has read pos bytes, and p is what it does from there.
  ghost predicate At(j: Job, p: Prog, pos: nat) {
    pos <= |j.s| && Run(j.start, j.s) == After(j.log, pos, Run(p, j.s[pos..]))
  }

  // The stores of the job and these have been made.
  predicate Did(j: Job, log: seq<Store>, m: Memory) {
    m == Apply(j.log + log, j.m)
  }

  ghost predicate Underway(j: Job, p: Prog, pos: nat, m: Memory) {
    At(j, p, pos) && Did(j, p.log, m)
  }

  lemma Starts(p: Prog, s: seq<byte>, m: Memory)
    ensures At(Job(p, s, m, []), p, 0) && Did(Job(p, s, m, []), [], m)
  {
    assert s[0..] == s && [] + Run(p, s).log == Run(p, s).log;
  }

  lemma Stores(j: Job, log: seq<Store>, m: Memory, s: Store)
    requires Did(j, log, m)
    ensures Did(j, log + [s], m[s.loc := s.val])
  {
    ApplyConcat(j.log + log, [s], j.m);
    assert (j.log + log) + [s] == j.log + (log + [s]);
    assert [s][1..] == [];
  }

  lemma Stores2(j: Job, m: Memory, a: Store, b: Store)
    requires Did(j, [], m)
    ensures Did(j, [a, b], m[a.loc := a.val][b.loc := b.val])
  {
    Stores1(j, m, a);
    Stores(j, [a], m[a.loc := a.val], b);
    assert [a] + [b] == [a, b];
  }

  lemma Stores1(j: Job, m: Memory, a: Store)
    requires Did(j, [], m)
    ensures Did(j, [a], m[a.loc := a.val])
  {
    Stores(j, [], m, a);
    assert [] + [a] == [a];
  }

  lemma Ends(j: Job, p: Prog, pos: nat, m: Memory)
    requires Underway(j, p, pos, m) && p.Halt?
    ensures pos <= |j.s| && Finished(if p.ok then True else ErrorExit, j.start, j.s, if p.ok then j.s[pos..] else j.s, j.m, m)
  {
  }

  class Reader {
    var unread: seq<byte>   // from the restart point on
    var unread_marker: int  // a marker that has been read but not processed, or 0
    var mem: Memory
    var scan: Memory
    var saw_SOI: bool
    var saw_SOF: bool

    constructor ()
      ensures unread == [] && unread_marker == 0 && mem == map[] && scan == map[] && !saw_SOI && !saw_SOF
    {
      unread, unread_marker, mem, scan, saw_SOI, saw_SOF := [], 0, map[], map[], false, false;
    }

    function Current(): State
      reads this
    {
      State(mem, scan, saw_SOI, saw_SOF)
    }

    // INPUT_BYTE: fails if the buffer is used up.
    method InputByte(pos: nat, ghost j: Job, ghost p: Prog, ghost m: Memory) returns (ok: bool, c: byte)
      requires j.s == unread && p.Read? && Underway(j, p, pos, m)
      ensures ok ==> pos < |unread| && c == unread[pos] && At(Past(j, p), p.k(c), pos + 1) && Did(Past(j, p), [], m)
      ensures !ok ==> Finished(False, j.start, j.s, j.s, j.m, m)
    {
      hide Apply;
      ok, c := pos < |unread|, 0;
      if ok {
        c := unread[pos];
        assert unread[pos..][1..] == unread[pos + 1..];
        Reassociate(j.log, p.log, Run(p.k(c), unread[pos + 1..]).log);
        assert (j.log + p.log) + [] == j.log + p.log;
      }
    }

    // INPUT_2BYTES
    method Input2Bytes(pos: nat, ghost j: Job, ghost log: seq<Store>, ghost k: int -> Prog, ghost m: Memory)
      returns (ok: bool, v: int)
      requires j.s == unread && Underway(j, ReadTwo(log, k), pos, m)
      ensures ok ==> pos + 2 <= |unread| && 0 <= v < 0x10000
      ensures ok ==> At(j.(log := j.log + log), k(v), pos + 2) && Did(j.(log := j.log + log), [], m)
      ensures !ok ==> Finished(False, j.start, j.s, j.s, j.m, m)
    {
      hide Did, At, Run, Finished;
      v := 0;
      var a, b;
      ghost var p := ReadTwo(log, k);
      ok, a := InputByte(pos, j, p, m);
      if !ok {
        return;
      }
      ghost var j1, p1 := Past(j, p), p.k(a);
      assert j1.log + [] == j1.log;
      ok, b := InputByte(pos + 1, j1, p1, m);
      if ok { v := 256 * (a as int) + b as int; }
    }

    // get_dri
    method GetDri() returns (r: Return)
      modifies `mem, `unread
      ensures Finished(r, DriProg(), old(unread), unread, old(mem), mem)
    {
      hide Did, At, Run, Finished;
      ghost var j := Job(DriProg(), unread, mem, []);
      Starts(j.start, unread, mem);
      var ok, length, tmp;
      ghost var k := (length: int) => if length != 4 then Halt([], false) else ReadTwo([], v => Halt([Store(RestartInterval, v)], true));
      ok, length := Input2Bytes(0, j, [], k, mem);
      if !ok {
        return False;
      }
      assert j.log + [] == j.log;
      if length != 4 {
        Ends(j, k(length), 2, mem);
        return ErrorExit;
      }
      ghost var k2 := (v: int) => Halt([Store(RestartInterval, v)], true);
      ok, tmp := Input2Bytes(2, j, [], k2, mem);
      if !ok {
        return False;
      }
      Stores1(j, mem, Store(RestartInterval, tmp));
      mem := mem[RestartInterval := tmp];
      Ends(j, k2(tmp), 4, mem);
      unread := unread[4..];
      r := True;
    }

    // get_dac
    method GetDac() returns (r: Return)
      modifies `mem, `unread
      ensures Finished(r, DacProg(), old(unread), unread, old(mem), mem)
    {
      hide Did, At, Run, Finished, DacEntries;
      ghost var j := Job(DacProg(), unread, mem, []);
      Starts(j.start, unread, mem);
      var ok, length;
      ghost var k := (length: int) => DacEntries(length - 2, []);
      ok, length := Input2Bytes(0, j, [], k, mem);
      if !ok {
        return False;
      }
      assert j.log + [] == j.log;
      length := length - 2;
      var pos: nat := 2;
      ghost var log: seq<Store> := [];
      DacHead(length, log);
      while length > 0
        invariant unread == old(unread) == j.s && j.start == DacProg() && j.m == old(mem)
        invariant Underway(j, DacEntries(length, log), pos, mem)
        decreases length
      {
        r, pos, j, log := GetDacEntry(length, pos, j, log);
        if r != True {
          return;
        }
        length := length - 2;
      }
      DacHead(length, log);
      Ends(j, DacEntries(length, log), pos, mem);
      if length != 0 {
        return ErrorExit;
      }
      unread := unread[pos..];
      r := True;
    }

    method GetDacEntry(length: int, pos0: nat, ghost j0: Job, ghost log0: seq<Store>)
      returns (r: Return, pos: nat, ghost j: Job, ghost log: seq<Store>)
      requires length > 0 && unread == j0.s && Underway(j0, DacEntries(length, log0), pos0, mem)
      modifies `mem
      ensures j.s == j0.s && j.start == j0.start && j.m == j0.m
      ensures r == True ==> Underway(j, DacEntries(length - 2, log), pos, mem)
      ensures r != True ==> Finished(r, j0.start, j0.s, unread, j0.m, mem)
    {
      hide Did, At, Run, Finished;
      ghost var p := DacEntries(length, log0);
      j, log, pos := j0, [], pos0;
      var ok, index, val;
      ok, index := InputByte(pos, j, p, mem);
      if !ok {
        return False, pos, j, log;
      }
      j := Past(j, p);
      ghost var q := p.k(index);
      ok, val := InputByte(pos + 1, j, q, mem);
      if !ok {
        return False, pos, j, log;
      }
      pos := pos + 2;
      assert j.log + [] == j.log;
      ghost var next := q.k(val);
      if index >= 2 * NUM_ARITH_TBLS {
        Ends(j, next, pos, mem);
        return ErrorExit, pos, j, log;
      }
      if index >= NUM_ARITH_TBLS {  // define AC table
        log := [Store(ArithAcK(index - NUM_ARITH_TBLS), val)];
        Stores1(j, mem, log[0]);
        mem := mem[ArithAcK(index - NUM_ARITH_TBLS) := val];
      } else {  // define DC table
        log := StoreDc(index, val);
        Stores2(j, mem, log[0], log[1]);
        mem := mem[ArithDcL(index) := val % 16];
        mem := mem[ArithDcU(index) := val / 16];
        if val % 16 > val / 16 {
          assert next == Halt(log, false);
          Ends(j, next, pos, mem);
          return ErrorExit, pos, j, log;
        }
      }
      DacHead(length - 2, log);
      r := True;
    }

    // get_dqt
    method GetDqt() returns (r: Return)
      modifies `mem, `unread
      ensures Finished(r, DqtProg(), old(unread), unread, old(mem), mem)
    {
      hide Did, At, Run, Finished, DqtTables;
      ghost var j := Job(DqtProg(), unread, mem, []);
      Starts(j.start, unread, mem);
      var ok, length;
      ghost var k := (length: int) => DqtTables(length - 2, []);
      ok, length := Input2Bytes(0, j, [], k, mem);
      if !ok {
        return False;
      }
      assert j.log + [] == j.log;
      length := length - 2;
      var pos: nat := 2;
      ghost var log: seq<Store> := [];
      DqtHead(length, log);
      while length > 0
        invariant unread == old(unread) == j.s && j.start == DqtProg() && j.m == old(mem)
        invariant Underway(j, DqtTables(length, log), pos, mem)
        decreases length
      {
        r, length, pos, j, log := GetQuantTable(length, pos, j, log);
        if r != True {
          return;
        }
      }
      DqtHead(length, log);
      Ends(j, DqtTables(length, log), pos, mem);
      if length != 0 {
        return ErrorExit;
      }
      unread := unread[pos..];
      r := True;
    }

    method GetQuantTable(length0: int, pos0: nat, ghost j0: Job, ghost log0: seq<Store>)
      returns (r: Return, length: int, pos: nat, ghost j: Job, ghost log: seq<Store>)
      requires length0 > 0 && unread == j0.s && Underway(j0, DqtTables(length0, log0), pos0, mem)
      modifies `mem
      ensures j.s == j0.s && j.start == j0.start && j.m == j0.m && length <= length0
      ensures r == True ==> length < length0 && Underway(j, DqtTables(length, log), pos, mem)
      ensures r != True ==> Finished(r, j0.start, j0.s, unread, j0.m, mem)
    {
      hide Did, At, Run, Finished, DqtCoefs;
      ghost var p := DqtTables(length0, log0);
      length, j, log, pos := length0, j0, [], pos0;
      var ok, n;
      ok, n := InputByte(pos, j, p, mem);
      if !ok {
        return False, length, pos, j, log;
      }
      pos := pos + 1;
      j := Past(j, p);
      var prec: int := n / 16;
      n := n % 16;
      if n >= NUM_QUANT_TBLS {
        Ends(j, Halt([], false), pos, mem);
        return ErrorExit, length, pos, j, log;
      }
      var i: nat := 0;
      DqtCoefsHead(n, prec > 0, 0, length, log);
      while i < DCTSIZE2
        invariant i <= 64 && j.s == j0.s && j.start == j0.start && j.m == j0.m
        invariant Underway(j, DqtCoefs(n, prec > 0, i, length, log), pos, mem)
      {
        ok, pos, j, log := GetQuantVal(n, prec > 0, i, length, pos, j, log);
        if !ok {
          return False, length, pos, j, log;
        }
        i := i + 1;
      }
      DqtCoefsHead(n, prec > 0, i, length, log);
      length := length - (DCTSIZE2 + 1);
      if prec > 0 { length := length - DCTSIZE2; }
      r := True;
    }

    method GetQuantVal(n: nat, prec: bool, i: nat, ghost length: int, pos0: nat, ghost j0: Job, ghost log0: seq<Store>)
      returns (ok: bool, pos: nat, ghost j: Job, ghost log: seq<Store>)
      requires i < 64 && length > 0 && unread == j0.s && Underway(j0, DqtCoefs(n, prec, i, length, log0), pos0, mem)
      modifies `mem
      ensures j.s == j0.s && j.start == j0.start && j.m == j0.m
      ensures ok ==> Underway(j, DqtCoefs(n, prec, i + 1, length, log), pos, mem)
      ensures !ok ==> Finished(False, j0.start, j0.s, unread, j0.m, mem)
    {
      hide Did, At, Run, Finished, NaturalAt;
      var tmp: int;
      j, log, pos := j0, [], pos0;
      if prec {
        ghost var k := v => DqtCoefs(n, prec, i + 1, length, [Store(Quant(n, NaturalAt(i)), v)]);
        ok, tmp := Input2Bytes(pos, j, log0, k, mem);
        j, pos := j.(log := j.log + log0), pos + 2;
      } else {
        ghost var p := DqtCoefs(n, prec, i, length, log0);
        ok, tmp := InputByte(pos, j, p, mem);
        j, pos := Past(j, p), pos + 1;
      }
      if !ok {
        return;
      }
      log := [Store(Quant(n, NaturalAt(i)), tmp)];
      Stores1(j, mem, log[0]);
      mem := mem[Quant(n, NaturalAt(i)) := tmp];
      DqtCoefsHead(n, prec, i + 1, length, log);
    }

    // get_dht
    method GetDht() returns (r: Return)
      modifies `mem, `unread
      ensures Finished(r, DhtProg(), old(unread), unread, old(mem), mem)
    {
      hide Did, At, Run, Finished, DhtTables;
      ghost var j := Job(DhtProg(), unread, mem, []);
      Starts(j.start, unread, mem);
      var ok, length;
      ghost var k := (length: int) => DhtTables(length - 2, []);
      ok, length := Input2Bytes(0, j, [], k, mem);
      if !ok {
        return False;
      }
      assert j.log + [] == j.log;
      length := length - 2;
      var pos: nat := 2;
      ghost var log: seq<Store> := [];
      DhtHead(length, log);
      while length > 16
        invariant unread == old(unread) == j.s && j.start == DhtProg() && j.m == old(mem)
        invariant Underway(j, DhtTables(length, log), pos, mem)
        decreases length
      {
        r, length, pos, j, log := GetHuffTable(length, pos, j, log);
        if r != True {
          return;
        }
      }
      DhtHead(length, log);
      Ends(j, DhtTables(length, log), pos, mem);
      if length != 0 {
        return ErrorExit;
      }
      unread := unread[pos..];
      r := True;
    }

    method GetHuffTable(length0: int, pos0: nat, ghost j0: Job, ghost log0: seq<Store>)
      returns (r: Return, length: int, pos: nat, ghost j: Job, ghost log: seq<Store>)
      requires length0 > 16 && unread == j0.s && Underway(j0, DhtTables(length0, log0), pos0, mem)
      modifies `mem
      ensures j.s == j0.s && j.start == j0.start && j.m == j0.m && length <= length0
      ensures r == True ==> length < length0 && Underway(j, DhtTables(length, log), pos, mem)
      ensures r != True ==> Finished(r, j0.start, j0.s, unread, j0.m, mem)
    {
      hide Did, At, Run, Finished, DhtBits, DhtVals, StoreHuff, IsAc, HuffIndex, Total;
      ghost var p := DhtTables(length0, log0);
      length, j, log, pos := length0, j0, [], pos0;
      var ok, index, bits, count, huffval;
      ok, index := InputByte(pos, j, p, mem);
      if !ok {
        return False, length, pos, j, log;
      }
      j := Past(j, p);
      length := length - 17;
      ok, bits, count, pos, j := GetBits(index, length, pos + 1, j);
      if !ok {
        return False, length, pos, j, log;
      }
      DhtBitsNext(index, bits, length);
      if count > 256 || count > length {
        Ends(j, Halt([], false), pos, mem);
        return ErrorExit, length, pos, j, log;
      }
      ok, huffval, pos, j := GetVals(index, bits, count, length, pos, j);
      if !ok {
        return False, length, pos, j, log;
      }
      DhtValsNext(index, bits, huffval, length);
      length := length - count;
      if HuffIndex(index) >= NUM_HUFF_TBLS {
        Ends(j, Halt([], false), pos, mem);
        return ErrorExit, length, pos, j, log;
      }
      log := StoreHuff(IsAc(index), HuffIndex(index), bits, huffval);
      CopyTable(IsAc(index), HuffIndex(index), bits, huffval, j);
      DhtHead(length, log);
      r := True;
    }

    method GetBits(index: nat, ghost length: int, pos0: nat, ghost j0: Job)
      returns (ok: bool, bits: seq<nat>, count: nat, pos: nat, ghost j: Job)
      requires length >= 0 && unread == j0.s && At(j0, DhtBits(index, [0], length), pos0) && Did(j0, [], mem)
      ensures j.s == j0.s && j.start == j0.start && j.m == j0.m
      ensures ok ==> |bits| == 17 && count == Total(bits) && At(j, DhtBits(index, bits, length), pos) && Did(j, [], mem)
      ensures !ok ==> Finished(False, j0.start, j0.s, unread, j0.m, mem)
    {
      hide Did, At, Run, Finished, DhtBits;
      j, pos, bits, count := j0, pos0, [0], 0;
      assert [0][..0] == [];
      while |bits| < 17
        invariant 1 <= |bits| <= 17 && j.s == j0.s && j.start == j0.start && j.m == j0.m && count == Total(bits)
        invariant At(j, DhtBits(index, bits, length), pos) && Did(j, [], mem)
      {
        var b;
        DhtBitsNext(index, bits, length);
        ghost var p := DhtBits(index, bits, length);
        ok, b := InputByte(pos, j, p, mem);
        if !ok {
          return;
        }
        j := Past(j, p);
        assert (bits + [b as nat])[..|bits|] == bits;
        bits := bits + [b];
        count := count + b;
        pos := pos + 1;
      }
      ok := true;
    }

    method GetVals(index: nat, bits: seq<nat>, count: nat, ghost length: int, pos0: nat, ghost j0: Job)
      returns (ok: bool, huffval: seq<int>, pos: nat, ghost j: Job)
      requires |bits| == 17 && count == Total(bits) <= 256 && count <= length && unread == j0.s
      requires At(j0, DhtVals(index, bits, [], length), pos0) && Did(j0, [], mem)
      ensures j.s == j0.s && j.start == j0.start && j.m == j0.m
      ensures ok ==> |huffval| == count && At(j, DhtVals(index, bits, huffval, length), pos) && Did(j, [], mem)
      ensures !ok ==> Finished(False, j0.start, j0.s, unread, j0.m, mem)
    {
      hide Did, At, Run, Finished, DhtVals, Total;
      j, pos, huffval := j0, pos0, [];
      while |huffval| < count
        invariant |huffval| <= count && j.s == j0.s && j.start == j0.start && j.m == j0.m
        invariant At(j, DhtVals(index, bits, huffval, length), pos) && Did(j, [], mem)
      {
        var v;
        DhtValsNext(index, bits, huffval, length);
        ghost var p := DhtVals(index, bits, huffval, length);
        ok, v := InputByte(pos, j, p, mem);
        if !ok {
          return;
        }
        j := Past(j, p);
        huffval := huffval + [v];
        pos := pos + 1;
      }
      ok := true;
    }

    // Both arrays, with zeros for the symbols that are not given.
    method CopyTable(ac: bool, n: nat, bits: seq<nat>, vals: seq<int>, ghost j: Job)
      requires |bits| == 17 && Did(j, [], mem)
      modifies `mem
      ensures Did(j, StoreHuff(ac, n, bits, vals), mem)
    {
      hide Did;
      ghost var log := StoreHuff(ac, n, bits, vals);
      var i := 0;
      while i < 17
        invariant 0 <= i <= 17 && Did(j, log[..i], mem)
      {
        assert log[i] == Store(HuffBits(ac, n, i), bits[i]) && log[..i + 1] == log[..i] + [log[i]];
        Stores(j, log[..i], mem, log[i]);
        mem := mem[HuffBits(ac, n, i) := bits[i]];
        i := i + 1;
      }
      i := 0;
      while i < 256
        invariant 0 <= i <= 256 && Did(j, log[..17 + i], mem)
      {
        var val := if i < |vals| then vals[i] else 0;
        assert log[17 + i] == Store(HuffVal(ac, n, i), val) && log[..17 + i + 1] == log[..17 + i] + [log[17 + i]];
        Stores(j, log[..17 + i], mem, log[17 + i]);
        mem := mem[HuffVal(ac, n, i) := val];
        i := i + 1;
      }
      assert log[..17 + i] == log;
    }

    // get_sof
    method GetSof(is_prog: bool, is_arith: bool) returns (r: Return)
      modifies `mem, `unread, `saw_SOF
      ensures Finished(r, SofProg(is_prog, is_arith, old(saw_SOF)), old(unread), unread, old(mem), mem)
      ensures saw_SOF == (old(saw_SOF) || r == True)
    {
      hide Did, At, Run, Finished, SofPrecision, SofComps, Fetch, Apply;
      ghost var start := SofProg(is_prog, is_arith, saw_SOF);
      ghost var j := Job(start, unread, mem, []);
      Starts(start, unread, mem);
      ghost var log := StoreProcess(is_prog, is_arith);
      Stores2(j, mem, log[0], log[1]);
      mem := mem[ProgressiveMode := if is_prog then 1 else 0];
      mem := mem[ArithCode := if is_arith then 1 else 0];
      var ok, length;
      ghost var saw := saw_SOF;
      ghost var k := (length: int) => SofPrecision(length, saw);
      ok, length := Input2Bytes(0, j, log, k, mem);
      if !ok {
        return False;
      }
      j := j.(log := j.log + log);
      r, j, log := GetFrame(length, j);
      if r != True {
        return;
      }
      var ci: nat, pos: nat := 0, 8;
      SofCompsHead(Fetch(mem, NumComponents), 0, log);
      while ci < Fetch(mem, NumComponents)
        invariant ci <= Fetch(mem, NumComponents) && j.s == unread == old(unread) && j.start == start && j.m == old(mem)
        invariant saw_SOF == old(saw_SOF) && Underway(j, SofComps(Fetch(mem, NumComponents), ci, log), pos, mem)
        decreases Fetch(mem, NumComponents) - ci
      {
        ok, j, log := GetComponent(ci, pos, j, log);
        if !ok {
          return False;
        }
        ci := ci + 1;
        pos := pos + 3;
      }
      SofCompsHead(Fetch(mem, NumComponents), ci, log);
      Ends(j, SofComps(Fetch(mem, NumComponents), ci, log), pos, mem);
      saw_SOF := true;
      unread := unread[pos..];
      r := True;
    }

    // The fixed part.
    method GetFrame(length: int, ghost j0: Job) returns (r: Return, ghost j: Job, ghost log: seq<Store>)
      requires unread == j0.s && At(j0, SofPrecision(length, saw_SOF), 2) && Did(j0, [], mem)
      modifies `mem
      ensures j.s == j0.s && j.start == j0.start && j.m == j0.m
      ensures r == True ==> !saw_SOF && Fetch(mem, NumComponents) > 0
      ensures r == True ==> Underway(j, SofComps(Fetch(mem, NumComponents), 0, log), 8, mem)
      ensures r != True ==> Finished(r, j0.start, j0.s, unread, j0.m, mem)
    {
      hide Did, At, Run, Finished, SofComps;
      j, log := j0, [];
      var ok, prec, height, width;
      ghost var p := SofPrecision(length, saw_SOF);
      ok, prec := InputByte(2, j, p, mem);
      if !ok {
        return False, j, log;
      }
      j, log := Past(j, p), [Store(DataPrecision, prec)];
      Stores1(j, mem, log[0]);
      mem := mem[DataPrecision := prec];
      ghost var saw := saw_SOF;
      ghost var k := (height: int) => SofWidth(length, saw, height);
      ok, height := Input2Bytes(3, j, log, k, mem);
      if !ok {
        return False, j, log;
      }
      j, log := j.(log := j.log + log), [Store(ImageHeight, height)];
      Stores1(j, mem, log[0]);
      mem := mem[ImageHeight := height];
      ghost var k2 := (width: int) => SofNum(length, saw, height, width);
      ok, width := Input2Bytes(5, j, log, k2, mem);
      if !ok {
        return False, j, log;
      }
      j := j.(log := j.log + log);
      r, j, log := GetNum(length, height, width, j);
    }

    method GetNum(length: int, height: int, width: int, ghost j0: Job) returns (r: Return, ghost j: Job, ghost log: seq<Store>)
      requires unread == j0.s && At(j0, SofNum(length, saw_SOF, height, width), 7) && Did(j0, [], mem)
      modifies `mem
      ensures j.s == j0.s && j.start == j0.start && j.m == j0.m
      ensures r == True ==> !saw_SOF && Fetch(mem, NumComponents) > 0
      ensures r == True ==> Underway(j, SofComps(Fetch(mem, NumComponents), 0, log), 8, mem)
      ensures r != True ==> Finished(r, j0.start, j0.s, unread, j0.m, mem)
    {
      hide Did, At, Run, Finished, SofComps;
      j, log := j0, [Store(ImageWidth, width)];
      Stores1(j, mem, log[0]);
      mem := mem[ImageWidth := width];
      var ok, num;
      ghost var p := SofNum(length, saw_SOF, height, width);
      ok, num := InputByte(7, j, p, mem);
      if !ok {
        return False, j, log;
      }
      j, log := Past(j, p), [Store(NumComponents, num)];
      Stores1(j, mem, log[0]);
      mem := mem[NumComponents := num];
      if saw_SOF || height <= 0 || width <= 0 || num <= 0 || length - 8 != 3 * (num as int) {
        Ends(j, Halt(log, false), 8, mem);
        return ErrorExit, j, log;
      }
      SofCompsHead(num, 0, log);
      r := True;
    }

    method GetComponent(ci: nat, pos: nat, ghost j0: Job, ghost log0: seq<Store>) returns (ok: bool, ghost j: Job, ghost log: seq<Store>)
      requires ci < Fetch(mem, NumComponents) && unread == j0.s
      requires Underway(j0, SofComps(Fetch(mem, NumComponents), ci, log0), pos, mem)
      modifies `mem
      ensures j.s == j0.s && j.start == j0.start && j.m == j0.m && Fetch(mem, NumComponents) == old(Fetch(mem, NumComponents))
      ensures ok ==> Underway(j, SofComps(Fetch(mem, NumComponents), ci + 1, log), pos + 3, mem)
      ensures !ok ==> Finished(False, j0.start, j0.s, unread, j0.m, mem)
    {
      hide Did, At, Run, Finished;
      ghost var num := Fetch(mem, NumComponents);
      j, log := j0, [];
      var id, c, tq;
      ghost var p := SofComps(num, ci, log0);
      ok, id := InputByte(pos, j, p, mem);
      if !ok {
        return;
      }
      j, p := Past(j, p), p.k(id);
      Stores1(j, mem, p.log[0]);
      mem := mem[ComponentId(ci) := id];
      ok, c := InputByte(pos + 1, j, p, mem);
      if !ok {
        return;
      }
      j, p := Past(j, p), p.k(c);
      Stores2(j, mem, p.log[0], p.log[1]);
      mem := mem[HSamp(ci) := c / 16];
      mem := mem[VSamp(ci) := c % 16];
      ok, tq := InputByte(pos + 2, j, p, mem);
      if !ok {
        return;
      }
      j, log := Past(j, p), [Store(QuantNo(ci), tq)];
      Stores1(j, mem, log[0]);
      mem := mem[QuantNo(ci) := tq];
      SofCompsHead(num, ci + 1, log);
    }

    // get_sos
    method GetSos() returns (r: Return)
      modifies `scan, `unread
      ensures Finished(r, SosProg(saw_SOF, Ids(mem)), old(unread), unread, old(scan), scan)
    {
      hide Did, At, Run, Finished, SosCount, SosComps, SosParams, Ids, CurIs;
      ghost var start := SosProg(saw_SOF, Ids(mem));
      ghost var j := Job(start, unread, scan, []);
      Starts(start, unread, scan);
      if !saw_SOF {
        Ends(j, start, 0, scan);
        return ErrorExit;
      }
      var ok, length, n;
      ghost var ids, log := Ids(mem), [];
      ghost var k := (length: int) => SosCount(length, ids);
      ok, length := Input2Bytes(0, j, [], k, scan);
      if !ok {
        return False;
      }
      assert j.log + [] == j.log;
      r, n, j, log := GetCount(length, j);
      if r != True {
        return;
      }
      var i: nat := 0;
      ghost var cur: seq<int> := [];
      while i < n
        invariant i == |cur| <= n <= 4 && j.s == unread == old(unread) && j.start == start && j.m == old(scan)
        invariant CurIs(scan, cur) && Underway(j, SosComps(n, cur, ids, log), 3 + 2 * i, scan)
      {
        r, j, cur, log := GetScanComp(n, i, j, cur, log);
        if r != True {
          return;
        }
        i := i + 1;
      }
      SosCompsHead(n, cur, ids, log);
      r := GetParams(3 + 2 * i, j, log);
    }

    method GetCount(length: int, ghost j0: Job) returns (r: Return, n: nat, ghost j: Job, ghost log: seq<Store>)
      requires unread == j0.s && At(j0, SosCount(length, Ids(mem)), 2) && Did(j0, [], scan)
      modifies `scan
      ensures j.s == j0.s && j.start == j0.start && j.m == j0.m
      ensures r == True ==> 1 <= n <= 4 && CurIs(scan, []) && Underway(j, SosComps(n, [], Ids(mem), log), 3, scan)
      ensures r != True ==> Finished(r, j0.start, j0.s, unread, j0.m, scan)
    {
      hide Did, At, Run, Finished, SosComps, Ids;
      j, log := j0, [];
      var ok;
      ghost var p := SosCount(length, Ids(mem));
      ok, n := InputByte(2, j, p, scan);
      if !ok {
        return False, 0, j, log;
      }
      j := Past(j, p);
      if length != 2 * (n as int) + 6 || n < 1 || n > MAX_COMPS_IN_SCAN {
        Ends(j, Halt([], false), 3, scan);
        return ErrorExit, 0, j, log;
      }
      Stores1(j, scan, Store(CompsInScan, n));
      scan := scan[CompsInScan := n];
      log := [Store(CompsInScan, n)];
      var i: nat := 0;
      while i < MAX_COMPS_IN_SCAN
        invariant i <= 4 && |log| == i + 1 && Did(j, log, scan) && log == StartScan(n)[..i + 1]
        invariant forall k: nat :: k < i ==> Fetch(scan, CurComp(k)) == -1
      {
        Stores(j, log, scan, Store(CurComp(i), -1));
        log := log + [Store(CurComp(i), -1)];
        scan := scan[CurComp(i) := -1];
        i := i + 1;
      }
      assert log == StartScan(n);
      SosCompsHead(n, [], Ids(mem), log);
      r := True;
    }

    method GetScanComp(n: nat, i: nat, ghost j0: Job, ghost cur0: seq<int>, ghost log0: seq<Store>)
      returns (r: Return, ghost j: Job, ghost cur: seq<int>, ghost log: seq<Store>)
      requires i == |cur0| < n <= 4 && unread == j0.s && CurIs(scan, cur0)
      requires Underway(j0, SosComps(n, cur0, Ids(mem), log0), 3 + 2 * i, scan)
      modifies `scan
      ensures j.s == j0.s && j.start == j0.start && j.m == j0.m
      ensures r == True ==> |cur| == i + 1 && CurIs(scan, cur) && Underway(j, SosComps(n, cur, Ids(mem), log), 3 + 2 * i + 2, scan)
      ensures r != True ==> Finished(r, j0.start, j0.s, unread, j0.m, scan)
    {
      hide Did, At, Run, Finished, Ids, CurIs, FindId;
      j, cur, log := j0, cur0, [];
      var ok, cc, c;
      ghost var ids := Ids(mem);
      ghost var p := SosComps(n, cur0, ids, log0);
      ok, cc := InputByte(3 + 2 * i, j, p, scan);
      if !ok {
        return False, j, cur, log;
      }
      j, p := Past(j, p), p.k(cc);
      ok, c := InputByte(3 + 2 * i + 1, j, p, scan);
      if !ok {
        return False, j, cur, log;
      }
      assert j.log + [] == j.log;
      p := p.k(c);
      var ci := FindComponent(cc, cur);
      if ci == IdCount() {
        Ends(j, Halt([], false), 3 + 2 * i + 2, scan);
        return ErrorExit, j, cur, log;
      }
      log := StoreComp(i, ci, c);
      StoreSpec(i, ci, c, j, cur);
      var dup := IsDuplicate(i, ci, cur);
      if dup {
        assert p == Halt(log, false);
        Ends(j, p, 3 + 2 * i + 2, scan);
        return ErrorExit, j, cur, log;
      }
      cur := cur + [ci];
      SosCompsHead(n, cur, ids, log);
      r := True;
    }

    // The number of components that a scan can name.
    function IdCount(): nat
      reads this
      ensures IdCount() == |Ids(mem)|
    {
      var n := Fetch(mem, NumComponents);
      if n < 0 then 0 else if n > MAX_COMPS_IN_SCAN then MAX_COMPS_IN_SCAN else n
    }

    method FindComponent(cc: byte, ghost cur: seq<int>) returns (ci: nat)
      requires CurIs(scan, cur)
      ensures ci == FindId(Ids(mem), cc, cur, 0)
    {
      hide CurIs;
      ci := 0;
      var found := false;
      while ci < IdCount() && !found
        invariant ci <= IdCount() && FindId(Ids(mem), cc, cur, 0) == if found then ci else FindId(Ids(mem), cc, cur, ci)
        decreases IdCount() - ci, !found
      {
        CurAt(scan, cur, ci);
        if cc == Fetch(mem, ComponentId(ci)) && Fetch(scan, CurComp(ci)) == -1 {
          found := true;
        } else {
          ci := ci + 1;
        }
      }
    }

    // Is the component stored at i one of those before it?
    method IsDuplicate(i: nat, ci: nat, ghost cur: seq<int>) returns (dup: bool)
      requires i == |cur| < 4 && CurIs(scan, cur + [ci])
      ensures dup <==> ci in cur
    {
      hide CurIs;
      dup := false;
      for pi := 0 to i
        invariant dup <==> ci in cur[..pi]
      {
        CurAt(scan, cur + [ci], pi);
        assert cur[..pi + 1] == cur[..pi] + [cur[pi]];
        if Fetch(scan, CurComp(pi)) == ci { dup := true; }
      }
      assert cur[..i] == cur;
    }

    method StoreSpec(i: nat, ci: nat, c: byte, ghost j: Job, ghost cur: seq<int>)
      requires i == |cur| < 4 && CurIs(scan, cur) && Did(j, [], scan)
      modifies `scan
      ensures CurIs(scan, cur + [ci]) && Did(j, StoreComp(i, ci, c), scan)
    {
      hide Did;
      ghost var log := StoreComp(i, ci, c);
      Stores2(j, scan, log[0], log[1]);
      scan := scan[CurComp(i) := ci];
      scan := scan[DcTblNo(ci) := c / 16];
      Stores(j, [log[0], log[1]], scan, log[2]);
      assert [log[0], log[1]] + [log[2]] == log;
      scan := scan[AcTblNo(ci) := c % 16];
    }

    method GetParams(pos: nat, ghost j0: Job, ghost log0: seq<Store>) returns (r: Return)
      requires unread == j0.s && Underway(j0, SosParams(log0), pos, scan)
      modifies `scan, `unread
      ensures Finished(r, j0.start, j0.s, unread, j0.m, scan)
    {
      hide Did, At, Run, Finished;
      ghost var j, p := j0, SosParams(log0);
      var ok, c;
      ok, c := InputByte(pos, j, p, scan);
      if !ok {
        return False;
      }
      j, p := Past(j, p), p.k(c);
      Stores1(j, scan, p.log[0]);
      scan := scan[ScanSs := c];
      ok, c := InputByte(pos + 1, j, p, scan);
      if !ok {
        return False;
      }
      j, p := Past(j, p), p.k(c);
      Stores1(j, scan, p.log[0]);
      scan := scan[ScanSe := c];
      ok, c := InputByte(pos + 2, j, p, scan);
      if !ok {
        return False;
      }
      j, p := Past(j, p), p.k(c);
      Stores2(j, scan, p.log[0], p.log[1]);
      scan := scan[ScanAh := c / 16];
      scan := scan[ScanAl := c % 16];
      Ends(j, p, pos + 3, scan);
      unread := unread[pos + 3..];
      r := True;
    }

    // get_soi
    method GetSoi() returns (r: Return)
      modifies `mem, `saw_SOI
      ensures Finished(r, if old(saw_SOI) then Halt([], false) else Halt(Defaults(), true), unread, unread, old(mem), mem)
      ensures saw_SOI
    {
      hide Did, At, Finished, Conditioning, Run;
      ghost var j := Job(if saw_SOI then Halt([], false) else Halt(Defaults(), true), unread, mem, []);
      Starts(j.start, unread, mem);
      if saw_SOI {
        Ends(j, Halt([], false), 0, mem);
        return ErrorExit;
      }
      var i: nat := 0;
      ConditioningNext(0);
      while i < NUM_ARITH_TBLS
        invariant i <= NUM_ARITH_TBLS && Did(j, Conditioning(i), mem)
      {
        ConditioningNext(i + 1);
        Stores(j, Conditioning(i), mem, Store(ArithDcL(i), 0));
        mem := mem[ArithDcL(i) := 0];
        Stores(j, Conditioning(i) + [Store(ArithDcL(i), 0)], mem, Store(ArithDcU(i), 1));
        mem := mem[ArithDcU(i) := 1];
        Stores(j, Conditioning(i) + [Store(ArithDcL(i), 0)] + [Store(ArithDcU(i), 1)], mem, Store(ArithAcK(i), 5));
        mem := mem[ArithAcK(i) := 5];
        i := i + 1;
      }
      Stores(j, Conditioning(i), mem, Store(RestartInterval, 0));
      mem := mem[RestartInterval := 0];
      Ends(j, Halt(Defaults(), true), 0, mem);
      assert unread[0..] == unread;
      saw_SOI := true;
      r := True;
    }

    // skip_variable
    method SkipVariable() returns (r: Return)
      modifies `unread
      ensures Finished(r, SkipProg(), old(unread), unread, mem, mem)
    {
      hide Did, At, Finished, Run, SkipBytes;
      ghost var j := Job(SkipProg(), unread, mem, []);
      Starts(j.start, unread, mem);
      ghost var k := (length: int) => SkipBytes(length - 2);
      var ok, length := Input2Bytes(0, j, [], k, mem);
      if !ok {
        return False;
      }
      assert j.log + [] == j.log;
      length := length - 2;
      var pos: nat := 2;
      while length > 0
        invariant j.s == unread == old(unread) && j.start == SkipProg() && j.m == mem
        invariant At(j, SkipBytes(length), pos) && Did(j, [], mem)
        decreases length
      {
        SkipNext(length);
        var b;
        ghost var p := SkipBytes(length);
        ok, b := InputByte(pos, j, p, mem);
        if !ok {
          return False;
        }
        j := Past(j, p);
        pos := pos + 1;
        length := length - 1;
      }
      SkipNext(length);
      Ends(j, Halt([], true), pos, mem);
      unread := unread[pos..];
      r := True;
    }

    // next_marker: discards what precedes the marker; if none is found, the restart point is past what was discarded.
    method NextMarker() returns (found: bool)
      modifies `unread, `unread_marker
      ensures found ==> NextMark(old(unread), 0) == Mark(unread_marker, unread)
      ensures !found ==> NextMark(old(unread), 0) == NoMark && unread == Leftover(old(unread)) && unread_marker == old(unread_marker)
    {
      hide SkipFill;
      while true
        invariant NextMark(unread, 0) == NextMark(old(unread), 0) && Leftover(unread) == Leftover(old(unread))
        invariant unread_marker == old(unread_marker)
        decreases |unread|
      {
        if unread == [] {
          return false;
        }
        while unread[0] != 0xFF
          invariant unread != [] && |unread| <= |old(unread)| && unread_marker == old(unread_marker)
          invariant NextMark(unread, 0) == NextMark(old(unread), 0) && Leftover(unread) == Leftover(old(unread))
          decreases |unread|
        {
          unread := unread[1..];
          if unread == [] {
            return false;
          }
        }
        var pos := 1;
        ghost var here := unread;
        while pos < |unread| && unread[pos] == 0xFF
          invariant unread == here && unread_marker == old(unread_marker)
          invariant 1 <= pos <= |unread| && SkipFill(unread[1..]) == SkipFill(unread[pos..])
        {
          SkipFillNext(unread, pos);
          pos := pos + 1;
        }
        SkipFillNext(unread, pos);
        if pos == |unread| {
          return false;
        }
        var c := unread[pos];
        assert unread[pos..][1..] == unread[pos + 1..];
        if c != 0 {
          unread_marker := c;
          unread := unread[pos + 1..];
          return true;
        }
        unread := unread[pos + 1..];
      }
      found := false;
    }

    // first_marker
    method FirstMarker() returns (r: Return)
      modifies `unread, `unread_marker
      ensures match r
        case False => |old(unread)| < 2 && unread == old(unread) && unread_marker == old(unread_marker)
        case ErrorExit => |old(unread)| >= 2 && old(unread)[..2] != [0xFF, M_SOI]
        case True => |old(unread)| >= 2 && old(unread)[..2] == [0xFF, M_SOI] && unread == old(unread)[2..] && unread_marker == M_SOI
    {
      if |unread| < 2 {
        return False;
      }
      if unread[0] != 0xFF || unread[1] != M_SOI {
        assert unread[..2][0] == unread[0] && unread[..2][1] == unread[1];
        return ErrorExit;
      }
      assert unread[..2] == [0xFF, M_SOI];
      unread_marker := unread[1];
      unread := unread[2..];
      r := True;
    }

    // The parser of a segment.
    method ProcessMarker(kind: Kind) returns (r: Return)
      requires kind != Eoi
      modifies `unread, `mem, `scan, `saw_SOI, `saw_SOF
      ensures var g := Run(SegmentProg(kind, old(Current())), old(unread));
        match g.out
        case Failed => r == ErrorExit
        case Suspended => r == False && unread == old(unread) && Current() == Stored(kind, g.log, old(Current()))
        case Done(n) => r == True && unread == old(unread)[n..] && Current() == Noted(kind, Stored(kind, g.log, old(Current())))
    {
      hide Run, Apply, DqtProg, DhtProg, DacProg, DriProg, SofProg, SosProg, SkipProg, Defaults, Ids;
      match kind {
        case Soi => r := GetSoi(); HaltEnds(SegmentProg(kind, old(Current())), unread);
        case Sof(is_prog, is_arith) => r := GetSof(is_prog, is_arith);
        case Sos => r := GetSos();
        case Dqt => r := GetDqt();
        case Dht => r := GetDht();
        case Dac => r := GetDac();
        case Dri => r := GetDri();
        case Skipped => r := SkipVariable(); SkipStores(old(unread), mem);
        case Plain => r := True; HaltEnds(SegmentProg(kind, old(Current())), unread);
        case Unsupported => r := ErrorExit; HaltEnds(SegmentProg(kind, old(Current())), unread);
      }
    }

    /** read_markers: does what the specification says, and can be called again when it has suspended. */
    method ReadMarkers() returns (r: Status)
      modifies this
      ensures Answers(r, Markers(old(unread), old(unread_marker), old(Current())), [])
    {
      hide Run, SegmentProg, Stored, Noted, Leftover, KindOf;
      while true
        invariant Markers(unread, unread_marker, Current()) == Markers(old(unread), old(unread_marker), old(Current()))
        decreases |unread|, unread_marker != 0
      {
        assert unread + [] == unread;
        if unread_marker == 0 {
          MarkShorter(unread);
          if !saw_SOI {
            var f := FirstMarker();
            if f == False {
              return Waiting;
            } else if f == ErrorExit {
              return Error;
            }
          } else {
            var found := NextMarker();
            if !found {
              assert unread + [] == unread;
              return Waiting;
            }
          }
        }
        var kind := KindOf(unread_marker);
        if kind == Eoi {
          unread_marker := 0;
          assert unread + [] == unread;
          return ReachedEoi;
        }
        var ok := ProcessMarker(kind);
        assert unread + [] == unread;
        if ok == ErrorExit {
          return Error;
        } else if ok == False {
          return Waiting;
        }
        unread_marker := 0;  // processed the marker
        if kind == Sos {
          return ReachedSos;
        }
      }
      r := Error;
    }

    // The state of the reader agrees with this result, later being the input it has not been given yet.
    ghost predicate Answers(r: Status, f: Final, later: seq<byte>)
      reads this
    {
      match r
      case Waiting => f == NeedMore(Current(), unread + later, unread_marker)
      case ReachedSos => f == Reached(true, Current(), unread + later) && unread_marker == 0
      case ReachedEoi => f == Reached(false, Current(), unread + later) && unread_marker == 0
      case Error => f == Bad
    }
  }

  datatype Status = Waiting | ReachedSos | ReachedEoi | Error

  /** Reads markers while the input arrives in pieces, cut anywhere: the outcome is that of the whole input. */
  method ReadInPieces(reader: Reader, pieces: seq<seq<byte>>) returns (r: Status, p: nat)
    modifies reader
    ensures p <= |pieces| && (r == Waiting ==> p == |pieces|)
    ensures reader.Answers(r, Markers(old(reader.unread) + Flat(pieces), old(reader.unread_marker), old(reader.Current())), Flat(pieces[p..]))
  {
    hide Flat, Markers;
    p := 0;
    assert pieces[0..] == pieces;
    ghost var goal := Markers(reader.unread + Flat(pieces), reader.unread_marker, reader.Current());
    while true
      invariant p <= |pieces| && goal == Markers(reader.unread + Flat(pieces[p..]), reader.unread_marker, reader.Current())
      decreases |pieces| - p
    {
      ghost var s, marker, st := reader.unread, reader.unread_marker, reader.Current();
      r := reader.ReadMarkers();
      MorePieces(pieces, p);
      MarkersMore(s, Flat(pieces[p..]), marker, st);
      assert s + [] == s;
      assert reader.unread + [] == reader.unread;
      if r != Waiting || p == |pieces| {
        return;
      }
      Reassociate(reader.unread, pieces[p], Flat(pieces[p + 1..]));
      reader.unread := reader.unread + pieces[p];
      p := p + 1;
    }
  }

  lemma HaltEnds(p: Prog, s: seq<byte>)
    requires p.Halt?
    ensures Run(p, s) == Parsed(p.log, if p.ok then Done(0) else Failed) && s[0..] == s && forall m :: Apply([], m) == m
  {
  }

  // Skipping sets nothing.
  lemma SkipStores(s: seq<byte>, m: Memory)
    ensures Run(SkipProg(), s).log == [] && Apply([], m) == m
  {
    if |s| >= 2 { SkipBytesStores(256 * (s[0] as int) + s[1] as int - 2, s[1..][1..]); }
  }

  lemma {:induction false} SkipBytesStores(n: int, s: seq<byte>)
    ensures Run(SkipBytes(n), s).log == []
    decreases n
  {
    if n > 0 && s != [] { SkipBytesStores(n - 1, s[1..]); }
  }

  lemma SkipFillNext(s: seq<byte>, pos: nat)
    requires pos <= |s|
    ensures SkipFill(s[pos..]) == if pos < |s| && s[pos] == 0xFF then SkipFill(s[pos + 1..]) else s[pos..]
  {
    if pos < |s| { assert s[pos..][1..] == s[pos + 1..]; }
  }

  // The components of the scan that are stored; the rest of the array is empty.
  predicate CurIs(m: Memory, cur: seq<int>) {
    forall k: nat :: k < MAX_COMPS_IN_SCAN ==> if k < |cur| then cur[k] >= 0 && Fetch(m, CurComp(k)) == cur[k] else Fetch(m, CurComp(k)) == -1
  }

  lemma CurAt(m: Memory, cur: seq<int>, k: nat)
    requires CurIs(m, cur) && k < 4
    ensures if k < |cur| then cur[k] >= 0 && Fetch(m, CurComp(k)) == cur[k] else Fetch(m, CurComp(k)) == -1
  {
  }

  lemma SofCompsHead(num: nat, ci: nat, log: seq<Store>)
    requires ci <= num
    ensures SofComps(num, ci, log).log == log
    ensures ci == num ==> SofComps(num, ci, log) == Halt(log, true)
  {
  }

  lemma SosCompsHead(n: nat, cur: seq<int>, ids: seq<int>, log: seq<Store>)
    requires |cur| <= n
    ensures SosComps(n, cur, ids, log).log == log
    ensures |cur| == n ==> SosComps(n, cur, ids, log) == SosParams(log)
  {
  }

  lemma ConditioningNext(n: nat)
    ensures Conditioning(n) == if n == 0 then [] else
      Conditioning(n - 1) + [Store(ArithDcL(n - 1), 0)] + [Store(ArithDcU(n - 1), 1)] + [Store(ArithAcK(n - 1), 5)]
  {
  }

  lemma SkipNext(n: int)
    ensures var p := SkipBytes(n);
      if n <= 0 then p == Halt([], true) else p.Read? && p.log == [] && forall b: byte :: p.k(b) == SkipBytes(n - 1)
  {
  }

  lemma DqtHead(length: int, log: seq<Store>)
    ensures DqtTables(length, log).log == log
    ensures length <= 0 ==> DqtTables(length, log) == Halt(log, length == 0)
  {
  }

  lemma DqtCoefsHead(n: nat, prec: bool, i: nat, length: int, log: seq<Store>)
    requires i <= 64 && length > 0
    ensures DqtCoefs(n, prec, i, length, log).log == log
    ensures i == 64 ==> DqtCoefs(n, prec, i, length, log) == DqtTables(length - 65 - (if prec then 64 else 0), log)
  {
  }

  lemma DhtBitsNext(index: nat, bits: seq<nat>, length: int)
    requires 1 <= |bits| <= 17 && length >= 0
    ensures var p := DhtBits(index, bits, length);
      if |bits| < 17 then p.Read? && p.log == [] && forall b: byte :: p.k(b) == DhtBits(index, bits + [b], length)
      else p == if Total(bits) > 256 || Total(bits) > length then Halt([], false) else DhtVals(index, bits, [], length)
  {
    hide Total, DhtVals;
  }

  lemma DhtValsNext(index: nat, bits: seq<nat>, vals: seq<int>, length: int)
    requires |bits| == 17 && |vals| <= 256 && Total(bits) <= 256 && Total(bits) <= length && length >= 0
    ensures var p := DhtVals(index, bits, vals, length);
      if |vals| < Total(bits) then p.Read? && p.log == [] && forall v: byte :: p.k(v) == DhtVals(index, bits, vals + [v], length)
      else if HuffIndex(index) >= NUM_HUFF_TBLS then p == Halt([], false)
      else p == DhtTables(length - Total(bits), StoreHuff(IsAc(index), HuffIndex(index), bits, vals))
  {
    hide Total, StoreHuff, IsAc, HuffIndex, DhtTables;
  }

  lemma DhtHead(length: int, log: seq<Store>)
    ensures DhtTables(length, log).log == log
    ensures length <= 16 ==> DhtTables(length, log) == Halt(log, length == 0)
  {
  }

  lemma DacHead(length: int, log: seq<Store>)
    ensures DacEntries(length, log).log == log
    ensures length <= 0 ==> DacEntries(length, log) == Halt(log, length == 0)
  {
  }
}
