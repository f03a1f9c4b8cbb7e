/** The arithmetic encoder: 28-bit code register, delayed output with stacked 0xFF bytes and pending
    zero bytes, and "Pacman" termination. */
module ArithEncoder {
  import opened Bytes
  import opened ArithTable
  import opened ArithCode

  class Encoder {
    var c: int              // base of the coding interval, layout as in section D.1.3
    var a: int              // size of the coding interval
    var sc: nat             // stacked 0xFF bytes which might overflow
    var zc: nat             // pending 0x00 bytes which might be discarded at the end
    var ct: nat             // shifts until the next byte is ready
    var buffer: int         // most recent output byte != 0xFF, or -1
    var stats: Stats
    var out: seq<byte>      // the destination

    ghost var head: seq<byte>     // what the destination held before this entropy-coded segment
    ghost var emitted: seq<byte>  // the data bytes written to this segment, before stuffing

    /** The data bytes of this segment that have left the code register. */
    ghost function Pending(): seq<byte>
      reads this
      requires buffer < 0x100
    {
      emitted + Repeat(0, zc) + BufferBytes(buffer) + Repeat(0xFF, sc)
    }

    ghost predicate Output()
      reads this
    {
      && out == head + Stuff(emitted)
      && -1 <= buffer < 0xFF
      && (buffer == -1 ==> zc == 0 && emitted == [])
      && (emitted == [] || emitted[|emitted| - 1] != 0)
    }

    ghost predicate Running(loCt: nat)
      reads this
    {
      && Output()
      && loCt <= ct
      && Registers(Pending(), c, a, ct)
    }

    ghost predicate Valid()
      reads this
    {
      Running(1) && a >= 0x8000
    }

    /** The exact interval the registers and the pending bytes stand for. */
    ghost function Exact(): Interval
      reads this
      requires Running(0)
    {
      ExactInterval(Pending(), c, a, ct)
    }

    ghost function State(): Coder
      reads this
      requires Running(0)
    {
      Coder(Exact(), stats)
    }

    constructor (stats: Stats)
      ensures Valid() && State() == Coder(START, stats) && out == [] && head == []
    {
      c, a, sc, zc, ct, buffer := 0, 0x10000, 0, 0, 11, -1;
      this.stats := stats;
      out, head, emitted := [], [], [];
      new;
      StartRegisters();
      assert Pending() == [];
    }

    // Reset arithmetic encoding variables
    method Restart(stats: Stats)
      modifies this
      ensures Valid() && State() == Coder(START, stats) && out == old(out) && head == out
    {
      c, a, sc, zc, ct, buffer := 0, 0x10000, 0, 0, 11, -1;
      this.stats := stats;
      head, emitted := out, [];
      StartRegisters();
      assert Pending() == [];
    }

    method EmitByte(val: byte)
      modifies this`out
      ensures out == old(out) + [val]
    {
      out := out + [val];
    }

    // Emit pending zero bytes, then one byte, stuffed if it is 0xFF.
    method EmitData(val: byte)
      requires out == head + Stuff(emitted)
      modifies this`out, this`zc, this`emitted
      ensures zc == 0 && emitted == old(emitted) + Repeat(0, old(zc)) + [val]
      ensures out == head + Stuff(emitted)
    {
      hide Stuff;
      EmitPendingZeros();
      EmitByte(val);
      if val == 0xFF {
        EmitByte(0);
      }
      StuffSnoc(emitted, val);
      emitted := emitted + [val];
    }

    method EmitPendingZeros()
      requires out == head + Stuff(emitted)
      modifies this`out, this`zc, this`emitted
      ensures zc == 0 && emitted == old(emitted) + Repeat(0, old(zc)) && out == head + Stuff(emitted)
    {
      ghost var n := zc;
      ghost var k := 0;
      AppendRepeat(emitted, 0, 0);
      while zc > 0
        invariant zc + k == n && emitted == old(emitted) + Repeat(0, k) && out == head + Stuff(emitted)
      {
        EmitByte(0x00);
        StuffSnoc(emitted, 0);
        AppendRepeat(old(emitted), 0, k);
        emitted := emitted + [0];
        zc, k := zc - 1, k + 1;
      }
    }

    method EmitStacked()
      requires out == head + Stuff(emitted)
      modifies this`out, this`sc, this`emitted
      ensures sc == 0 && emitted == old(emitted) + Repeat(0xFF, old(sc)) && out == head + Stuff(emitted)
    {
      hide Stuff;
      ghost var n := sc;
      ghost var k := 0;
      AppendRepeat(emitted, 0xFF, 0);
      while sc > 0
        invariant sc + k == n && emitted == old(emitted) + Repeat(0xFF, k) && out == head + Stuff(emitted)
      {
        EmitByte(0xFF);
        EmitByte(0x00);
        StuffSnoc(emitted, 0xFF);
        AppendRepeat(old(emitted), 0xFF, k);
        emitted := emitted + [0xFF];
        sc, k := sc - 1, k + 1;
      }
    }

    // A carry out of the code register: it stops at the buffered byte, and turns the stacked 0xFF
    // bytes behind that into zeros.
    method PropagateCarry()
      requires Output() && Value(Pending()) + 1 < Shl(1, 8 * |Pending()|)
      modifies this`out, this`zc, this`sc, this`emitted
      ensures out == head + Stuff(emitted) && sc == 0
      ensures emitted != [] && emitted[|emitted| - 1] != 0
      ensures Value(emitted + Repeat(0, zc)) == old(Value(Pending())) + 1
      ensures |emitted| + zc == old(|Pending()|)
    {
      hide Value, Shl, Stuff, Repeat;
      CarryStops(emitted, zc, buffer, sc);
      if buffer >= 0 {
        EmitData(buffer + 1);
      }
      zc := zc + sc;
      sc := 0;
    }

    // No carry can come any more: write what was held back.
    method ReleasePending()
      requires Output()
      modifies this`out, this`zc, this`sc, this`emitted
      ensures out == head + Stuff(emitted) && sc == 0
      ensures emitted == [] || emitted[|emitted| - 1] != 0
      ensures emitted + Repeat(0, zc) == old(Pending())
    {
      hide Value, Shl, Stuff;
      ghost var p := Pending();
      if buffer == 0 {
        zc := zc + 1;
        AppendRepeat(emitted, 0, zc - 1);
        assert p == emitted + Repeat(0, zc) + Repeat(0xFF, sc);
      } else if buffer >= 0 {
        EmitData(buffer);
        assert p == emitted + Repeat(0, zc) + Repeat(0xFF, sc);
      }
      if sc > 0 {
        EmitPendingZeros();
        EmitStacked();
      }
      assert emitted + Repeat(0, zc) == p;
    }

    // Another byte is ready for output.
    method OutputByte()
      requires Running(0) && ct == 0
      modifies this`c, this`ct, this`out, this`zc, this`sc, this`buffer, this`emitted
      ensures Running(1) && Exact() == old(Exact())
    {
      ghost var p := Pending();
      var temp := c / 0x80000;
      ByteReady(p, c, a);
      QueueByte(temp);
      ByteShifted(p, c, a, Pending());
      c := c % 0x80000;
      ct := ct + 8;
    }

    method QueueByte(temp: int)
      requires Output() && 0 <= temp < 0x120
      requires temp > 0xFF ==> Value(Pending()) + 1 < Shl(1, 8 * |Pending()|)
      modifies this`out, this`zc, this`sc, this`buffer, this`emitted
      ensures Output()
      ensures Value(Pending()) == 256 * old(Value(Pending())) + temp
      ensures |Pending()| == old(|Pending()|) + 1
    {
      hide Value, Shl, Stuff, Repeat;
      ghost var p := Pending();
      if temp > 0xFF {
        // Handle overflow over all stacked 0xFF bytes
        PropagateCarry();
        buffer := temp % 0x100;
        PendingSnoc(emitted + Repeat(0, zc), buffer);
        assert Pending() == emitted + Repeat(0, zc) + [buffer];
      } else if temp == 0xFF {
        sc := sc + 1;
        AppendRepeat(emitted + Repeat(0, zc) + BufferBytes(buffer), 0xFF, sc - 1);
        ValueSnoc(p, 0xFF);
        assert Pending() == p + [0xFF];
      } else {
        // Output all stacked 0xFF bytes, they will not overflow any more
        ReleasePending();
        buffer := temp;
        PendingSnoc(emitted + Repeat(0, zc), buffer);
        assert Pending() == p + [buffer];
      }
    }

    method Renormalize()
      requires Running(1) && a < 0x8000
      modifies this
      ensures Valid() && Exact() == Renorm(old(Exact())) && stats == old(stats) && head == old(head)
    {
      hide Value, Shl, Stuff, Repeat;
      // The register is not normalized here, so testing first is the same as testing last.
      while a < 0x8000
        invariant Running(1) && Renorm(Exact()) == Renorm(old(Exact()))
        invariant stats == old(stats) && head == old(head)
        decreases 0x8000 - a
      {
        DoubleRegisters(Pending(), c, a, ct);
        a := 2 * a;
        c := 2 * c;
        ct := ct - 1;
        if ct == 0 {
          OutputByte();
        }
      }
    }

    /** Encodes one binary decision: the registers and the byte queue refine the exact coder. */
    method Encode(bin: Bin, val: bool)
      requires Valid() && bin in stats
      modifies this
      ensures Valid() && State() == Step(old(State()), Decision(bin, val)) && head == old(head)
    {
      hide Lookup;
      var ready, next := Subdivide(Lookup(stats[bin]), val);
      stats := stats[bin := next];
      if !ready {
        Renormalize();
      }
    }

    method Subdivide(r: Rule, val: bool) returns (ready: bool, next: stat)
      requires Valid()
      modifies this`c, this`a
      ensures Running(1) && Exact() == Narrowed(old(Exact()), r, val)
      ensures next == Estimate(old(a), r, val)
      ensures ready <==> a >= 0x8000
    {
      hide Value, Shl, Stuff, Repeat;
      var qe := r.qe;
      NarrowRegisters(Pending(), c, a, ct, qe);
      a := a - qe;
      if val != r.mps {
        // Encode the less probable symbol
        if a >= qe {
          c := c + a;
          a := qe;
        }
        next := r.afterLps;
      } else {
        // Encode the more probable symbol
        if a >= 0x8000 {
          return true, r.current;  // no renormalization required
        }
        if a < qe {
          c := c + a;
          a := qe;
        }
        next := r.afterMps;
      }
      ready := false;
    }

    /** Ends the segment: the bytes written denote a code value in the final interval, with every 0xFF
        stuffed and no zero byte at the end. */
    method Finish()
      requires Valid()
      modifies this
      ensures out == old(head) + Stuff(emitted) && head == old(head)
      ensures Contains(old(Exact()), 65536.0 * Fraction(emitted)) && Roundest(old(Exact()), 65536.0 * Fraction(emitted))
      ensures emitted == [] || emitted[|emitted| - 1] != 0
    {
      hide Stuff, Fraction, Value, Shl, Rounded, Roundest;
      ghost var p := Pending();
      // Find the value in the coding interval with the largest number of trailing zero bits
      var temp := (a - 1 + c) / 0x10000 * 0x10000;
      var code := if temp < c then temp + 0x8000 else temp;
      FinalCode(p, c, a, ct, code);
      ghost var c0 := c;
      c := Shl(code, ct);
      ghost var q := FlushRegister();
      ghost var r := q + [c / 0x80000 % 0x100] + [c / 0x800 % 0x100];
      FinalBytes(p, c0, a, ct, code, q, r, 65536.0 * Fraction(r));
      RoundestCode(p, c0, a, ct, code, 65536.0 * Fraction(r));
    }

    // Send remaining bytes to output
    method FlushRegister() returns (ghost q: seq<byte>)
      requires Output() && 0 <= c < 0x9000000
      requires c >= 0x8000000 ==> Value(Pending()) + 1 < Shl(1, 8 * |Pending()|)
      modifies this`out, this`zc, this`sc, this`emitted
      ensures out == head + Stuff(emitted)
      ensures emitted == [] || emitted[|emitted| - 1] != 0
      ensures |q| == |old(Pending())| && Value(q) == Value(old(Pending())) + c / 0x8000000
      ensures Fraction(emitted) == Fraction(q + [c / 0x80000 % 0x100] + [c / 0x800 % 0x100])
    {
      hide Fraction, Value, Stuff;
      if c / 0x8000000 % 0x20 != 0 {
        // One final overflow has to be handled
        PropagateCarry();
      } else {
        ReleasePending();
      }
      q := emitted + Repeat(0, zc);
      TailBits(c);
      EmitTail(c / 0x80000 % 0x100, c / 0x800 % 0x100, c % 0x8000000 / 0x800 != 0, c % 0x80000 / 0x800 != 0);
    }

    // Output final bytes only if they are not 0x00
    method EmitTail(b1: byte, b2: byte, any: bool, low: bool)
      requires out == head + Stuff(emitted)
      requires any == (b1 != 0 || b2 != 0) && low == (b2 != 0)
      requires emitted == [] || emitted[|emitted| - 1] != 0
      modifies this`out, this`zc, this`emitted
      ensures out == head + Stuff(emitted)
      ensures Fraction(emitted) == Fraction(old(emitted) + Repeat(0, old(zc)) + [b1] + [b2])
      ensures emitted == [] || emitted[|emitted| - 1] != 0
    {
      ghost var q := emitted + Repeat(0, zc);
      if any {
        EmitData(b1);
        assert emitted == q + [b1];
        if low {
          EmitData(b2);
          assert emitted == q + [b1] + [b2];
        } else {
          assert emitted + Repeat(0, 1) == q + [b1] + [b2];
          FractionZeros(emitted, 1);
        }
      } else {
        FractionZeros(emitted, zc);
        FractionZeros(q, 2);
        assert q + [b1] + [b2] == q + Repeat(0, 2);
      }
    }
  }

  lemma TailBits(c: nat)
    ensures c % 0x8000000 / 0x800 != 0 <==> c / 0x80000 % 0x100 != 0 || c / 0x800 % 0x100 != 0
    ensures c % 0x80000 / 0x800 != 0 <==> c / 0x800 % 0x100 != 0
  {
    var k, l := c / 0x800, c / 0x80000;
    assert l == k / 0x100 && c / 0x8000000 == l / 0x100;
    assert c % 0x8000000 / 0x800 == k % 0x10000 && c % 0x80000 / 0x800 == k % 0x100;
    assert k % 0x10000 == 0x100 * (l % 0x100) + k % 0x100;
  }

  lemma PendingSnoc(front: seq<byte>, b: byte)
    ensures front + BufferBytes(b) + Repeat(0xFF, 0) == front + [b]
    ensures Value(front + [b]) == 256 * Value(front) + b
  {
    ValueSnoc(front, b);
  }

  function BufferBytes(buffer: int): seq<byte>
    requires buffer < 0x100
  {
    if buffer >= 0 then [buffer] else []
  }

  /** What the code register can hold while ct shifts are left before it yields a byte: three spacer
      bits keep a carry from running into the next byte, and the interval stays below one. */
  ghost predicate Registers(p: seq<byte>, c: int, a: int, ct: nat) {
    && 0 <= c && 0 < a <= 0x10000
    && ct <= (if p == [] then 11 else 8)
    && c + a <= (if p == [] then Shl(1, 27 - ct) else Shl(9, 24 - ct))
    && Shl(Value(p), 27 - ct) + c + a <= Shl(1, 27 - ct + 8 * |p|)
  }

  ghost function ExactInterval(p: seq<byte>, c: int, a: int, ct: nat): Interval
    requires Registers(p, c, a, ct)
  {
    ShlMonotonic(0, Value(p), 27 - ct);
    ShlZero(27 - ct);
    Interval(Shl(Value(p), 27 - ct) + c, a, 11 - ct + 8 * |p|)
  }

  lemma StartRegisters()
    ensures Registers([], 0, 0x10000, 11) && ExactInterval([], 0, 0x10000, 11) == START
  {
    ShlByte(1, 8);
    ShlByte(1, 0);
    ShlZero(16);
  }

  /** A carry never reaches a missing byte. */
  lemma CarryStops(emitted: seq<byte>, zc: nat, buffer: int, sc: nat)
    requires -1 <= buffer < 0xFF && (buffer == -1 ==> zc == 0 && emitted == [])
    requires var p := emitted + Repeat(0, zc) + BufferBytes(buffer) + Repeat(0xFF, sc);
      Value(p) + 1 < Shl(1, 8 * |p|)
    ensures buffer >= 0
    ensures var p := emitted + Repeat(0, zc) + BufferBytes(buffer) + Repeat(0xFF, sc);
      Value(emitted + Repeat(0, zc) + [buffer + 1] + Repeat(0, sc)) == Value(p) + 1
  {
    hide Value, Shl;
    var front := emitted + Repeat(0, zc);
    ValueOnes(front + BufferBytes(buffer), sc);
    NoValue();
    if buffer >= 0 {
      ValueSnoc(front, buffer);
      ValueSnoc(front, buffer + 1);
      ValueZeros(front + [buffer + 1], sc);
    }
  }

  lemma NoValue()
    ensures Value([]) == 0
  {
  }

  /** When the register is full, its top bits are the next byte with at most one carry, and the byte
      after a carry is not 0xFF. */
  lemma ByteReady(p: seq<byte>, c: int, a: int)
    requires Registers(p, c, a, 0)
    ensures var temp := c / 0x80000;
      && 0 <= temp < 0x120
      && (temp > 0xFF ==> p != [] && Value(p) + 1 < Shl(1, 8 * |p|))
  {
    RegisterSizes();
    if c / 0x80000 > 0xFF {
      ShlAdd(Value(p), 1, 27);
      ShlShl(1, 8 * |p|, 27);
      assert 27 + 8 * |p| == 8 * |p| + 27;
      ShlMonotonic(Shl(1, 8 * |p|), Value(p) + 1, 27);
    }
  }

  /** Moving that byte out of the register changes nothing about the exact interval. */
  lemma ByteShifted(p: seq<byte>, c: int, a: int, q: seq<byte>)
    requires Registers(p, c, a, 0)
    requires |q| == |p| + 1 && Value(q) == 256 * Value(p) + c / 0x80000
    ensures Registers(q, c % 0x80000, a, 8)
    ensures ExactInterval(q, c % 0x80000, a, 8) == ExactInterval(p, c, a, 0)
  {
    hide Shl;
    RegisterSizes();
    ShlAdd(256 * Value(p), c / 0x80000, 19);
    ShlByte(Value(p), 19);
    ShlSpacer(c / 0x80000);
    assert 19 + 8 * |q| == 27 + 8 * |p|;
  }

  lemma RegisterSizes()
    ensures Shl(1, 27) == 0x8000000 && Shl(9, 24) == 0x9000000 && Shl(9, 16) == 0x90000
  {
    ShlByte(1, 19);
    ShlSpacer(1);
    ShlByte(9, 16);
    ShlByte(9, 8);
    ShlByte(9, 0);
  }

  lemma ShlSpacer(x: int)
    ensures Shl(x, 19) == 0x80000 * x
  {
    ShlByte(x, 11);
    ShlByte(x, 3);
    assert Shl(x, 3) == 2 * Shl(x, 2) == 4 * Shl(x, 1) == 8 * x;
  }

  lemma DoubleRegisters(p: seq<byte>, c: int, a: int, ct: nat)
    requires Registers(p, c, a, ct) && ct > 0 && a < 0x8000
    ensures Registers(p, 2 * c, 2 * a, ct - 1)
    ensures var iv := ExactInterval(p, c, a, ct);
      ExactInterval(p, 2 * c, 2 * a, ct - 1) == Interval(2 * iv.base, 2 * iv.width, iv.shifts + 1)
  {
  }

  lemma NarrowRegisters(p: seq<byte>, c: int, a: int, ct: nat, qe: int)
    requires Registers(p, c, a, ct) && 0 < qe < a
    ensures Registers(p, c, a - qe, ct) && Registers(p, c + (a - qe), qe, ct)
  {
  }

  /** The chosen code has 15 trailing zero bits and lies in the interval; shifted up, it carries at
      most once, and never past the first byte. */
  lemma FinalCode(p: seq<byte>, c: int, a: int, ct: nat, code: int)
    requires Registers(p, c, a, ct) && a >= 0x8000 && ct >= 1
    requires var temp := (a - 1 + c) / 0x10000 * 0x10000;
      code == if temp < c then temp + 0x8000 else temp
    ensures c <= code < c + a && code % 0x8000 == 0
    ensures 0 <= Shl(code, ct) < 0x9000000 && Shl(code, ct) % 0x800 == 0 && Shl(code, ct) % 0x10000 == 0
    ensures Shl(code, ct) >= 0x8000000 ==> Value(p) + 1 < Shl(1, 8 * |p|)
    ensures forall z :: c <= z < c + a && Rounded(z) ==> z == code
  {
    InInterval(c, a, code);
    RegisterSizes();
    ShlZero(ct);
    ShlMonotonic(0, code, ct);
    ShlMultiple(code, ct);
    var bound := if p == [] then Shl(1, 27 - ct) else Shl(9, 24 - ct);
    ShlMonotonic(bound, code, ct);
    ShlShl(1, 27 - ct, ct);
    ShlShl(9, 24 - ct, ct);
    if Shl(code, ct) >= 0x8000000 {
      TotalBelowOne(p, ct, code);
    }
  }

  lemma InInterval(c: int, a: int, code: int)
    requires 0x8000 <= a <= 0x10000
    requires var temp := (a - 1 + c) / 0x10000 * 0x10000;
      code == if temp < c then temp + 0x8000 else temp
    ensures c <= code < c + a && code % 0x8000 == 0
    ensures forall z :: c <= z < c + a && Rounded(z) ==> z == code
  {
  }

  lemma ShlMultiple(code: int, ct: nat)
    requires code % 0x8000 == 0 && ct >= 1
    ensures Shl(code, ct) % 0x10000 == 0 && Shl(code, ct) % 0x800 == 0
  {
    var k := code / 0x8000;
    assert Shl(k, ct) == 2 * Shl(k, ct - 1);
    hide Shl;
    assert code == 0x8000 * k;
    ShlMultipleOf(k, ct);
    NoLowBits(Shl(k, ct - 1));
  }

  lemma NoLowBits(y: int)
    ensures 0x8000 * (2 * y) % 0x10000 == 0 && 0x8000 * (2 * y) % 0x800 == 0
  {
  }

  lemma {:induction false} ShlMultipleOf(k: int, n: nat)
    ensures Shl(0x8000 * k, n) == 0x8000 * Shl(k, n)
  {
    if n != 0 { ShlMultipleOf(k, n - 1); }
  }

  lemma TotalBelowOne(p: seq<byte>, ct: nat, code: int)
    requires ct <= 11
    requires Shl(Value(p), 27 - ct) + code < Shl(1, 27 - ct + 8 * |p|)
    requires Shl(code, ct) >= 0x8000000
    ensures Value(p) + 1 < Shl(1, 8 * |p|)
  {
    var one := Shl(1, 8 * |p|);
    ShlShl(1, 8 * |p|, 27);
    ShlShl(1, 27 - ct + 8 * |p|, ct);
    ShlMonotonic(Shl(1, 27 - ct + 8 * |p|), Shl(Value(p), 27 - ct) + code, ct);
    ShlAdd(Shl(Value(p), 27 - ct), code, ct);
    ShlShl(Value(p), 27 - ct, ct);
    ShlAdd(Value(p), 1, 27);
    RegisterSizes();
    ShlMonotonic(one, Value(p) + 1, 27);
  }

  /** The final bytes denote exactly the chosen code. */
  lemma FinalBytes(p: seq<byte>, c: int, a: int, ct: nat, code: int, q: seq<byte>, r: seq<byte>, x: real)
    requires Registers(p, c, a, ct) && ct >= 1 && c <= code < c + a
    requires 0 <= Shl(code, ct) && Shl(code, ct) % 0x800 == 0
    requires |q| == |p| && Value(q) == Value(p) + Shl(code, ct) / 0x8000000
    requires r == q + [Shl(code, ct) / 0x80000 % 0x100] + [Shl(code, ct) / 0x800 % 0x100]
    requires x == 65536.0 * Fraction(r)
    ensures Contains(ExactInterval(p, c, a, ct), x)
    ensures Scale(x, 11 - ct + 8 * |p|) == (Shl(Value(p), 27 - ct) + code) as real
  {
    var base := Shl(Value(p), 27 - ct) + code;
    FinalValue(Value(p), Shl(code, ct), q);
    CodeOfBytes(Value(p), ct, code, Value(r));
    FractionIsValue(r);
    CodeOffset(Fraction(r), x, Value(r), |r|, base, ct, 11 - ct + 8 * |p|);
    ContainsCode(p, c, a, ct, code, x);
  }

  /** The bytes that have left the register add a multiple of 0x10000. */
  lemma RoundestCode(p: seq<byte>, c: int, a: int, ct: nat, code: int, x: real)
    requires Registers(p, c, a, ct) && code % 0x8000 == 0 && forall z :: c <= z < c + a && Rounded(z) ==> z == code
    requires Scale(x, 11 - ct + 8 * |p|) == (Shl(Value(p), 27 - ct) + code) as real
    ensures Roundest(ExactInterval(p, c, a, ct), x)
  {
    hide Value, Shl, Rounded, Scale;
    var iv, s := ExactInterval(p, c, a, ct), Shl(Value(p), 27 - ct);
    RoundedShl(Value(p), 27 - ct);
    RoundedSum(s, code);
    assert IsAt(x, iv.shifts, s + code);
    forall y | iv.base <= y < iv.base + iv.width && Rounded(y)
      ensures y == s + code
    {
      RoundedSum(s, y - s);
      assert Rounded(y - s);
    }
  }

  lemma RoundedSum(s: int, t: int)
    requires Rounded(s)
    ensures Rounded(s + t) <==> Rounded(t)
    ensures t % 0x8000 == 0 ==> (s + t) % 0x8000 == 0
  {
  }

  lemma ContainsCode(p: seq<byte>, c: int, a: int, ct: nat, code: int, x: real)
    requires Registers(p, c, a, ct) && c <= code < c + a
    requires Scale(x, 11 - ct + 8 * |p|) == (Shl(Value(p), 27 - ct) + code) as real
    ensures Contains(ExactInterval(p, c, a, ct), x)
  {
  }

  lemma FinalValue(v: nat, x: nat, q: seq<byte>)
    requires x % 0x800 == 0 && Value(q) == v + x / 0x8000000
    ensures 0x800 * Value(q + [x / 0x80000 % 0x100] + [x / 0x800 % 0x100]) == 0x8000000 * v + x
  {
    SplitCode(x);
    ValueSnoc(q, x / 0x80000 % 0x100);
    ValueSnoc(q + [x / 0x80000 % 0x100], x / 0x800 % 0x100);
  }

  lemma SplitCode(x: nat)
    requires x % 0x800 == 0
    ensures x == 0x8000000 * (x / 0x8000000) + 0x80000 * (x / 0x80000 % 0x100) + 0x800 * (x / 0x800 % 0x100)
  {
    assert x / 0x80000 == x / 0x800 / 0x100 && x / 0x8000000 == x / 0x80000 / 0x100;
  }

  lemma CodeOffset(f: real, x: real, v: int, n: nat, base: int, ct: nat, s: nat)
    requires x == 65536.0 * f
    requires Scale(f, 8 * n) == v as real && s + 16 + ct == 8 * n + 11
    requires Shl(v, 11) == Shl(base, ct)
    ensures Scale(x, s) == base as real
  {
    ScaleScale(f, s + 16, ct);
    ScaleScale(f, 8 * n, 11);
    ScaleInt(v, 11);
    ScaleInt(base, ct);
    ScaleMonotonic(Scale(f, s + 16), base as real, ct);
    ScaleMonotonic(base as real, Scale(f, s + 16), ct);
    ScaleByte(f, s + 8);
    ScaleByte(256.0 * f, s);
  }

  lemma CodeOfBytes(v: int, ct: nat, code: int, r: int)
    requires ct <= 27
    requires 0x800 * r == 0x8000000 * v + Shl(code, ct)
    ensures Shl(r, 11) == Shl(Shl(v, 27 - ct) + code, ct)
  {
    ShlByte(r, 3);
    assert Shl(r, 3) == 2 * Shl(r, 2) == 4 * Shl(r, 1) == 8 * r;
    ShlAdd(Shl(v, 27 - ct), code, ct);
    ShlShl(v, 27 - ct, ct);
    ShlByte(v, 19);
    ShlSpacer(v);
  }
}
