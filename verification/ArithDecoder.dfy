/** The arithmetic decoder: a code register whose boundary between base and look-ahead bits floats
    with the shift counter, fed from a stuffed byte stream that ends in a marker. */
module ArithDecoder {
  import opened Bytes
  import opened Segments
  import opened ArithTable
  import opened ArithCode

  // ----- The register

  function Half(x: real, n: nat): real {
    if n == 0 then x else Half(x, n - 1) / 2.0
  }

  lemma {:induction false} HalfCompare(c: int, f: real, cut: int, n: nat)
    requires 0.0 <= f < 1.0
    ensures Half(c as real + f, n) >= cut as real <==> c >= Shl(cut, n)
    ensures Half(c as real + f, n) - cut as real == Half((c - Shl(cut, n)) as real + f, n)
  {
    HalfScale(c as real + f, n);
    HalfScale((c - Shl(cut, n)) as real + f, n);
    ScaleInt(cut, n);
    ScaleMonotonic(cut as real, Half(c as real + f, n), n);
    var d := Half((c - Shl(cut, n)) as real + f, n);
    ScaleAdd(d, cut as real, n);
    ScaleMonotonic(d + cut as real, Half(c as real + f, n), n);
    ScaleMonotonic(Half(c as real + f, n), d + cut as real, n);
  }

  lemma FractionCons(b: byte, s: seq<byte>)
    ensures 256.0 * Fraction([b] + s) == b as real + Fraction(s)
  {
    assert ([b] + s)[1..] == s;
  }

  lemma {:induction false} HalfScale(x: real, n: nat)
    ensures Scale(Half(x, n), n) == x
  {
    if n != 0 {
      HalfScale(x, n - 1);
      ScaleAdd(Half(x, n), Half(x, n), n - 1);
    }
  }

  lemma HalfSeven(x: real)
    ensures Half(256.0 * x, 7) == 2.0 * x
  {
    assert Half(256.0 * x, 2) == Half(256.0 * x, 1) / 2.0 == 64.0 * x;
    assert Half(256.0 * x, 4) == Half(256.0 * x, 3) / 2.0 == 16.0 * x;
    assert Half(256.0 * x, 6) == Half(256.0 * x, 5) / 2.0 == 4.0 * x;
  }

  class Decoder {
    var c: int            // offset in the coding interval, followed by ct look-ahead bits
    var a: nat            // size of the coding interval, not yet normalized
    var ct: int           // look-ahead bits in c; -16 before the first byte
    var unread: seq<byte> // the source
    var marker: int       // marker code found in the source, or 0
    var stats: Stats

    ghost const ending: Mark  // the marker that the source runs into

    ghost predicate Valid()
      reads this
    {
      && NextMark(unread, marker) == ending
      && if a == 0 then (ct == -16 && c == 0) || (ct == -8 && 0 <= c < 0x100)
      else 0 <= ct < 8 && a <= 0x10000 && 0 <= c < Shl(a, ct)
    }

    ghost function Remaining(): seq<byte>
      reads this
    {
      Payload(unread, marker)
    }

    /** The window the registers and the data still to be read stand for. */
    ghost function Exact(): (w: Window)
      reads this
      requires Valid()
      ensures w.a > 0
    {
      var f := Fraction(Remaining());
      if a != 0 then Window(Half(c as real + f, ct), a)
      else if ct == -8 then Window(256.0 * (c as real + f), 0x10000)
      else Window(65536.0 * f, 0x10000)
    }

    constructor (source: seq<byte>, stats: Stats)
      ensures Valid() && unread == source && marker == 0 && this.stats == stats && ending == NextMark(source, 0)
      ensures Exact() == Window(65536.0 * Fraction(Payload(source, 0)), 0x10000)
    {
      c, a, ct := 0, 0, -16;  // force reading 2 initial bytes to fill C
      unread, marker := source, 0;
      this.stats := stats;
      ending := NextMark(source, 0);
    }

    // Reads the next data byte: zero bytes once a marker is reached.  Fails if the source is empty.
    method NextData() returns (ok: bool, data: byte)
      modifies this`unread, this`marker
      ensures Terminated(old(unread), old(marker)) ==> ok && Terminated(unread, marker)
      ensures ok ==> NextMark(unread, marker) == old(NextMark(unread, marker))
      ensures ok ==> 256.0 * Fraction(old(Remaining())) == data as real + Fraction(Remaining())
    {
      ghost var before := Remaining();
      if marker != 0 {
        return true, 0;  // stuff zero data
      }
      if unread == [] {
        return false, 0;
      }
      data := unread[0];
      unread := unread[1..];
      if data == 0xFF {  // zero stuff or marker code
        ghost var start := unread;
        while unread != [] && unread[0] == 0xFF  // swallow extra 0xFF bytes
          invariant marker == 0 && SkipFill(unread) == SkipFill(start)
          decreases |unread|
        {
          unread := unread[1..];
        }
        if unread == [] {
          return false, 0;
        }
        data := unread[0];
        unread := unread[1..];
        if data == 0 {
          data := 0xFF;  // discard stuffed zero byte
        } else {
          marker := data;
          data := 0;
        }
      }
      if marker == 0 {
        FractionCons(data, Remaining());
        assert before == [data] + Remaining();
      }
      ok := true;
    }

    // Renormalization & data input per section D.2.6
    method Renormalize() returns (ok: bool)
      requires Valid()
      modifies this`c, this`a, this`ct, this`unread, this`marker
      ensures Terminated(old(unread), old(marker)) ==> ok && Terminated(unread, marker)
      ensures ok ==> Valid() && a >= 0x8000 && Exact() == Normalize(old(Exact()))
    {
      while a < 0x8000
        invariant Valid() && Normalize(Exact()) == Normalize(old(Exact()))
        invariant Terminated(old(unread), old(marker)) ==> Terminated(unread, marker)
        decreases if a == 0 then 0x10000 - ct else 0x8000 - a
      {
        if a == 0 {
          ok := ReadInitial();
        } else {
          ok := Double();
        }
        if !ok {
          return;
        }
      }
      ok := true;
    }

    // One turn of the loop before the two initial bytes are in.
    method ReadInitial() returns (ok: bool)
      requires Valid() && a == 0
      modifies this`c, this`a, this`ct, this`unread, this`marker
      ensures Terminated(old(unread), old(marker)) ==> ok && Terminated(unread, marker)
      ensures ok ==> Valid() && Exact() == old(Exact())
      ensures ok ==> if old(ct) == -16 then a == 0 && ct == -8 else a == 0x10000
    {
      ct := ct - 1;
      var data;
      ok, data := NextData();
      if !ok {
        return;
      }
      c := 256 * c + data;
      ct := ct + 8;
      if ct < 0 {
        // Need more initial bytes
        ct := ct + 1;
        if ct == 0 {
          a := 0x8000;  // becomes 0x10000 below
        }
      }
      a := 2 * a;
    }

    // One turn of the loop in the running state.
    method Double() returns (ok: bool)
      requires Valid() && 0 < a < 0x8000
      modifies this`c, this`a, this`ct, this`unread, this`marker
      ensures Terminated(old(unread), old(marker)) ==> ok && Terminated(unread, marker)
      ensures ok ==> Valid() && a == 2 * old(a) && Exact() == Window(2.0 * old(Exact()).x, a)
    {
      ghost var a0, c0, f0 := a, c, Fraction(Remaining());
      ct := ct - 1;
      if ct < 0 {
        // Need to fetch next data byte
        var data;
        ok, data := NextData();
        if !ok {
          return;
        }
        c := 256 * c + data;
        ct := ct + 8;
        HalfSeven(c0 as real + f0);
        ShlEight(a0);
        ShlShl(a0, 1, 7);
      } else {
        ShlShl(a0, 1, ct);
      }
      a := 2 * a;
      ok := true;
    }

    /** Decodes one binary decision: the registers and the unread bytes refine the exact decoder, on
        any input whatsoever; decoding fails only if the source ends without a marker. */
    method Decode(bin: Bin) returns (ok: bool, val: bool)
      requires Valid() && bin in stats
      modifies this
      ensures Terminated(old(unread), old(marker)) ==> ok && Terminated(unread, marker)
      ensures ok ==> Valid() && stats.Keys == old(stats).Keys
      ensures ok ==> var r := DecodeBit(old(Exact()), Lookup(old(stats)[bin]));
        val == r.bit && Exact() == r.w && stats == old(stats)[bin := r.sv]
    {
      hide Lookup, Payload, Fraction, Half, Terminated;
      val := false;
      ok := Renormalize();
      if !ok {
        return;
      }
      var next;
      val, next := Decide(Lookup(stats[bin]));
      stats := stats[bin := next];
    }

    // Decode & estimation procedures per sections D.2.4 & D.2.5
    method Decide(r: Rule) returns (val: bool, next: stat)
      requires Valid() && a >= 0x8000
      modifies this`c, this`a
      ensures Valid() && a > 0
      ensures var d := DecodeBit(old(Exact()), r); val == d.bit && Exact() == d.w && next == d.sv
    {
      var qe := r.qe;
      next := r.current;
      val := r.mps;
      var temp := a - qe;
      ghost var a0, c0 := a, c;
      a := temp;
      HalfCompare(c, Fraction(Remaining()), temp, ct);
      ShlAdd(temp, qe, ct);
      ShlZero(ct);
      temp := Shl(temp, ct);
      if c >= temp {
        c := c - temp;
        // Conditional LPS (less probable symbol) exchange
        if a < qe {
          a := qe;
          next := r.afterMps;
        } else {
          a := qe;
          next := r.afterLps;
          val := !val;
        }
      } else if a < 0x8000 {
        // Conditional MPS (more probable symbol) exchange
        if a < qe {
          next := r.afterLps;
          val := !val;
        } else {
          next := r.afterMps;
        }
      }
    }
  }
}
