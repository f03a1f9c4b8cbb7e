/** Entropy-coded segments as a decoder finds them: stuffed data followed by a marker. */
module Segments {
  import opened Bytes

  function SkipFill(s: seq<byte>): (r: seq<byte>)
    ensures |r| <= |s| && (r != [] ==> r[0] != 0xFF)
  {
    if s != [] && s[0] == 0xFF then SkipFill(s[1..]) else s
  }

  /** The data bytes up to the next marker or the end of the input. */
  function Payload(s: seq<byte>, marker: int): seq<byte>
    decreases |s|
  {
    if marker != 0 || s == [] then []
    else if s[0] != 0xFF then [s[0]] + Payload(s[1..], 0)
    else
      var r := SkipFill(s[1..]);
      if r != [] && r[0] == 0 then [0xFF] + Payload(r[1..], 0) else []
  }

  /** The marker after the data and the input that follows it. */
  datatype Mark = NoMark | Mark(code: int, rest: seq<byte>)

  function NextMark(s: seq<byte>, marker: int): Mark
    decreases |s|
  {
    if marker != 0 then Mark(marker, s)
    else if s == [] then NoMark
    else if s[0] != 0xFF then NextMark(s[1..], 0)
    else
      var r := SkipFill(s[1..]);
      if r == [] then NoMark else if r[0] == 0 then NextMark(r[1..], 0) else Mark(r[0], r[1..])
  }

  /** Does a marker follow the data? */
  predicate Terminated(s: seq<byte>, marker: int) {
    NextMark(s, marker).Mark?
  }

  lemma NoPayload(marker: byte, tail: seq<byte>)
    requires 0 < marker < 0xFF
    ensures var s := Stuff([]) + [0xFF, marker] + tail; Payload(s, 0) == [] && NextMark(s, 0) == Mark(marker, tail)
  {
    var s := Stuff([]) + [0xFF, marker] + tail;
    assert s == [0xFF] + ([marker] + tail);
    assert s[1..] == [marker] + tail;
    assert SkipFill(s[1..]) == s[1..] && s[1..][1..] == tail;
  }

  lemma StuffedFirst(data: seq<byte>, end: seq<byte>, tail: seq<byte>)
    requires data != []
    ensures Stuff(data) + end + tail == StuffByte(data[0]) + (Stuff(data[1..]) + end + tail)
  {
  }

  /** Reading undoes stuffing: a segment of stuffed data and any marker yield the data. */
  lemma {:induction false} PayloadOfStuffed(data: seq<byte>, marker: byte, tail: seq<byte>)
    requires 0 < marker < 0xFF
    ensures Payload(Stuff(data) + [0xFF, marker] + tail, 0) == data
    ensures NextMark(Stuff(data) + [0xFF, marker] + tail, 0) == Mark(marker, tail)
  {
    hide SkipFill, Stuff, Payload, NextMark, StuffByte;
    if data == [] {
      NoPayload(marker, tail);
    } else {
      PayloadOfStuffed(data[1..], marker, tail);
      StuffedFirst(data, [0xFF, marker], tail);
      PayloadCons(data[0], Stuff(data[1..]) + [0xFF, marker] + tail);
      assert [data[0]] + data[1..] == data;
    }
  }

  lemma PayloadCons(b: byte, t: seq<byte>)
    ensures Payload(StuffByte(b) + t, 0) == [b] + Payload(t, 0)
    ensures NextMark(StuffByte(b) + t, 0) == NextMark(t, 0)
  {
    var s := StuffByte(b) + t;
    if b == 0xFF {
      assert s[1..] == [0] + t && SkipFill(s[1..]) == s[1..] && s[1..][1..] == t;
    } else {
      assert s[1..] == t;
    }
  }

  /** Each 0xFF is followed by 0x00. */
  predicate Escaped(s: seq<byte>) {
    forall i :: 0 <= i < |s| && s[i] == 0xFF ==> i + 1 < |s| && s[i + 1] == 0
  }

  /** The string ends in a zero byte only as stuffing. */
  predicate NoTrailingZero(s: seq<byte>) {
    s == [] || s[|s| - 1] != 0 || (|s| >= 2 && s[|s| - 2] == 0xFF)
  }

  /** The shape of stuffed data that does not end in a zero byte. */
  lemma {:induction false} StuffedShape(data: seq<byte>)
    ensures Escaped(Stuff(data))
    ensures data != [] ==> Stuff(data) != []
    ensures data == [] || data[|data| - 1] != 0 ==> NoTrailingZero(Stuff(data))
  {
    if data != [] {
      StuffedShape(data[1..]);
      EscapedCons(data[0], Stuff(data[1..]));
      if |data| > 1 { assert data[1..][|data| - 2] == data[|data| - 1]; }
    }
  }

  lemma EscapedCons(b: byte, rest: seq<byte>)
    requires Escaped(rest)
    ensures Escaped(StuffByte(b) + rest)
    ensures NoTrailingZero(rest) && (rest == [] ==> b != 0) ==> NoTrailingZero(StuffByte(b) + rest)
  {
    var f, s := StuffByte(b), StuffByte(b) + rest;
    forall i | 0 <= i < |s| && s[i] == 0xFF
      ensures i + 1 < |s| && s[i + 1] == 0
    {
      if i >= |f| {
        var j := i - |f|;
        assert rest[j] == 0xFF;
        assert s[i + 1] == rest[j + 1];
      }
    }
  }
}
