/** Restart intervals: the segments of a scan, with the restart markers between them. */
module Restarts {
  import opened Bytes
  import opened Segments

  function RestartCode(k: int): byte {
    0xD0 + k % 8
  }

  /** The restart markers are RST0 to RST7, in turn. */
  lemma RestartTurn(k: nat)
    ensures RestartCode(0) == 0xD0 && RestartCode(k + 1) == if RestartCode(k) == 0xD7 then 0xD0 else RestartCode(k) + 1
  {
  }

  /** The segments of a scan from restart interval k on. */
  function Sections(datas: seq<seq<byte>>, k: nat): seq<byte> {
    if datas == [] then []
    else if |datas| == 1 then Stuff(datas[0])
    else Stuff(datas[0]) + [0xFF, RestartCode(k)] + Sections(datas[1..], k + 1)
  }

  lemma {:induction false} SectionsSnoc(datas: seq<seq<byte>>, k: nat, d: seq<byte>)
    requires datas != []
    ensures Sections(datas + [d], k) == (Sections(datas, k) + [0xFF, RestartCode(k + |datas| - 1)]) + Stuff(d)
  {
    hide Stuff, RestartCode;
    var all := datas + [d];
    assert all[1..] == datas[1..] + [d];
    if |datas| == 1 {
      assert all[1..] == [d];
      assert Sections([d], k + 1) == Stuff(d);
    } else {
      SectionsSnoc(datas[1..], k + 1, d);
      var a, b, m := Stuff(datas[0]) + [0xFF, RestartCode(k)], Sections(datas[1..], k + 1), [0xFF, RestartCode(k + |datas| - 1)];
      assert k + 1 + |datas[1..]| - 1 == k + |datas| - 1;
      Reassociate(a, b, m);
      Reassociate(a, b + m, Stuff(d));
    }
  }

  /** What precedes the segment after these. */
  function HeadOf(done: seq<seq<byte>>): seq<byte> {
    if done == [] then [] else Sections(done, 0) + [0xFF, RestartCode(|done| - 1)]
  }

  lemma HeadAndSegment(done: seq<seq<byte>>, data: seq<byte>)
    ensures HeadOf(done) + Stuff(data) == Sections(done + [data], 0)
  {
    if done == [] {
      assert [] + Stuff(data) == Stuff(data);
    } else {
      SectionsSnoc(done, 0, data);
    }
  }

  lemma NextHead(done: seq<seq<byte>>, data: seq<byte>)
    ensures HeadOf(done + [data]) == HeadOf(done) + Stuff(data) + [0xFF, RestartCode(|done|)]
  {
    hide Sections, RestartCode;
    HeadAndSegment(done, data);
  }

  lemma RestartByte(k: nat)
    ensures RestartCode(k) == 0xD0 + k % 8 && (k + 1) % 8 == (k % 8 + 1) % 8
  {
  }

  /** The number of a restart marker is that of the interval before it, modulo 8. */
  predicate Numbered(num: nat, k: nat) {
    num == k % 8
  }

  lemma FirstNumber()
    ensures Numbered(0, 0)
  {
  }

  lemma NextNumber(num: nat, k: nat)
    requires Numbered(num, k)
    ensures RestartCode(k) == 0xD0 + num && Numbered((num + 1) % 8, k + 1)
  {
    RestartByte(k);
  }

  /** What a reader runs into after the first of these segments. */
  function MarkAfter(datas: seq<seq<byte>>, k: nat, marker: byte, tail: seq<byte>): (m: Mark)
    ensures m.Mark?
  {
    if |datas| <= 1 then Mark(marker, tail)
    else Mark(RestartCode(k), Sections(datas[1..], k + 1) + [0xFF, marker] + tail)
  }

  /** Reading segments: the data of the first one, then its restart marker or the end. */
  lemma ReadSections(datas: seq<seq<byte>>, k: nat, marker: byte, tail: seq<byte>)
    requires datas != [] && 0 < marker < 0xFF
    ensures var s := Sections(datas, k) + [0xFF, marker] + tail;
      Payload(s, 0) == datas[0] && NextMark(s, 0) == MarkAfter(datas, k, marker, tail)
  {
    hide Stuff, Payload, NextMark;
    RestartByte(k);
    if |datas| == 1 {
      PayloadOfStuffed(datas[0], marker, tail);
    } else {
      var rest, m := Sections(datas[1..], k + 1), [0xFF, RestartCode(k)];
      PayloadOfStuffed(datas[0], RestartCode(k), rest + [0xFF, marker] + tail);
      assert (Stuff(datas[0]) + m + rest) + [0xFF, marker] + tail == Stuff(datas[0]) + m + (rest + [0xFF, marker] + tail);
    }
  }

  // ----- Markers

  lemma ByteAhead(c: byte, s: seq<byte>)
    ensures ([c] + s)[0] == c && ([c] + s)[1..] == s
    ensures c != 0xFF ==> NextMark([c] + s, 0) == NextMark(s, 0)
    ensures c == 0xFF ==>
      var r := SkipFill(s);
      NextMark([c] + s, 0) == if r == [] then NoMark else if r[0] == 0 then NextMark(r[1..], 0) else Mark(r[0], r[1..])
  {
  }

  // next_marker: scan for the next marker, skipping any data before it.
  method FindMarker(source: seq<byte>) returns (ok: bool, c: byte, rest: seq<byte>)
    ensures NextMark(source, 0) == if ok then Mark(c, rest) else NoMark
    ensures ok ==> c != 0 && c != 0xFF
  {
    ok, c, rest := false, 0, source;
    while rest != []
      invariant NextMark(rest, 0) == NextMark(source, 0)
      decreases |rest|
    {
      ghost var start := rest;
      c, rest := rest[0], rest[1..];
      // Skip any non-0xFF bytes.
      while c != 0xFF
        invariant NextMark([c] + rest, 0) == NextMark(source, 0) && |rest| < |start|
        decreases |rest|
      {
        ByteAhead(c, rest);
        if rest == [] {
          return;
        }
        c, rest := rest[0], rest[1..];
      }
      ByteAhead(c, rest);
      // Swallow any duplicate 0xFF bytes.
      ghost var fill := rest;
      while rest != [] && rest[0] == 0xFF
        invariant SkipFill(rest) == SkipFill(fill) && |rest| < |start|
        decreases |rest|
      {
        rest := rest[1..];
      }
      if rest == [] {
        return;
      }
      c, rest := rest[0], rest[1..];
      if c != 0 {
        return true, c, rest;
      }
    }
  }

  lemma MarkNow(s: seq<byte>, marker: int)
    requires marker != 0
    ensures NextMark(s, marker) == Mark(marker, s)
  {
  }

  // read_restart_marker: whether the next marker is the expected one; and what follows it.
  method ReadRestartMarker(unread: seq<byte>, unread_marker: int, num: nat) returns (ok: bool, rest: seq<byte>)
    ensures var m := NextMark(unread, unread_marker);
      && (ok <==> m.Mark? && m.code == 0xD0 + num)
      && (ok ==> rest == m.rest)
  {
    hide NextMark;
    // Obtain a marker unless we already did.
    var marker;
    marker, rest := unread_marker, unread;
    if marker == 0 {
      ok, marker, rest := FindMarker(unread);
      if !ok {
        return;
      }
    } else {
      MarkNow(unread, unread_marker);
    }
    ok := marker == 0xD0 + num;
  }

  // ----- The contents of the intervals

  /** Restart intervals, one after the other. */
  function Flat<T>(parts: seq<seq<T>>): seq<T> {
    if parts == [] then [] else parts[0] + Flat(parts[1..])
  }

  lemma MorePieces<T>(pieces: seq<seq<T>>, p: nat)
    requires p <= |pieces|
    ensures if p == |pieces| then Flat(pieces[p..]) == [] else Flat(pieces[p..]) == pieces[p] + Flat(pieces[p + 1..])
  {
    if p < |pieces| { assert pieces[p..][1..] == pieces[p + 1..]; }
  }

  lemma {:induction false} FlatSnoc<T>(parts: seq<seq<T>>, p: seq<T>)
    ensures Flat(parts + [p]) == Flat(parts) + p
    decreases |parts|
  {
    if parts == [] {
      assert parts + [p] == [p] && [p][1..] == [] && p + [] == p && [] + p == p;
    } else {
      FlatSnoc(parts[1..], p);
      assert (parts + [p])[1..] == parts[1..] + [p];
      Reassociate(parts[0], Flat(parts[1..]), p);
    }
  }

  /** All intervals but the last are full; without restarts there is only one. */
  predicate Chunked<T(==)>(parts: seq<seq<T>>, interval: nat) {
    && parts != [] && (interval == 0 ==> |parts| == 1)
    && forall i :: 0 <= i < |parts| ==>
      && (interval > 0 ==> |parts[i]| <= interval)
      && (i < |parts| - 1 ==> |parts[i]| == interval)
      && (i > 0 ==> parts[i] != [])
  }

  /** Is there more than one interval? */
  predicate Goes<T>(s: seq<T>, interval: nat) {
    0 < interval < |s|
  }

  function Split<T>(s: seq<T>, interval: nat): (parts: seq<seq<T>>)
    ensures parts != []
    decreases |s|
  {
    if Goes(s, interval) then [s[..interval]] + Split(s[interval..], interval) else [s]
  }

  lemma SplitFull<T>(p: seq<T>, rest: seq<T>, interval: nat)
    requires |p| == interval > 0 && rest != []
    ensures Split(p + rest, interval) == [p] + Split(rest, interval)
  {
    assert (p + rest)[..interval] == p && (p + rest)[interval..] == rest;
  }

  /** What is in the first interval of s. */
  lemma SplitStarts<T>(p: seq<T>, rest: seq<T>, interval: nat)
    requires interval > 0 ==> |p| <= interval
    ensures var f := Split(p + rest, interval)[0]; |p| <= |f| && f[..|p|] == p
  {
  }

  lemma {:induction false} FlatSplit<T>(s: seq<T>, interval: nat)
    ensures Flat(Split(s, interval)) == s
    decreases |s|
  {
    if Goes(s, interval) {
      FlatSplit(s[interval..], interval);
      assert Split(s, interval)[1..] == Split(s[interval..], interval);
    } else {
      assert [s][1..] == [] && s + [] == s;
    }
  }
}
