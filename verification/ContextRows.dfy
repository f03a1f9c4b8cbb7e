/** The main buffer controller of the decompressor when context rows are needed: two xbuffer lists over
    one workspace, and a state machine that the postprocessor can interrupt. */
module ContextRows {
  import opened Bytes

  const CTX_PREPARE_FOR_IMCU := 0
  const CTX_PROCESS_IMCU := 1
  const CTX_POSTPONED_ROW := 2

  /** n * h, by repeated addition. */
  function Times(n: int, h: int): int
    decreases n
  {
    if n <= 0 then 0 else Times(n - 1, h) + h
  }

  lemma {:induction false} TimesProduct(n: nat, h: int)
    ensures Times(n, h) == n * h
  {
    if n > 0 { TimesProduct(n - 1, h); }
  }

  lemma {:induction false} TimesGrows(m: nat, n: nat, h: int)
    requires m < n && h > 0
    ensures Times(m, h) + h <= Times(n, h) && Times(m, h) >= 0
    decreases n
  {
    if m < n - 1 {
      TimesGrows(m, n - 1, h);
    } else if m > 0 {
      TimesGrows(m - 1, m, h);
    }
  }

  // ----- What the postprocessor should see

  const DUMMY := -1  // a padding row below the image

  /** The row of the image; at top and bottom the first and the last row are duplicated. */
  function Clamp(row: int, height: int): int {
    if row < 0 then 0 else if row >= height then height - 1 else row
  }

  /** A row group of rg rows that starts at this row, with one row group of context above and below it. */
  function InContext(start: int, rg: int, height: int): (s: seq<int>)
    requires rg >= 0
    ensures |s| == 3 * rg && forall j :: 0 <= j < 3 * rg ==> s[j] == Clamp(start - rg + j, height)
  {
    seq(3 * rg, j requires 0 <= j < 3 * rg => Clamp(start - rg + j, height))
  }

  /** What the postprocessor does see.  lastBase is the first row of the last iMCU row: its padding rows are
      not yet replaced when the row group before it is delivered. */
  function SeenRow(row: int, padded: bool, height: int): int {
    if padded && row >= height then DUMMY else Clamp(row, height)
  }

  function Seen(start: int, rg: int, lastBase: int, height: int): (s: seq<int>)
    requires rg >= 0
    ensures |s| == 3 * rg && forall j :: 0 <= j < 3 * rg ==> s[j] == SeenRow(start - rg + j, start + rg == lastBase, height)
  {
    seq(3 * rg, j requires 0 <= j < 3 * rg => SeenRow(start - rg + j, start + rg == lastBase, height))
  }

  /** The context is right exactly unless the row group comes just before a last iMCU row with fewer rows than
      a row group. */
  lemma ContextComplete(start: int, rg: int, lastBase: int, height: int)
    requires rg >= 1 && height >= 1 && start < height
    ensures Seen(start, rg, lastBase, height) == InContext(start, rg, height) <==>
      !(start + rg == lastBase && height < lastBase + rg)
  {
    var s, c := Seen(start, rg, lastBase, height), InContext(start, rg, height);
    if start + rg == lastBase && height < lastBase + rg {
      assert s[3 * rg - 1] == DUMMY && c[3 * rg - 1] == height - 1;
    } else {
      forall j | 0 <= j < 3 * rg
        ensures s[j] == c[j]
      {
      }
    }
  }

  /** For example, five rows of an image, in row groups of two rows and iMCU rows of four. */
  lemma ContextIncomplete()
    ensures Seen(2, 2, 4, 5) == [0, 1, 2, 3, 4, DUMMY] && InContext(2, 2, 5) == [0, 1, 2, 3, 4, 4]
  {
    assert Clamp(0, 5) == 0 && Clamp(5, 5) == 4;
  }

  /** In any case the row group itself, the context above it and the row next below it are right. */
  lemma NeighboursRight(start: int, rg: int, lastBase: int, height: int, j: int)
    requires rg >= 1 && lastBase < height && 0 <= j <= 2 * rg
    ensures Seen(start, rg, lastBase, height)[j] == Clamp(start - rg + j, height)
  {
  }

  // ----- The two xbuffer lists.  A row group has rg rows, an iMCU row h rows; the workspace has two more row
  // groups than an iMCU row.

  /** The physical row at index i of list w: in list 1 the last four row groups are in swapped order. */
  function Place(w: int, i: int, rg: int, h: int): int {
    if w == 0 || i < h - 2 * rg then i else if i < h then i + 2 * rg else i - 2 * rg
  }

  class Controller {
    const M: nat
    const rg: int
    const h: int
    const height: int
    const total_iMCU_rows: nat
    const xbuf0: array<int>
    const xbuf1: array<int>
    const rows: array<int>
    var buffer_full: bool
    var rowgroup_ctr: nat
    var whichptr: int
    var context_state: int
    var rowgroups_avail: nat
    var iMCU_row_ctr: nat

    const lastBase: int
    var delivered: seq<seq<int>>  // what the postprocessor was offered

    /** The sizes fit: the image ends in the last iMCU row. */
    ghost predicate Sized() {
      && M >= 2 && rg >= 1 && h == Times(M, rg) && 2 * rg <= h && total_iMCU_rows >= 1
      && lastBase == Times(total_iMCU_rows - 1, h) && 0 <= lastBase < height <= lastBase + h
      && xbuf0.Length == xbuf1.Length == h + 4 * rg && rows.Length == h + 2 * rg
      && xbuf0 != xbuf1 && xbuf0 != rows && xbuf1 != rows
    }

    // List w starts with one row group at negative offsets: offset i is entry i + rg.
    function Xbuffer(w: int): array<int> {
      if w == 0 then xbuf0 else xbuf1
    }

    /** The list as make_funny_pointers sets it up. */
    ghost predicate Regular(w: int)
      requires Sized()
      reads xbuf0, xbuf1
    {
      forall k :: rg <= k < h + 3 * rg ==> Xbuffer(w)[k] == Place(w, k - rg, rg, h)
    }

    /** Pointers "wrap around" at top and bottom of the list. */
    ghost predicate Wrapped(w: int)
      requires Sized()
      reads xbuf0, xbuf1
    {
      && (forall k :: 0 <= k < rg ==> Xbuffer(w)[k] == Place(w, h + rg + k, rg, h))
      && forall k :: h + 3 * rg <= k < h + 4 * rg ==> Xbuffer(w)[k] == Place(w, k - h - 3 * rg, rg, h)
    }

    /** At the top of the image, the pointers above duplicate the first row. */
    ghost predicate Top()
      requires Sized()
      reads xbuf0, xbuf1
    {
      forall k :: 0 <= k < rg ==> Xbuffer(0)[k] == 0
    }

    /** The image row at index i once an iMCU row has been read, and before it the last two row groups of the
        iMCU row before. */
    ghost function RowAt(i: int, b: int): int {
      if i >= h then b - h - 2 * rg + i else if b + i < height then b + i else DUMMY
    }

    ghost predicate Loaded(w: int, b: int)
      requires Sized()
      reads rows
    {
      forall i :: 0 <= i < h + 2 * rg && (i >= h ==> b > 0) ==>
        0 <= Place(w, i, rg, h) < rows.Length && rows[Place(w, i, rg, h)] == RowAt(i, b)
    }

    /** Entry k of list w shows row d + k of the image; below the image perhaps padding. */
    ghost predicate Shows(w: int, lo: int, hi: int, d: int, padded: bool)
      requires Sized()
      reads xbuf0, xbuf1, rows
    {
      0 <= lo && hi <= h + 4 * rg &&
      forall k :: lo <= k < hi && 0 <= k < h + 4 * rg ==>
        0 <= Xbuffer(w)[k] < rows.Length && rows[Xbuffer(w)[k]] == SeenRow(d + k, padded, height)
    }

    /** The xbuffer lists in the middle of the image, or at its top. */
    ghost predicate Lists()
      requires Sized()
      reads this, xbuf0, xbuf1
    {
      && Regular(0) && Regular(1) && if iMCU_row_ctr <= 1 then Top() && whichptr == 0 else Wrapped(0) && Wrapped(1)
    }

    // The first row of the iMCU row read last; the next row to deliver; the place in the list of the row groups
    // rowgroup_ctr and rowgroups_avail.
    function Base(): int
      reads `iMCU_row_ctr
    {
      Times(iMCU_row_ctr - 1, h)
    }

    function Next(): int
      reads `delivered
    {
      Times(|delivered|, rg)
    }

    function At(): int
      reads `rowgroup_ctr
    {
      Times(rowgroup_ctr, rg)
    }

    function End(): int
      reads `rowgroups_avail
    {
      Times(rowgroups_avail, rg)
    }

    predicate Done()
      reads `delivered
    {
      Next() >= height
    }

    /** Everything delivered so far: each row group once, in order, in its context. */
    ghost predicate Delivered()
      requires Sized()
      reads `delivered
    {
      forall q :: 0 <= q < |delivered| ==>
        Times(q, rg) < height && delivered[q] == Seen(Times(q, rg), rg, lastBase, height)
    }

    ghost predicate Valid()
      reads this, xbuf0, xbuf1, rows
    {
      && Sized() && (whichptr == 0 || whichptr == 1) && iMCU_row_ctr <= total_iMCU_rows && Delivered()
      && (Done() ||
          if context_state == CTX_PREPARE_FOR_IMCU then Prepared()
          else if context_state == CTX_PROCESS_IMCU then Processing()
          else context_state == CTX_POSTPONED_ROW && Postponed())
    }

    // What holds in each state while the image is not done.
    ghost predicate Prepared()
      requires Sized()
      reads this, xbuf0, xbuf1, rows
    {
      && Lists()
      && if iMCU_row_ctr == 0 then !buffer_full && Next() == 0
         else buffer_full && Loaded(whichptr, Base()) && Next() == Base()
    }

    ghost predicate Processing()
      requires Sized()
      reads this, xbuf0, xbuf1, rows
    {
      && buffer_full && iMCU_row_ctr >= 1 && rowgroup_ctr < rowgroups_avail && Next() == Base() + At()
      && Shows(whichptr, 0, End() + 2 * rg, Base() - rg, false)
      && if iMCU_row_ctr == total_iMCU_rows then Base() + End() >= height > Base() + End() - rg
         else End() == h - rg && Lists() && Loaded(whichptr, Base())
    }

    ghost predicate Postponed()
      requires Sized()
      reads this, xbuf0, xbuf1, rows
    {
      && iMCU_row_ctr >= 1 && rowgroup_ctr == M + 1 && rowgroups_avail == M + 2
      && Regular(0) && Regular(1) && Wrapped(0) && Wrapped(1)
      && if buffer_full then iMCU_row_ctr >= 2 && Loaded(whichptr, Base()) && Next() == Base() - rg
         else iMCU_row_ctr < total_iMCU_rows && Loaded(1 - whichptr, Base()) && Next() == Base() + h - rg
    }

    // start_pass_main: an empty buffer, with the xbuffer lists for the top of the image.
    constructor (M: nat, rg: int, height: int, total: nat)
      requires M >= 2 && rg >= 1 && height >= 1 && total >= 1
      requires Times(total - 1, Times(M, rg)) < height <= Times(total, Times(M, rg))
      ensures Valid() && delivered == [] && !Done()
      ensures this.M == M && this.rg == rg && this.height == height && total_iMCU_rows == total && fresh(xbuf0) && fresh(xbuf1) && fresh(rows)
    {
      this.M, this.rg, this.h, this.height, total_iMCU_rows := M, rg, Times(M, rg), height, total;
      lastBase := Times(total - 1, Times(M, rg));
      TimesGrows(0, M, rg);
      TimesGrows(1, M, rg);
      var n := Times(M, rg);
      if total > 1 { TimesGrows(0, total - 1, n); }
      xbuf0, xbuf1, rows := new int[n + 4 * rg](_ => 0), new int[n + 4 * rg](_ => 0), new int[n + 2 * rg](_ => DUMMY);
      buffer_full, rowgroup_ctr, whichptr, context_state, rowgroups_avail, iMCU_row_ctr := false, 0, 0, CTX_PREPARE_FOR_IMCU, 0, 0;
      delivered := [];
      new;
      MakeFunnyPointers();
    }

    // make_funny_pointers: fill in the curiously ordered lists.
    method MakeFunnyPointers()
      requires Sized()
      modifies xbuf0, xbuf1
      ensures Regular(0) && Regular(1) && Top()
    {
      hide Times;
      // First copy the workspace pointers as-is
      var i := 0;
      while i < h + 2 * rg
        invariant 0 <= i <= h + 2 * rg
        invariant forall k :: rg <= k < rg + i ==> xbuf0[k] == xbuf1[k] == k - rg
      {
        xbuf0[i + rg] := i;
        xbuf1[i + rg] := i;
        i := i + 1;
      }
      // In the second list, put the last four row groups in swapped order
      i := 0;
      while i < 2 * rg
        invariant 0 <= i <= 2 * rg
        invariant forall k :: rg <= k < h + 3 * rg ==> xbuf0[k] == k - rg
        invariant forall k :: rg <= k < h + 3 * rg ==>
          xbuf1[k] == if h - rg <= k < h - rg + i then k + rg else if h + rg <= k < h + rg + i then k - 3 * rg else k - rg
      {
        xbuf1[h - rg + i] := h + i;
        xbuf1[h + rg + i] := h - 2 * rg + i;
        i := i + 1;
      }
      // Initially we want the "above" pointers to duplicate the first actual data line.
      i := 0;
      while i < rg
        invariant 0 <= i <= rg
        invariant forall k :: rg <= k < h + 3 * rg ==> xbuf0[k] == k - rg
        invariant forall k :: rg <= k < h + 3 * rg ==>
          xbuf1[k] == if h - rg <= k < h + rg then k + rg else if h + rg <= k < h + 3 * rg then k - 3 * rg else k - rg
        invariant forall k :: 0 <= k < i ==> xbuf0[k] == 0
      {
        xbuf0[i] := xbuf0[rg];
        i := i + 1;
      }
    }

    // set_wraparound_pointers: from top-of-image to the normal state.
    method SetWraparoundPointers()
      requires Sized()
      modifies xbuf0, xbuf1
      ensures old(Regular(0) && Regular(1)) ==> Regular(0) && Regular(1) && Wrapped(0) && Wrapped(1)
    {
      WrapAround(0, xbuf0);
      WrapAround(1, xbuf1);
    }

    method WrapAround(w: int, xbuf: array<int>)
      requires Sized() && xbuf == Xbuffer(w)
      modifies xbuf
      ensures old(Regular(w)) ==> Regular(w) && Wrapped(w)
    {
      hide Times;
      ghost var regular := Regular(w);
      var i := 0;
      while i < rg
        invariant 0 <= i <= rg
        invariant regular ==> forall k :: rg <= k < h + 3 * rg ==> xbuf[k] == Place(w, k - rg, rg, h)
        invariant regular ==> forall k :: 0 <= k < i ==> xbuf[k] == Place(w, h + rg + k, rg, h)
        invariant regular ==> forall k :: h + 3 * rg <= k < h + 3 * rg + i ==> xbuf[k] == Place(w, k - h - 3 * rg, rg, h)
      {
        xbuf[i] := xbuf[h + 2 * rg + i];
        xbuf[h + 3 * rg + i] := xbuf[rg + i];
        i := i + 1;
      }
    }

    // The coefficient controller delivers the next iMCU row through the list in use; there may be padding
    // rows below the image.
    method DecompressData(b: int)
      requires Sized() && (whichptr == 0 || whichptr == 1) && Regular(whichptr) && b >= 0
      requires b > 0 ==> Loaded(1 - whichptr, b - h) && b <= lastBase
      modifies rows
      ensures Loaded(whichptr, b)
    {
      var w := whichptr;
      KeptRows(w, b);
      var i := 0;
      while i < h
        invariant 0 <= i <= h
        invariant forall j :: 0 <= j < h + 2 * rg && (j >= h ==> b > 0) && (j < h ==> j < i) ==>
          0 <= Place(w, j, rg, h) < rows.Length && rows[Place(w, j, rg, h)] == RowAt(j, b)
      {
        rows[Xbuffer(w)[i + rg]] := if b + i < height then b + i else DUMMY;
        i := i + 1;
      }
    }

    /** The last two row groups of the iMCU row before come first in the other list. */
    lemma KeptRows(w: int, b: int)
      requires Sized() && (w == 0 || w == 1) && (b > 0 ==> Loaded(1 - w, b - h) && b <= lastBase)
      ensures forall j :: h <= j < h + 2 * rg && b > 0 ==>
        0 <= Place(w, j, rg, h) < rows.Length && rows[Place(w, j, rg, h)] == RowAt(j, b)
    {
      forall j | h <= j < h + 2 * rg && b > 0
        ensures 0 <= Place(w, j, rg, h) < rows.Length && rows[Place(w, j, rg, h)] == RowAt(j, b)
      {
        assert Place(w, j, rg, h) == Place(1 - w, j - 2 * rg, rg, h);
        assert RowAt(j, b) == RowAt(j - 2 * rg, b - h);
      }
    }

    // set_bottom_pointers: duplicate the last sample row at the bottom of the image.
    method SetBottomPointers()
      requires Sized() && (whichptr == 0 || whichptr == 1) && iMCU_row_ctr == total_iMCU_rows
      requires Lists() && Loaded(whichptr, Base())
      modifies xbuf0, xbuf1, `rowgroups_avail
      ensures lastBase + End() - rg < height <= lastBase + End() && End() <= h && rowgroups_avail >= 1
      ensures Shows(whichptr, 0, End() + 2 * rg, lastBase - rg, false)
    {
      hide Regular, Wrapped, Top, Loaded, Shows;
      var rows_left;
      rows_left, rowgroups_avail := CountRowsLeft();
      if total_iMCU_rows > 1 { TimesGrows(0, total_iMCU_rows - 1, h); }
      ShowsTop(whichptr, rows_left + rg, lastBase);
      DuplicateLastRow(Xbuffer(whichptr), rows_left);
      ShowsUpTo(whichptr, rows_left + 3 * rg, End() + 2 * rg, lastBase - rg);
    }

    lemma ShowsUpTo(w: int, hi: int, less: int, d: int)
      requires Sized() && less <= hi && Shows(w, 0, hi, d, false)
      ensures Shows(w, 0, less, d, false)
    {
    }

    method CountRowsLeft() returns (rows_left: int, avail: nat)
      requires Sized()
      ensures 1 <= rows_left <= h && lastBase + rows_left == height
      ensures avail >= 1 && Times(avail, rg) - rg < rows_left <= Times(avail, rg) <= h
    {
      hide Times;
      // Count nondummy sample rows remaining
      RowsLeft();
      rows_left := height % h;
      if rows_left == 0 {
        rows_left := h;
      }
      // Count nondummy row groups.
      GroupsLeft(rows_left);
      avail := (rows_left - 1) / rg + 1;
    }

    // Duplicate the last real sample row rgroup*2 times
    method DuplicateLastRow(xbuf: array<int>, rows_left: int)
      requires Sized() && xbuf == Xbuffer(whichptr) && 1 <= rows_left <= h
      requires lastBase + rows_left == height && Shows(whichptr, 0, rows_left + rg, lastBase - rg, false)
      modifies xbuf
      ensures Shows(whichptr, 0, rows_left + 3 * rg, lastBase - rg, false)
    {
      hide Times;
      ShowsAt(whichptr, rows_left + rg, lastBase - rg, rows_left + rg - 1);
      var i := 0;
      while i < 2 * rg
        invariant 0 <= i <= 2 * rg && 0 <= xbuf[rows_left + rg - 1] < rows.Length && rows[xbuf[rows_left + rg - 1]] == height - 1
        invariant forall k :: 0 <= k < rows_left + rg + i ==>
          0 <= xbuf[k] < rows.Length && rows[xbuf[k]] == Clamp(lastBase - rg + k, height)
      {
        xbuf[rows_left + rg + i] := xbuf[rows_left + rg - 1];
        i := i + 1;
      }
    }

    lemma ShowsAt(w: int, hi: int, r: int, k: int)
      requires Sized() && 0 <= k < hi && Shows(w, 0, hi, r, false)
      ensures 0 <= Xbuffer(w)[k] < rows.Length && rows[Xbuffer(w)[k]] == Clamp(r + k, height)
    {
    }

    lemma RowsLeft()
      requires Sized()
      ensures if height % h == 0 then height - lastBase == h else height % h == height - lastBase
    {
      hide Times;
      TimesProduct(total_iMCU_rows - 1, h);
      LastPart(height, h, total_iMCU_rows - 1, height - lastBase);
    }

    lemma GroupsLeft(left: int)
      requires Sized() && 1 <= left <= h
      ensures var a := (left - 1) / rg; a >= 0 && Times(a + 1, rg) - rg < left <= Times(a + 1, rg) <= h
    {
      var a := (left - 1) / rg;
      TimesProduct(a, rg);
      GroupsFit(a, left);
    }

    lemma GroupsFit(a: int, left: int)
      requires Sized() && a >= 0 && Times(a, rg) < left <= Times(a + 1, rg) && left <= h
      ensures Times(a + 1, rg) <= h
    {
      if a >= M {
        if a > M { TimesGrows(M, a, rg); }
      } else if a + 1 < M {
        TimesGrows(a + 1, M, rg);
      }
    }

    /** What the list shows in the middle of the image or at its top. */
    lemma ShowsTop(w: int, hi: int, b: int)
      requires Sized() && (w == 0 || w == 1) && w == whichptr && rg < hi <= h + rg && b + hi - rg <= height
      requires Lists() && Loaded(w, b) && (if iMCU_row_ctr <= 1 then b == 0 else b >= h)
      ensures Shows(w, 0, hi, b - rg, false)
    {
      forall k | 0 <= k < hi
        ensures 0 <= Xbuffer(w)[k] < rows.Length && rows[Xbuffer(w)[k]] == SeenRow(b - rg + k, false, height)
      {
        if k >= rg {
          assert rows[Place(w, k - rg, rg, h)] == RowAt(k - rg, b);
        } else if iMCU_row_ctr <= 1 {
          assert rows[Place(0, 0, rg, h)] == RowAt(0, b);
        } else {
          assert rows[Place(w, h + rg + k, rg, h)] == RowAt(h + rg + k, b);
        }
      }
    }

    /** What the list shows around the postponed row group. */
    lemma ShowsPostponed(w: int, b: int)
      requires Sized() && (w == 0 || w == 1) && Regular(w) && Wrapped(w) && Loaded(w, b) && h <= b <= lastBase
      requires b < lastBase ==> b + h <= lastBase
      ensures Shows(w, h + rg, h + 4 * rg, b - 3 * rg - h, b == lastBase)
    {
      forall k | h + rg <= k < h + 4 * rg
        ensures 0 <= Xbuffer(w)[k] < rows.Length && rows[Xbuffer(w)[k]] == SeenRow(b - 3 * rg - h + k, b == lastBase, height)
      {
        if k >= h + 3 * rg {
          assert rows[Place(w, k - h - 3 * rg, rg, h)] == RowAt(k - h - 3 * rg, b);
        } else {
          assert rows[Place(w, k - rg, rg, h)] == RowAt(k - rg, b);
        }
      }
    }

    // ----- The state machine

    // The postprocessor takes row groups in order and may stop early.
    method PostProcessData(take: nat, ghost d: int, ghost padded: bool)
      requires Sized() && (whichptr == 0 || whichptr == 1) && Delivered() && rowgroup_ctr <= rowgroups_avail
      requires Next() == d + At() + rg && Shows(whichptr, At(), End() + 2 * rg, d, padded) && d + End() < height
      requires if padded then Next() + rg == lastBase && rowgroups_avail <= rowgroup_ctr + 1
               else Next() >= lastBase || d + rg + End() < lastBase
      modifies `rowgroup_ctr, `delivered
      ensures rowgroup_ctr == if take < rowgroups_avail - old(rowgroup_ctr) then old(rowgroup_ctr) + take else rowgroups_avail
      ensures Delivered() && Next() == d + At() + rg && old(delivered) <= delivered
      ensures |delivered| - |old(delivered)| == rowgroup_ctr - old(rowgroup_ctr)
    {
      hide Delivered, Shows, Sized, At, End, Next;
      var n := 0;
      while n < take && rowgroup_ctr < rowgroups_avail
        invariant n <= take && rowgroup_ctr == old(rowgroup_ctr) + n <= rowgroups_avail
        invariant Sized() && Delivered() && Next() == d + At() + rg && old(delivered) <= delivered
        invariant |delivered| == |old(delivered)| + n
        invariant Shows(whichptr, At(), End() + 2 * rg, d, padded)
        invariant rowgroup_ctr < rowgroups_avail ==>
          if padded then Next() + rg == lastBase else Next() >= lastBase || d + rg + End() < lastBase
      {
        Deliver(d, padded);
        n := n + 1;
      }
    }

    // One row group, with the rows above and below it through the xbuffer list
    method Deliver(ghost d: int, ghost padded: bool)
      requires Sized() && (whichptr == 0 || whichptr == 1) && Delivered() && rowgroup_ctr < rowgroups_avail
      requires Next() == d + At() + rg && Shows(whichptr, At(), End() + 2 * rg, d, padded) && d + End() < height
      requires if padded then Next() + rg == lastBase else Next() >= lastBase || d + rg + End() < lastBase
      modifies `rowgroup_ctr, `delivered
      ensures rowgroup_ctr == old(rowgroup_ctr) + 1 && Delivered() && Next() == d + At() + rg
      ensures |delivered| == |old(delivered)| + 1 && old(delivered) <= delivered
      ensures Shows(whichptr, At(), End() + 2 * rg, d, padded)
      ensures !padded ==> Next() >= lastBase || d + rg + End() < lastBase
    {
      hide Shows, Seen, View, SeenRow;
      TimesGrows(rowgroup_ctr, rowgroups_avail, rg);
      SeesRows(d, padded);
      ShowsLess(whichptr, At(), At() + rg, End() + 2 * rg, d, padded);
      delivered := delivered + [View(whichptr, At())];
      rowgroup_ctr := rowgroup_ctr + 1;
    }

    /** The rows that the postprocessor finds from this entry of list w on. */
    function View(w: int, lo: int): (s: seq<int>)
      requires Sized() && 0 <= lo <= h + rg
      requires forall k :: lo <= k < lo + 3 * rg ==> 0 <= Xbuffer(w)[k] < rows.Length
      reads xbuf0, xbuf1, rows
      ensures |s| == 3 * rg && forall j :: 0 <= j < 3 * rg ==> s[j] == rows[Xbuffer(w)[lo + j]]
    {
      var pointers, image := Xbuffer(w)[lo..lo + 3 * rg], rows[..];
      seq(3 * rg, j requires 0 <= j < 3 * rg => image[pointers[j]])
    }

    // process_data_context_main.  arrives: decompress_data has an iMCU row to deliver, should it be asked;
    // take, take2: the row groups that the postprocessor would swallow; filled: the output buffer is full
    // after the postponed row group.
    method ProcessData(arrives: bool, take: nat, filled: bool, take2: nat)
      requires Valid() && !Done()
      modifies this, xbuf0, xbuf1, rows
      ensures Valid() && old(delivered) <= delivered
      ensures (old(buffer_full) || arrives) && take > 0 && take2 > 0 ==> |delivered| > |old(delivered)|
    {
      // Read input data if we haven't filled the main buffer yet
      if !buffer_full {
        if !arrives {
          return;  // suspension forced, can do nothing more
        }
        ReadRow();
      }
      if context_state == CTX_POSTPONED_ROW {
        var finished := ProcessPostponed(take);
        if !finished || filled {
          return;
        }
      }
      if context_state == CTX_PREPARE_FOR_IMCU {
        Prepare();
      }
      ProcessIMCU(take2);
    }

    method ReadRow()
      requires Valid() && !Done() && !buffer_full
      modifies rows, `buffer_full, `iMCU_row_ctr
      ensures Valid() && buffer_full && iMCU_row_ctr == old(iMCU_row_ctr) + 1
    {
      hide Regular, Wrapped, Top, Loaded, Shows, Delivered;
      ghost var w, was := whichptr, Base();
      BaseInImage(iMCU_row_ctr);
      Reads();
      DecompressData(Times(iMCU_row_ctr, h));
      buffer_full := true;  // OK, we have an iMCU row to work with
      iMCU_row_ctr := iMCU_row_ctr + 1;  // count rows received
    }

    lemma Reads()
      requires Valid() && !Done() && !buffer_full
      ensures iMCU_row_ctr < total_iMCU_rows && Regular(whichptr)
      ensures iMCU_row_ctr > 0 ==> Loaded(1 - whichptr, Base())
    {
    }

    lemma BaseInImage(n: nat)
      requires Sized()
      ensures n < total_iMCU_rows ==> 0 <= Times(n, h) <= lastBase
      ensures n < total_iMCU_rows - 1 ==> Times(n, h) + h <= lastBase
      ensures n > 0 ==> Times(n, h) == Times(n - 1, h) + h >= h
    {
      if n < total_iMCU_rows - 1 { TimesGrows(n, total_iMCU_rows - 1, h); }
      if n > 0 { TimesGrows(0, n, h); }
    }

    // case CTX_POSTPONED_ROW: call postprocessor using previously set pointers for postponed row
    method ProcessPostponed(take: nat) returns (finished: bool)
      requires Valid() && !Done() && buffer_full && context_state == CTX_POSTPONED_ROW
      modifies `rowgroup_ctr, `delivered, `context_state
      ensures Valid() && !Done() && old(delivered) <= delivered
      ensures take > 0 ==> finished && |delivered| > |old(delivered)|
      ensures finished ==> context_state == CTX_PREPARE_FOR_IMCU
    {
      hide Regular, Wrapped, Top, Loaded, Shows, Delivered;
      BaseInImage(iMCU_row_ctr - 1);
      ShowsPostponed(whichptr, Base());
      PostProcessData(take, Base() - 3 * rg - h, Base() == lastBase);
      finished := rowgroup_ctr >= rowgroups_avail;
      if finished {
        context_state := CTX_PREPARE_FOR_IMCU;
      }
    }

    // case CTX_PREPARE_FOR_IMCU: prepare to process first M-1 row groups of this iMCU row
    method Prepare()
      requires Valid() && !Done() && buffer_full && context_state == CTX_PREPARE_FOR_IMCU
      modifies xbuf0, xbuf1, `rowgroup_ctr, `rowgroups_avail, `context_state
      ensures Valid() && context_state == CTX_PROCESS_IMCU
    {
      hide Regular, Wrapped, Top, Loaded, Shows, Delivered;
      rowgroup_ctr := 0;
      rowgroups_avail := M - 1;
      BaseInImage(iMCU_row_ctr - 1);
      // Check for bottom of image
      if iMCU_row_ctr == total_iMCU_rows {
        SetBottomPointers();
      } else {
        ShowsTop(whichptr, h + rg, Base());
      }
      context_state := CTX_PROCESS_IMCU;
    }

    // case CTX_PROCESS_IMCU: call postprocessor using previously set pointers
    method ProcessIMCU(take: nat)
      requires Valid() && !Done() && context_state == CTX_PROCESS_IMCU
      modifies xbuf0, xbuf1, `rowgroup_ctr, `rowgroups_avail, `context_state, `delivered, `whichptr, `buffer_full
      ensures Valid() && old(delivered) <= delivered && (take > 0 ==> |delivered| > |old(delivered)|)
    {
      hide Regular, Wrapped, Top, Loaded, Shows, Delivered;
      BaseInImage(iMCU_row_ctr - 1);
      if rowgroup_ctr > 0 { TimesGrows(0, rowgroup_ctr, rg); }
      ShowsLess(whichptr, 0, At(), End() + 2 * rg, Base() - rg, false);
      PostProcessData(take, Base() - rg, false);
      if rowgroup_ctr < rowgroups_avail {
        return;  // Need to suspend
      }
      Postpone();
    }

    lemma ShowsLess(w: int, lo: int, less: int, hi: int, d: int, padded: bool)
      requires Sized() && lo <= less && Shows(w, lo, hi, d, padded)
      ensures Shows(w, less, hi, d, padded)
    {
    }

    // The rest of CTX_PROCESS_IMCU
    method Postpone()
      requires Sized() && (whichptr == 0 || whichptr == 1) && 1 <= iMCU_row_ctr <= total_iMCU_rows && Delivered()
      requires Done() ||
        (iMCU_row_ctr < total_iMCU_rows && Lists() && Loaded(whichptr, Base()) && Next() == Base() + h - rg)
      modifies xbuf0, xbuf1, `rowgroup_ctr, `rowgroups_avail, `context_state, `whichptr, `buffer_full
      ensures Valid()
    {
      hide Regular, Wrapped, Top, Loaded, Shows, Delivered, Times;
      // After the first iMCU, change wraparound pointers to normal state
      if iMCU_row_ctr == 1 {
        SetWraparoundPointers();
      }
      // Prepare to load new iMCU row using other xbuffer list
      whichptr := 1 - whichptr;
      buffer_full := false;
      // Still need to process last row group of this iMCU row, which is saved at index M+1 of the other xbuffer
      rowgroup_ctr := M + 1;
      rowgroups_avail := M + 2;
      context_state := CTX_POSTPONED_ROW;
    }

    lemma SeesRows(d: int, padded: bool)
      requires Sized() && (whichptr == 0 || whichptr == 1) && rowgroup_ctr < rowgroups_avail && At() + rg <= End() && At() >= 0
      requires Next() == d + At() + rg && Shows(whichptr, At(), End() + 2 * rg, d, padded) && d + End() < height
      requires if padded then Next() + rg == lastBase else Next() >= lastBase || d + rg + End() < lastBase
      ensures At() <= h + rg && forall k :: At() <= k < At() + 3 * rg ==> 0 <= Xbuffer(whichptr)[k] < rows.Length
      ensures View(whichptr, At()) == Seen(Next(), rg, lastBase, height)
    {
      hide Times;
      var v, s := View(whichptr, At()), Seen(Next(), rg, lastBase, height);
      forall j | 0 <= j < 3 * rg
        ensures v[j] == s[j]
      {
        assert rows[Xbuffer(whichptr)[At() + j]] == SeenRow(d + (At() + j), padded, height);
      }
    }
  }

  /** What a call of process_data finds: whether there is an iMCU row, and the row groups the postprocessor
      would swallow. */
  datatype Call = Call(arrives: bool, take: nat, filled: bool, take2: nat) {
    predicate Productive() { arrives && take > 0 && take2 > 0 }
  }

  /** Safety over every run: in any sequence of calls every real row group is offered once, in order, with its
      neighbours; and each call that can make progress does, so that enough of them deliver the image. */
  method RunPass(M: nat, rg: int, height: int, total: nat, calls: seq<Call>) returns (offered: seq<seq<int>>)
    requires M >= 2 && rg >= 1 && height >= 1 && total >= 1
    requires Times(total - 1, Times(M, rg)) < height <= Times(total, Times(M, rg))
    ensures forall q :: 0 <= q < |offered| ==> Times(q, rg) < height
    ensures forall q :: 0 <= q < |offered| ==>
      offered[q] == Seen(Times(q, rg), rg, Times(total - 1, Times(M, rg)), height)
    ensures Times(|calls|, rg) >= height && (forall i :: 0 <= i < |calls| ==> calls[i].Productive()) ==>
      Times(|offered|, rg) >= height
  {
    hide Times, Seen;
    var c := new Controller(M, rg, height, total);
    var i := 0;
    while i < |calls| && !c.Done()
      invariant 0 <= i <= |calls| && c.Valid() && fresh(c) && fresh(c.xbuf0) && fresh(c.xbuf1) && fresh(c.rows)
      invariant (forall i :: 0 <= i < |calls| ==> calls[i].Productive()) ==> |c.delivered| >= i
    {
      c.ProcessData(calls[i].arrives, calls[i].take, calls[i].filled, calls[i].take2);
      i := i + 1;
    }
    offered := c.delivered;
    NotBelow(|calls|, |offered|, rg);
  }

  lemma NotBelow(m: nat, n: nat, rg: int)
    requires rg >= 1
    ensures m <= n ==> Times(m, rg) <= Times(n, rg)
  {
    if m < n { TimesGrows(m, n, rg); }
  }

  lemma LastPart(x: int, d: int, q: int, r: int)
    requires d > 0 && q >= 0 && x == q * d + r && 0 < r <= d
    ensures if x % d == 0 then r == d else x % d == r
  {
    var m := if r == d then q + 1 else q;
    var s := if r == d then 0 else r;
    assert x == m * d + s by { if r == d { assert (q + 1) * d == q * d + d; } }
    Multiple(q, d);
    Quotient(x, d, m, s);
  }
}
