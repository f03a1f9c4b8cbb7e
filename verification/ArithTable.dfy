/** The probability estimation state machine of Table D.2 of ITU-T T.81, in the packed form both
    arithmetic coders read it. */
module ArithTable {

  datatype Row = V(qe: nat, nextLps: nat, nextMps: nat, switchMps: nat)

  function Pack(r: Row): int {
    0x10000 * r.qe + 0x100 * r.nextMps + 0x80 * r.switchMps + r.nextLps
  }

  function Entry(i: nat): int
    requires i <= 113
  {
    Pack(Table(i))
  }

  function Table(i: nat): Row
    requires i <= 113
  {
    if i < 19 then Rows0(i)
    else if i < 38 then Rows19(i)
    else if i < 57 then Rows38(i)
    else if i < 76 then Rows57(i)
    else if i < 95 then Rows76(i)
    else Rows95(i)
  }

  function Rows0(i: nat): Row {
    match i
    case 0 => V(0x5a1d, 1, 1, 1)
    case 1 => V(0x2586, 14, 2, 0)
    case 2 => V(0x1114, 16, 3, 0)
    case 3 => V(0x080b, 18, 4, 0)
    case 4 => V(0x03d8, 20, 5, 0)
    case 5 => V(0x01da, 23, 6, 0)
    case 6 => V(0x00e5, 25, 7, 0)
    case 7 => V(0x006f, 28, 8, 0)
    case 8 => V(0x0036, 30, 9, 0)
    case 9 => V(0x001a, 33, 10, 0)
    case 10 => V(0x000d, 35, 11, 0)
    case 11 => V(0x0006, 9, 12, 0)
    case 12 => V(0x0003, 10, 13, 0)
    case 13 => V(0x0001, 12, 13, 0)
    case 14 => V(0x5a7f, 15, 15, 1)
    case 15 => V(0x3f25, 36, 16, 0)
    case 16 => V(0x2cf2, 38, 17, 0)
    case 17 => V(0x207c, 39, 18, 0)
    case _ => V(0x17b9, 40, 19, 0)
  }

  function Rows19(i: nat): Row {
    match i
    case 19 => V(0x1182, 42, 20, 0)
    case 20 => V(0x0cef, 43, 21, 0)
    case 21 => V(0x09a1, 45, 22, 0)
    case 22 => V(0x072f, 46, 23, 0)
    case 23 => V(0x055c, 48, 24, 0)
    case 24 => V(0x0406, 49, 25, 0)
    case 25 => V(0x0303, 51, 26, 0)
    case 26 => V(0x0240, 52, 27, 0)
    case 27 => V(0x01b1, 54, 28, 0)
    case 28 => V(0x0144, 56, 29, 0)
    case 29 => V(0x00f5, 57, 30, 0)
    case 30 => V(0x00b7, 59, 31, 0)
    case 31 => V(0x008a, 60, 32, 0)
    case 32 => V(0x0068, 62, 33, 0)
    case 33 => V(0x004e, 63, 34, 0)
    case 34 => V(0x003b, 32, 35, 0)
    case 35 => V(0x002c, 33, 9, 0)
    case 36 => V(0x5ae1, 37, 37, 1)
    case _ => V(0x484c, 64, 38, 0)
  }

  function Rows38(i: nat): Row {
    match i
    case 38 => V(0x3a0d, 65, 39, 0)
    case 39 => V(0x2ef1, 67, 40, 0)
    case 40 => V(0x261f, 68, 41, 0)
    case 41 => V(0x1f33, 69, 42, 0)
    case 42 => V(0x19a8, 70, 43, 0)
    case 43 => V(0x1518, 72, 44, 0)
    case 44 => V(0x1177, 73, 45, 0)
    case 45 => V(0x0e74, 74, 46, 0)
    case 46 => V(0x0bfb, 75, 47, 0)
    case 47 => V(0x09f8, 77, 48, 0)
    case 48 => V(0x0861, 78, 49, 0)
    case 49 => V(0x0706, 79, 50, 0)
    case 50 => V(0x05cd, 48, 51, 0)
    case 51 => V(0x04de, 50, 52, 0)
    case 52 => V(0x040f, 50, 53, 0)
    case 53 => V(0x0363, 51, 54, 0)
    case 54 => V(0x02d4, 52, 55, 0)
    case 55 => V(0x025c, 53, 56, 0)
    case _ => V(0x01f8, 54, 57, 0)
  }

  function Rows57(i: nat): Row {
    match i
    case 57 => V(0x01a4, 55, 58, 0)
    case 58 => V(0x0160, 56, 59, 0)
    case 59 => V(0x0125, 57, 60, 0)
    case 60 => V(0x00f6, 58, 61, 0)
    case 61 => V(0x00cb, 59, 62, 0)
    case 62 => V(0x00ab, 61, 63, 0)
    case 63 => V(0x008f, 61, 32, 0)
    case 64 => V(0x5b12, 65, 65, 1)
    case 65 => V(0x4d04, 80, 66, 0)
    case 66 => V(0x412c, 81, 67, 0)
    case 67 => V(0x37d8, 82, 68, 0)
    case 68 => V(0x2fe8, 83, 69, 0)
    case 69 => V(0x293c, 84, 70, 0)
    case 70 => V(0x2379, 86, 71, 0)
    case 71 => V(0x1edf, 87, 72, 0)
    case 72 => V(0x1aa9, 87, 73, 0)
    case 73 => V(0x174e, 72, 74, 0)
    case 74 => V(0x1424, 72, 75, 0)
    case _ => V(0x119c, 74, 76, 0)
  }

  function Rows76(i: nat): Row {
    match i
    case 76 => V(0x0f6b, 74, 77, 0)
    case 77 => V(0x0d51, 75, 78, 0)
    case 78 => V(0x0bb6, 77, 79, 0)
    case 79 => V(0x0a40, 77, 48, 0)
    case 80 => V(0x5832, 80, 81, 1)
    case 81 => V(0x4d1c, 88, 82, 0)
    case 82 => V(0x438e, 89, 83, 0)
    case 83 => V(0x3bdd, 90, 84, 0)
    case 84 => V(0x34ee, 91, 85, 0)
    case 85 => V(0x2eae, 92, 86, 0)
    case 86 => V(0x299a, 93, 87, 0)
    case 87 => V(0x2516, 86, 71, 0)
    case 88 => V(0x5570, 88, 89, 1)
    case 89 => V(0x4ca9, 95, 90, 0)
    case 90 => V(0x44d9, 96, 91, 0)
    case 91 => V(0x3e22, 97, 92, 0)
    case 92 => V(0x3824, 99, 93, 0)
    case 93 => V(0x32b4, 99, 94, 0)
    case _ => V(0x2e17, 93, 86, 0)
  }

  function Rows95(i: nat): Row {
    match i
    case 95 => V(0x56a8, 95, 96, 1)
    case 96 => V(0x4f46, 101, 97, 0)
    case 97 => V(0x47e5, 102, 98, 0)
    case 98 => V(0x41cf, 103, 99, 0)
    case 99 => V(0x3c3d, 104, 100, 0)
    case 100 => V(0x375e, 99, 93, 0)
    case 101 => V(0x5231, 105, 102, 0)
    case 102 => V(0x4c0f, 106, 103, 0)
    case 103 => V(0x4639, 107, 104, 0)
    case 104 => V(0x415e, 103, 99, 0)
    case 105 => V(0x5627, 105, 106, 1)
    case 106 => V(0x50e7, 108, 107, 0)
    case 107 => V(0x4b85, 109, 103, 0)
    case 108 => V(0x5597, 110, 109, 0)
    case 109 => V(0x504f, 111, 107, 0)
    case 110 => V(0x5a10, 110, 111, 1)
    case 111 => V(0x5522, 112, 109, 0)
    case 112 => V(0x59eb, 112, 111, 1)
    case _ => V(0x5a1d, 113, 113, 0)
  }

  /** A statistics byte: the sense of the MPS in the top bit, the table index below it. */
  type stat = x: int | 0 <= x < 256 && x % 128 <= 113

  /** What one statistics byte says about the next decision: the size of the LPS subinterval, the sense
      of the MPS, and the byte to store after coding either symbol with renormalization. */
  datatype Estimator = Estimator(qe: nat, mps: bool, current: stat, afterLps: stat, afterMps: stat)

  type Rule = e: Estimator | 0 < e.qe < 0x8000 witness Estimator(1, false, 0, 0, 0)

  function Lookup(sv: stat): Rule {
    EntryBounds(sv % 128);
    var w := Entry(sv % 128);
    Estimator(w / 0x10000, Sense(sv), sv, ExchangeSense(sv, w % 0x100), ExchangeSense(sv, w / 0x100 % 0x100))
  }

  predicate Sense(sv: stat) {
    sv / 128 == 1
  }

  // (sv & 0x80) ^ n, for a byte n
  function ExchangeSense(sv: stat, n: int): stat
    requires 0 <= n < 256 && n % 0x80 <= 113
  {
    (sv / 128 + n / 128) % 2 * 128 + n % 128
  }

  /** Every Qe is a positive size below half the smallest interval, and every successor is a table
      index. */
  lemma EntryBounds(i: nat)
    requires i <= 113
    ensures 0 < Entry(i) / 0x10000 < 0x8000
    ensures Entry(i) % 0x100 % 0x80 <= 113
    ensures Entry(i) / 0x100 % 0x100 <= 113
  {
    RowBounds(i);
    Unpack(Table(i));
  }

  lemma RowBounds(i: nat)
    requires i <= 113
    ensures 0 < Table(i).qe < 0x8000 && Table(i).nextLps <= 113 && Table(i).nextMps <= 113 && Table(i).switchMps < 2
  {
    if i < 57 { LowRowBounds(i); } else { HighRowBounds(i); }
  }

  lemma LowRowBounds(i: nat)
    requires i < 57
    ensures 0 < Table(i).qe < 0x8000 && Table(i).nextLps <= 113 && Table(i).nextMps <= 113 && Table(i).switchMps < 2
  {
  }

  lemma HighRowBounds(i: nat)
    requires 57 <= i <= 113
    ensures 0 < Table(i).qe < 0x8000 && Table(i).nextLps <= 113 && Table(i).nextMps <= 113 && Table(i).switchMps < 2
  {
  }

  /** Unpacking an entry recovers its four components. */
  lemma Unpack(r: Row)
    requires r.nextLps < 128 && r.nextMps < 128 && r.switchMps < 2
    ensures Pack(r) / 0x10000 == r.qe
    ensures Pack(r) % 0x100 == 0x80 * r.switchMps + r.nextLps
    ensures Pack(r) / 0x100 % 0x100 == r.nextMps
  {
  }

  // ----- How the estimate adapts

  /** The states in which the less probable symbol has become the more probable one once it occurs again. */
  predicate Switches(i: nat) {
    i == 0 || i == 14 || i == 36 || i == 64 || i == 80 || i == 88 || i == 95 || i == 105 || i == 110 || i == 112
  }

  /** An MPS leads to a smaller Qe, except in the last state and in the one that does not adapt; an LPS leads to a greater
      one, or the sense of the MPS changes. */
  ghost predicate RowAdapts(i: nat)
    requires i <= 113
  {
    var r := Table(i);
    && r.nextMps <= 113 && r.nextLps <= 113
    && (if i == 13 || i == 113 then r.nextMps == i else Table(r.nextMps).qe < r.qe)
    && (r.switchMps == 1 <==> Switches(i))
    && (Switches(i) || i == 113 || Table(r.nextLps).qe > r.qe)
  }

  lemma Rows0Adapt()
    ensures RowAdapts(0) && RowAdapts(1) && RowAdapts(2) && RowAdapts(3) && RowAdapts(4) && RowAdapts(5)
  {
  }

  lemma Rows6Adapt()
    ensures RowAdapts(6) && RowAdapts(7) && RowAdapts(8) && RowAdapts(9) && RowAdapts(10) && RowAdapts(11)
  {
  }

  lemma Rows12Adapt()
    ensures RowAdapts(12) && RowAdapts(13) && RowAdapts(14) && RowAdapts(15) && RowAdapts(16) && RowAdapts(17)
  {
  }

  lemma Rows18Adapt()
    ensures RowAdapts(18) && RowAdapts(19) && RowAdapts(20) && RowAdapts(21) && RowAdapts(22) && RowAdapts(23)
  {
  }

  lemma Rows24Adapt()
    ensures RowAdapts(24) && RowAdapts(25) && RowAdapts(26) && RowAdapts(27) && RowAdapts(28) && RowAdapts(29)
  {
  }

  lemma Rows30Adapt()
    ensures RowAdapts(30) && RowAdapts(31) && RowAdapts(32) && RowAdapts(33) && RowAdapts(34) && RowAdapts(35)
  {
  }

  lemma Rows36Adapt()
    ensures RowAdapts(36) && RowAdapts(37) && RowAdapts(38) && RowAdapts(39) && RowAdapts(40) && RowAdapts(41)
  {
  }

  lemma Rows42Adapt()
    ensures RowAdapts(42) && RowAdapts(43) && RowAdapts(44) && RowAdapts(45) && RowAdapts(46) && RowAdapts(47)
  {
  }

  lemma Rows48Adapt()
    ensures RowAdapts(48) && RowAdapts(49) && RowAdapts(50) && RowAdapts(51) && RowAdapts(52) && RowAdapts(53)
  {
  }

  lemma Rows54Adapt()
    ensures RowAdapts(54) && RowAdapts(55) && RowAdapts(56) && RowAdapts(57) && RowAdapts(58) && RowAdapts(59)
  {
  }

  lemma Rows60Adapt()
    ensures RowAdapts(60) && RowAdapts(61) && RowAdapts(62) && RowAdapts(63) && RowAdapts(64) && RowAdapts(65)
  {
  }

  lemma Rows66Adapt()
    ensures RowAdapts(66) && RowAdapts(67) && RowAdapts(68) && RowAdapts(69) && RowAdapts(70) && RowAdapts(71)
  {
  }

  lemma Rows72Adapt()
    ensures RowAdapts(72) && RowAdapts(73) && RowAdapts(74) && RowAdapts(75) && RowAdapts(76) && RowAdapts(77)
  {
  }

  lemma Rows78Adapt()
    ensures RowAdapts(78) && RowAdapts(79) && RowAdapts(80) && RowAdapts(81) && RowAdapts(82) && RowAdapts(83)
  {
  }

  lemma Rows84Adapt()
    ensures RowAdapts(84) && RowAdapts(85) && RowAdapts(86) && RowAdapts(87) && RowAdapts(88) && RowAdapts(89)
  {
  }

  lemma Rows90Adapt()
    ensures RowAdapts(90) && RowAdapts(91) && RowAdapts(92) && RowAdapts(93) && RowAdapts(94) && RowAdapts(95)
  {
  }

  lemma Rows96Adapt()
    ensures RowAdapts(96) && RowAdapts(97) && RowAdapts(98) && RowAdapts(99) && RowAdapts(100) && RowAdapts(101)
  {
  }

  lemma Rows102Adapt()
    ensures RowAdapts(102) && RowAdapts(103) && RowAdapts(104) && RowAdapts(105) && RowAdapts(106) && RowAdapts(107)
  {
  }

  lemma Rows108Adapt()
    ensures RowAdapts(108) && RowAdapts(109) && RowAdapts(110) && RowAdapts(111) && RowAdapts(112) && RowAdapts(113)
  {
  }

  lemma AllRowsAdapt(i: nat)
    requires i <= 113
    ensures RowAdapts(i)
  {
    hide RowAdapts;
    if i < 6 { Rows0Adapt(); }
    else if i < 12 { Rows6Adapt(); }
    else if i < 18 { Rows12Adapt(); }
    else if i < 24 { Rows18Adapt(); }
    else if i < 30 { Rows24Adapt(); }
    else if i < 36 { Rows30Adapt(); }
    else if i < 42 { Rows36Adapt(); }
    else if i < 48 { Rows42Adapt(); }
    else if i < 54 { Rows48Adapt(); }
    else if i < 60 { Rows54Adapt(); }
    else if i < 66 { Rows60Adapt(); }
    else if i < 72 { Rows66Adapt(); }
    else if i < 78 { Rows72Adapt(); }
    else if i < 84 { Rows78Adapt(); }
    else if i < 90 { Rows84Adapt(); }
    else if i < 96 { Rows90Adapt(); }
    else if i < 102 { Rows96Adapt(); }
    else if i < 108 { Rows102Adapt(); }
    else { Rows108Adapt(); }
  }

  lemma LookupRow(sv: stat)
    ensures var r, t := Lookup(sv), Table(sv % 128);
      && t.nextMps <= 113 && t.nextLps <= 113 && t.switchMps < 2 && r.qe == t.qe && r.mps == Sense(sv) && r.current == sv
      && r.afterMps % 128 == t.nextMps && Sense(r.afterMps) == Sense(sv)
      && r.afterLps % 128 == t.nextLps && (Sense(r.afterLps) != Sense(sv) <==> t.switchMps == 1)
  {
    hide Table, ExchangeSense, Pack, Sense;
    RowBounds(sv % 128);
    var t := Table(sv % 128);
    Unpack(t);
    Exchanged(sv, 0x80 * t.switchMps + t.nextLps, t.nextLps, t.switchMps);
    Exchanged(sv, t.nextMps, t.nextMps, 0);
  }

  lemma Exchanged(sv: stat, n: int, next: nat, switch: nat)
    requires next <= 113 && switch < 2 && n == 0x80 * switch + next
    ensures var r := ExchangeSense(sv, n); r % 128 == next && (Sense(r) != Sense(sv) <==> switch == 1)
  {
    SplitByte(n, switch, next);
    var top := (sv / 128 + switch) % 2;
    SplitByte(ExchangeSense(sv, n), top, next);
  }

  lemma SplitByte(n: int, high: int, low: int)
    requires n == 0x80 * high + low && 0 <= low < 0x80
    ensures n / 128 == high && n % 128 == low
  {
  }

  /** Coding an MPS never makes the next LPS subinterval larger, and keeps the sense; in every state but the last it makes it
      smaller, so that long runs lead to the smallest Qe. */
  lemma MpsAdapts(sv: stat)
    ensures var r := Lookup(sv);
      && Lookup(r.afterMps).qe <= r.qe && Sense(r.afterMps) == Sense(sv)
      && (sv % 128 != 13 && sv % 128 != 113 ==> Lookup(r.afterMps).qe < r.qe)
      && (sv % 128 == 13 || sv % 128 == 113 ==> r.afterMps == sv)
  {
    hide Table, Lookup;
    AllRowsAdapt(sv % 128);
    LookupRow(sv);
    LookupRow(Lookup(sv).afterMps);
  }

  /** Coding an LPS makes the LPS subinterval larger, or exchanges the sense of the MPS, which happens exactly in the
      switching states; only the state that does not adapt stays as it is. */
  lemma LpsAdapts(sv: stat)
    ensures var r := Lookup(sv);
      && (Sense(r.afterLps) != Sense(sv) <==> Switches(sv % 128))
      && (Switches(sv % 128) || sv % 128 == 113 || Lookup(r.afterLps).qe > r.qe)
      && (Lookup(r.afterLps).qe < r.qe ==> Sense(r.afterLps) != Sense(sv) || sv % 128 == 113)
  {
    hide Table, Lookup;
    AllRowsAdapt(sv % 128);
    LookupRow(sv);
    LookupRow(Lookup(sv).afterLps);
  }
}
