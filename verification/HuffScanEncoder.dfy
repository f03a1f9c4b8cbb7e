/** The sequential Huffman output pass: MCUs into entropy-coded segments with restart markers between
    them. */
module HuffScanEncoder {
  import opened Bytes
  import opened Restarts
  import opened BitStrings
  import opened BitWriter
  import opened HuffTable
  import opened HuffBlock
  import opened HuffEncoder
  import opened HuffPlan
  import opened ZigZag

  /** The data of a segment: its bits, padded with ones to whole bytes. */
  predicate Padded(bits: Bits, data: seq<byte>) {
    ByteBits(data) == bits + Padding((8 - |bits| % 8) % 8)
  }

  predicate PaddedAll(bits: seq<Bits>, datas: seq<seq<byte>>) {
    |bits| == |datas| && forall i :: 0 <= i < |bits| ==> Padded(bits[i], datas[i])
  }

  /** Two stretches of a scan, the second going on in the interval in which the first one ends. */
  function Glue(a: seq<Bits>, b: seq<Bits>): (r: seq<Bits>)
    requires |a| > 0 && |b| > 0
    ensures |r| == |a| + |b| - 1
  {
    a[..|a| - 1] + [a[|a| - 1] + b[0]] + b[1..]
  }

  lemma GlueAssociates(a: seq<Bits>, b: seq<Bits>, c: seq<Bits>)
    requires |a| > 0 && |b| > 0 && |c| > 0
    ensures Glue(Glue(a, b), c) == Glue(a, Glue(b, c))
  {
    var l, r := Glue(Glue(a, b), c), Glue(a, Glue(b, c));
    forall i | 0 <= i < |l|
      ensures l[i] == r[i]
    {
      if i == |a| - 1 && |b| == 1 {
        Reassociate(a[i], b[0], c[0]);
      }
    }
  }

  lemma GlueEmpty(a: seq<Bits>)
    requires |a| > 0
    ensures Glue(a, [[]]) == a && Glue([[]], a) == a
  {
    assert a[|a| - 1] + [] == a[|a| - 1] && [] + a[0] == a[0];
  }

  lemma GlueRestart(a: seq<Bits>, b: seq<Bits>)
    requires a != [] && b != []
    ensures Glue([[]] + a, b) == [[]] + Glue(a, b)
  {
    assert ([[]] + a)[..|a|] == [[]] + a[..|a| - 1];
  }

  /** The intervals of one plan followed by another. */
  lemma {:induction false} IntervalsConcat(e: Encoders, n: nat, p: seq<Step>, q: seq<Step>)
    requires LegalEncoders(e, n) && LegalPlan(p, n) && LegalPlan(q, n)
    ensures LegalPlan(p + q, n) && Intervals(e, n, p + q) == Glue(Intervals(e, n, p), Intervals(e, n, q))
  {
    hide StepBits, LegalStep, LegalEncoders, Glue;
    if p == [] {
      assert p + q == q;
      GlueEmpty(Intervals(e, n, q));
    } else {
      IntervalsConcat(e, n, p[1..], q);
      assert (p + q)[1..] == p[1..] + q;
      var a, b := Intervals(e, n, p[1..]), Intervals(e, n, q);
      if p[0].Restart? {
        GlueRestart(a, b);
      } else {
        PrependBits(StepBits(e, n, p[0]), a, b);
      }
    }
  }

  lemma PrependBits(s: Bits, a: seq<Bits>, b: seq<Bits>)
    requires |a| > 0 && |b| > 0
    ensures Glue([s + a[0]] + a[1..], b) == [s + Glue(a, b)[0]] + Glue(a, b)[1..]
  {
    GlueAssociates([s], a, b);
    assert Glue([s], a) == [s + a[0]] + a[1..];
    assert Glue([s], Glue(a, b)) == [s + Glue(a, b)[0]] + Glue(a, b)[1..];
  }

  // ----- The output pass

  class ScanEncoder {
    const coding: Coding
    const encoders: Encoders
    const writer: Writer
    const n: nat
    var last_dc_val: seq<int>
    var restarts_to_go: nat
    var next_restart_num: nat

    ghost var done: seq<seq<byte>>
    ghost var spelled: seq<Bits>

    ghost predicate Valid()
      reads this, writer
    {
      && writer.Valid() && ValidCoding(coding, n) && LegalEncoders(encoders, n)
      && LegalLast(coding, last_dc_val) && next_restart_num == |done| % 8
      && writer.head == HeadOf(done) && PaddedAll(spelled, done)
    }

    /** The bits of each restart interval so far. */
    ghost function Logged(): (r: seq<Bits>)
      reads this, writer
      requires Valid()
      ensures |r| > 0
    {
      spelled + [writer.Written()]
    }

    // start_pass_huff
    constructor (coding: Coding, n: nat, encoders: Encoders)
      requires ValidCoding(coding, n) && LegalEncoders(encoders, n)
      ensures Valid() && fresh(writer) && Logged() == [[]]
      ensures this.coding == coding && this.n == n && this.encoders == encoders
      ensures last_dc_val == NoPrediction(coding) && restarts_to_go == coding.interval
    {
      this.coding, this.n, this.encoders := coding, n, encoders;
      writer := new Writer([]);
      last_dc_val := NoPrediction(coding);
      restarts_to_go, next_restart_num := coding.interval, 0;
      done, spelled := [], [];
    }

    // emit_restart: flush the bits, emit the marker and re-initialize DC predictions.
    method EmitRestart()
      requires Valid()
      modifies this`done, this`spelled, this`next_restart_num, this`last_dc_val, writer
      ensures Valid() && last_dc_val == NoPrediction(coding)
      ensures Logged() == Glue(old(Logged()), [[], []])
    {
      hide Padded, ByteBits, Sections, HeadOf, Writer.Valid, Writer.Written, LegalEncoders, RestartCode;
      ghost var bits := writer.Written();
      RestartByte(|done|);
      ghost var data := CloseSegment(writer, 0xD0 + next_restart_num);
      NextHead(done, data);
      NoPadding(spelled, bits);
      done, spelled := done + [data], spelled + [bits];
      next_restart_num := (next_restart_num + 1) % 8;
      last_dc_val := NoPrediction(coding);
    }

    // encode_mcu_huff
    method EncodeMcu(mcu: seq<Block>)
      requires Valid() && LegalMcu(|coding.membership|, mcu)
      modifies this`done, this`spelled, this`next_restart_num, this`last_dc_val, this`restarts_to_go, writer
      ensures Valid() && restarts_to_go == ToGo(coding, old(restarts_to_go))
      ensures var due := RestartDue(coding, old(restarts_to_go));
        var start := if due then NoPrediction(coding) else old(last_dc_val);
        && last_dc_val == LastAfter(coding, start, coding.membership, mcu)
        && Logged() == Glue(Glue(old(Logged()), if due then [[], []] else [[]]),
                            Intervals(encoders, n, BlockSteps(coding, n, start, coding.membership, mcu)))
    {
      hide Glue, ValidCoding, LegalEncoders, Writer.Valid, Writer.Written, BlockSteps, LastAfter, Intervals, HeadOf, PaddedAll;
      // Emit restart marker if needed
      CodingParts(coding, n);
      GlueEmpty(Logged());
      if coding.interval != 0 {
        if restarts_to_go == 0 {
          EmitRestart();
        }
      }
      EncodeBlocks(mcu);
      if coding.interval != 0 {
        if restarts_to_go == 0 {
          restarts_to_go := coding.interval;
        }
        restarts_to_go := restarts_to_go - 1;
      }
    }

    // The data blocks of the MCU.
    method EncodeBlocks(mcu: seq<Block>)
      requires Valid() && LegalMcu(|coding.membership|, mcu)
      modifies this`last_dc_val, writer
      ensures Valid() && last_dc_val == LastAfter(coding, old(last_dc_val), coding.membership, mcu)
      ensures Logged() == Glue(old(Logged()),
                               Intervals(encoders, n, BlockSteps(coding, n, old(last_dc_val), coding.membership, mcu)))
    {
      hide Glue, LegalEncoders, Writer.Valid, Writer.Written, LastAfter, BlockSteps, Intervals, HeadOf, PaddedAll, Ready, Ahead;
      ghost var cis := coding.membership;
      Start(encoders, n, coding, last_dc_val, mcu, Logged());
      ghost var goal := Ahead(encoders, n, coding, last_dc_val, cis, mcu, Logged());
      assert cis[0..] == cis && mcu[0..] == mcu;
      EncodeFrom(mcu, goal);
    }

    method EncodeFrom(mcu: seq<Block>, ghost goal: Outlook)
      requires Valid() && LegalMcu(|coding.membership|, mcu) && Pending(mcu, 0, goal)
      modifies this`last_dc_val, writer
      ensures Valid() && Logged() == goal.logged && last_dc_val == goal.last
    {
      hide Valid, Pending, Logged, LegalMcu;
      var blkn := 0;
      while blkn < |mcu|
        invariant 0 <= blkn <= |mcu| && Valid() && Pending(mcu, blkn, goal)
      {
        EncodeNext(mcu, blkn, goal);
        blkn := blkn + 1;
      }
      AllDone(mcu, goal);
    }

    /** From block k on, the rest of the MCU leads to the goal. */
    ghost predicate Pending(mcu: seq<Block>, k: nat, goal: Outlook)
      reads this, writer
      requires Valid()
    {
      && |mcu| == |coding.membership| && k <= |mcu|
      && Ready(encoders, n, coding, last_dc_val, coding.membership[k..], mcu[k..])
      && Ahead(encoders, n, coding, last_dc_val, coding.membership[k..], mcu[k..], Logged()) == goal
    }

    lemma AllDone(mcu: seq<Block>, goal: Outlook)
      requires Valid() && Pending(mcu, |mcu|, goal)
      ensures Logged() == goal.logged && last_dc_val == goal.last
    {
      hide Ready, Ahead, Writer.Valid, Writer.Written;
      assert mcu[|mcu|..] == [] && coding.membership[|mcu|..] == [];
      NoSteps(encoders, n, coding, last_dc_val, Logged());
    }

    method EncodeNext(mcu: seq<Block>, k: nat, ghost goal: Outlook)
      requires Valid() && k < |mcu| && Pending(mcu, k, goal)
      modifies this`last_dc_val, writer
      ensures Valid() && Pending(mcu, k + 1, goal)
    {
      hide Glue, ValidCoding, LegalEncoders, Writer.Valid, Writer.Written, HeadOf, PaddedAll, Ready, Ahead, LegalLast, LegalBlock;
      ghost var cis, bs := coding.membership[k..], mcu[k..];
      FirstStep(encoders, n, coding, last_dc_val, cis, bs, Logged());
      assert cis[1..] == coding.membership[k + 1..] && bs[1..] == mcu[k + 1..] && bs[0] == mcu[k] && cis[0] == coding.membership[k];
      EncodeBlock(mcu[k], coding.membership[k]);
    }

    method EncodeBlock(block: Block, ci: nat)
      requires Valid() && LegalBlock(block) && ci < |coding.dcTbl|
      modifies this`last_dc_val, writer
      ensures Valid() && last_dc_val == NextLast(coding, old(last_dc_val), ci, block)
      ensures Magnitude(block[0] - old(last_dc_val)[ci]) < 32768
      ensures Logged() == Glue(old(Logged()), [StepBits(encoders, n, Code(coding.dcTbl[ci], coding.acTbl[ci],
                                                                          block[0] - old(last_dc_val)[ci], block))])
    {
      hide Writer.Valid, Writer.Written, HeadOf, PaddedAll, BlockBits, LegalEncoder;
      EncodeOneBlock(writer, block, last_dc_val[ci], encoders.dc[coding.dcTbl[ci]], encoders.ac[coding.acTbl[ci]]);
      last_dc_val := last_dc_val[ci := block[0]];
    }

    // finish_pass_huff: flush out the last data.
    method Finish() returns (ghost datas: seq<seq<byte>>)
      requires Valid()
      modifies writer
      ensures writer.out == Sections(datas, 0) && datas != [] && PaddedAll(old(Logged()), datas)
    {
      hide Writer.Written, Sections, HeadOf, ByteBits, Padding;
      ghost var bits := writer.Written();
      writer.FlushBits();
      HeadAndSegment(done, writer.data);
      datas := done + [writer.data];
    }
  }

  lemma CodingParts(c: Coding, n: nat)
    requires ValidCoding(c, n)
    ensures |c.dcTbl| == |c.acTbl|
  {
  }

  /** The coder is about to code these blocks. */
  predicate Ready(e: Encoders, n: nat, c: Coding, last: seq<int>, cis: seq<nat>, bs: seq<Block>) {
    LegalEncoders(e, n) && ValidCoding(c, n) && LegalLast(c, last) && |cis| == |bs| && Members(c, cis) && LegalBlocks(bs)
  }

  datatype Outlook = Outlook(logged: seq<Bits>, last: seq<int>)

  /** Where the coder will stand after coding these blocks. */
  function Ahead(e: Encoders, n: nat, c: Coding, last: seq<int>, cis: seq<nat>, bs: seq<Block>, logged: seq<Bits>): Outlook
    requires Ready(e, n, c, last, cis, bs) && |logged| > 0
  {
    Outlook(Glue(logged, Intervals(e, n, BlockSteps(c, n, last, cis, bs))), LastAfter(c, last, cis, bs))
  }

  lemma Start(e: Encoders, n: nat, c: Coding, last: seq<int>, mcu: seq<Block>, logged: seq<Bits>)
    requires LegalEncoders(e, n) && ValidCoding(c, n) && LegalLast(c, last) && LegalMcu(|c.membership|, mcu) && |logged| > 0
    ensures Ready(e, n, c, last, c.membership, mcu)
    ensures Members(c, c.membership)
    ensures Ahead(e, n, c, last, c.membership, mcu, logged)
         == Outlook(Glue(logged, Intervals(e, n, BlockSteps(c, n, last, c.membership, mcu))), LastAfter(c, last, c.membership, mcu))
  {
    hide LegalEncoders, BlockSteps, LastAfter, Intervals, Glue;
  }

  lemma FirstStep(e: Encoders, n: nat, c: Coding, last: seq<int>, cis: seq<nat>, bs: seq<Block>, logged: seq<Bits>)
    requires Ready(e, n, c, last, cis, bs) && |bs| > 0 && |logged| > 0
    ensures |cis| == |bs| && cis[0] < |c.dcTbl| == |c.acTbl| == |last| && LegalBlock(bs[0]) && LegalEncoders(e, n)
    ensures var ci := cis[0];
      var step, next := Code(c.dcTbl[ci], c.acTbl[ci], bs[0][0] - last[ci], bs[0]), last[ci := bs[0][0]];
      && LegalStep(step, n) && Ready(e, n, c, next, cis[1..], bs[1..])
      && Ahead(e, n, c, last, cis, bs, logged)
         == Ahead(e, n, c, next, cis[1..], bs[1..], Glue(logged, [StepBits(e, n, step)]))
  {
    hide StepBits, LegalEncoders, Intervals, Glue;
    var ci := cis[0];
    var step, next := Code(c.dcTbl[ci], c.acTbl[ci], bs[0][0] - last[ci], bs[0]), last[ci := bs[0][0]];
    assert LegalBlock(bs[0]);
    var rest := BlockSteps(c, n, next, cis[1..], bs[1..]);
    StepThenRest(e, n, step, rest);
    GlueAssociates(logged, [StepBits(e, n, step)], Intervals(e, n, rest));
  }

  lemma StepThenRest(e: Encoders, n: nat, step: Step, rest: seq<Step>)
    requires LegalEncoders(e, n) && LegalStep(step, n) && step.Code? && LegalPlan(rest, n)
    ensures Intervals(e, n, [step] + rest) == Glue([StepBits(e, n, step)], Intervals(e, n, rest))
  {
    hide StepBits, LegalEncoders, LegalStep;
    assert ([step] + rest)[1..] == rest;
  }

  lemma NoSteps(e: Encoders, n: nat, c: Coding, last: seq<int>, logged: seq<Bits>)
    requires Ready(e, n, c, last, [], []) && |logged| > 0
    ensures Ahead(e, n, c, last, [], [], logged) == Outlook(logged, last)
  {
    GlueEmpty(logged);
  }

  method CloseSegment(w: Writer, code: byte) returns (ghost data: seq<byte>)
    requires w.Valid()
    modifies w
    ensures w.Valid() && w.Written() == [] && w.head == old(w.head) + Stuff(data) + [0xFF, code]
    ensures Padded(old(w.Written()), data)
  {
    hide Padding, ByteBits, Writer.Written;
    w.FlushBits();
    data := w.data;
    w.EmitMarker(code);
  }

  lemma NoPadding(spelled: seq<Bits>, bits: Bits)
    ensures Glue(spelled + [bits], [[], []]) == spelled + [bits] + [[]]
  {
    assert bits + [] == bits;
    assert (spelled + [bits])[..|spelled|] == spelled;
  }
}
