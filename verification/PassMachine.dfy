/** The passes of the compressor: the master's state machine and the loop that drives it. */
module PassMachine {
  import opened ProgScript

  datatype PassType = MainPass | HuffOptPass | OutputPass

  /** What the passes do, in order: gather statistics for a scan, write the frame header, a scan header, the
      data of a scan, the trailer. */
  datatype Event = Gather(scan: nat) | FrameHeader | ScanHeader(scan: nat) | Data(scan: nat) | Trailer

  datatype Config = Config(scans: seq<ScanInfo>, optimize_coding: bool, arith_code: bool, transcode_only: bool) {
    /** A Huffman DC refinement scan needs no table, so that its optimization is left out, except in a main pass. */
    predicate Optimizes(k: nat)
      requires k < |scans|
    {
      optimize_coding && ((k == 0 && !transcode_only) || scans[k].ss != 0 || scans[k].ah == 0 || arith_code)
    }

    /** One scan: its optimization if any, the headers, the data. */
    function ScanEvents(k: nat): seq<Event>
      requires k < |scans|
    {
      (if Optimizes(k) then [Gather(k)] else []) + Headers(k) + [Data(k)]
    }

    /** The frame header comes once, before the first scan header. */
    function Headers(k: nat): seq<Event> {
      (if k == 0 then [FrameHeader] else []) + [ScanHeader(k)]
    }

    /** The first n scans, in order. */
    function Events(n: nat): seq<Event>
      requires n <= |scans|
    {
      if n == 0 then [] else Events(n - 1) + ScanEvents(n - 1)
    }
  }

  /** The scans whose data is in the file, in order. */
  function Written(log: seq<Event>): seq<nat> {
    if log == [] then []
    else Written(log[..|log| - 1]) + match log[|log| - 1] { case Data(k) => [k] case _ => [] }
  }

  lemma {:induction false} WrittenConcat(a: seq<Event>, b: seq<Event>)
    ensures Written(a + b) == Written(a) + Written(b)
    decreases |b|
  {
    if b == [] {
      assert a + b == a;
    } else {
      assert (a + b)[..|a + b| - 1] == a + b[..|b| - 1];
      WrittenConcat(a, b[..|b| - 1]);
    }
  }

  /** Every scan is output exactly once, in order. */
  lemma {:induction false} EachScanOnce(c: Config, n: nat)
    requires n <= |c.scans|
    ensures Written(c.Events(n)) == seq(n, k => k)
  {
    hide Written, Config.ScanEvents, Config.Optimizes;
    if n == 0 {
      NothingWritten();
    } else {
      EachScanOnce(c, n - 1);
      WrittenConcat(c.Events(n - 1), c.ScanEvents(n - 1));
      ScanWritten(c, n - 1);
      assert seq(n, k => k) == seq(n - 1, k => k) + [n - 1];
    }
  }

  lemma NothingWritten()
    ensures Written([]) == []
  {
  }

  lemma ScanWritten(c: Config, k: nat)
    requires k < |c.scans|
    ensures Written(c.ScanEvents(k)) == [k]
  {
    var o := if c.Optimizes(k) then [Gather(k)] else [];
    assert Written(o) == [] by { assert o != [] ==> o[..0] == []; }
    WrittenConcat(o + c.Headers(k), [Data(k)]);
    WrittenConcat(o, c.Headers(k));
    var f: seq<Event> := if k == 0 then [FrameHeader] else [];
    assert Written(f) == [] by { assert f != [] ==> f[..0] == []; }
    WrittenConcat(f, [ScanHeader(k)]);
    assert [ScanHeader(k)][..0] == [] && [Data(k)][..0] == [];
    assert Written([Data(k)]) == [k];
  }

  /** There is one frame header, and the event after it is the header of the first scan. */
  lemma {:induction false} OneFrameHeader(c: Config, n: nat)
    requires 1 <= n <= |c.scans|
    ensures var f := if c.Optimizes(0) then 1 else 0; var e := c.Events(n);
      f + 1 < |e| && e[f + 1] == ScanHeader(0) && forall i :: 0 <= i < |e| ==> (e[i] == FrameHeader <==> i == f)
  {
    hide Config.Optimizes;
    if n > 1 {
      OneFrameHeader(c, n - 1);
    } else {
      assert c.Events(0) == [];
      assert c.Events(1) == c.ScanEvents(0);
    }
  }

  class Master {
    const c: Config
    var pass_type: PassType
    var pass_number: nat
    var total_passes: nat
    var scan_number: nat
    var is_last_pass: bool
    var call_pass_startup: bool
    var gathering: bool  // what the entropy encoder was started for
    var log: seq<Event>

    /** Between passes. */
    ghost predicate Between()
      reads this
    {
      && 1 <= |c.scans| && scan_number <= |c.scans| && !call_pass_startup
      && total_passes == (if c.optimize_coding then 2 else 1) * |c.scans|
      && is_last_pass == (scan_number == |c.scans|)
      && if is_last_pass then log == c.Events(|c.scans|) else InOrder()
    }

    /** What is left is the rest of scan scan_number and the scans after it. */
    ghost predicate InOrder()
      requires scan_number < |c.scans|
      reads this
    {
      match pass_type
      case MainPass => !c.transcode_only && pass_number == scan_number == 0 && log == []
      case HuffOptPass =>
        && c.optimize_coding && pass_number == 2 * scan_number && log == c.Events(scan_number)
        && (scan_number > 0 || c.transcode_only)
      case OutputPass =>
        if c.optimize_coding then
          && pass_number == 2 * scan_number + 1 && !c.arith_code && c.Optimizes(scan_number)
          && log == c.Events(scan_number) + [Gather(scan_number)]
        else
          pass_number == scan_number && (scan_number > 0 || c.transcode_only) && log == c.Events(scan_number)
    }

    // During a pass: is_last_pass is true exactly while the last scan is output.
    ghost predicate During()
      reads this
    {
      && 1 <= |c.scans| && scan_number < |c.scans| && (c.arith_code ==> !c.optimize_coding)
      && total_passes == (if c.optimize_coding then 2 else 1) * |c.scans|
      && is_last_pass == (scan_number == |c.scans| - 1 && !gathering)
      && (gathering ==> c.Optimizes(scan_number) && pass_type != OutputPass && !call_pass_startup)
      && (pass_type == HuffOptPass ==> gathering)
      && (call_pass_startup ==> scan_number == 0 && pass_type == MainPass)
      && (pass_type == MainPass ==> scan_number == 0 && gathering == c.optimize_coding)
      && pass_number == (if !c.optimize_coding then scan_number else if gathering then 2 * scan_number else 2 * scan_number + 1)
      && log == c.Events(scan_number) + if gathering || call_pass_startup then []
                                        else (if c.Optimizes(scan_number) then [Gather(scan_number)] else []) + c.Headers(scan_number)
    }

    // jinit_c_master_control
    constructor (c: Config)
      requires |c.scans| >= 1
      ensures Between() && this.c == c && !is_last_pass && log == [] && pass_number == 0
    {
      this.c := c;
      // no main pass in transcoding
      pass_type := if !c.transcode_only then MainPass else if c.optimize_coding then HuffOptPass else OutputPass;
      scan_number, pass_number, is_last_pass, call_pass_startup, gathering, log := 0, 0, false, false, false, [];
      total_passes := if c.optimize_coding then |c.scans| * 2 else |c.scans|;
    }

    // Per-pass setup.  The arithmetic encoder refuses to gather statistics.
    method PrepareForPass() returns (ok: bool)
      requires Between() && !is_last_pass
      modifies this
      ensures ok ==> During() && pass_number >= old(pass_number) && total_passes == old(total_passes)
      ensures ok <==> !(c.arith_code && c.optimize_coding)
    {
      ok := true;
      match pass_type {
        case MainPass =>
          gathering := c.optimize_coding;
          if gathering && c.arith_code { return false; }
          call_pass_startup := !c.optimize_coding;
        case HuffOptPass =>
          var s := c.scans[scan_number];
          if s.ss != 0 || s.ah == 0 || c.arith_code {
            gathering := true;
            if c.arith_code { return false; }
            call_pass_startup := false;
          } else {
            // Huffman DC refinement scans need no Huffman table
            pass_type := OutputPass;
            pass_number := pass_number + 1;
            StartOutput();
          }
        case OutputPass =>
          StartOutput();
      }
      is_last_pass := pass_number == total_passes - 1;
    }

    // case output_pass: do a data-output pass, with the frame/scan headers now
    method StartOutput()
      modifies `gathering, `call_pass_startup, `log
      ensures !gathering && !call_pass_startup && log == old(log) + c.Headers(scan_number)
    {
      gathering := false;
      if scan_number == 0 {
        log := log + [FrameHeader];
      }
      log := log + [ScanHeader(scan_number)];
      call_pass_startup := false;
    }

    // Special start-of-pass hook: in single-pass processing the headers are written by the first call for data.
    method PassStartup()
      requires During() && call_pass_startup
      modifies `call_pass_startup, `log
      ensures During() && !call_pass_startup
    {
      call_pass_startup := false;  // reset flag so call only once
      log := log + [FrameHeader];
      log := log + [ScanHeader(scan_number)];
    }

    // The image through the entropy encoder, and finish_pass_master.
    method RunPass()
      requires During()
      modifies this
      ensures Between() && pass_number == old(pass_number) + 1 && total_passes == old(total_passes)
    {
      if call_pass_startup {
        PassStartup();
      }
      log := log + [if gathering then Gather(scan_number) else Data(scan_number)];
      if !gathering { ScanDone(c, scan_number, log); }
      hide Config.Optimizes, Config.ScanEvents, Config.Headers;
      FinishPassMaster();
    }

    // Update state for next pass
    method FinishPassMaster()
      modifies `pass_type, `scan_number, `pass_number
      ensures pass_number == old(pass_number) + 1
      ensures pass_type == if old(pass_type) == OutputPass && c.optimize_coding then HuffOptPass else OutputPass
      ensures scan_number == if (old(pass_type) == MainPass && !c.optimize_coding) || old(pass_type) == OutputPass
                             then old(scan_number) + 1 else old(scan_number)
    {
      match pass_type {
        case MainPass =>
          // next pass is either output of scan 0 (after optimization) or output of scan 1 (if no optimization).
          pass_type := OutputPass;
          if !c.optimize_coding {
            scan_number := scan_number + 1;
          }
        case HuffOptPass =>
          // next pass is always output of current scan
          pass_type := OutputPass;
        case OutputPass =>
          // next pass is either optimization or output of next scan
          if c.optimize_coding {
            pass_type := HuffOptPass;
          }
          scan_number := scan_number + 1;
      }
      pass_number := pass_number + 1;
    }
  }

  lemma ScanDone(c: Config, k: nat, log: seq<Event>)
    requires k < |c.scans|
    requires log == c.Events(k) + (if c.Optimizes(k) then [Gather(k)] else []) + c.Headers(k) + [Data(k)]
    ensures log == c.Events(k + 1)
  {
  }

  datatype Outcome = InvalidScript | NotImplemented | Compressed(log: seq<Event>)

  /** A whole compression: for every valid script, with or without optimization, the passes end with every scan
      output once; only statistics for the arithmetic encoder are refused. */
  method Compress(ncomps: nat, scans: seq<ScanInfo>, optimize: bool, arith_code: bool, transcode_only: bool) returns (r: Outcome)
    ensures r == InvalidScript <==>
      !(scans != [] && if Progressive(scans) then ValidProgressive(ncomps, scans) else ValidSequential(ncomps, scans))
    ensures r != InvalidScript ==> (r == NotImplemented <==> arith_code && optimize)
    ensures r.Compressed? ==>
      var c := Config(scans, optimize || (Progressive(scans) && !arith_code), arith_code, transcode_only);
      r.log == c.Events(|scans|) + [Trailer]
  {
    hide ValidProgressive, ValidSequential, Progressive;
    var ok, progressive_mode := ValidateScript(ncomps, scans);
    if !ok {
      return InvalidScript;
    }
    // the default tables are no good for progressive mode
    r := RunPasses(Config(scans, optimize || (progressive_mode && !arith_code), arith_code, transcode_only));
  }

  // jpeg_start_compress, jpeg_write_scanlines and jpeg_finish_compress
  method RunPasses(c: Config) returns (r: Outcome)
    requires c.scans != []
    ensures r == if c.arith_code && c.optimize_coding then NotImplemented else Compressed(c.Events(|c.scans|) + [Trailer])
  {
    var m := new Master(c);
    var ok;
    if !c.transcode_only {
      ok := m.PrepareForPass();
      if !ok {
        return NotImplemented;
      }
      m.RunPass();
    }
    // Perform any remaining passes
    while !m.is_last_pass
      invariant fresh(m) && m.c == c && m.Between()
      invariant c.arith_code && c.optimize_coding ==> !m.is_last_pass
      decreases m.total_passes - m.pass_number
    {
      ok := m.PrepareForPass();
      if !ok {
        return NotImplemented;
      }
      m.RunPass();
    }
    // Write EOI
    r := Compressed(m.log + [Trailer]);
  }
}
