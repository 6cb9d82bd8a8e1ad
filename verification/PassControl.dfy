/** Master control of compression: the passes over the image, and what each of them does. */
module PassControl {
  import opened ScanScript

  datatype PassType = MainPass | HuffOptPass | OutputPass

  /** How the coefficient controller is used in a pass. */
  datatype BufferMode = PassThru | SaveAndPass | CrankDest

  /** What happens over the passes: symbols of a scan are counted, headers and data are written. */
  datatype Event =
    | Gather(scan: nat, mode: BufferMode)
    | FrameHeader
    | ScanHeader(scan: nat)
    | Output(scan: nat, mode: BufferMode)

  /** The settings of one compression; without a script of several scans, scans has one entry. */
  datatype Job = Job(scans: seq<Scan>, optimize: bool, arith: bool, transcode: bool) {
    /** Optimization is for Huffman coding only, and the first scan is not a refinement. */
    predicate Ok() { |scans| > 0 && !(optimize && arith) && scans[0].ah == 0 }

    /** Are the symbols of scan k counted? DC refinement scans have none. */
    predicate Counted(k: nat)
      requires k < |scans|
    {
      optimize && (scans[k].ss != 0 || scans[k].ah == 0)
    }

    function TotalPasses(): nat { if optimize then |scans| * 2 else |scans| }
  }

  /** An accepted script does not start with a refinement scan. */
  lemma ScriptStarts(script: seq<Scan>, n: nat)
    requires Accepted(script, n)
    ensures script[0].ah == 0
  {
    var s := script[0];
    assert ScanOk(Unsent(n), s, n);
    assert ComponentOk(Unsent(n)[s.comps[0]], s);
    assert StepOk(Unsent(n)[s.comps[0]][s.ss], s);
  }

  // ----- What should happen -----

  /** The first pass reads the image itself, and saves it if it is needed again. */
  function ModeOf(j: Job, pass: nat): BufferMode {
    if pass > 0 || j.transcode then CrankDest else if j.TotalPasses() > 1 then SaveAndPass else PassThru
  }

  /** Each scan is counted if necessary and then written; the frame header comes before the first. */
  function ScanEvents(j: Job, k: nat): seq<Event>
    requires k < |j.scans|
  {
    (if j.Counted(k) then [Gather(k, ModeOf(j, if k == 0 then 0 else 1))] else [])
      + (if k == 0 then [FrameHeader] else [])
      + [ScanHeader(k), Output(k, ModeOf(j, if k == 0 && !j.optimize then 0 else 1))]
  }

  function AllEvents(j: Job, n: nat): seq<Event>
    requires n <= |j.scans|
  {
    if n == 0 then [] else AllEvents(j, n - 1) + ScanEvents(j, n - 1)
  }

  // ----- What that means for the scans -----

  predicate IsPass(e: Event) { e.Gather? || e.Output? }

  /** A Huffman-coded scan writes symbols, and needs tables for them, unless it refines DC coefficients:
      then it writes single bits only. */
  predicate HasSymbols(s: Scan) { !(s.ss == 0 && s.ah != 0) }

  /** The scans that are written, in order. */
  function Written(log: seq<Event>): seq<nat> {
    if log == [] then []
    else
      var e := log[|log| - 1];
      Written(log[..|log| - 1]) + if e.Output? then [e.scan] else []
  }

  /** The output pass of a scan for whose symbols tables must be built. */
  predicate NeedsTables(j: Job, e: Event) {
    e.Output? && e.scan < |j.scans| && j.optimize && HasSymbols(j.scans[e.scan])
  }

  /** With optimization, a scan with symbols is written only after its symbols were counted. */
  ghost predicate CountedBefore(j: Job, log: seq<Event>) {
    forall i :: 0 <= i < |log| && NeedsTables(j, log[i]) ==>
      exists h :: 0 <= h < i && log[h].Gather? && log[h].scan == log[i].scan
  }

  /** Nothing else is counted, and never anything twice. */
  ghost predicate NothingElse(j: Job, log: seq<Event>) {
    && (forall i :: 0 <= i < |log| && log[i].Gather? ==>
          log[i].scan < |j.scans| && j.optimize && HasSymbols(j.scans[log[i].scan]))
    && (forall h, i :: 0 <= h < i < |log| && log[h].Gather? && log[i].Gather? ==> log[h].scan < log[i].scan)
  }

  /** The frame header comes once, before all scan headers, and each scan right after its own header. */
  ghost predicate Headers(log: seq<Event>) {
    && (forall h, i :: 0 <= h < |log| && 0 <= i < |log| && log[h].FrameHeader? && log[i].FrameHeader? ==> h == i)
    && (forall i :: 0 <= i < |log| && log[i].ScanHeader? ==> exists h :: 0 <= h < i && log[h].FrameHeader?)
    && (forall i :: 0 <= i < |log| && log[i].Output? ==> i > 0 && log[i - 1] == ScanHeader(log[i].scan))
  }

  /** The first pass, and no other, reads the image, unless coefficients are transcoded. */
  ghost predicate FirstReads(j: Job, log: seq<Event>) {
    forall i :: 0 <= i < |log| && IsPass(log[i]) ==>
      (log[i].mode != CrankDest <==> !j.transcode && forall h :: 0 <= h < i ==> !IsPass(log[h]))
  }

  /** What it reads is saved exactly if there is another pass. */
  ghost predicate SavedIfNeeded(log: seq<Event>) {
    forall i :: 0 <= i < |log| && IsPass(log[i]) ==>
      && (log[i].mode == PassThru ==> forall h :: 0 <= h < |log| && IsPass(log[h]) ==> h == i)
      && (log[i].mode == SaveAndPass ==> exists h :: 0 <= h < |log| && IsPass(log[h]) && h != i)
  }

  ghost predicate Right(j: Job, log: seq<Event>) {
    && Written(log) == seq(|j.scans|, k => k)
    && CountedBefore(j, log) && NothingElse(j, log) && Headers(log) && FirstReads(j, log) && SavedIfNeeded(log)
  }

  /** The same up to scan n. */
  ghost predicate RightTo(j: Job, log: seq<Event>, n: nat) {
    && n <= |j.scans| && Written(log) == seq(n, k => k)
    && CountedBefore(j, log) && NothingElse(j, log) && Headers(log) && FirstReads(j, log)
    && (forall i :: 0 <= i < |log| && IsPass(log[i]) ==> log[i].scan < n)
    && (n > 0 ==> exists h :: 0 <= h < |log| && IsPass(log[h]))
    && (n > 0 ==> exists h :: 0 <= h < |log| && log[h].FrameHeader?)
    && (n == 0 ==> log == [])
  }

  lemma {:induction false} WrittenConcat(a: seq<Event>, b: seq<Event>)
    ensures Written(a + b) == Written(a) + Written(b)
    decreases |b|
  {
    if b == [] {
      assert a + b == a;
    } else {
      WrittenConcat(a, b[..|b| - 1]);
      assert (a + b)[..|a + b| - 1] == a + b[..|b| - 1];
    }
  }

  /** The events of scan n, with what comes before. */
  ghost predicate Extends(j: Job, log: seq<Event>, n: nat, more: seq<Event>) {
    && j.Ok() && n < |j.scans| && RightTo(j, log, n) && more == log + ScanEvents(j, n)
  }

  lemma MoreWritten(j: Job, log: seq<Event>, n: nat, more: seq<Event>)
    requires Extends(j, log, n, more)
    ensures Written(more) == seq(n + 1, k => k)
  {
    hide CountedBefore, NothingElse, Headers, FirstReads;
    var e := ScanEvents(j, n);
    WrittenConcat(log, e);
    assert Written(e) == [n] by {
      WrittenConcat(e[..|e| - 1], [e[|e| - 1]]);
      assert e == e[..|e| - 1] + [e[|e| - 1]];
      NoneWritten(e[..|e| - 1]);
      assert [e[|e| - 1]][..0] == [];
    }
  }

  lemma {:induction false} NoneWritten(e: seq<Event>)
    requires forall i :: 0 <= i < |e| ==> !e[i].Output?
    ensures Written(e) == []
  {
    if e != [] { NoneWritten(e[..|e| - 1]); }
  }

  lemma MoreCounted(j: Job, log: seq<Event>, n: nat, more: seq<Event>)
    requires Extends(j, log, n, more)
    ensures CountedBefore(j, more) && NothingElse(j, more)
  {
    hide Headers, FirstReads, Written, ModeOf;
    forall i | 0 <= i < |more| && NeedsTables(j, more[i])
      ensures exists h :: 0 <= h < i && more[h].Gather? && more[h].scan == more[i].scan
    {
      if i < |log| {
        var h :| 0 <= h < i && log[h].Gather? && log[h].scan == log[i].scan;
        assert more[h] == log[h];
      } else {
        assert more[|log|].Gather? && more[|log|].scan == n;
      }
    }
  }

  lemma MoreHeaders(j: Job, log: seq<Event>, n: nat, more: seq<Event>)
    requires Extends(j, log, n, more)
    ensures Headers(more)
  {
    hide CountedBefore, NothingElse, FirstReads, Written, ModeOf;
    var c := if j.Counted(n) then 1 else 0;
    forall i | 0 <= i < |more| && more[i].ScanHeader? ensures exists h :: 0 <= h < i && more[h].FrameHeader? {
      if i < |log| {
        var h :| 0 <= h < i && log[h].FrameHeader?;
        assert more[h] == log[h];
      } else if n == 0 {
        assert more[c] == FrameHeader;
      } else {
        var h :| 0 <= h < |log| && log[h].FrameHeader?;
        assert more[h] == log[h];
      }
    }
    if n > 0 { NoSecondHeader(j, log, n, more); }
  }

  lemma NoSecondHeader(j: Job, log: seq<Event>, n: nat, more: seq<Event>)
    requires Extends(j, log, n, more) && n > 0
    ensures forall i :: |log| <= i < |more| ==> !more[i].FrameHeader?
  {
    hide CountedBefore, NothingElse, FirstReads, Written, ModeOf, Headers;
  }

  lemma MoreReads(j: Job, log: seq<Event>, n: nat, more: seq<Event>)
    requires Extends(j, log, n, more)
    ensures FirstReads(j, more)
  {
    hide CountedBefore, NothingElse, Headers, Written;
    forall i | 0 <= i < |more| && IsPass(more[i])
      ensures more[i].mode != CrankDest <==> !j.transcode && forall h :: 0 <= h < i ==> !IsPass(more[h])
    {
      if i < |log| {
        assert forall h :: 0 <= h < i ==> more[h] == log[h];
      } else if n > 0 {
        var h :| 0 <= h < |log| && IsPass(log[h]);
        assert IsPass(more[h]);
      } else if j.Counted(0) {
        assert IsPass(more[0]);
      }
    }
  }

  lemma MoreEvents(j: Job, log: seq<Event>, n: nat, more: seq<Event>)
    requires Extends(j, log, n, more)
    ensures forall i :: 0 <= i < |more| && IsPass(more[i]) ==> more[i].scan < n + 1
    ensures exists h :: 0 <= h < |more| && IsPass(more[h])
    ensures exists h :: 0 <= h < |more| && more[h].FrameHeader?
  {
    hide CountedBefore, NothingElse, Headers, FirstReads, Written, ModeOf;
    assert IsPass(more[|more| - 1]);
    if n == 0 {
      assert more[if j.Counted(n) then 1 else 0].FrameHeader?;
    } else {
      var h :| 0 <= h < |log| && log[h].FrameHeader?;
      assert more[h].FrameHeader?;
    }
  }

  lemma MoreRight(j: Job, log: seq<Event>, n: nat, more: seq<Event>)
    requires Extends(j, log, n, more)
    ensures RightTo(j, more, n + 1)
  {
    hide CountedBefore, NothingElse, Headers, FirstReads, Written, ScanEvents, IsPass;
    MoreWritten(j, log, n, more);
    MoreCounted(j, log, n, more);
    MoreHeaders(j, log, n, more);
    MoreReads(j, log, n, more);
    MoreEvents(j, log, n, more);
  }

  lemma {:induction false} EventsRight(j: Job, n: nat)
    requires j.Ok() && n <= |j.scans|
    ensures RightTo(j, AllEvents(j, n), n)
  {
    hide ScanEvents, RightTo;
    if n == 0 {
      NothingYet(j);
    } else {
      EventsRight(j, n - 1);
      MoreRight(j, AllEvents(j, n - 1), n - 1, AllEvents(j, n));
    }
  }

  lemma NothingYet(j: Job)
    ensures RightTo(j, [], 0)
  {
  }

  lemma {:induction false} EventsPrefix(j: Job, m: nat, n: nat)
    requires m <= n <= |j.scans|
    ensures AllEvents(j, m) <= AllEvents(j, n)
    decreases n
  {
    hide ScanEvents;
    if m < n { EventsPrefix(j, m, n - 1); }
  }

  /** What the first pass reads is saved exactly if it is needed again. */
  lemma EventsSaved(j: Job)
    requires j.Ok()
    ensures SavedIfNeeded(AllEvents(j, |j.scans|))
  {
    if j.TotalPasses() > 1 {
      TwoPasses(j);
      hide AllEvents;
      BothPasses(AllEvents(j, |j.scans|));
    } else {
      OnePass(j);
    }
  }

  lemma BothPasses(log: seq<Event>)
    requires exists h, i :: 0 <= h < i < |log| && IsPass(log[h]) && IsPass(log[i])
    requires forall i :: 0 <= i < |log| && IsPass(log[i]) ==> log[i].mode != PassThru
    ensures SavedIfNeeded(log)
  {
    var h, i :| 0 <= h < i < |log| && IsPass(log[h]) && IsPass(log[i]);
    forall k | 0 <= k < |log| && IsPass(log[k]) ensures exists x :: 0 <= x < |log| && IsPass(log[x]) && x != k {
      assert h != k || i != k;
    }
  }

  lemma OnePass(j: Job)
    requires j.Ok() && j.TotalPasses() <= 1
    ensures SavedIfNeeded(AllEvents(j, |j.scans|))
  {
    assert AllEvents(j, 1) == ScanEvents(j, 0) == [FrameHeader, ScanHeader(0), Output(0, ModeOf(j, 0))];
  }

  /** At least two passes, and none of them only passes the image through. */
  lemma TwoPasses(j: Job)
    requires j.Ok() && j.TotalPasses() > 1
    ensures var log := AllEvents(j, |j.scans|);
      && (exists h, i :: 0 <= h < i < |log| && IsPass(log[h]) && IsPass(log[i]))
      && (forall i :: 0 <= i < |log| && IsPass(log[i]) ==> log[i].mode != PassThru)
  {
    var n := |j.scans|;
    var log := AllEvents(j, n);
    NoPassThru(j, n);
    assert AllEvents(j, 1) == ScanEvents(j, 0);
    EventsPrefix(j, 1, n);
    if j.optimize {
      assert IsPass(log[0]) && IsPass(log[3]);
    } else {
      assert AllEvents(j, 2) == ScanEvents(j, 0) + ScanEvents(j, 1);
      EventsPrefix(j, 2, n);
      assert IsPass(log[2]) && IsPass(log[4]);
    }
  }

  lemma {:induction false} NoPassThru(j: Job, n: nat)
    requires j.Ok() && j.TotalPasses() > 1 && n <= |j.scans|
    ensures forall i :: 0 <= i < |AllEvents(j, n)| && IsPass(AllEvents(j, n)[i]) ==> AllEvents(j, n)[i].mode != PassThru
  {
    if n > 0 { NoPassThru(j, n - 1); }
  }

  /** Main result about the order of passes: what should happen is right for every scan. */
  lemma AllRight(j: Job)
    requires j.Ok()
    ensures Right(j, AllEvents(j, |j.scans|))
  {
    hide AllEvents, CountedBefore, NothingElse, Headers, FirstReads, SavedIfNeeded, Written;
    EventsRight(j, |j.scans|);
    EventsSaved(j);
  }

  class Master {
    const j: Job
    var passType: PassType
    var passNumber: nat
    var totalPasses: nat
    var scanNumber: nat
    var callPassStartup: bool
    var isLastPass: bool
    /** The scan whose parameters are set up. */
    var selected: nat
    /** The buffer mode of the pass under way. */
    var mode: BufferMode

    ghost var log: seq<Event>

    /** What has happened when the counting pass of a scan, if it has one, is over. */
    ghost function Begun(k: nat): seq<Event>
      requires k < |j.scans|
    {
      AllEvents(j, k) + if j.Counted(k) then [Gather(k, ModeOf(j, if k == 0 then 0 else 1))] else []
    }

    /** Between passes. */
    ghost predicate Between()
      reads this
    {
      && j.Ok() && totalPasses == j.TotalPasses() && scanNumber <= |j.scans| && !callPassStartup
      && (isLastPass <==> scanNumber == |j.scans|)
      && match passType
         case MainPass => passNumber == 0 && scanNumber == 0 && !j.transcode && log == []
         case HuffOptPass =>
           && j.optimize && passNumber == 2 * scanNumber && (scanNumber == 0 ==> j.transcode)
           && log == AllEvents(j, scanNumber)
         case OutputPass => BeforeOutput()
    }

    /** The next pass writes a scan, counted before if its symbols are to be counted. */
    ghost predicate BeforeOutput()
      requires scanNumber <= |j.scans|
      reads this
    {
      if j.optimize then
        && scanNumber < |j.scans| && passNumber == 2 * scanNumber + 1 && selected == scanNumber
        && log == Begun(scanNumber)
      else passNumber == scanNumber && (scanNumber == 0 ==> j.transcode) && log == AllEvents(j, scanNumber)
    }

    /** A pass is set up: what it does to its scan is still to come. */
    ghost predicate Prepared()
      reads this
    {
      && j.Ok() && totalPasses == j.TotalPasses() && scanNumber < |j.scans| && selected == scanNumber
      && passNumber < totalPasses && (isLastPass <==> passNumber == totalPasses - 1)
      && mode == ModeOf(j, passNumber) && (callPassStartup ==> passType == MainPass && !j.optimize)
      && match passType
         case MainPass => passNumber == 0 && scanNumber == 0 && !j.transcode
           && log == if j.optimize || callPassStartup then [] else [FrameHeader, ScanHeader(0)]
         case HuffOptPass => j.optimize && passNumber == 2 * scanNumber && (scanNumber == 0 ==> j.transcode)
           && j.Counted(scanNumber) && log == AllEvents(j, scanNumber)
         case OutputPass =>
           && (if j.optimize then passNumber == 2 * scanNumber + 1
               else passNumber == scanNumber && (scanNumber == 0 ==> j.transcode))
           && log == Begun(scanNumber) + (if scanNumber == 0 then [FrameHeader] else []) + [ScanHeader(scanNumber)]
    }

    constructor (job: Job)
      requires job.Ok()
      ensures Between() && j == job && !isLastPass && scanNumber == 0 && passNumber == 0
      ensures passType == MainPass <==> !job.transcode
    {
      j := job;
      passType := if !job.transcode then MainPass else if job.optimize then HuffOptPass else OutputPass;
      scanNumber, passNumber := 0, 0;
      totalPasses := if job.optimize then |job.scans| * 2 else |job.scans|;
      isLastPass, callPassStartup, selected, mode := false, false, 0, CrankDest;
      log := [];
    }

    method PrepareForPass()
      requires Between() && !isLastPass
      modifies this
      ensures Prepared() && passNumber >= old(passNumber)
    {
      match passType {
        case MainPass =>
          selected := scanNumber;
          mode := if totalPasses > 1 then SaveAndPass else PassThru;
          callPassStartup := !j.optimize;
        case HuffOptPass =>
          selected := scanNumber;
          var s := j.scans[scanNumber];
          if s.ss != 0 || s.ah == 0 || j.arith {
            mode := CrankDest;
            callPassStartup := false;
          } else {
            // nothing to count in a DC refinement scan
            passType := OutputPass;
            passNumber := passNumber + 1;
            StartOutput();
          }
        case OutputPass =>
          if !j.optimize {
            selected := scanNumber;
          }
          StartOutput();
      }
      isLastPass := passNumber == totalPasses - 1;
    }

    /** Sets up an output pass and writes its headers. */
    method StartOutput()
      modifies this`mode, this`callPassStartup, this`log
      ensures mode == CrankDest && !callPassStartup
      ensures log == old(log) + (if scanNumber == 0 then [FrameHeader] else []) + [ScanHeader(scanNumber)]
    {
      mode := CrankDest;
      if scanNumber == 0 {
        log := log + [FrameHeader];
      }
      log := log + [ScanHeader(scanNumber)];
      callPassStartup := false;
    }

    /** Writes the headers in a first pass that writes data, once the application hands over rows. */
    method PassStartup()
      requires Prepared() && callPassStartup
      modifies this`callPassStartup, this`log
      ensures Prepared() && !callPassStartup
    {
      callPassStartup := false;
      log := log + [FrameHeader, ScanHeader(selected)];
    }

    /** All rows go through the coefficient controller and the entropy coder, which counts or writes. */
    method RunPass()
      requires Prepared() && !callPassStartup
      modifies this`log
      ensures passType == OutputPass || (passType == MainPass && !j.optimize) ==> log == AllEvents(j, scanNumber + 1)
      ensures !(passType == OutputPass || (passType == MainPass && !j.optimize)) ==> log == Begun(scanNumber)
    {
      ghost var k := scanNumber;
      assert AllEvents(j, k + 1) == AllEvents(j, k) + ScanEvents(j, k);
      if passType == HuffOptPass || (passType == MainPass && j.optimize) {
        log := log + [Gather(selected, mode)];
      } else {
        log := log + [Output(selected, mode)];
        assert log == AllEvents(j, k) + ScanEvents(j, k);
      }
    }

    method FinishPass()
      requires j.Ok() && totalPasses == j.TotalPasses() && scanNumber < |j.scans| && selected == scanNumber
      requires !callPassStartup
      requires passNumber < totalPasses && (isLastPass <==> passNumber == totalPasses - 1)
      requires match passType
        case MainPass => passNumber == 0 && scanNumber == 0
        case HuffOptPass => j.optimize && passNumber == 2 * scanNumber && j.Counted(scanNumber)
        case OutputPass => if j.optimize then passNumber == 2 * scanNumber + 1 else passNumber == scanNumber
      requires log == if passType == OutputPass ||
        (passType == MainPass && !j.optimize) then AllEvents(j, scanNumber + 1) else Begun(scanNumber)
      modifies this`passType, this`scanNumber, this`passNumber
      ensures Between() && passNumber == old(passNumber) + 1 && (isLastPass ==> passNumber == totalPasses)
    {
      match passType {
        case MainPass =>
          passType := OutputPass;
          if !j.optimize {
            scanNumber := scanNumber + 1;
          }
        case HuffOptPass =>
          passType := OutputPass;
        case OutputPass =>
          if j.optimize {
            passType := HuffOptPass;
          }
          scanNumber := scanNumber + 1;
      }
      passNumber := passNumber + 1;
    }

    /** A pass after the first one, or of a transcoder. */
    method LaterPass()
      requires Between() && !isLastPass && passType != MainPass
      modifies this
      ensures Between() && passType != MainPass && passNumber > old(passNumber)
      ensures isLastPass ==> passNumber == totalPasses
    {
      PrepareForPass();
      RunPass();
      FinishPass();
    }

    /** A whole compression: the first pass over the image, unless coefficients are transcoded, and
        then passes until the last. Every scan is written exactly once and in order, right after its
        counting pass where it has one; the frame header is written once, before the first scan; and
        the passes are used up exactly. */
    method Compress()
      requires Between() && !isLastPass && passNumber == 0 && scanNumber == 0
      requires (passType == MainPass <==> !j.transcode)
      modifies this
      ensures log == AllEvents(j, |j.scans|) && passNumber == totalPasses == j.TotalPasses() && isLastPass
      ensures Right(j, log)
    {
      hide Right;
      if passType == MainPass {
        PrepareForPass();
        if callPassStartup {
          PassStartup();
        }
        RunPass();
        FinishPass();
      }
      while !isLastPass
        invariant Between() && passType != MainPass && (isLastPass ==> passNumber == totalPasses)
        decreases totalPasses - passNumber
      {
        LaterPass();
      }
      AllRight(j);
    }
  }
}
