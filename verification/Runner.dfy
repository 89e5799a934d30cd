/** Supervision of an untrusted training process. */
module Runner {
  import opened Prelude
  import opened Ordering
  import opened ByteStrings
  import opened ProgressEvents

  datatype ErrorCode =
    | InvalidEvent | EventLimit | LogLimit | CheckpointLimit | CheckpointFailed | ProcessFailed
    | CancellationIgnored | TimedOut

  datatype RunnerContract = RunnerContract(
    maxSteps: int, checkpointIntervalSteps: int, maxRuntimeMs: int, maxLogBytes: int,
    maxCheckpointBytes: int, maxEvents: int, cancellationGraceFrames: int)

  /** One frame from the process transport. */
  datatype Frame = Event(payload: Bytes) | Log(payload: Bytes) | Checkpoint(payload: Bytes, step: int)

  /** What the checkpoint store does with one commit: return a text, raise, or raise a runner failure. */
  datatype SinkResult = Stored(text: string) | Raised | Rejected(code: ErrorCode)

  datatype CheckpointRecord = CheckpointRecord(step: int, digest: string, size: int)

  datatype RunnerStatus = StatusCompleted | StatusCancelled

  datatype TrainingOutcome = TrainingOutcome(
    status: RunnerStatus, resultDigest: Option<string>, checkpoints: seq<CheckpointRecord>,
    eventCount: int, logBytes: int, logDigest: string, exitCode: int, terminalError: Option<ErrorCode>)

  /**
   Everything the supervisor observes: the frames the process delivers before its stream ends, its
   exit code, the clock (reading 0 at the start, reading i + 1 in iteration i), the cancellation token
   in each iteration, and the store's answer to a commit of each frame.
   */
  datatype World = World(
    frames: seq<Frame>, exitCode: Option<int>, clock: nat -> int, cancelled: nat -> bool,
    sink: nat -> SinkResult, decode: Bytes -> Option<ProgressEvent>, h: Sha256)

  predicate ValidContract(c: RunnerContract) {
    && 1 <= c.checkpointIntervalSteps <= c.maxSteps <= MAX_INT63
    && 1000 <= c.maxRuntimeMs <= 86400000 && 0 <= c.maxLogBytes <= 67108864
    && 1 <= c.maxCheckpointBytes <= 1099511627776 && 2 <= c.maxEvents <= 1000000
    && 1 <= c.cancellationGraceFrames <= 1000
  }

  // ---------- what the frames so far add up to ----------

  function EventCount(fs: seq<Frame>): (n: nat)
    ensures n <= |fs|
  {
    if fs == [] then 0 else EventCount(fs[..|fs| - 1]) + if fs[|fs| - 1].Event? then 1 else 0
  }

  function LogBytes(fs: seq<Frame>): nat {
    if fs == [] then 0
    else LogBytes(fs[..|fs| - 1]) + if fs[|fs| - 1].Log? then |fs[|fs| - 1].payload| else 0
  }

  function LogText(fs: seq<Frame>): Bytes {
    if fs == [] then "" else LogText(fs[..|fs| - 1]) + if fs[|fs| - 1].Log? then fs[|fs| - 1].payload else ""
  }

  /** The step of the latest event. */
  function LastStep(w: World, fs: seq<Frame>): int {
    if fs == [] then 0
    else
      var f := fs[|fs| - 1];
      if f.Event? && w.decode(f.payload).Some? then w.decode(f.payload).value.step
      else LastStep(w, fs[..|fs| - 1])
  }

  function Record(w: World, i: nat, f: Frame): CheckpointRecord
    requires f.Checkpoint?
  {
    CheckpointRecord(f.step, if w.sink(i).Stored? then w.sink(i).text else "", |f.payload|)
  }

  /** The checkpoint dictionary. */
  function Records(w: World, fs: seq<Frame>): map<int, CheckpointRecord> {
    if fs == [] then map[]
    else
      var n := |fs| - 1;
      if fs[n].Checkpoint? then Records(w, fs[..n])[fs[n].step := Record(w, n, fs[n])] else Records(w, fs[..n])
  }

  /** The keys of the dictionary in insertion order. */
  function Steps(fs: seq<Frame>): seq<int> {
    if fs == [] then []
    else Steps(fs[..|fs| - 1]) + if fs[|fs| - 1].Checkpoint? then [fs[|fs| - 1].step] else []
  }

  // ---------- one frame ----------

  predicate OnCadence(c: RunnerContract, step: int)
    requires c.checkpointIntervalSteps >= 1
  {
    step <= c.maxSteps && (step % c.checkpointIntervalSteps == 0 || step == c.maxSteps)
  }

  /** `_checkpoint` */
  function CheckpointProblem(c: RunnerContract, w: World, i: nat, f: Frame): Option<ErrorCode>
    requires ValidContract(c) && f.Checkpoint?
  {
    if |f.payload| > c.maxCheckpointBytes || !OnCadence(c, f.step) then Some(CheckpointLimit)
    else match w.sink(i)
      case Rejected(code) => Some(code)
      case Raised => Some(CheckpointFailed)
      case Stored(text) => if IsDigest(text) then None else Some(CheckpointFailed)
  }

  function EventProblem(c: RunnerContract, w: World, before: seq<Frame>, payload: Bytes): Option<ErrorCode> {
    if EventCount(before) + 1 > c.maxEvents then Some(EventLimit)
    else if w.decode(payload).None? then Some(InvalidEvent)
    else
      var e := w.decode(payload).value;
      if e.sequence != EventCount(before) || (EventCount(before) == 0 <==> !e.kind.Started?)
         || e.step < LastStep(w, before) || e.step > c.maxSteps || e.elapsedMs > c.maxRuntimeMs
         || (e.kind.Checkpointed?
             && !(e.step in Records(w, before) && e.outputDigest == Some(Records(w, before)[e.step].digest)))
      then Some(InvalidEvent)
      else None
  }

  /** The reason to refuse a frame after the frames before it. */
  function FrameProblem(c: RunnerContract, w: World, before: seq<Frame>, f: Frame): Option<ErrorCode>
    requires ValidContract(c)
  {
    match f
    case Log(payload) => if LogBytes(before) + |payload| > c.maxLogBytes then Some(LogLimit) else None
    case Checkpoint(payload, step) =>
      if EventCount(before) == 0 then Some(InvalidEvent)
      else if CheckpointProblem(c, w, |before|, f).Some? then CheckpointProblem(c, w, |before|, f)
      else if step in Records(w, before) then Some(InvalidEvent)
      else None
    case Event(payload) => EventProblem(c, w, before, payload)
  }

  predicate IsTerminal(e: ProgressEvent) {
    e.kind.Completed? || e.kind.Failed? || e.kind.Cancelled?
  }

  function TerminalOf(w: World, f: Frame): Option<ProgressEvent> {
    if f.Event? && w.decode(f.payload).Some? && IsTerminal(w.decode(f.payload).value) then w.decode(f.payload) else None
  }

  // ---------- cancellation ----------

  predicate OverTime(c: RunnerContract, w: World, i: nat) {
    w.clock(i + 1) - w.clock(0) >= c.maxRuntimeMs
  }

  /** The first of `n` iterations in which cancellation is requested. */
  function FirstTrigger(c: RunnerContract, w: World, n: nat): (k: Option<nat>)
    ensures k.Some? ==> k.value < n
  {
    if n == 0 then None
    else if FirstTrigger(c, w, n - 1).Some? then FirstTrigger(c, w, n - 1)
    else if OverTime(c, w, n - 1) || w.cancelled(n - 1) then Some(n - 1)
    else None
  }

  predicate TimedOutBy(c: RunnerContract, w: World, n: nat) {
    FirstTrigger(c, w, n).Some? && OverTime(c, w, FirstTrigger(c, w, n).value)
  }

  /** The number of frames received since the request, counting the one of iteration `i`. */
  function GraceUsed(c: RunnerContract, w: World, i: nat): (n: nat) {
    if FirstTrigger(c, w, i + 1).Some? then i - FirstTrigger(c, w, i + 1).value + 1 else 0
  }

  // ---------- the loop ----------

  /** How the loop ends, and in which iteration. */
  datatype Ending =
    | Closed(at: nat)
    | Overrun(at: nat)
    | Refused(at: nat, code: ErrorCode)
    | Finished(at: nat, event: ProgressEvent)

  /** The ending of a loop that has survived its first `i` iterations. */
  function LoopEnd(c: RunnerContract, w: World, i: nat): (e: Ending)
    requires ValidContract(c) && i <= |w.frames|
    ensures i <= e.at <= |w.frames| && (e.at == |w.frames| <==> e.Closed?)
    decreases |w.frames| - i
  {
    if i == |w.frames| then Closed(i)
    else if GraceUsed(c, w, i) > c.cancellationGraceFrames then Overrun(i)
    else
      var problem := FrameProblem(c, w, w.frames[..i], w.frames[i]);
      if problem.Some? then Refused(i, problem.value)
      else if TerminalOf(w, w.frames[i]).Some? then Finished(i, TerminalOf(w, w.frames[i]).value)
      else LoopEnd(c, w, i + 1)
  }

  function LateError(c: RunnerContract, w: World, n: nat, otherwise: ErrorCode): ErrorCode {
    if TimedOutBy(c, w, n) then TimedOut else otherwise
  }

  /** The checkpoint records in the order of their steps. */
  function Ordered(records: map<int, CheckpointRecord>, steps: seq<int>): (r: seq<CheckpointRecord>)
    requires forall s :: s in steps ==> s in records
    ensures |r| == |steps|
  {
    var sorted := Sort<int>(IntLe, steps);
    SortedStepsAreKeys(records, steps);
    seq(|sorted|, i requires 0 <= i < |sorted| => records[sorted[i]])
  }

  lemma SortedStepsAreKeys(records: map<int, CheckpointRecord>, steps: seq<int>)
    requires forall s :: s in steps ==> s in records
    ensures |Sort<int>(IntLe, steps)| == |steps|
    ensures forall i :: 0 <= i < |steps| ==> Sort<int>(IntLe, steps)[i] in records
  {
    SortMultiset<int>(IntLe, steps);
    SameElements<int>(Sort<int>(IntLe, steps), steps);
    forall i | 0 <= i < |steps| ensures Sort<int>(IntLe, steps)[i] in records {
      var step := Sort<int>(IntLe, steps)[i];
      assert step in Sort<int>(IntLe, steps);
      assert step in steps;
    }
  }

  lemma {:induction false} StepsAreKeys(w: World, fs: seq<Frame>)
    ensures forall s :: s in Steps(fs) <==> s in Records(w, fs)
  {
    if fs != [] {
      StepsAreKeys(w, fs[..|fs| - 1]);
    }
  }

  function OutcomeOf(c: RunnerContract, w: World, e: Ending, status: RunnerStatus): TrainingOutcome
    requires e.Finished? && e.at < |w.frames| && w.exitCode.Some?
  {
    var fs := w.frames[..e.at + 1];
    StepsAreKeys(w, fs);
    TrainingOutcome(
      status, if status.StatusCompleted? then e.event.outputDigest else None, Ordered(Records(w, fs), Steps(fs)),
      EventCount(fs), LogBytes(fs), DigestText(w.h(LogText(fs))), w.exitCode.value,
      if status.StatusCancelled? && TimedOutBy(c, w, e.at + 1) then Some(TimedOut) else None)
  }

  /** What `run` returns or raises once the loop has ended and the process has not been terminated. */
  function Concluded(c: RunnerContract, w: World, e: Ending): Result<TrainingOutcome, ErrorCode>
    requires e.Closed? || (e.Finished? && e.at < |w.frames|)
  {
    var n := e.at + 1;
    if w.exitCode.None? || e.Closed? then Err(LateError(c, w, n, ProcessFailed))
    else if TimedOutBy(c, w, n) && !e.event.kind.Cancelled? then Err(TimedOut)
    else if e.event.kind.Cancelled? && FirstTrigger(c, w, n).Some? then Ok(OutcomeOf(c, w, e, StatusCancelled))
    else if !e.event.kind.Completed? || w.exitCode.value != 0 then Err(ProcessFailed)
    else Ok(OutcomeOf(c, w, e, StatusCompleted))
  }

  /** What `run` returns or raises. */
  function Supervised(c: RunnerContract, w: World): Result<TrainingOutcome, ErrorCode>
    requires ValidContract(c)
  {
    var e := LoopEnd(c, w, 0);
    if e.Overrun? then Err(LateError(c, w, e.at + 1, CancellationIgnored))
    else if e.Refused? then Err(e.code)
    else Concluded(c, w, e)
  }

  // ---------- the process and the loop over its frames ----------

  /** The transport around the untrusted process, and the requests it has received. */
  class Process {
    const frames: seq<Frame>
    const exitCode: Option<int>
    var fetched: nat
    var checkpointRequested: bool
    var cancelRequested: bool
    var terminated: bool
    var waited: bool

    ghost predicate Valid()
      reads this
    {
      fetched <= |frames|
    }

    constructor (frames: seq<Frame>, exitCode: Option<int>)
      ensures this.frames == frames && this.exitCode == exitCode && fetched == 0 && Valid()
      ensures !checkpointRequested && !cancelRequested && !terminated && !waited
    {
      this.frames, this.exitCode, fetched := frames, exitCode, 0;
      checkpointRequested, cancelRequested, terminated, waited := false, false, false, false;
    }

    method NextFrame() returns (frame: Option<Frame>)
      requires Valid()
      modifies this`fetched
      ensures Valid()
      ensures frame == if old(fetched) < |frames| then Some(frames[old(fetched)]) else None
      ensures fetched == if old(fetched) < |frames| then old(fetched) + 1 else old(fetched)
    {
      if fetched == |frames| {
        return None;
      }
      frame := Some(frames[fetched]);
      fetched := fetched + 1;
    }

    method RequestCheckpoint()
      modifies this`checkpointRequested
      ensures checkpointRequested
    {
      checkpointRequested := true;
    }

    method RequestCancel()
      modifies this`cancelRequested
      ensures cancelRequested
    {
      cancelRequested := true;
    }

    method Terminate()
      modifies this`terminated
      ensures terminated
    {
      terminated := true;
    }

    method Wait() returns (code: Option<int>)
      modifies this`waited
      ensures waited && code == exitCode
    {
      waited := true;
      return exitCode;
    }
  }

  /** Which ending leaves the process terminated. */
  predicate LeavesTerminated(w: World, e: Ending) {
    e.Overrun? || e.Refused? || w.exitCode.None?
  }

  lemma ExtendFrames(fs: seq<Frame>, i: nat)
    requires i < |fs|
    ensures fs[..i + 1] != [] && fs[..i + 1][i] == fs[i] && fs[..i + 1][..i] == fs[..i]
  {
  }

  lemma TotalsStep(w: World, fs: seq<Frame>, i: nat)
    requires i < |fs|
    ensures var f, before, after := fs[i], fs[..i], fs[..i + 1];
            && EventCount(after) == EventCount(before) + (if f.Event? then 1 else 0)
            && LogBytes(after) == LogBytes(before) + (if f.Log? then |f.payload| else 0)
            && LogText(after) == LogText(before) + (if f.Log? then f.payload else "")
            && Steps(after) == Steps(before) + (if f.Checkpoint? then [f.step] else [])
            && Records(w, after) == (if f.Checkpoint? then Records(w, before)[f.step := Record(w, i, f)]
                                     else Records(w, before))
            && LastStep(w, after) == (if f.Event? && w.decode(f.payload).Some? then w.decode(f.payload).value.step
                                      else LastStep(w, before))
  {
    ExtendFrames(fs, i);
  }

  method CheckpointOf(c: RunnerContract, w: World, i: nat, f: Frame) returns (r: Result<CheckpointRecord, ErrorCode>)
    requires ValidContract(c) && f.Checkpoint?
    ensures r == if CheckpointProblem(c, w, i, f).Some? then Err(CheckpointProblem(c, w, i, f).value)
                 else Ok(Record(w, i, f))
  {
    if |f.payload| > c.maxCheckpointBytes || f.step > c.maxSteps
       || (f.step % c.checkpointIntervalSteps != 0 && f.step != c.maxSteps) {
      return Err(CheckpointLimit);
    }
    match w.sink(i)
    case Rejected(code) => r := Err(code);
    case Raised => r := Err(CheckpointFailed);
    case Stored(text) =>
      r := if IsDigest(text) then Ok(CheckpointRecord(f.step, text, |f.payload|)) else Err(CheckpointFailed);
  }

  /** The local variables of the loop that depend on the frames only. */
  datatype Books = Books(
    expectedSequence: int, lastStep: int, eventCount: int, logBytes: int, logText: Bytes,
    checkpoints: map<int, CheckpointRecord>, steps: seq<int>)

  function BooksOf(w: World, fs: seq<Frame>): Books {
    Books(EventCount(fs), LastStep(w, fs), EventCount(fs), LogBytes(fs), LogText(fs), Records(w, fs), Steps(fs))
  }

  method TakeEvent(c: RunnerContract, w: World, before: seq<Frame>, payload: Bytes, books: Books)
    returns (r: Result<Books, ErrorCode>, terminal: Option<ProgressEvent>)
    requires ValidContract(c) && books == BooksOf(w, before)
    ensures r.Err? <==> EventProblem(c, w, before, payload).Some?
    ensures r.Err? ==> EventProblem(c, w, before, payload) == Some(r.error)
    ensures r.Ok? ==> w.decode(payload).Some? && terminal == TerminalOf(w, Event(payload))
                      && r.value == books.(expectedSequence := books.expectedSequence + 1,
                                           eventCount := books.eventCount + 1, lastStep := w.decode(payload).value.step)
  {
    terminal := None;
    if books.eventCount + 1 > c.maxEvents {
      return Err(EventLimit), None;
    }
    var decoded := w.decode(payload);
    if decoded.None? {
      return Err(InvalidEvent), None;
    }
    var event := decoded.value;
    if event.sequence != books.expectedSequence {
      return Err(InvalidEvent), None;
    }
    if books.expectedSequence == 0 && !event.kind.Started? {
      return Err(InvalidEvent), None;
    }
    if books.expectedSequence > 0 && event.kind.Started? {
      return Err(InvalidEvent), None;
    }
    if event.step < books.lastStep || event.step > c.maxSteps {
      return Err(InvalidEvent), None;
    }
    if event.elapsedMs > c.maxRuntimeMs {
      return Err(InvalidEvent), None;
    }
    if event.kind.Checkpointed? {
      if event.step !in books.checkpoints || Some(books.checkpoints[event.step].digest) != event.outputDigest {
        return Err(InvalidEvent), None;
      }
    }
    if IsTerminal(event) {
      terminal := Some(event);
    }
    r := Ok(books.(expectedSequence := books.expectedSequence + 1, eventCount := books.eventCount + 1,
                   lastStep := event.step));
  }

  /** One frame: the reason to refuse it, or the variables after it and the event that ends the loop. */
  method TakeFrame(c: RunnerContract, w: World, i: nat, books: Books)
    returns (r: Result<Books, ErrorCode>, terminal: Option<ProgressEvent>)
    requires ValidContract(c) && i < |w.frames| && books == BooksOf(w, w.frames[..i])
    ensures r.Err? <==> FrameProblem(c, w, w.frames[..i], w.frames[i]).Some?
    ensures r.Err? ==> FrameProblem(c, w, w.frames[..i], w.frames[i]) == Some(r.error)
    ensures r.Ok? ==> r.value == BooksOf(w, w.frames[..i + 1]) && terminal == TerminalOf(w, w.frames[i])
  {
    TotalsStep(w, w.frames, i);
    terminal := None;
    match w.frames[i] {
      case Log(payload) =>
        var logBytes := books.logBytes + |payload|;
        if logBytes > c.maxLogBytes {
          return Err(LogLimit), None;
        }
        r := Ok(books.(logBytes := logBytes, logText := books.logText + payload));
      case Checkpoint(payload, step) =>
        if books.expectedSequence == 0 {
          return Err(InvalidEvent), None;
        }
        var checkpoint := CheckpointOf(c, w, i, w.frames[i]);
        if checkpoint.Err? {
          return Err(checkpoint.error), None;
        }
        if step in books.checkpoints {
          return Err(InvalidEvent), None;
        }
        r := Ok(books.(checkpoints := books.checkpoints[step := checkpoint.value], steps := books.steps + [step]));
      case Event(payload) =>
        r, terminal := TakeEvent(c, w, w.frames[..i], payload, books);
    }
  }

  /** The end of `run`, after the loop and the wait for the exit code. */
  method Conclude(c: RunnerContract, w: World, n: nat, books: Books, terminal: Option<ProgressEvent>,
                  cancelRequested: bool, timedOut: bool, exitCode: Option<int>)
    returns (r: Result<TrainingOutcome, ErrorCode>)
    requires n <= |w.frames| && books == BooksOf(w, w.frames[..n]) && exitCode == w.exitCode
    requires terminal.Some? ==> n > 0
    requires var iterations := if terminal.Some? then n else n + 1;
             cancelRequested == FirstTrigger(c, w, iterations).Some? && timedOut == TimedOutBy(c, w, iterations)
    ensures r == Concluded(c, w, if terminal.Some? then Finished(n - 1, terminal.value) else Closed(n))
  {
    if exitCode.None? {
      return Err(if timedOut then TimedOut else ProcessFailed);
    }
    if terminal.None? {
      return Err(if timedOut then TimedOut else ProcessFailed);
    }
    if timedOut && !terminal.value.kind.Cancelled? {
      return Err(TimedOut);
    }
    StepsAreKeys(w, w.frames[..n]);
    var ordered := Ordered(books.checkpoints, books.steps);
    var logDigest := DigestText(w.h(books.logText));
    if terminal.value.kind.Cancelled? && cancelRequested {
      return Ok(TrainingOutcome(StatusCancelled, None, ordered, books.eventCount, books.logBytes, logDigest,
                                exitCode.value, if timedOut then Some(TimedOut) else None));
    }
    if !terminal.value.kind.Completed? || exitCode.value != 0 {
      return Err(ProcessFailed);
    }
    return Ok(TrainingOutcome(StatusCompleted, terminal.value.outputDigest, ordered, books.eventCount, books.logBytes,
                              logDigest, exitCode.value, None));
  }

  /** The start of an iteration: request cancellation once, because of the clock or of the token. */
  method PollCancellation(c: RunnerContract, process: Process, w: World, i: nat, wasRequested: bool, wasTimedOut: bool)
    returns (cancelRequested: bool, timedOut: bool)
    requires wasRequested == FirstTrigger(c, w, i).Some? && wasTimedOut == TimedOutBy(c, w, i)
    requires process.cancelRequested == process.checkpointRequested == wasRequested
    modifies process`cancelRequested, process`checkpointRequested
    ensures cancelRequested == FirstTrigger(c, w, i + 1).Some? && timedOut == TimedOutBy(c, w, i + 1)
    ensures process.cancelRequested == process.checkpointRequested == cancelRequested
    ensures wasRequested ==> FirstTrigger(c, w, i + 1) == FirstTrigger(c, w, i)
    ensures !wasRequested && cancelRequested ==> FirstTrigger(c, w, i + 1) == Some(i)
  {
    cancelRequested, timedOut := wasRequested, wasTimedOut;
    var elapsed := w.clock(i + 1) - w.clock(0);
    if elapsed >= c.maxRuntimeMs && !cancelRequested {
      process.RequestCheckpoint();
      process.RequestCancel();
      cancelRequested := true;
      timedOut := true;
    } else if w.cancelled(i) && !cancelRequested {
      process.RequestCheckpoint();
      process.RequestCancel();
      cancelRequested := true;
    }
  }

  /** How one iteration of the loop ends. */
  datatype Flow = Going | StreamEnded | Terminal(event: ProgressEvent) | Fatal(code: ErrorCode)

  /** One iteration: poll for cancellation, fetch a frame, count the grace, take the frame up. */
  method Iterate(c: RunnerContract, process: Process, w: World, i: nat, books: Books, wasRequested: bool,
                 wasTimedOut: bool, graceBefore: int)
    returns (flow: Flow, after: Books, cancelRequested: bool, timedOut: bool, graceFrames: int)
    requires ValidContract(c) && process.frames == w.frames && process.fetched == i <= |w.frames|
    requires !process.terminated && books == BooksOf(w, w.frames[..i])
    requires wasRequested == FirstTrigger(c, w, i).Some? && wasTimedOut == TimedOutBy(c, w, i)
    requires process.cancelRequested == process.checkpointRequested == wasRequested
    requires graceBefore == if wasRequested then i - FirstTrigger(c, w, i).value else 0
    modifies process
    ensures process.waited == old(process.waited) && process.terminated == flow.Fatal?
    ensures process.fetched == if flow.StreamEnded? then i else i + 1
    ensures process.cancelRequested == process.checkpointRequested == cancelRequested
    ensures cancelRequested == FirstTrigger(c, w, i + 1).Some? && timedOut == TimedOutBy(c, w, i + 1)
    ensures flow.StreamEnded? ==> LoopEnd(c, w, i) == Closed(i) && after == books
    ensures flow.Fatal? ==> LoopEnd(c, w, i) == Refused(i, flow.code)
                            || (LoopEnd(c, w, i) == Overrun(i)
                                && flow.code == LateError(c, w, i + 1, CancellationIgnored))
    ensures flow.Terminal? ==> LoopEnd(c, w, i) == Finished(i, flow.event)
    ensures flow.Going? || flow.Terminal? ==> i < |w.frames| && after == BooksOf(w, w.frames[..i + 1])
    ensures flow.Going? ==> LoopEnd(c, w, i) == LoopEnd(c, w, i + 1)
    ensures flow.Going? || flow.Terminal? ==>
              graceFrames == if cancelRequested then i + 1 - FirstTrigger(c, w, i + 1).value else 0
  {
    after, graceFrames := books, graceBefore;
    cancelRequested, timedOut := PollCancellation(c, process, w, i, wasRequested, wasTimedOut);
    var frame := process.NextFrame();
    if frame.None? {
      flow := StreamEnded;
      return;
    }
    if cancelRequested {
      graceFrames := graceFrames + 1;
      if graceFrames > c.cancellationGraceFrames {
        process.Terminate();
        flow := Fatal(if timedOut then TimedOut else CancellationIgnored);
        return;
      }
    }
    var taken, event := TakeFrame(c, w, i, books);
    if taken.Err? {
      process.Terminate();
      flow := Fatal(taken.error);
      return;
    }
    after := taken.value;
    flow := if event.Some? then Terminal(event.value) else Going;
  }

  /** `TrainingSupervisor.run` */
  method Run(c: RunnerContract, process: Process, w: World) returns (r: Result<TrainingOutcome, ErrorCode>)
    requires ValidContract(c) && process.Valid() && process.frames == w.frames && process.exitCode == w.exitCode
    requires process.fetched == 0 && !process.terminated && !process.waited
    requires !process.checkpointRequested && !process.cancelRequested
    modifies process
    ensures r == Supervised(c, w)
    ensures var e := LoopEnd(c, w, 0);
            && process.fetched == (if e.Closed? then e.at else e.at + 1)
            && process.cancelRequested == process.checkpointRequested == FirstTrigger(c, w, e.at + 1).Some?
            && process.terminated == LeavesTerminated(w, e)
            && process.waited == (e.Closed? || e.Finished?)
    ensures process.terminated || (process.waited && process.exitCode.Some?)
  {
    var books := Books(0, 0, 0, 0, "", map[], []);
    var terminal: Option<ProgressEvent> := None;
    var cancelRequested, timedOut, graceFrames := false, false, 0;
    var i: nat := 0;
    while terminal.None?
      invariant !process.terminated && !process.waited && process.fetched == i <= |w.frames|
      invariant terminal.None? ==> LoopEnd(c, w, 0) == LoopEnd(c, w, i)
      invariant terminal.Some? ==> i > 0 && LoopEnd(c, w, 0) == Finished(i - 1, terminal.value)
      invariant books == BooksOf(w, w.frames[..i])
      invariant cancelRequested == FirstTrigger(c, w, i).Some? && timedOut == TimedOutBy(c, w, i)
      invariant process.cancelRequested == process.checkpointRequested == cancelRequested
      invariant graceFrames == if cancelRequested then i - FirstTrigger(c, w, i).value else 0
      decreases |w.frames| - i, terminal.None?
    {
      var flow;
      flow, books, cancelRequested, timedOut, graceFrames :=
        Iterate(c, process, w, i, books, cancelRequested, timedOut, graceFrames);
      match flow {
        case StreamEnded => break;
        case Fatal(code) => return Err(code);
        case Terminal(event) => terminal := Some(event);
        case Going =>
      }
      i := i + 1;
    }
    var exitCode := process.Wait();
    if exitCode.None? {
      process.Terminate();
    }
    r := Conclude(c, w, i, books, terminal, cancelRequested, timedOut, exitCode);
  }
}
