/** What a supervised run returns or raises: every field of a report, and the error of every other run. */
module RunnerAnswers {
  import opened Prelude
  import opened ByteStrings
  import opened ProgressEvents
  import opened Runner
  import opened RunnerTraces
  import opened RunnerOutcomes

  // ---------- reports ----------

  /** The fields of a report that OutcomeExact does not speak of. */
  lemma CompletedReport(c: RunnerContract, w: World, n: nat, e: ProgressEvent)
    requires ValidContract(c) && CompletedRun(c, w, n, e)
    ensures Supervised(c, w).Ok?
    ensures var o := Supervised(c, w).value;
            && o.status.StatusCompleted? && o.resultDigest == e.outputDigest && o.exitCode == 0
            && o.terminalError.None? && o.eventCount == e.sequence + 1
            && ((forall b :: w.decode(b) == DecodeEvent(b)) ==> o.resultDigest.Some? && IsDigest(o.resultDigest.value))
  {
    CompletedExact(c, w);
    if forall b :: w.decode(b) == DecodeEvent(b) {
      DecodeEventExact(w.frames[n].payload, e);
    }
    OutcomeExact(c, w, n, e, StatusCompleted);
  }

  /** A cancelled run reports no result; it says whether the time limit was what cancelled it. */
  lemma CancelledReport(c: RunnerContract, w: World, n: nat, e: ProgressEvent)
    requires ValidContract(c) && CancelledRun(c, w, n, e)
    ensures Supervised(c, w).Ok?
    ensures var o := Supervised(c, w).value;
            && o.status.StatusCancelled? && o.resultDigest.None? && Some(o.exitCode) == w.exitCode
            && o.eventCount == e.sequence + 1
            && o.terminalError == (if RequestedByTime(c, w, n + 1) then Some(TimedOut) else None)
  {
    CancelledExact(c, w);
    OutcomeExact(c, w, n, e, StatusCancelled);
    RequestedByTimeExact(c, w, n + 1);
  }

  // ---------- what made the supervisor cancel ----------

  /** Cancellation is requested in iteration `k`, and in none before it. */
  ghost predicate RequestedAt(c: RunnerContract, w: World, k: nat) {
    (OverTime(c, w, k) || w.cancelled(k)) && forall j: nat :: j < k ==> !OverTime(c, w, j) && !w.cancelled(j)
  }

  /** Within `n` iterations cancellation was requested, and the run was late then. */
  ghost predicate RequestedByTime(c: RunnerContract, w: World, n: nat) {
    exists k: nat :: k < n && RequestedAt(c, w, k) && OverTime(c, w, k)
  }

  lemma RequestedByTimeExact(c: RunnerContract, w: World, n: nat)
    ensures RequestedByTime(c, w, n) <==> TimedOutBy(c, w, n)
  {
    forall k: nat | k < n ensures RequestedAt(c, w, k) <==> FirstTrigger(c, w, n) == Some(k) {
      FirstTriggerExact(c, w, n, k);
    }
  }

  // ---------- failures ----------

  lemma {:induction false} LoopGoesOn(c: RunnerContract, w: World, i: nat, n: nat)
    requires ValidContract(c) && i <= n <= |w.frames| && Survives(c, w, i, n)
    ensures LoopEnd(c, w, i) == LoopEnd(c, w, n)
    decreases n - i
  {
    if i < n {
      LoopStep(c, w, i);
      assert Passes(c, w, i);
      LoopGoesOn(c, w, i + 1, n);
    }
  }

  function LateOr(late: bool, otherwise: ErrorCode): ErrorCode {
    if late then TimedOut else otherwise
  }

  /** The first frame that is refused, within the grace, decides the error. */
  lemma RefusedFrameFails(c: RunnerContract, w: World, n: nat)
    requires ValidContract(c) && n < |w.frames| && Survives(c, w, 0, n)
    requires GraceUsed(c, w, n) <= c.cancellationGraceFrames
    ensures FrameProblem(c, w, w.frames[..n], w.frames[n]).Some? ==>
              Supervised(c, w) == Err(FrameProblem(c, w, w.frames[..n], w.frames[n]).value)
  {
    LoopGoesOn(c, w, 0, n);
  }

  /** A process that goes on sending after its grace is reported as late or as ignoring the cancellation. */
  lemma OverrunFails(c: RunnerContract, w: World, n: nat)
    requires ValidContract(c) && n < |w.frames| && Survives(c, w, 0, n)
    requires GraceUsed(c, w, n) > c.cancellationGraceFrames
    ensures Supervised(c, w) == Err(LateOr(RequestedByTime(c, w, n + 1), CancellationIgnored))
  {
    LoopGoesOn(c, w, 0, n);
    RequestedByTimeExact(c, w, n + 1);
  }

  /** A stream that ends without a terminal event is a failure of the process. */
  lemma ClosedStreamFails(c: RunnerContract, w: World)
    requires ValidContract(c) && Survives(c, w, 0, |w.frames|)
    ensures Supervised(c, w) == Err(LateOr(RequestedByTime(c, w, |w.frames| + 1), ProcessFailed))
  {
    LoopGoesOn(c, w, 0, |w.frames|);
    RequestedByTimeExact(c, w, |w.frames| + 1);
  }

  /** A finished trace that is neither a completed nor a cancelled run. */
  lemma FinishedRunFails(c: RunnerContract, w: World, n: nat, e: ProgressEvent)
    requires ValidContract(c) && FinishedRun(c, w, n, e)
    requires !CompletedRun(c, w, n, e) && !CancelledRun(c, w, n, e)
    ensures Supervised(c, w)
         == Err(if w.exitCode.None? then LateOr(RequestedByTime(c, w, n + 1), ProcessFailed)
                else LateOr(RequestedByTime(c, w, n + 1) && !e.kind.Cancelled?, ProcessFailed))
  {
    FinishedExact(c, w, n, e);
    RequestedByTimeExact(c, w, n + 1);
  }

  /** Every run ends in one of these ways. */
  lemma EveryRunEnds(c: RunnerContract, w: World)
    requires ValidContract(c)
    ensures || Survives(c, w, 0, |w.frames|)
            || (exists n, e :: FinishedRun(c, w, n, e))
            || (exists n: nat :: n < |w.frames| && Survives(c, w, 0, n) && !GoesFurther(c, w, n))
  {
    var end := LoopEnd(c, w, 0);
    LoopSurvives(c, w, 0);
    if end.Finished? {
      FinishedExact(c, w, end.at, end.event);
    } else if end.at < |w.frames| {
      LoopGoesOn(c, w, 0, end.at);
      assert !GoesFurther(c, w, end.at);
    }
  }

  /** Frame `n` comes within the grace and is not refused. */
  ghost predicate GoesFurther(c: RunnerContract, w: World, n: nat)
    requires ValidContract(c) && n < |w.frames|
  {
    GraceUsed(c, w, n) <= c.cancellationGraceFrames && FrameProblem(c, w, w.frames[..n], w.frames[n]).None?
  }

  // ---------- why a frame is refused ----------

  /** The error for the first frame that makes a valid trace invalid. */
  lemma RefusalCode(c: RunnerContract, w: World, fs: seq<Frame>, n: nat)
    requires ValidContract(c) && |fs| == n + 1 && ValidTrace(c, w, fs[..n]) && !ValidTrace(c, w, fs)
    ensures var problem := FrameProblem(c, w, fs[..n], fs[n]);
            match fs[n]
            case Log(_) => problem == Some(LogLimit)
            case Event(_) =>
              problem == Some(if EventCount(fs[..n]) == c.maxEvents then EventLimit else InvalidEvent)
            case Checkpoint(payload, step) =>
              problem == Some(if EventCount(fs[..n]) == 0 then InvalidEvent
                              else if |payload| > c.maxCheckpointBytes then CheckpointLimit
                              else if !IsCheckpointStep(c, step) then CheckpointLimit
                              else match w.sink(n)
                                case Rejected(code) => code
                                case Raised => CheckpointFailed
                                case Stored(text) => if IsDigest(text) then InvalidEvent else CheckpointFailed)
  {
    if fs[n].Checkpoint? {
      CadenceExact(c, fs[n].step);
    }
    if FrameProblem(c, w, fs[..n], fs[n]).None? {
      ExtendedTrace(c, w, fs, n);
    }
  }
}
