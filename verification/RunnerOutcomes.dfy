/** The outcomes of supervised runs: when a run completes, what it reports, and how long it lasts. */
module RunnerOutcomes {
  import opened Prelude
  import opened Ordering
  import opened ByteStrings
  import opened ProgressEvents
  import opened Runner
  import opened RunnerTraces

  // ---------- where the loop ends ----------

  /** The frame holds an event that says that the process has completed, failed or been cancelled. */
  predicate Ends(w: World, f: Frame, e: ProgressEvent) {
    f.Event? && w.decode(f.payload) == Some(e) && (e.kind.Completed? || e.kind.Failed? || e.kind.Cancelled?)
  }

  lemma TerminalExact(w: World, f: Frame, e: ProgressEvent)
    ensures TerminalOf(w, f) == Some(e) <==> Ends(w, f, e)
  {
  }

  /** Frame `n` is the first one with a terminal event. */
  ghost predicate EndsAt(w: World, n: nat, e: ProgressEvent) {
    n < |w.frames| && Ends(w, w.frames[n], e) && forall j, d :: 0 <= j < n ==> !Ends(w, w.frames[j], d)
  }

  lemma EndsAtExact(w: World, n: nat, e: ProgressEvent)
    ensures EndsAt(w, n, e) <==>
              && n < |w.frames| && TerminalOf(w, w.frames[n]) == Some(e)
              && forall j :: 0 <= j < n ==> TerminalOf(w, w.frames[j]).None?
  {
    if n < |w.frames| {
      TerminalExact(w, w.frames[n], e);
      forall j | 0 <= j < n
        ensures TerminalOf(w, w.frames[j]).None? <==> forall d :: !Ends(w, w.frames[j], d)
      {
        if TerminalOf(w, w.frames[j]).Some? {
          TerminalExact(w, w.frames[j], TerminalOf(w, w.frames[j]).value);
        }
        forall d | Ends(w, w.frames[j], d) ensures TerminalOf(w, w.frames[j]).Some? {
          TerminalExact(w, w.frames[j], d);
        }
      }
    }
  }

  lemma {:induction false} TriggerStays(c: RunnerContract, w: World, m: nat, n: nat)
    requires m <= n && FirstTrigger(c, w, m).Some?
    ensures FirstTrigger(c, w, n) == FirstTrigger(c, w, m)
  {
    if m < n {
      TriggerStays(c, w, m, n - 1);
    }
  }

  /** Cancellation is requested in the first iteration that is late or sees the token. */
  lemma {:induction false} FirstTriggerExact(c: RunnerContract, w: World, n: nat, k: nat)
    ensures FirstTrigger(c, w, n) == Some(k) <==>
              && k < n && (OverTime(c, w, k) || w.cancelled(k))
              && forall j: nat :: j < k ==> !OverTime(c, w, j) && !w.cancelled(j)
  {
    if n > 0 {
      FirstTriggerExact(c, w, n - 1, k);
      if FirstTrigger(c, w, n - 1).Some? {
        FirstTriggerExact(c, w, n - 1, FirstTrigger(c, w, n - 1).value);
      } else {
        NoTrigger(c, w, n - 1);
      }
    }
  }

  lemma {:induction false} NoTrigger(c: RunnerContract, w: World, n: nat)
    requires FirstTrigger(c, w, n).None?
    ensures forall j: nat :: j < n ==> !OverTime(c, w, j) && !w.cancelled(j)
  {
    if n > 0 {
      NoTrigger(c, w, n - 1);
    }
  }

  lemma GraceGrows(c: RunnerContract, w: World, m: nat, n: nat)
    requires m <= n
    ensures GraceUsed(c, w, m) <= GraceUsed(c, w, n)
  {
    if FirstTrigger(c, w, m + 1).Some? {
      TriggerStays(c, w, m + 1, n + 1);
    }
  }

  /** Iteration `i` takes up its frame and the loop goes on. */
  ghost predicate Passes(c: RunnerContract, w: World, i: nat)
    requires ValidContract(c) && i < |w.frames|
  {
    && FrameProblem(c, w, w.frames[..i], w.frames[i]).None? && TerminalOf(w, w.frames[i]).None?
    && GraceUsed(c, w, i) <= c.cancellationGraceFrames
  }

  ghost predicate Survives(c: RunnerContract, w: World, from: nat, n: nat)
    requires ValidContract(c) && n <= |w.frames|
  {
    forall j :: from <= j < n ==> Passes(c, w, j)
  }

  lemma LoopStep(c: RunnerContract, w: World, i: nat)
    requires ValidContract(c) && i < |w.frames|
    ensures LoopEnd(c, w, i).at > i <==> Passes(c, w, i)
    ensures Passes(c, w, i) ==> LoopEnd(c, w, i) == LoopEnd(c, w, i + 1)
    ensures LoopEnd(c, w, i).at == i ==>
              (LoopEnd(c, w, i).Overrun? <==> GraceUsed(c, w, i) > c.cancellationGraceFrames)
  {
  }

  lemma {:induction false} LoopFinishes(c: RunnerContract, w: World, i: nat, n: nat, e: ProgressEvent)
    requires ValidContract(c) && i <= |w.frames|
    ensures LoopEnd(c, w, i) == Finished(n, e) <==>
              && i <= n < |w.frames| && Survives(c, w, i, n) && TerminalOf(w, w.frames[n]) == Some(e)
              && FrameProblem(c, w, w.frames[..n], w.frames[n]).None?
              && GraceUsed(c, w, n) <= c.cancellationGraceFrames
    decreases |w.frames| - i
  {
    if i < |w.frames| {
      LoopFinishes(c, w, i + 1, n, e);
      if i < n < |w.frames| {
        assert Survives(c, w, i, n) <==> Passes(c, w, i) && Survives(c, w, i + 1, n);
      }
    }
  }

  /** Every frame before the last iteration was accepted, and the loop had not overrun its grace. */
  lemma {:induction false} LoopSurvives(c: RunnerContract, w: World, i: nat)
    requires ValidContract(c) && i <= |w.frames|
    ensures Survives(c, w, i, LoopEnd(c, w, i).at)
    ensures LoopEnd(c, w, i).Overrun? <==>
              LoopEnd(c, w, i).at < |w.frames| && GraceUsed(c, w, LoopEnd(c, w, i).at) > c.cancellationGraceFrames
    decreases |w.frames| - i
  {
    if i < |w.frames| {
      LoopStep(c, w, i);
      if Passes(c, w, i) {
        LoopSurvives(c, w, i + 1);
      }
    }
  }

  // ---------- which runs have an outcome ----------

  /** The frames up to the first terminal event are a valid trace, received within the grace. */
  ghost predicate FinishedRun(c: RunnerContract, w: World, n: nat, e: ProgressEvent)
    requires ValidContract(c)
  {
    EndsAt(w, n, e) && ValidTrace(c, w, w.frames[..n + 1]) && GraceUsed(c, w, n) <= c.cancellationGraceFrames
  }

  lemma AcceptedPrefixes(c: RunnerContract, w: World, n: nat)
    requires ValidContract(c) && n < |w.frames|
    ensures ValidTrace(c, w, w.frames[..n + 1]) <==>
              forall j :: 0 <= j <= n ==> FrameProblem(c, w, w.frames[..j], w.frames[j]).None?
  {
    var fs := w.frames[..n + 1];
    TraceExact(c, w, fs);
    assert forall j :: 0 <= j <= n ==> fs[..j] == w.frames[..j] && fs[j] == w.frames[j];
    if AllAccepted(c, w, fs) {
      forall j | 0 <= j <= n ensures FrameProblem(c, w, w.frames[..j], w.frames[j]).None? {
        assert FrameProblem(c, w, fs[..j], fs[j]).None?;
      }
    }
  }

  lemma SurvivesExact(c: RunnerContract, w: World, n: nat)
    requires ValidContract(c) && n < |w.frames| && GraceUsed(c, w, n) <= c.cancellationGraceFrames
    ensures Survives(c, w, 0, n) <==>
              && (forall j :: 0 <= j < n ==> FrameProblem(c, w, w.frames[..j], w.frames[j]).None?)
              && (forall j :: 0 <= j < n ==> TerminalOf(w, w.frames[j]).None?)
  {
    forall j | 0 <= j < n
      ensures Passes(c, w, j) <==>
                FrameProblem(c, w, w.frames[..j], w.frames[j]).None? && TerminalOf(w, w.frames[j]).None?
    {
      GraceGrows(c, w, j, n);
    }
    if Survives(c, w, 0, n) {
      forall j | 0 <= j < n
        ensures FrameProblem(c, w, w.frames[..j], w.frames[j]).None? && TerminalOf(w, w.frames[j]).None?
      {
        assert Passes(c, w, j);
      }
    }
  }

  /** The loop reaches a terminal event exactly on the valid traces that respect the grace. */
  lemma FinishedExact(c: RunnerContract, w: World, n: nat, e: ProgressEvent)
    requires ValidContract(c)
    ensures LoopEnd(c, w, 0) == Finished(n, e) <==> FinishedRun(c, w, n, e)
  {
    LoopFinishes(c, w, 0, n, e);
    EndsAtExact(w, n, e);
    if n < |w.frames| && GraceUsed(c, w, n) <= c.cancellationGraceFrames {
      AcceptedPrefixes(c, w, n);
      SurvivesExact(c, w, n);
    }
  }

  ghost predicate CompletedRun(c: RunnerContract, w: World, n: nat, e: ProgressEvent)
    requires ValidContract(c)
  {
    FinishedRun(c, w, n, e) && e.kind.Completed? && !TimedOutBy(c, w, n + 1) && w.exitCode == Some(0)
  }

  ghost predicate CancelledRun(c: RunnerContract, w: World, n: nat, e: ProgressEvent)
    requires ValidContract(c)
  {
    FinishedRun(c, w, n, e) && e.kind.Cancelled? && FirstTrigger(c, w, n + 1).Some? && w.exitCode.Some?
  }

  /**
   A run is reported completed exactly when its frames up to the first terminal event form a valid
   trace that ends in a completed event, cancellation was never triggered by time, any requested
   cancellation was within its grace, and the process exited with code 0; the report is then the one
   for that event.
   */
  lemma CompletedExact(c: RunnerContract, w: World)
    requires ValidContract(c)
    ensures (Supervised(c, w).Ok? && Supervised(c, w).value.status.StatusCompleted?)
       <==> exists n, e :: CompletedRun(c, w, n, e)
    ensures forall n, e :: CompletedRun(c, w, n, e) ==>
              Supervised(c, w) == Ok(OutcomeOf(c, w, Finished(n, e), StatusCompleted))
  {
    var end := LoopEnd(c, w, 0);
    if end.Finished? {
      FinishedExact(c, w, end.at, end.event);
      assert Supervised(c, w).Ok? && Supervised(c, w).value.status.StatusCompleted? ==>
          CompletedRun(c, w, end.at, end.event);
    }
    forall n, e | CompletedRun(c, w, n, e)
      ensures Supervised(c, w) == Ok(OutcomeOf(c, w, Finished(n, e), StatusCompleted))
    {
      FinishedExact(c, w, n, e);
    }
  }

  /** A run is reported cancelled exactly when cancellation had been requested and the trace says so. */
  lemma CancelledExact(c: RunnerContract, w: World)
    requires ValidContract(c)
    ensures (Supervised(c, w).Ok? && Supervised(c, w).value.status.StatusCancelled?)
       <==> exists n, e :: CancelledRun(c, w, n, e)
    ensures forall n, e :: CancelledRun(c, w, n, e) ==>
              Supervised(c, w) == Ok(OutcomeOf(c, w, Finished(n, e), StatusCancelled))
  {
    var end := LoopEnd(c, w, 0);
    if end.Finished? {
      FinishedExact(c, w, end.at, end.event);
      assert Supervised(c, w).Ok? && Supervised(c, w).value.status.StatusCancelled? ==>
          CancelledRun(c, w, end.at, end.event);
    }
    forall n, e | CancelledRun(c, w, n, e)
      ensures Supervised(c, w) == Ok(OutcomeOf(c, w, Finished(n, e), StatusCancelled))
    {
      FinishedExact(c, w, n, e);
    }
  }

  // ---------- what an outcome reports ----------

  lemma {:induction false} StepsFromFrames(fs: seq<Frame>)
    requires CheckpointStepsDiffer(fs)
    ensures Distinct(Steps(fs))
    ensures forall s :: s in Steps(fs) <==> exists i :: 0 <= i < |fs| && fs[i].Checkpoint? && fs[i].step == s
  {
    if fs != [] {
      var n := |fs| - 1;
      var before := fs[..n];
      assert CheckpointStepsDiffer(before);
      StepsFromFrames(before);
      forall s ensures s in Steps(fs) <==> exists i :: 0 <= i < |fs| && fs[i].Checkpoint? && fs[i].step == s {
        if s in Steps(before) {
          var i :| 0 <= i < n && before[i].Checkpoint? && before[i].step == s;
          assert fs[i].Checkpoint? && fs[i].step == s;
        }
        if i :| 0 <= i < |fs| && fs[i].Checkpoint? && fs[i].step == s {
          assert i < n ==> before[i].Checkpoint? && before[i].step == s;
        }
      }
      if fs[n].Checkpoint? {
        assert fs[n].step !in Steps(before);
      }
    }
  }

  lemma {:induction false} LogTextLength(fs: seq<Frame>)
    ensures |LogText(fs)| == LogBytes(fs)
  {
    if fs != [] {
      LogTextLength(fs[..|fs| - 1]);
    }
  }

  /** The stored checkpoints of a trace. */
  ghost predicate IsStored(w: World, fs: seq<Frame>, r: CheckpointRecord) {
    exists i :: 0 <= i < |fs| && fs[i].Checkpoint? && r.step == fs[i].step && r.size == |fs[i].payload|
                && w.sink(i) == Stored(r.digest)
  }

  lemma OrderedExact(c: RunnerContract, w: World, fs: seq<Frame>)
    requires ValidContract(c) && ValidTrace(c, w, fs)
    ensures forall s :: s in Steps(fs) ==> s in Records(w, fs)
    ensures var o := Ordered(Records(w, fs), Steps(fs));
            && (forall i, j :: 0 <= i < j < |o| ==> o[i].step < o[j].step)
            && (forall r :: r in o <==> IsStored(w, fs, r))
            && (forall i :: 0 <= i < |o| ==> IsCheckpointStep(c, o[i].step) && IsDigest(o[i].digest))
  {
    StepsAreKeys(w, fs);
    StepsFromFrames(fs);
    SortIntsStrict(Steps(fs));
    var sorted := Sort<int>(IntLe, Steps(fs));
    var o := Ordered(Records(w, fs), Steps(fs));
    forall i | 0 <= i < |o|
      ensures o[i].step == sorted[i] && IsStored(w, fs, o[i])
      ensures IsCheckpointStep(c, o[i].step) && IsDigest(o[i].digest)
    {
      assert sorted[i] in ToSet(sorted) && sorted[i] in ToSet(Steps(fs));
      assert sorted[i] in Steps(fs);
      var k :| 0 <= k < |fs| && fs[k].Checkpoint? && fs[k].step == sorted[i];
      RecordsExact(w, fs, k);
      assert CheckpointRules(c, w, fs, k);
      CadenceExact(c, fs[k].step);
    }
    forall r | IsStored(w, fs, r) ensures r in o {
      var k :| 0 <= k < |fs| && fs[k].Checkpoint? && r.step == fs[k].step && r.size == |fs[k].payload|
               && w.sink(k) == Stored(r.digest);
      RecordsExact(w, fs, k);
      assert r.step in ToSet(Steps(fs)) && r.step in sorted;
      var i :| 0 <= i < |sorted| && sorted[i] == r.step;
      assert o[i] == r;
    }
  }

  /**
   The report of a finished run: the returned checkpoints are exactly the stored ones, on cadence and
   in strictly increasing steps; the event and log counts are exact; the digest covers all log bytes.
   */
  lemma OutcomeExact(c: RunnerContract, w: World, n: nat, e: ProgressEvent, status: RunnerStatus)
    requires ValidContract(c) && FinishedRun(c, w, n, e) && w.exitCode.Some?
    ensures var fs, o := w.frames[..n + 1], OutcomeOf(c, w, Finished(n, e), status);
            && (forall i, j :: 0 <= i < j < |o.checkpoints| ==> o.checkpoints[i].step < o.checkpoints[j].step)
            && (forall r :: r in o.checkpoints <==> IsStored(w, fs, r))
            && (forall i :: 0 <= i < |o.checkpoints| ==> IsCheckpointStep(c, o.checkpoints[i].step))
            && o.eventCount == e.sequence + 1
            && o.logBytes == |LogText(fs)| <= c.maxLogBytes && o.logDigest == DigestText(w.h(LogText(fs)))
  {
    var fs := w.frames[..n + 1];
    OrderedExact(c, w, fs);
    LogTextLength(fs);
    TotalsStep(w, w.frames, n);
    assert EventRules(c, w, fs, n) && fs[..n] == w.frames[..n];
  }

  // ---------- how long a run can last ----------

  lemma {:induction false} ClockAdvances(w: World, i: nat)
    requires forall j: nat :: w.clock(j + 1) >= w.clock(j) + 1
    ensures w.clock(i) - w.clock(0) >= i
  {
    if i > 0 {
      ClockAdvances(w, i - 1);
      assert w.clock(i - 1 + 1) >= w.clock(i - 1) + 1;
    }
  }

  /**
   At most the grace number of frames is taken up after the request for cancellation; one more is
   fetched only to terminate the process.
   */
  lemma GraceRespected(c: RunnerContract, w: World)
    requires ValidContract(c)
    ensures var e := LoopEnd(c, w, 0);
            var request := FirstTrigger(c, w, e.at + 1);
            && (request.Some? ==> e.at - request.value <= c.cancellationGraceFrames)
            && (request.Some? ==>
                  (e.Overrun? <==> !e.Closed? && e.at - request.value == c.cancellationGraceFrames))
  {
    LoopSurvives(c, w, 0);
    var e := LoopEnd(c, w, 0);
    var request := FirstTrigger(c, w, e.at + 1);
    if request.Some? && request.value < e.at {
      FirstTriggerExact(c, w, e.at + 1, request.value);
      FirstTriggerExact(c, w, e.at, request.value);
      assert Passes(c, w, e.at - 1);
    }
  }

  /** A clock that advances makes the runner late, so cancellation is requested by then. */
  lemma RequestedInTime(c: RunnerContract, w: World, n: nat)
    requires ValidContract(c) && n >= c.maxRuntimeMs
    requires forall j: nat :: w.clock(j + 1) >= w.clock(j) + 1
    ensures FirstTrigger(c, w, n).Some? && FirstTrigger(c, w, n).value < c.maxRuntimeMs
  {
    var last := c.maxRuntimeMs - 1;
    ClockAdvances(w, last + 1);
    assert OverTime(c, w, last);
    if FirstTrigger(c, w, n).None? {
      NoTrigger(c, w, n);
    } else {
      FirstTriggerExact(c, w, n, FirstTrigger(c, w, n).value);
    }
  }

  /**
   When the clock advances by at least one millisecond in every iteration, the number of iterations,
   and so of frames fetched, is bounded by the runtime limit and the grace, whatever the process sends.
   */
  lemma FetchesAreBounded(c: RunnerContract, w: World)
    requires ValidContract(c) && forall j: nat :: w.clock(j + 1) >= w.clock(j) + 1
    ensures LoopEnd(c, w, 0).at + 1 <= c.maxRuntimeMs + c.cancellationGraceFrames
  {
    var e := LoopEnd(c, w, 0);
    if e.at >= c.maxRuntimeMs {
      RequestedInTime(c, w, e.at + 1);
      GraceRespected(c, w);
    }
  }
}
