/** Which traces the supervisor accepts, what it returns for them, and how long it can run. */
module RunnerTraces {
  import opened Prelude
  import opened Ordering
  import opened ByteStrings
  import opened ProgressEvents
  import opened Runner

  // ---------- valid traces ----------

  function EventOf(w: World, f: Frame): ProgressEvent
    requires f.Event? && w.decode(f.payload).Some?
  {
    w.decode(f.payload).value
  }

  /** A checkpoint frame before frame `j` was stored under this step and digest. */
  ghost predicate Announced(w: World, fs: seq<Frame>, j: nat, step: int, digest: Option<string>)
    requires j <= |fs|
  {
    exists i :: 0 <= i < j && fs[i].Checkpoint? && fs[i].step == step
              && digest.Some? && w.sink(i) == Stored(digest.value)
  }

  ghost predicate EventRules(c: RunnerContract, w: World, fs: seq<Frame>, j: nat)
    requires j < |fs| && fs[j].Event?
  {
    && w.decode(fs[j].payload).Some?
    && var e := EventOf(w, fs[j]);
       && e.sequence == EventCount(fs[..j])
       && (e.kind.Started? <==> EventCount(fs[..j]) == 0)
       && 0 <= e.step <= c.maxSteps && e.elapsedMs <= c.maxRuntimeMs
       && (e.kind.Checkpointed? ==> Announced(w, fs, j, e.step, e.outputDigest))
  }

  /** A multiple of the interval, or the last step. */
  ghost predicate IsCheckpointStep(c: RunnerContract, step: int) {
    step <= c.maxSteps && (step == c.maxSteps || exists k: int :: step == k * c.checkpointIntervalSteps)
  }

  lemma CadenceExact(c: RunnerContract, step: int)
    requires ValidContract(c)
    ensures OnCadence(c, step) <==> IsCheckpointStep(c, step)
  {
    var n := c.checkpointIntervalSteps;
    if step % n == 0 {
      assert step == step / n * n;
    }
    if k: int :| step == k * n {
      MultipleHasNoRemainder(k, n);
    }
  }

  lemma MultipleHasNoRemainder(k: int, n: int)
    requires n > 0
    ensures k * n % n == 0
  {
    var q, r := k * n / n, k * n % n;
    assert n * (k - q) == r by {
      assert k * n == n * q + r;
    }
    MultiplesAreApart(n, k - q);
  }

  lemma MultiplesAreApart(n: int, d: int)
    requires n > 0
    ensures d >= 1 ==> n * d >= n
    ensures d <= -1 ==> n * d <= -n
  {
    if d >= 1 {
      assert n * (d - 1) >= 0;
    } else if d <= -1 {
      assert n * (d + 1) <= 0;
    }
  }

  ghost predicate CheckpointRules(c: RunnerContract, w: World, fs: seq<Frame>, j: nat)
    requires ValidContract(c) && j < |fs| && fs[j].Checkpoint?
  {
    && EventCount(fs[..j]) > 0
    && |fs[j].payload| <= c.maxCheckpointBytes && OnCadence(c, fs[j].step)
    && w.sink(j).Stored? && IsDigest(w.sink(j).text)
  }

  ghost predicate StepsNeverDecrease(w: World, fs: seq<Frame>)
    requires forall j :: 0 <= j < |fs| && fs[j].Event? ==> w.decode(fs[j].payload).Some?
  {
    forall i, j :: 0 <= i < j < |fs| && fs[i].Event? && fs[j].Event? ==>
      EventOf(w, fs[i]).step <= EventOf(w, fs[j]).step
  }

  ghost predicate CheckpointStepsDiffer(fs: seq<Frame>) {
    forall i, j :: 0 <= i < j < |fs| && fs[i].Checkpoint? && fs[j].Checkpoint? ==> fs[i].step != fs[j].step
  }

  /**
   Event sequences are 0, 1, 2, ...; the first event and no other says started; steps never decrease
   and stay within the maximum; every checkpointed event follows a stored checkpoint frame with its
   step and digest; checkpoints are on cadence and have different steps; logs and events are bounded.
   */
  ghost predicate ValidTrace(c: RunnerContract, w: World, fs: seq<Frame>)
    requires ValidContract(c)
  {
    && (forall j :: 0 <= j < |fs| && fs[j].Event? ==> EventRules(c, w, fs, j))
    && (forall j :: 0 <= j < |fs| && fs[j].Checkpoint? ==> CheckpointRules(c, w, fs, j))
    && StepsNeverDecrease(w, fs) && CheckpointStepsDiffer(fs)
    && LogBytes(fs) <= c.maxLogBytes && EventCount(fs) <= c.maxEvents
  }

  /** No frame is refused after the frames before it. */
  ghost predicate AllAccepted(c: RunnerContract, w: World, fs: seq<Frame>)
    requires ValidContract(c)
  {
    forall j :: 0 <= j < |fs| ==> FrameProblem(c, w, fs[..j], fs[j]).None?
  }

  // ---------- the running totals of a valid trace ----------

  lemma {:induction false} LastStepIsLargest(c: RunnerContract, w: World, fs: seq<Frame>)
    requires ValidContract(c) && ValidTrace(c, w, fs)
    ensures LastStep(w, fs) >= 0
    ensures forall i :: 0 <= i < |fs| && fs[i].Event? ==> EventOf(w, fs[i]).step <= LastStep(w, fs)
    ensures LastStep(w, fs) == 0 ||
            exists i :: 0 <= i < |fs| && fs[i].Event? && EventOf(w, fs[i]).step == LastStep(w, fs)
  {
    if fs != [] {
      var n := |fs| - 1;
      ValidPrefix(c, w, fs, n);
      LastStepIsLargest(c, w, fs[..n]);
      if fs[n].Event? {
        assert EventRules(c, w, fs, n);
      } else if LastStep(w, fs) != 0 {
        var i :| 0 <= i < n && fs[..n][i].Event? && EventOf(w, fs[..n][i]).step == LastStep(w, fs);
        assert fs[i].Event? && EventOf(w, fs[i]).step == LastStep(w, fs);
      }
    }
  }

  lemma {:induction false} RecordsExact(w: World, fs: seq<Frame>, i: nat)
    requires i < |fs| && fs[i].Checkpoint?
    requires CheckpointStepsDiffer(fs)
    ensures fs[i].step in Records(w, fs) && Records(w, fs)[fs[i].step] == Record(w, i, fs[i])
  {
    var n := |fs| - 1;
    if i < n {
      RecordsExact(w, fs[..n], i);
    }
  }

  lemma {:induction false} RecordsOnlyFromFrames(w: World, fs: seq<Frame>, step: int)
    requires step in Records(w, fs)
    ensures exists i :: 0 <= i < |fs| && fs[i].Checkpoint? && fs[i].step == step
  {
    var n := |fs| - 1;
    if fs[n].Checkpoint? && fs[n].step == step {
    } else {
      RecordsOnlyFromFrames(w, fs[..n], step);
      var i :| 0 <= i < n && fs[..n][i].Checkpoint? && fs[..n][i].step == step;
      assert fs[i].Checkpoint? && fs[i].step == step;
    }
  }

  lemma RulesOfPrefix(c: RunnerContract, w: World, fs: seq<Frame>, n: nat, j: nat)
    requires ValidContract(c) && j < n <= |fs|
    ensures fs[..n][..j] == fs[..j]
    ensures fs[j].Event? ==> (EventRules(c, w, fs[..n], j) <==> EventRules(c, w, fs, j))
    ensures fs[j].Checkpoint? ==> (CheckpointRules(c, w, fs[..n], j) <==> CheckpointRules(c, w, fs, j))
  {
    assert fs[..n][..j] == fs[..j];
    assert forall i :: 0 <= i < j ==> fs[..n][i] == fs[i];
    if fs[j].Event? && w.decode(fs[j].payload).Some? {
      var e := EventOf(w, fs[j]);
      assert Announced(w, fs[..n], j, e.step, e.outputDigest) <==> Announced(w, fs, j, e.step, e.outputDigest);
    }
  }

  lemma {:induction false} TotalsGrow(fs: seq<Frame>, n: nat)
    requires n <= |fs|
    ensures LogBytes(fs[..n]) <= LogBytes(fs) && EventCount(fs[..n]) <= EventCount(fs)
  {
    if n == |fs| {
      assert fs[..n] == fs;
    } else {
      assert fs[..|fs| - 1][..n] == fs[..n];
      TotalsGrow(fs[..|fs| - 1], n);
    }
  }

  lemma ValidPrefix(c: RunnerContract, w: World, fs: seq<Frame>, n: nat)
    requires ValidContract(c) && ValidTrace(c, w, fs) && n <= |fs|
    ensures ValidTrace(c, w, fs[..n])
  {
    var p := fs[..n];
    TotalsGrow(fs, n);
    forall j | 0 <= j < n && p[j].Event? ensures EventRules(c, w, p, j) {
      RulesOfPrefix(c, w, fs, n, j);
      assert EventRules(c, w, fs, j);
    }
    forall j | 0 <= j < n && p[j].Checkpoint? ensures CheckpointRules(c, w, p, j) {
      RulesOfPrefix(c, w, fs, n, j);
      assert CheckpointRules(c, w, fs, j);
    }
    forall i, j | 0 <= i < j < n && p[i].Event? && p[j].Event? ensures EventOf(w, p[i]).step <= EventOf(w, p[j]).step {
      assert fs[i].Event? && fs[j].Event?;
    }
  }

  // ---------- one more frame ----------

  lemma CheckpointFrameExact(c: RunnerContract, w: World, fs: seq<Frame>, n: nat)
    requires ValidContract(c) && n < |fs| && fs[n].Checkpoint? && ValidTrace(c, w, fs[..n])
    ensures FrameProblem(c, w, fs[..n], fs[n]).None? <==>
              CheckpointRules(c, w, fs, n) && forall i :: 0 <= i < n && fs[i].Checkpoint? ==> fs[i].step != fs[n].step
  {
    var before := fs[..n];
    if fs[n].step in Records(w, before) {
      RecordsOnlyFromFrames(w, before, fs[n].step);
      var i :| 0 <= i < n && before[i].Checkpoint? && before[i].step == fs[n].step;
      assert fs[i].Checkpoint?;
    } else {
      forall i | 0 <= i < n && fs[i].Checkpoint? ensures fs[i].step != fs[n].step {
        RecordsExact(w, before, i);
      }
    }
  }

  lemma AnnouncedExact(c: RunnerContract, w: World, fs: seq<Frame>, n: nat, step: int, digest: Option<string>)
    requires ValidContract(c) && n <= |fs| && ValidTrace(c, w, fs[..n])
    ensures Announced(w, fs, n, step, digest) <==>
              step in Records(w, fs[..n]) && digest == Some(Records(w, fs[..n])[step].digest)
  {
    var before := fs[..n];
    if step in Records(w, before) {
      RecordsOnlyFromFrames(w, before, step);
      var i :| 0 <= i < n && before[i].Checkpoint? && before[i].step == step;
      RecordsExact(w, before, i);
      assert CheckpointRules(c, w, before, i);
      assert fs[i] == before[i];
    }
    if Announced(w, fs, n, step, digest) {
      var i :| 0 <= i < n && fs[i].Checkpoint? && fs[i].step == step
               && digest.Some? && w.sink(i) == Stored(digest.value);
      assert before[i] == fs[i];
      RecordsExact(w, before, i);
    }
  }

  lemma EventFrameExact(c: RunnerContract, w: World, fs: seq<Frame>, n: nat)
    requires ValidContract(c) && n < |fs| && fs[n].Event? && ValidTrace(c, w, fs[..n])
    ensures FrameProblem(c, w, fs[..n], fs[n]).None? <==>
              && EventCount(fs[..n]) + 1 <= c.maxEvents && EventRules(c, w, fs, n)
              && forall i :: 0 <= i < n && fs[i].Event? ==> EventOf(w, fs[..n][i]).step <= EventOf(w, fs[n]).step
  {
    var before := fs[..n];
    LastStepIsLargest(c, w, before);
    if w.decode(fs[n].payload).Some? {
      var e := EventOf(w, fs[n]);
      AnnouncedExact(c, w, fs, n, e.step, e.outputDigest);
      if e.step >= 0 && (forall i :: 0 <= i < n && fs[i].Event? ==> EventOf(w, before[i]).step <= e.step) {
        assert LastStep(w, before) <= e.step;
      }
    }
  }

  lemma ExtendedRules(c: RunnerContract, w: World, fs: seq<Frame>, n: nat)
    requires ValidContract(c) && |fs| == n + 1 && ValidTrace(c, w, fs[..n])
    requires fs[n].Event? ==> EventRules(c, w, fs, n)
    requires fs[n].Checkpoint? ==> CheckpointRules(c, w, fs, n)
    ensures forall j :: 0 <= j < |fs| && fs[j].Event? ==> EventRules(c, w, fs, j)
    ensures forall j :: 0 <= j < |fs| && fs[j].Checkpoint? ==> CheckpointRules(c, w, fs, j)
  {
    var before := fs[..n];
    forall j | 0 <= j < n && fs[j].Event? ensures EventRules(c, w, fs, j) {
      RulesOfPrefix(c, w, fs, n, j);
      assert EventRules(c, w, before, j);
    }
    forall j | 0 <= j < n && fs[j].Checkpoint? ensures CheckpointRules(c, w, fs, j) {
      RulesOfPrefix(c, w, fs, n, j);
      assert CheckpointRules(c, w, before, j);
    }
  }

  lemma ExtendedSteps(c: RunnerContract, w: World, fs: seq<Frame>, n: nat)
    requires ValidContract(c) && |fs| == n + 1 && ValidTrace(c, w, fs[..n])
    requires fs[n].Event? ==> w.decode(fs[n].payload).Some?
    requires fs[n].Event? ==>
               forall i :: 0 <= i < n && fs[i].Event? ==> EventOf(w, fs[..n][i]).step <= EventOf(w, fs[n]).step
    ensures forall j :: 0 <= j < |fs| && fs[j].Event? ==> w.decode(fs[j].payload).Some?
    ensures StepsNeverDecrease(w, fs)
  {
    var before := fs[..n];
    forall j | 0 <= j < |fs| && fs[j].Event? ensures w.decode(fs[j].payload).Some? {
      assert j < n ==> EventRules(c, w, before, j);
    }
    forall i, j | 0 <= i < j < |fs| && fs[i].Event? && fs[j].Event?
      ensures EventOf(w, fs[i]).step <= EventOf(w, fs[j]).step
    {
      assert fs[i] == before[i] && (j < n ==> fs[j] == before[j]);
    }
  }

  lemma ExtendedCheckpointSteps(fs: seq<Frame>, n: nat)
    requires |fs| == n + 1 && CheckpointStepsDiffer(fs[..n])
    requires fs[n].Checkpoint? ==> forall i :: 0 <= i < n && fs[i].Checkpoint? ==> fs[i].step != fs[n].step
    ensures CheckpointStepsDiffer(fs)
  {
    var before := fs[..n];
    forall i, j | 0 <= i < j < |fs| && fs[i].Checkpoint? && fs[j].Checkpoint? ensures fs[i].step != fs[j].step {
      assert fs[i] == before[i] && (j < n ==> fs[j] == before[j]);
    }
  }

  lemma ExtendedTrace(c: RunnerContract, w: World, fs: seq<Frame>, n: nat)
    requires ValidContract(c) && |fs| == n + 1 && ValidTrace(c, w, fs[..n]) && FrameProblem(c, w, fs[..n], fs[n]).None?
    ensures ValidTrace(c, w, fs)
  {
    TotalsStep(w, fs, n);
    assert fs[..n + 1] == fs;
    if fs[n].Event? {
      EventFrameExact(c, w, fs, n);
    } else if fs[n].Checkpoint? {
      CheckpointFrameExact(c, w, fs, n);
    }
    ExtendedRules(c, w, fs, n);
    ExtendedSteps(c, w, fs, n);
    ExtendedCheckpointSteps(fs, n);
  }

  lemma LastFrameAccepted(c: RunnerContract, w: World, fs: seq<Frame>, n: nat)
    requires ValidContract(c) && |fs| == n + 1 && ValidTrace(c, w, fs)
    ensures ValidTrace(c, w, fs[..n]) && FrameProblem(c, w, fs[..n], fs[n]).None?
  {
    ValidPrefix(c, w, fs, n);
    TotalsStep(w, fs, n);
    assert fs[..n + 1] == fs;
    if fs[n].Event? {
      EventFrameExact(c, w, fs, n);
    } else if fs[n].Checkpoint? {
      CheckpointFrameExact(c, w, fs, n);
    }
  }

  /** The frames that the loop accepts one by one are exactly the valid traces. */
  lemma {:induction false} TraceExact(c: RunnerContract, w: World, fs: seq<Frame>)
    requires ValidContract(c)
    ensures AllAccepted(c, w, fs) <==> ValidTrace(c, w, fs)
  {
    if fs != [] {
      var n := |fs| - 1;
      var before := fs[..n];
      TraceExact(c, w, before);
      assert forall j :: 0 <= j < n ==> before[..j] == fs[..j];
      if AllAccepted(c, w, fs) {
        forall j | 0 <= j < n ensures FrameProblem(c, w, before[..j], before[j]).None? {
          assert FrameProblem(c, w, fs[..j], fs[j]).None?;
        }
        ExtendedTrace(c, w, fs, n);
      }
      if ValidTrace(c, w, fs) {
        LastFrameAccepted(c, w, fs, n);
        forall j | 0 <= j < |fs| ensures FrameProblem(c, w, fs[..j], fs[j]).None? {
          if j < n {
            assert FrameProblem(c, w, before[..j], before[j]).None?;
          }
        }
      }
    }
  }
}
