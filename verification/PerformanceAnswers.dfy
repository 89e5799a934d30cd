/** Exactly which measurements are accepted, and what they report. */
module PerformanceAnswers {
  import opened Prelude
  import opened ByteStrings
  import opened Performance

  // ---------- the rules of the intervals ----------

  /** Interval `j` is the latest one with work before interval `k`. */
  ghost predicate IsLastWork(s: seq<WorkInterval>, j: nat, k: nat)
    requires j < k <= |s|
  {
    !s[j].phase.Checkpoint? && forall i :: j < i < k ==> s[i].phase.Checkpoint?
  }

  ghost predicate ActiveBefore(s: seq<WorkInterval>, k: nat)
    requires k <= |s|
  {
    exists j :: 0 <= j < k && s[j].phase.Active?
  }

  /** The steps of interval `k` go on where the latest work before it ended. */
  ghost predicate GoesOn(s: seq<WorkInterval>, k: nat)
    requires k < |s|
  {
    forall j :: 0 <= j < k && IsLastWork(s, j, k) ==> s[k].firstStep == s[j].lastStep + 1
  }

  /** Complete, synchronized, in order, not too long, and with the batches of its steps. */
  predicate StandsAlone(p: PerformancePolicy, v: WorkInterval) {
    && v.endNs - v.startNs <= p.maximumIntervalNs
    && v.complete && v.synchronizedBefore && v.synchronizedAfter
    && (v.phase.Checkpoint? || v.completedBatches == (v.lastStep - v.firstStep + 1) * p.batchesPerStep)
  }

  /**
   What interval `k` has to respect: its own rules, its place in the run, warm-up only before and
   checkpoints only after the first active interval, and steps that go on where the last work ended.
   */
  ghost predicate FollowsRules(p: PerformancePolicy, s: seq<WorkInterval>, k: nat)
    requires k < |s|
  {
    && StandsAlone(p, s[k]) && s[k].sequence == k
    && (k > 0 ==> s[k - 1].endNs <= s[k].startNs)
    && (s[k].phase.Checkpoint? ==> ActiveBefore(s, k))
    && (s[k].phase.Warmup? ==> !ActiveBefore(s, k))
    && (!s[k].phase.Checkpoint? ==> GoesOn(s, k))
  }

  lemma {:induction false} LastWorkStepExact(s: seq<WorkInterval>)
    ensures LastWorkStep(s).None? <==> forall j :: 0 <= j < |s| ==> !IsLastWork(s, j, |s|)
    ensures forall j :: 0 <= j < |s| && IsLastWork(s, j, |s|) ==> LastWorkStep(s) == Some(s[j].lastStep)
  {
    if s != [] {
      var n := |s| - 1;
      if s[n].phase.Checkpoint? {
        var t := s[..n];
        LastWorkStepExact(t);
        forall j | 0 <= j < n ensures IsLastWork(s, j, |s|) <==> IsLastWork(t, j, n) {
          SameLastWork(s, j);
        }
      } else {
        assert IsLastWork(s, n, |s|);
        forall j | 0 <= j < n ensures !IsLastWork(s, j, |s|) {
          assert !s[n].phase.Checkpoint?;
        }
      }
    }
  }

  lemma SameLastWork(s: seq<WorkInterval>, j: nat)
    requires j < |s| - 1 && s[|s| - 1].phase.Checkpoint?
    ensures IsLastWork(s, j, |s|) <==> IsLastWork(s[..|s| - 1], j, |s| - 1)
  {
    var t := s[..|s| - 1];
    if IsLastWork(t, j, |t|) {
      forall i | j < i < |s| ensures s[i].phase.Checkpoint? {
        assert i < |t| ==> t[i].phase.Checkpoint?;
      }
    }
    if IsLastWork(s, j, |s|) {
      forall i | j < i < |t| ensures t[i].phase.Checkpoint? {
        assert s[i].phase.Checkpoint?;
      }
    }
  }

  lemma HasActiveExact(s: seq<WorkInterval>)
    ensures HasActive(s) <==> ActiveBefore(s, |s|)
  {
    FirstActiveIsFirst(s);
  }

  lemma GoesOnExact(s: seq<WorkInterval>, k: nat)
    requires k < |s|
    ensures GoesOn(s, k) <==>
              LastWorkStep(s[..k]).Some? ==> s[k].firstStep == LastWorkStep(s[..k]).value + 1
  {
    var before := s[..k];
    LastWorkStepExact(before);
    forall j | 0 <= j < k ensures IsLastWork(before, j, k) <==> IsLastWork(s, j, k) && before[j] == s[j] {
    }
  }

  lemma ActiveBeforeExact(s: seq<WorkInterval>, k: nat)
    requires k < |s|
    ensures HasActive(s[..k]) <==> ActiveBefore(s, k)
  {
    HasActiveExact(s[..k]);
  }

  /** The check of one interval accepts it exactly when it follows the rules. */
  lemma IntervalExact(p: PerformancePolicy, s: seq<WorkInterval>, k: nat)
    requires k < |s|
    ensures IntervalProblem(p, s[..k], s[k]).None? <==> FollowsRules(p, s, k)
  {
    ActiveBeforeExact(s, k);
    GoesOnExact(s, k);
    assert k > 0 ==> s[..k][k - 1] == s[k - 1];
  }

  /** The scan accepts a run exactly when every interval follows the rules. */
  lemma {:induction false} ScanExact(p: PerformancePolicy, s: seq<WorkInterval>, n: nat)
    requires n <= |s|
    ensures ScanProblem(p, s[..n]).None? <==> forall k :: 0 <= k < n ==> FollowsRules(p, s, k)
  {
    if n > 0 {
      ScanExact(p, s, n - 1);
      IntervalExact(p, s, n - 1);
      assert s[..n][..n - 1] == s[..n - 1];
    }
  }

  // ---------- accepted runs ----------

  /** The run is of the policy's job on the policy's hardware, and its set-up was short enough. */
  predicate FitsPolicy(p: PerformancePolicy, run: PerformanceRun) {
    && run.manifestDigest == p.manifestDigest && run.leaseDigest == p.leaseDigest
    && run.precision == p.precision && run.modelShapeDigest == p.modelShapeDigest
    && run.gpuCount == p.gpuCount && run.globalBatchSize == p.globalBatchSize
    && run.fetchNs + run.setupNs <= p.maximumSetupNs
  }

  /** What one sample counts in the policy's unit. */
  function UnitsPerSample(p: PerformancePolicy): int {
    if p.unit.Samples? then 1 else if p.unit.Tokens? then p.tokensPerSample else p.flopProxyPerSample
  }

  /** Enough work, within the bounds on time, observation and size. */
  predicate WithinLimits(p: PerformancePolicy, run: PerformanceRun)
    requires run.intervals != []
  {
    var s := run.intervals;
    && PhaseSteps(Warmup, s) >= p.minimumWarmupSteps && PhaseSteps(Active, s) >= p.minimumActiveSteps
    && HasActive(s) && PhaseNs(Checkpoint, s) <= p.maximumCheckpointNs && ActiveNs(s) <= p.maximumActiveNs
    && run.fetchNs + run.setupNs + (s[|s| - 1].endNs - s[0].startNs) <= run.validatorObservedNs
    && run.validatorObservedNs <= p.maximumValidatorObservedNs
    && PhaseSteps(Active, s) * p.batchesPerStep * p.globalBatchSize * UnitsPerSample(p) <= MAX_INT63
  }

  lemma UnitsExact(p: PerformancePolicy, s: seq<WorkInterval>)
    requires ScanProblem(p, s).None?
    ensures AcceptedUnits(p, s) == PhaseSteps(Active, s) * p.batchesPerStep * p.globalBatchSize * UnitsPerSample(p)
  {
    BatchesAreSteps(p, s);
  }

  /** A measurement succeeds exactly when the run fits the policy, follows the rules and keeps the limits. */
  lemma AcceptedExact(p: PerformancePolicy, run: PerformanceRun)
    requires ValidPolicy(p) && ValidRun(run)
    ensures Measured(p, run).Ok? <==>
              && FitsPolicy(p, run) && (forall k :: 0 <= k < |run.intervals| ==> FollowsRules(p, run.intervals, k))
              && WithinLimits(p, run)
  {
    var s := run.intervals;
    ScanExact(p, s, |s|);
    assert s[..|s|] == s;
    if ScanProblem(p, s).None? {
      UnitsExact(p, s);
    }
  }

  // ---------- refused runs ----------

  /** Interval `k` has its number and its place after the one before it, and is not too long. */
  predicate InTime(p: PerformancePolicy, s: seq<WorkInterval>, k: nat)
    requires k < |s|
  {
    && s[k].sequence == k && s[k].endNs - s[k].startNs <= p.maximumIntervalNs
    && (k > 0 ==> s[k - 1].endNs <= s[k].startNs)
  }

  /** The first interval that breaks a rule decides the error, by the first rule that it breaks. */
  lemma RefusedInterval(p: PerformancePolicy, run: PerformanceRun, k: nat)
    requires ValidRun(run) && FitsPolicy(p, run) && k < |run.intervals|
    requires forall j :: 0 <= j < k ==> FollowsRules(p, run.intervals, j)
    requires !FollowsRules(p, run.intervals, k)
    ensures var s, v := run.intervals, run.intervals[k];
            var synchronized := v.synchronizedBefore && v.synchronizedAfter;
            var batches := (v.lastStep - v.firstStep + 1) * p.batchesPerStep;
            Measured(p, run) == Err(
              if !InTime(p, s, k) then TimerInvalid
              else if !v.complete then PartialResult
              else if !synchronized then SynchronizationMissing
              else if v.phase.Checkpoint? then TimerInvalid
              else if !GoesOn(s, k) then PartialResult
              else if v.completedBatches != batches then BatchInflation
              else TimerInvalid)
  {
    var s := run.intervals;
    ScanExact(p, s, k);
    IntervalExact(p, s, k);
    GoesOnExact(s, k);
    ActiveBeforeExact(s, k);
    ProblemStep(p, s, k);
  }

  /** A run of another job or on other hardware, or one that breaks a limit, is refused for that. */
  lemma RefusedRun(p: PerformancePolicy, run: PerformanceRun)
    requires ValidPolicy(p) && ValidRun(run)
    ensures var s := run.intervals;
            var sameJob := run.manifestDigest == p.manifestDigest && run.leaseDigest == p.leaseDigest;
            var sameHardware := run.precision == p.precision && run.modelShapeDigest == p.modelShapeDigest
                                && run.gpuCount == p.gpuCount && run.globalBatchSize == p.globalBatchSize;
            && (!sameJob ==> Measured(p, run) == Err(IdentityMismatch))
            && (sameJob && !sameHardware ==> Measured(p, run) == Err(MetadataMismatch))
            && (sameJob && sameHardware && run.fetchNs + run.setupNs > p.maximumSetupNs ==>
                  Measured(p, run) == Err(TimerInvalid))
    ensures var s := run.intervals;
            FitsPolicy(p, run) && (forall k :: 0 <= k < |s| ==> FollowsRules(p, s, k)) && !WithinLimits(p, run) ==>
              Measured(p, run) == Err(
                if PhaseSteps(Warmup, s) < p.minimumWarmupSteps then WarmupInsufficient
                else if PhaseSteps(Active, s) < p.minimumActiveSteps then WorkInsufficient
                else if PhaseNs(Checkpoint, s) > p.maximumCheckpointNs then TimerInvalid
                else if HasActive(s) && ActiveNs(s) > p.maximumActiveNs then TimerInvalid
                else if run.fetchNs + run.setupNs + (s[|s| - 1].endNs - s[0].startNs) > run.validatorObservedNs
                        || run.validatorObservedNs > p.maximumValidatorObservedNs then ObserverBound
                else Invalid)
  {
    var s := run.intervals;
    ScanExact(p, s, |s|);
    assert s[..|s|] == s;
    if ScanProblem(p, s).None? {
      UnitsExact(p, s);
      UnitsArePositive(p, s);
    }
  }

  /**
   The report of an accepted run: the units are active steps times batches, batch size and units per
   sample; the rate is thousandths of units per second, rounded down; everything else is as measured.
   */
  lemma ReportExact(p: PerformancePolicy, run: PerformanceRun)
    requires ValidPolicy(p) && ValidRun(run) && Measured(p, run).Ok?
    ensures var s, r := run.intervals, Measured(p, run).value;
            var samples := PhaseSteps(Active, s) * p.batchesPerStep * p.globalBatchSize;
            && r.unit == p.unit && r.activeSteps == PhaseSteps(Active, s)
            && (p.unit.Samples? ==> r.acceptedUnits == samples)
            && (p.unit.Tokens? ==> r.acceptedUnits == samples * p.tokensPerSample)
            && (p.unit.FlopProxy? ==> r.acceptedUnits == samples * p.flopProxyPerSample)
            && r.activeNs > 0 && HasActive(s) && r.activeNs == ActiveNs(s)
            && r.rate * r.activeNs <= r.acceptedUnits * 1000000000000 < (r.rate + 1) * r.activeNs
            && r.excludedNs == run.fetchNs + run.setupNs + PhaseNs(Warmup, s) + PhaseNs(Checkpoint, s)
            && r.globalBatchSize == run.globalBatchSize && r.precision == run.precision
            && r.modelShapeDigest == run.modelShapeDigest && r.gpuCount == run.gpuCount
            && r.validatorObservedNs == run.validatorObservedNs
  {
    var s := run.intervals;
    BatchesAreSteps(p, s);
    ActiveTimeIsPositive(p, s);
    QuotientExact(AcceptedUnits(p, s) * MILLI_NANOSECONDS, ActiveNs(s));
  }

  lemma QuotientExact(n: int, d: int)
    requires d > 0
    ensures n / d * d <= n < (n / d + 1) * d
  {
  }
}
