/** Useful-work measurement over ordered, synchronized intervals. */
module Performance {
  import opened Prelude
  import opened ByteStrings

  const MAX_INTERVALS := 100000
  const MILLI_NANOSECONDS := 1000000000000

  datatype WorkUnit = Samples | Tokens | FlopProxy

  datatype Precision = Bf16 | Fp16 | Fp32 | Tf32

  datatype Phase = Warmup | Active | Checkpoint

  datatype ErrorCode =
    | Invalid | IdentityMismatch | MetadataMismatch | TimerInvalid | SynchronizationMissing
    | PartialResult | BatchInflation | WarmupInsufficient | WorkInsufficient | ObserverBound

  datatype PerformancePolicy = PerformancePolicy(
    manifestDigest: string, leaseDigest: string, unit: WorkUnit, globalBatchSize: int,
    tokensPerSample: int, flopProxyPerSample: int, batchesPerStep: int, precision: Precision,
    modelShapeDigest: string, gpuCount: int, minimumWarmupSteps: int, minimumActiveSteps: int,
    maximumIntervalNs: int, maximumActiveNs: int, maximumCheckpointNs: int, maximumSetupNs: int,
    maximumValidatorObservedNs: int)

  datatype WorkInterval = WorkInterval(
    sequence: int, phase: Phase, startNs: int, endNs: int, firstStep: int, lastStep: int,
    completedBatches: int, synchronizedBefore: bool, synchronizedAfter: bool, complete: bool)

  datatype PerformanceRun = PerformanceRun(
    manifestDigest: string, leaseDigest: string, precision: Precision, modelShapeDigest: string,
    gpuCount: int, globalBatchSize: int, fetchNs: int, setupNs: int, validatorObservedNs: int,
    intervals: seq<WorkInterval>)

  datatype PerformanceResult = PerformanceResult(
    unit: WorkUnit, acceptedUnits: int, activeNs: int, excludedNs: int, rate: int, activeSteps: int,
    globalBatchSize: int, precision: Precision, modelShapeDigest: string, gpuCount: int,
    validatorObservedNs: int)

  // ---------- constructor rules ----------

  predicate ValidPolicy(p: PerformancePolicy) {
    && IsDigest(p.manifestDigest) && IsDigest(p.leaseDigest) && IsDigest(p.modelShapeDigest)
    && 1 <= p.globalBatchSize <= 10000000 && 1 <= p.tokensPerSample <= 10000000
    && 1 <= p.flopProxyPerSample <= MAX_INT63 && 1 <= p.batchesPerStep <= 1000000
    && 1 <= p.gpuCount <= 16384
    && 0 <= p.minimumWarmupSteps <= 1000000 && 1 <= p.minimumActiveSteps <= 1000000000
    && 1 <= p.maximumIntervalNs <= p.maximumActiveNs <= MAX_INT63
    && 0 <= p.maximumCheckpointNs <= MAX_INT63 && 0 <= p.maximumSetupNs <= MAX_INT63
    && 1 <= p.maximumValidatorObservedNs <= MAX_INT63
  }

  predicate ValidInterval(v: WorkInterval) {
    && 0 <= v.sequence <= MAX_INT63
    && 0 <= v.startNs < v.endNs <= MAX_INT63
    && if v.phase.Checkpoint? then v.firstStep == 0 && v.lastStep == 0 && v.completedBatches == 0
       else 1 <= v.firstStep <= v.lastStep <= MAX_INT63 && 1 <= v.completedBatches <= MAX_INT63
  }

  predicate ValidIntervals(s: seq<WorkInterval>) {
    forall i :: 0 <= i < |s| ==> ValidInterval(s[i])
  }

  predicate ValidRun(run: PerformanceRun) {
    && IsDigest(run.manifestDigest) && IsDigest(run.leaseDigest) && IsDigest(run.modelShapeDigest)
    && 1 <= run.gpuCount <= 16384 && 1 <= run.globalBatchSize <= 10000000
    && 0 <= run.fetchNs <= MAX_INT63 && 0 <= run.setupNs <= MAX_INT63
    && 1 <= run.validatorObservedNs <= MAX_INT63
    && 1 <= |run.intervals| <= MAX_INTERVALS && ValidIntervals(run.intervals)
  }

  function Duration(v: WorkInterval): int { v.endNs - v.startNs }

  function CompletedSteps(v: WorkInterval): int {
    if v.phase.Checkpoint? then 0 else v.lastStep - v.firstStep + 1
  }

  // ---------- totals ----------

  function Total(weight: WorkInterval -> int, s: seq<WorkInterval>): int {
    if s == [] then 0 else Total(weight, s[..|s| - 1]) + weight(s[|s| - 1])
  }

  function InPhase(phase: Phase, weight: WorkInterval -> int): WorkInterval -> int {
    (v: WorkInterval) => if v.phase == phase then weight(v) else 0
  }

  function BatchesOf(v: WorkInterval): int { v.completedBatches }

  function PhaseNs(phase: Phase, s: seq<WorkInterval>): int { Total(InPhase(phase, Duration), s) }

  function PhaseSteps(phase: Phase, s: seq<WorkInterval>): int { Total(InPhase(phase, CompletedSteps), s) }

  function ActiveBatches(s: seq<WorkInterval>): int { Total(InPhase(Active, BatchesOf), s) }

  /** The idle time between consecutive intervals. */
  function Gaps(s: seq<WorkInterval>): int {
    if |s| <= 1 then 0 else Gaps(s[..|s| - 1]) + s[|s| - 1].startNs - s[|s| - 2].endNs
  }

  function Elapsed(s: seq<WorkInterval>): int
    requires s != []
  {
    s[|s| - 1].endNs - s[0].startNs
  }

  // ---------- the active span ----------

  /** The index of the first active interval, or the length. */
  function FirstActive(s: seq<WorkInterval>): (i: nat)
    ensures i <= |s|
  {
    if s == [] || s[0].phase.Active? then 0 else 1 + FirstActive(s[1..])
  }

  predicate HasActive(s: seq<WorkInterval>) {
    FirstActive(s) < |s|
  }

  /** One past the index of the last active interval, or zero. */
  function EndOfActive(s: seq<WorkInterval>): (i: nat)
    ensures i <= |s|
  {
    if s == [] || s[|s| - 1].phase.Active? then |s| else EndOfActive(s[..|s| - 1])
  }

  lemma {:induction false} FirstActiveIsFirst(s: seq<WorkInterval>)
    ensures FirstActive(s) < |s| ==> s[FirstActive(s)].phase.Active?
    ensures forall j :: 0 <= j < FirstActive(s) ==> !s[j].phase.Active?
  {
    if s != [] && !s[0].phase.Active? {
      var rest := s[1..];
      FirstActiveIsFirst(rest);
      forall j | 0 <= j < FirstActive(s) ensures !s[j].phase.Active? {
        assert j > 0 ==> s[j] == rest[j - 1];
      }
    }
  }

  lemma {:induction false} EndOfActiveIsEnd(s: seq<WorkInterval>)
    ensures EndOfActive(s) > 0 ==> s[EndOfActive(s) - 1].phase.Active?
    ensures forall j :: EndOfActive(s) <= j < |s| ==> !s[j].phase.Active?
  {
    if s != [] && !s[|s| - 1].phase.Active? {
      EndOfActiveIsEnd(s[..|s| - 1]);
    }
  }

  lemma ActiveBounds(s: seq<WorkInterval>)
    requires HasActive(s)
    ensures FirstActive(s) < EndOfActive(s)
  {
    FirstActiveIsFirst(s);
    EndOfActiveIsEnd(s);
  }

  /** The intervals from the first active one to the last active one. */
  function Core(s: seq<WorkInterval>): (c: seq<WorkInterval>)
    requires HasActive(s)
    ensures c != []
  {
    ActiveBounds(s);
    s[FirstActive(s)..EndOfActive(s)]
  }

  /** The active time: the active span without the checkpoints that lie between active intervals. */
  function ActiveNs(s: seq<WorkInterval>): int
    requires HasActive(s)
  {
    Elapsed(Core(s)) - PhaseNs(Checkpoint, Core(s))
  }

  // ---------- what makes a run acceptable ----------

  /** The last step of the latest warm-up or active interval. */
  function LastWorkStep(s: seq<WorkInterval>): Option<int> {
    if s == [] then None
    else if s[|s| - 1].phase.Checkpoint? then LastWorkStep(s[..|s| - 1])
    else Some(s[|s| - 1].lastStep)
  }

  /** The reason to refuse an interval after the intervals before it. */
  function IntervalProblem(p: PerformancePolicy, before: seq<WorkInterval>, v: WorkInterval): Option<ErrorCode> {
    if v.sequence != |before| || Duration(v) > p.maximumIntervalNs
       || (before != [] && v.startNs < before[|before| - 1].endNs) then Some(TimerInvalid)
    else if !v.complete then Some(PartialResult)
    else if !v.synchronizedBefore || !v.synchronizedAfter then Some(SynchronizationMissing)
    else if v.phase.Checkpoint? then if HasActive(before) then None else Some(TimerInvalid)
    else if LastWorkStep(before).Some? && v.firstStep != LastWorkStep(before).value + 1 then Some(PartialResult)
    else if v.completedBatches != CompletedSteps(v) * p.batchesPerStep then Some(BatchInflation)
    else if v.phase.Warmup? && HasActive(before) then Some(TimerInvalid)
    else None
  }

  /** The reason to refuse the first refused interval. */
  function ScanProblem(p: PerformancePolicy, s: seq<WorkInterval>): Option<ErrorCode> {
    if s == [] then None
    else
      var problem := ScanProblem(p, s[..|s| - 1]);
      if problem.Some? then problem else IntervalProblem(p, s[..|s| - 1], s[|s| - 1])
  }

  function HeaderProblem(p: PerformancePolicy, run: PerformanceRun): Option<ErrorCode> {
    if run.manifestDigest != p.manifestDigest || run.leaseDigest != p.leaseDigest then Some(IdentityMismatch)
    else if run.precision != p.precision || run.modelShapeDigest != p.modelShapeDigest
            || run.gpuCount != p.gpuCount || run.globalBatchSize != p.globalBatchSize then Some(MetadataMismatch)
    else if run.fetchNs + run.setupNs > p.maximumSetupNs then Some(TimerInvalid)
    else None
  }

  function Units(p: PerformancePolicy, samples: int): int {
    match p.unit
    case Samples => samples
    case Tokens => samples * p.tokensPerSample
    case FlopProxy => samples * p.flopProxyPerSample
  }

  function AcceptedUnits(p: PerformancePolicy, s: seq<WorkInterval>): int {
    Units(p, ActiveBatches(s) * p.globalBatchSize)
  }

  function Rate(units: int, activeNs: int): int
    requires activeNs > 0
  {
    units * MILLI_NANOSECONDS / activeNs
  }

  /** The reason to refuse a run whose intervals are acceptable one by one. */
  function SummaryProblem(p: PerformancePolicy, run: PerformanceRun): Option<ErrorCode>
    requires run.intervals != []
  {
    var s := run.intervals;
    if PhaseSteps(Warmup, s) < p.minimumWarmupSteps then Some(WarmupInsufficient)
    else if PhaseSteps(Active, s) < p.minimumActiveSteps || !HasActive(s) then Some(WorkInsufficient)
    else if PhaseNs(Checkpoint, s) > p.maximumCheckpointNs || ActiveNs(s) > p.maximumActiveNs then Some(TimerInvalid)
    else if !(run.fetchNs + run.setupNs + Elapsed(s) <= run.validatorObservedNs <= p.maximumValidatorObservedNs)
    then Some(ObserverBound)
    else if AcceptedUnits(p, s) > MAX_INT63 then Some(Invalid)
    else None
  }

  function Summary(p: PerformancePolicy, run: PerformanceRun): PerformanceResult
    requires HasActive(run.intervals) && ActiveNs(run.intervals) > 0
  {
    var s := run.intervals;
    PerformanceResult(
      p.unit, AcceptedUnits(p, s), ActiveNs(s),
      run.fetchNs + run.setupNs + PhaseNs(Warmup, s) + PhaseNs(Checkpoint, s),
      Rate(AcceptedUnits(p, s), ActiveNs(s)), PhaseSteps(Active, s), p.globalBatchSize, p.precision,
      p.modelShapeDigest, p.gpuCount, run.validatorObservedNs)
  }

  /** What `measure` returns. */
  function Measured(p: PerformancePolicy, run: PerformanceRun): Result<PerformanceResult, ErrorCode>
    requires ValidRun(run)
  {
    if HeaderProblem(p, run).Some? then Err(HeaderProblem(p, run).value)
    else if ScanProblem(p, run.intervals).Some? then Err(ScanProblem(p, run.intervals).value)
    else if SummaryProblem(p, run).Some? then Err(SummaryProblem(p, run).value)
    else
      ActiveTimeIsPositive(p, run.intervals);
      Ok(Summary(p, run))
  }

  // ---------- totals of parts ----------

  lemma {:induction false} TotalConcat(weight: WorkInterval -> int, a: seq<WorkInterval>, b: seq<WorkInterval>)
    ensures Total(weight, a + b) == Total(weight, a) + Total(weight, b)
  {
    if b == [] {
      assert a + b == a;
    } else {
      TotalConcat(weight, a, b[..|b| - 1]);
      assert (a + b)[..|a + b| - 1] == a + b[..|b| - 1];
    }
  }

  lemma {:induction false} TotalAgree(u: WorkInterval -> int, w: WorkInterval -> int, s: seq<WorkInterval>)
    requires forall i :: 0 <= i < |s| ==> u(s[i]) == w(s[i])
    ensures Total(u, s) == Total(w, s)
  {
    if s != [] {
      TotalAgree(u, w, s[..|s| - 1]);
    }
  }

  lemma {:induction false} TotalZero(w: WorkInterval -> int, s: seq<WorkInterval>)
    requires forall i :: 0 <= i < |s| ==> w(s[i]) == 0
    ensures Total(w, s) == 0
  {
    if s != [] {
      TotalZero(w, s[..|s| - 1]);
    }
  }

  lemma {:induction false} TotalNonNegative(w: WorkInterval -> int, s: seq<WorkInterval>, i: nat)
    requires i < |s| && forall j :: 0 <= j < |s| ==> w(s[j]) >= 0
    ensures Total(w, s) >= w(s[i])
  {
    var n := |s| - 1;
    if i < n {
      TotalNonNegative(w, s[..n], i);
    } else if n > 0 {
      TotalNonNegative(w, s[..n], 0);
    }
  }

  /** Every interval is warm-up, active or checkpoint time. */
  lemma {:induction false} DurationsByPhase(s: seq<WorkInterval>)
    ensures Total(Duration, s) == PhaseNs(Warmup, s) + PhaseNs(Active, s) + PhaseNs(Checkpoint, s)
  {
    if s != [] {
      DurationsByPhase(s[..|s| - 1]);
    }
  }

  /** Time passes either inside an interval or between two of them. */
  lemma {:induction false} ElapsedIsDurationsAndGaps(s: seq<WorkInterval>)
    requires s != []
    ensures Elapsed(s) == Total(Duration, s) + Gaps(s)
  {
    if |s| > 1 {
      ElapsedIsDurationsAndGaps(s[..|s| - 1]);
    } else {
      assert s[..0] == [];
    }
  }

  lemma {:induction false} GapsSplit(s: seq<WorkInterval>, i: nat)
    requires i < |s|
    ensures Gaps(s) == Gaps(s[..i + 1]) + Gaps(s[i..])
  {
    var n := |s| - 1;
    if i < n {
      GapsSplit(s[..n], i);
      assert s[..n][..i + 1] == s[..i + 1];
      assert s[i..][..|s[i..]| - 1] == s[..n][i..];
    } else {
      assert s[..i + 1] == s;
    }
  }

  // ---------- what an accepted scan guarantees ----------

  ghost predicate Ordered(s: seq<WorkInterval>) {
    forall i, j :: 0 <= i < j < |s| ==> s[i].endNs <= s[j].startNs
  }

  lemma FirstActivePrefix(s: seq<WorkInterval>, n: nat)
    requires n <= |s|
    ensures FirstActive(s[..n]) == Min(FirstActive(s), n)
    ensures HasActive(s[..n]) <==> FirstActive(s) < n
  {
    var f, g := FirstActive(s), FirstActive(s[..n]);
    FirstActiveIsFirst(s);
    FirstActiveIsFirst(s[..n]);
    if f < n {
      assert s[..n][f].phase.Active?;
    }
    if g < n {
      assert s[..n][g] == s[g];
    }
  }

  lemma {:induction false} ScanPrefix(p: PerformancePolicy, s: seq<WorkInterval>, i: nat)
    requires i < |s| && ScanProblem(p, s).None?
    ensures ScanProblem(p, s[..i]).None? && IntervalProblem(p, s[..i], s[i]).None?
  {
    var n := |s| - 1;
    if i < n {
      ScanPrefix(p, s[..n], i);
      assert s[..n][..i] == s[..i];
    }
  }

  /** An accepted scan is in time order. */
  lemma {:induction false} ScanIsOrdered(p: PerformancePolicy, s: seq<WorkInterval>)
    requires ScanProblem(p, s).None? && ValidIntervals(s)
    ensures Ordered(s)
  {
    if |s| > 1 {
      var n := |s| - 1;
      ScanIsOrdered(p, s[..n]);
      forall i | 0 <= i < n ensures s[i].endNs <= s[n].startNs {
        assert s[..n][i].endNs <= s[..n][n - 1].endNs;
      }
    }
  }

  /** Warm-up comes first, then active time interrupted or followed by checkpoints. */
  lemma ScanPhases(p: PerformancePolicy, s: seq<WorkInterval>, i: nat)
    requires ScanProblem(p, s).None? && i < |s|
    ensures s[i].phase.Warmup? <==> i < FirstActive(s)
  {
    ScanPrefix(p, s, i);
    FirstActivePrefix(s, i);
    FirstActiveIsFirst(s);
  }

  lemma GapsNonNegative(s: seq<WorkInterval>)
    requires Ordered(s)
    ensures Gaps(s) >= 0
  {
    if |s| > 1 {
      GapsNonNegative(s[..|s| - 1]);
    }
  }

  lemma TotalThreeParts(weight: WorkInterval -> int, s: seq<WorkInterval>, f: nat, e: nat)
    requires f <= e <= |s|
    ensures Total(weight, s) == Total(weight, s[..f]) + Total(weight, s[f..e]) + Total(weight, s[e..])
  {
    assert s == s[..e] + s[e..] && s[..e] == s[..f] + s[f..e];
    TotalConcat(weight, s[..e], s[e..]);
    TotalConcat(weight, s[..f], s[f..e]);
  }

  /** The active intervals all lie in the core; the rest of it is checkpoints. */
  lemma CoreProperties(p: PerformancePolicy, s: seq<WorkInterval>)
    requires ScanProblem(p, s).None? && ValidIntervals(s) && HasActive(s)
    ensures PhaseNs(Active, Core(s)) == PhaseNs(Active, s) && PhaseNs(Warmup, Core(s)) == 0
  {
    var f, e := FirstActive(s), EndOfActive(s);
    ActiveBounds(s);
    FirstActiveIsFirst(s);
    EndOfActiveIsEnd(s);
    TotalThreeParts(InPhase(Active, Duration), s, f, e);
    TotalZero(InPhase(Active, Duration), s[..f]);
    TotalZero(InPhase(Active, Duration), s[e..]);
    forall i | 0 <= i < |Core(s)| ensures !Core(s)[i].phase.Warmup? {
      ScanPhases(p, s, f + i);
    }
    TotalZero(InPhase(Warmup, Duration), Core(s));
  }

  lemma CoreIsOrdered(p: PerformancePolicy, s: seq<WorkInterval>)
    requires ScanProblem(p, s).None? && ValidIntervals(s) && HasActive(s)
    ensures Ordered(Core(s))
  {
    ScanIsOrdered(p, s);
    ActiveBounds(s);
    var f := FirstActive(s);
    forall i, j | 0 <= i < j < |Core(s)| ensures Core(s)[i].endNs <= Core(s)[j].startNs {
      assert s[f + i].endNs <= s[f + j].startNs;
    }
  }

  /**
   The active time is the sum of the active intervals and of the gaps between the first and the last
   of them.
   */
  lemma ActiveTimeExact(p: PerformancePolicy, s: seq<WorkInterval>)
    requires ScanProblem(p, s).None? && ValidIntervals(s) && HasActive(s)
    ensures ActiveNs(s) == PhaseNs(Active, s) + Gaps(Core(s))
    ensures Gaps(Core(s)) >= 0
  {
    CoreProperties(p, s);
    CoreIsOrdered(p, s);
    ElapsedIsDurationsAndGaps(Core(s));
    DurationsByPhase(Core(s));
    GapsNonNegative(Core(s));
  }

  lemma DurationInPhase(phase: Phase, v: WorkInterval)
    ensures InPhase(phase, Duration)(v) == if v.phase == phase then Duration(v) else 0
  {
    var duration := Duration(v);
  }

  /** So the active time of an accepted scan is never zero or negative. */
  lemma ActiveTimeIsPositive(p: PerformancePolicy, s: seq<WorkInterval>)
    requires ScanProblem(p, s).None? && ValidIntervals(s) && HasActive(s)
    ensures ActiveNs(s) > 0
  {
    var f := FirstActive(s);
    ActiveTimeExact(p, s);
    FirstActiveIsFirst(s);
    forall i | 0 <= i < |s| ensures InPhase(Active, Duration)(s[i]) >= 0 {
      assert ValidInterval(s[i]);
      DurationInPhase(Active, s[i]);
    }
    TotalNonNegative(InPhase(Active, Duration), s, f);
    DurationInPhase(Active, s[f]);
    assert ValidInterval(s[f]) && PhaseNs(Active, s) > 0;
  }

  /** Batches are steps times the batches of one step. */
  lemma {:induction false} BatchesAreSteps(p: PerformancePolicy, s: seq<WorkInterval>)
    requires ScanProblem(p, s).None?
    ensures ActiveBatches(s) == PhaseSteps(Active, s) * p.batchesPerStep
  {
    if s != [] {
      var n := |s| - 1;
      BatchesAreSteps(p, s[..n]);
      var steps := InPhase(Active, CompletedSteps)(s[n]);
      Distribute(PhaseSteps(Active, s[..n]), steps, p.batchesPerStep);
      if s[n].phase.Active? {
        assert BatchesOf(s[n]) == CompletedSteps(s[n]) * p.batchesPerStep;
      } else {
        assert steps == 0 && steps * p.batchesPerStep == 0;
      }
    }
  }

  /** Enough active steps means that there is an active interval, and then there are accepted units. */
  lemma UnitsArePositive(p: PerformancePolicy, s: seq<WorkInterval>)
    requires ValidPolicy(p) && ScanProblem(p, s).None? && ValidIntervals(s)
    ensures PhaseSteps(Active, s) >= 1 <==> HasActive(s)
    ensures HasActive(s) ==> AcceptedUnits(p, s) > 0
  {
    FirstActiveIsFirst(s);
    if HasActive(s) {
      TotalNonNegative(InPhase(Active, CompletedSteps), s, FirstActive(s));
      BatchesAreSteps(p, s);
      ProductPositive(PhaseSteps(Active, s), p.batchesPerStep);
      ProductPositive(ActiveBatches(s), p.globalBatchSize);
      ProductPositive(ActiveBatches(s) * p.globalBatchSize, p.tokensPerSample);
      ProductPositive(ActiveBatches(s) * p.globalBatchSize, p.flopProxyPerSample);
    } else {
      TotalZero(InPhase(Active, CompletedSteps), s);
    }
  }

  lemma Distribute(x: int, y: int, z: int)
    ensures (x + y) * z == x * z + y * z
  {
  }

  lemma ProductPositive(x: int, y: int)
    requires x > 0 && y > 0
    ensures x * y > 0
  {
  }

  // ---------- the measuring loop ----------

  function Checkpoints(s: seq<WorkInterval>): seq<WorkInterval> {
    if s == [] then []
    else Checkpoints(s[..|s| - 1]) + if s[|s| - 1].phase.Checkpoint? then [s[|s| - 1]] else []
  }

  function LastActiveEnd(s: seq<WorkInterval>): Option<int> {
    if EndOfActive(s) == 0 then None else Some(s[EndOfActive(s) - 1].endNs)
  }

  /** The time of an interval that lies between two instants. */
  function Within(first: int, last: int): WorkInterval -> int {
    (v: WorkInterval) => if v.startNs >= first && v.endNs <= last then Duration(v) else 0
  }

  /** A total over the checkpoints is a total over all intervals. */
  lemma {:induction false} TotalOfCheckpoints(weight: WorkInterval -> int, s: seq<WorkInterval>)
    ensures Total(weight, Checkpoints(s)) == Total(InPhase(Checkpoint, weight), s)
  {
    if s != [] {
      var n := |s| - 1;
      TotalOfCheckpoints(weight, s[..n]);
      if s[n].phase.Checkpoint? {
        assert Checkpoints(s)[..|Checkpoints(s)| - 1] == Checkpoints(s[..n]);
      } else {
        assert Checkpoints(s) == Checkpoints(s[..n]);
      }
    }
  }

  /** Nothing before the first active interval is a checkpoint; nothing after the last one is early enough. */
  lemma OutsideCheckpointsDoNotCount(p: PerformancePolicy, s: seq<WorkInterval>, i: nat)
    requires ScanProblem(p, s).None? && Ordered(s) && ValidIntervals(s) && HasActive(s)
    requires i < FirstActive(s) || EndOfActive(s) <= i < |s|
    ensures var core := Core(s);
            InPhase(Checkpoint, Within(core[0].startNs, core[|core| - 1].endNs))(s[i]) == 0
  {
    ActiveBounds(s);
    if i < FirstActive(s) {
      ScanPhases(p, s, i);
    } else {
      assert s[EndOfActive(s) - 1].endNs <= s[i].startNs;
    }
  }

  lemma TimesIncrease(s: seq<WorkInterval>, i: nat, j: nat)
    requires Ordered(s) && ValidIntervals(s) && i <= j < |s|
    ensures s[i].startNs <= s[j].startNs && s[i].endNs <= s[j].endNs
  {
    assert ValidInterval(s[i]) && ValidInterval(s[j]);
    if i < j {
      assert s[i].endNs <= s[j].startNs;
    }
  }

  lemma CoreEnds(s: seq<WorkInterval>)
    requires HasActive(s)
    ensures FirstActive(s) < EndOfActive(s) && |Core(s)| == EndOfActive(s) - FirstActive(s)
    ensures Core(s)[0] == s[FirstActive(s)] && Core(s)[|Core(s)| - 1] == s[EndOfActive(s) - 1]
  {
    ActiveBounds(s);
  }

  lemma OnlyPartCounts(u: WorkInterval -> int, w: WorkInterval -> int, s: seq<WorkInterval>, f: nat, e: nat)
    requires f <= e <= |s|
    requires forall i :: 0 <= i < f || e <= i < |s| ==> u(s[i]) == 0
    requires forall i :: f <= i < e ==> u(s[i]) == w(s[i])
    ensures Total(u, s) == Total(w, s[f..e])
  {
    TotalThreeParts(u, s, f, e);
    TotalZero(u, s[..f]);
    TotalZero(u, s[e..]);
    TotalAgree(u, w, s[f..e]);
  }

  lemma CoreTimes(s: seq<WorkInterval>, i: nat)
    requires Ordered(s) && ValidIntervals(s) && HasActive(s) && FirstActive(s) <= i < EndOfActive(s)
    ensures Core(s)[0].startNs <= s[i].startNs && s[i].endNs <= Core(s)[|Core(s)| - 1].endNs
  {
    CoreEnds(s);
    TimesIncrease(s, FirstActive(s), i);
    TimesIncrease(s, i, EndOfActive(s) - 1);
  }

  /** The weight of an interval as a checkpoint of the active span, by its time stamps. */
  function ByTimestamps(s: seq<WorkInterval>): WorkInterval -> int
    requires HasActive(s)
  {
    InPhase(Checkpoint, Within(Core(s)[0].startNs, Core(s)[|Core(s)| - 1].endNs))
  }

  lemma WeightsAgree(p: PerformancePolicy, s: seq<WorkInterval>, i: nat)
    requires ScanProblem(p, s).None? && Ordered(s) && ValidIntervals(s) && HasActive(s) && i < |s|
    ensures ByTimestamps(s)(s[i])
         == if FirstActive(s) <= i < EndOfActive(s) then InPhase(Checkpoint, Duration)(s[i]) else 0
  {
    if FirstActive(s) <= i < EndOfActive(s) {
      CoreTimes(s, i);
    } else {
      OutsideCheckpointsDoNotCount(p, s, i);
    }
  }

  /**
   Choosing checkpoints by their time stamps gives exactly those that come before the last active
   interval.
   */
  lemma TimestampsAgreeWithPositions(p: PerformancePolicy, s: seq<WorkInterval>)
    requires ScanProblem(p, s).None? && ValidIntervals(s) && HasActive(s)
    ensures var core := Core(s);
            Total(Within(core[0].startNs, core[|core| - 1].endNs), Checkpoints(s)) == PhaseNs(Checkpoint, core)
  {
    var f, e := FirstActive(s), EndOfActive(s);
    ActiveBounds(s);
    ScanIsOrdered(p, s);
    TotalOfCheckpoints(Within(Core(s)[0].startNs, Core(s)[|Core(s)| - 1].endNs), s);
    forall i | 0 <= i < |s|
      ensures ByTimestamps(s)(s[i]) == if f <= i < e then InPhase(Checkpoint, Duration)(s[i]) else 0
    {
      WeightsAgree(p, s, i);
    }
    OnlyPartCounts(ByTimestamps(s), InPhase(Checkpoint, Duration), s, f, e);
  }

  lemma {:induction false} FirstProblemStays(p: PerformancePolicy, s: seq<WorkInterval>, i: nat)
    requires i <= |s| && ScanProblem(p, s[..i]).Some?
    ensures ScanProblem(p, s) == ScanProblem(p, s[..i])
  {
    if i < |s| {
      assert s[..|s| - 1][..i] == s[..i];
      FirstProblemStays(p, s[..|s| - 1], i);
    } else {
      assert s[..i] == s;
    }
  }

  lemma Extend(s: seq<WorkInterval>, i: nat)
    requires i < |s|
    ensures s[..i + 1] != [] && s[..i + 1][i] == s[i] && s[..i + 1][..i] == s[..i]
  {
  }

  lemma TotalStep(w: WorkInterval -> int, s: seq<WorkInterval>, i: nat)
    requires i < |s|
    ensures Total(w, s[..i + 1]) == Total(w, s[..i]) + w(s[i])
  {
    Extend(s, i);
  }

  lemma TallyStep(s: seq<WorkInterval>, i: nat)
    requires i < |s|
    ensures var v, before, after := s[i], s[..i], s[..i + 1];
            && PhaseSteps(Warmup, after)
               == PhaseSteps(Warmup, before) + (if v.phase.Warmup? then CompletedSteps(v) else 0)
            && PhaseSteps(Active, after)
               == PhaseSteps(Active, before) + (if v.phase.Active? then CompletedSteps(v) else 0)
            && ActiveBatches(after) == ActiveBatches(before) + (if v.phase.Active? then v.completedBatches else 0)
            && PhaseNs(Warmup, after) == PhaseNs(Warmup, before) + (if v.phase.Warmup? then Duration(v) else 0)
  {
    TotalStep(InPhase(Warmup, CompletedSteps), s, i);
    TotalStep(InPhase(Active, CompletedSteps), s, i);
    TotalStep(InPhase(Active, BatchesOf), s, i);
    TotalStep(InPhase(Warmup, Duration), s, i);
  }

  lemma MarkStep(s: seq<WorkInterval>, i: nat)
    requires i < |s|
    ensures var v, before, after := s[i], s[..i], s[..i + 1];
            && Checkpoints(after) == Checkpoints(before) + (if v.phase.Checkpoint? then [v] else [])
            && LastWorkStep(after) == (if v.phase.Checkpoint? then LastWorkStep(before) else Some(v.lastStep))
            && LastActiveEnd(after) == (if v.phase.Active? then Some(v.endNs) else LastActiveEnd(before))
  {
    Extend(s, i);
  }

  lemma FirstActiveStep(s: seq<WorkInterval>, i: nat)
    requires i < |s|
    ensures var v, before, after := s[i], s[..i], s[..i + 1];
            && HasActive(after) == (HasActive(before) || v.phase.Active?)
            && (FirstActive(s) < i + 1 <==> HasActive(after)) && (FirstActive(s) < i <==> HasActive(before))
            && (HasActive(after) && !HasActive(before) ==> FirstActive(s) == i)
  {
    FirstActivePrefix(s, i);
    FirstActivePrefix(s, i + 1);
    FirstActiveIsFirst(s);
  }

  lemma ProblemStep(p: PerformancePolicy, s: seq<WorkInterval>, i: nat)
    requires i < |s| && ScanProblem(p, s[..i]).None?
    ensures ScanProblem(p, s[..i + 1]) == IntervalProblem(p, s[..i], s[i])
    ensures IntervalProblem(p, s[..i], s[i]).Some? ==> ScanProblem(p, s) == IntervalProblem(p, s[..i], s[i])
  {
    Extend(s, i);
    if IntervalProblem(p, s[..i], s[i]).Some? {
      FirstProblemStays(p, s, i + 1);
    }
  }

  /** The counters of the measuring loop. */
  datatype Tally = Tally(
    warmupSteps: int, activeSteps: int, activeBatches: int, warmupNs: int, firstActiveNs: Option<int>,
    lastActiveNs: Option<int>, checkpoints: seq<WorkInterval>)

  function FirstActiveStart(s: seq<WorkInterval>): Option<int> {
    if HasActive(s) then Some(s[FirstActive(s)].startNs) else None
  }

  function TallyOf(s: seq<WorkInterval>): Tally {
    Tally(PhaseSteps(Warmup, s), PhaseSteps(Active, s), ActiveBatches(s), PhaseNs(Warmup, s),
          FirstActiveStart(s), LastActiveEnd(s), Checkpoints(s))
  }

  /** The loop over the intervals. */
  method Scan(p: PerformancePolicy, s: seq<WorkInterval>) returns (problem: Option<ErrorCode>, tally: Tally)
    ensures problem == ScanProblem(p, s)
    ensures problem.None? ==> tally == TallyOf(s)
  {
    var previousEnd: Option<int>, previousWorkStep: Option<int> := None, None;
    var activeStarted := false;
    var firstActiveNs: Option<int>, lastActiveNs: Option<int> := None, None;
    var warmupSteps, activeSteps, activeBatches, warmupNs := 0, 0, 0, 0;
    var checkpoints: seq<WorkInterval> := [];
    problem, tally := None, Tally(0, 0, 0, 0, None, None, []);
    for i := 0 to |s|
      invariant problem.None? && ScanProblem(p, s[..i]).None?
      invariant previousEnd == if i == 0 then None else Some(s[i - 1].endNs)
      invariant previousWorkStep == LastWorkStep(s[..i])
      invariant activeStarted == HasActive(s[..i])
      invariant firstActiveNs == if FirstActive(s) < i then Some(s[FirstActive(s)].startNs) else None
      invariant lastActiveNs == LastActiveEnd(s[..i])
      invariant warmupSteps == PhaseSteps(Warmup, s[..i]) && activeSteps == PhaseSteps(Active, s[..i])
      invariant activeBatches == ActiveBatches(s[..i]) && warmupNs == PhaseNs(Warmup, s[..i])
      invariant checkpoints == Checkpoints(s[..i])
    {
      var v := s[i];
      TallyStep(s, i);
      MarkStep(s, i);
      FirstActiveStep(s, i);
      ProblemStep(p, s, i);
      if v.sequence != i {
        return Some(TimerInvalid), tally;
      }
      if Duration(v) > p.maximumIntervalNs {
        return Some(TimerInvalid), tally;
      }
      if previousEnd.Some? && v.startNs < previousEnd.value {
        return Some(TimerInvalid), tally;
      }
      previousEnd := Some(v.endNs);
      if !v.complete {
        return Some(PartialResult), tally;
      }
      if !v.synchronizedBefore || !v.synchronizedAfter {
        return Some(SynchronizationMissing), tally;
      }
      if v.phase.Checkpoint? {
        if !activeStarted {
          return Some(TimerInvalid), tally;
        }
        checkpoints := checkpoints + [v];
        continue;
      }
      if previousWorkStep.Some? && v.firstStep != previousWorkStep.value + 1 {
        return Some(PartialResult), tally;
      }
      previousWorkStep := Some(v.lastStep);
      if v.completedBatches != CompletedSteps(v) * p.batchesPerStep {
        return Some(BatchInflation), tally;
      }
      if v.phase.Warmup? {
        if activeStarted {
          return Some(TimerInvalid), tally;
        }
        warmupSteps := warmupSteps + CompletedSteps(v);
        warmupNs := warmupNs + Duration(v);
        continue;
      }
      activeStarted := true;
      activeSteps := activeSteps + CompletedSteps(v);
      activeBatches := activeBatches + v.completedBatches;
      if firstActiveNs.None? {
        firstActiveNs := Some(v.startNs);
      }
      lastActiveNs := Some(v.endNs);
    }
    assert s[..|s|] == s;
    tally := Tally(warmupSteps, activeSteps, activeBatches, warmupNs, firstActiveNs, lastActiveNs, checkpoints);
  }

  /** What the counters of an accepted scan add up to. */
  lemma AcceptedTally(p: PerformancePolicy, s: seq<WorkInterval>)
    requires ValidPolicy(p) && ScanProblem(p, s).None? && ValidIntervals(s) && HasActive(s)
    ensures var t := TallyOf(s);
            && Total(Duration, t.checkpoints) == PhaseNs(Checkpoint, s)
            && t.lastActiveNs.Some?
            && t.lastActiveNs.value - t.firstActiveNs.value
                 - Total(Within(t.firstActiveNs.value, t.lastActiveNs.value), t.checkpoints) == ActiveNs(s)
    ensures ActiveNs(s) > 0 && AcceptedUnits(p, s) > 0
  {
    TotalOfCheckpoints(Duration, s);
    CoreEnds(s);
    TimestampsAgreeWithPositions(p, s);
    ActiveTimeIsPositive(p, s);
    UnitsArePositive(p, s);
  }

  /** `PerformanceVerifier.measure` */
  method Measure(p: PerformancePolicy, run: PerformanceRun) returns (r: Result<PerformanceResult, ErrorCode>)
    requires ValidPolicy(p) && ValidRun(run)
    ensures r == Measured(p, run)
  {
    if run.manifestDigest != p.manifestDigest || run.leaseDigest != p.leaseDigest {
      return Err(IdentityMismatch);
    }
    if run.precision != p.precision || run.modelShapeDigest != p.modelShapeDigest
       || run.gpuCount != p.gpuCount || run.globalBatchSize != p.globalBatchSize {
      return Err(MetadataMismatch);
    }
    if run.fetchNs + run.setupNs > p.maximumSetupNs {
      return Err(TimerInvalid);
    }
    var s := run.intervals;
    var problem, tally := Scan(p, s);
    if problem.Some? {
      return Err(problem.value);
    }
    if tally.warmupSteps < p.minimumWarmupSteps {
      return Err(WarmupInsufficient);
    }
    if tally.activeSteps < p.minimumActiveSteps {
      return Err(WorkInsufficient);
    }
    if HasActive(s) {
      ActiveBounds(s);
    }
    if tally.firstActiveNs.None? || tally.lastActiveNs.None? {
      return Err(WorkInsufficient);
    }
    AcceptedTally(p, s);
    var checkpointNs := Total(Duration, tally.checkpoints);
    if checkpointNs > p.maximumCheckpointNs {
      return Err(TimerInvalid);
    }
    var activeCheckpointNs := Total(Within(tally.firstActiveNs.value, tally.lastActiveNs.value), tally.checkpoints);
    var activeNs := tally.lastActiveNs.value - tally.firstActiveNs.value - activeCheckpointNs;
    if activeNs <= 0 || activeNs > p.maximumActiveNs {
      return Err(TimerInvalid);
    }
    var measuredSpanNs := s[|s| - 1].endNs - s[0].startNs;
    var requiredObserverNs := run.fetchNs + run.setupNs + measuredSpanNs;
    if run.validatorObservedNs < requiredObserverNs || run.validatorObservedNs > p.maximumValidatorObservedNs {
      return Err(ObserverBound);
    }
    var acceptedUnits := Units(p, tally.activeBatches * p.globalBatchSize);
    if acceptedUnits <= 0 || acceptedUnits > MAX_INT63 {
      return Err(Invalid);
    }
    var rate := Rate(acceptedUnits, activeNs);
    var excludedNs := run.fetchNs + run.setupNs + tally.warmupNs + checkpointNs;
    return Ok(PerformanceResult(
      p.unit, acceptedUnits, activeNs, excludedNs, rate, tally.activeSteps, p.globalBatchSize, p.precision,
      p.modelShapeDigest, p.gpuCount, run.validatorObservedNs));
  }

  // ---------- conservation ----------

  /** The idle time before the first and after the last active interval. */
  function OuterGaps(s: seq<WorkInterval>): int
    requires HasActive(s)
  {
    ActiveBounds(s);
    Gaps(s[..FirstActive(s) + 1]) + Gaps(s[EndOfActive(s) - 1..])
  }

  lemma OuterGapsNonNegative(p: PerformancePolicy, s: seq<WorkInterval>)
    requires ScanProblem(p, s).None? && ValidIntervals(s) && HasActive(s)
    ensures OuterGaps(s) >= 0
  {
    ScanIsOrdered(p, s);
    ActiveBounds(s);
    GapsNonNegative(s[..FirstActive(s) + 1]);
    GapsNonNegative(s[EndOfActive(s) - 1..]);
  }

  lemma GapsOfParts(s: seq<WorkInterval>, f: nat, e: nat)
    requires f < e <= |s|
    ensures Gaps(s) == Gaps(s[..f + 1]) + Gaps(s[f..e]) + Gaps(s[e - 1..])
  {
    var rest := s[f..];
    assert rest[..e - f] == s[f..e] && rest[e - 1 - f..] == s[e - 1..];
    GapsSplit(s, f);
    GapsSplit(rest, e - 1 - f);
  }

  lemma GapsByPart(s: seq<WorkInterval>)
    requires HasActive(s)
    ensures Gaps(s) == OuterGaps(s) + Gaps(Core(s))
  {
    ActiveBounds(s);
    GapsOfParts(s, FirstActive(s), EndOfActive(s));
  }

  /** The time from the first interval to the last one is active, warm-up, checkpoint or outer idle time. */
  lemma SpanIsConserved(p: PerformancePolicy, s: seq<WorkInterval>)
    requires ScanProblem(p, s).None? && ValidIntervals(s) && HasActive(s)
    ensures Elapsed(s) == ActiveNs(s) + PhaseNs(Warmup, s) + PhaseNs(Checkpoint, s) + OuterGaps(s)
  {
    ActiveTimeExact(p, s);
    ElapsedIsDurationsAndGaps(s);
    DurationsByPhase(s);
    GapsByPart(s);
  }

  /**
   Conservation: everything the validator's clock must cover is counted exactly once, as active
   time, as excluded time, or as a gap outside the active span.
   */
  lemma TimeIsConserved(p: PerformancePolicy, run: PerformanceRun)
    requires ValidRun(run) && Measured(p, run).Ok?
    ensures HasActive(run.intervals)
    ensures var s, r := run.intervals, Measured(p, run).value;
            && r.activeNs == PhaseNs(Active, s) + Gaps(Core(s)) && r.activeNs > 0
            && run.fetchNs + run.setupNs + Elapsed(s) == r.activeNs + r.excludedNs + OuterGaps(s)
            && OuterGaps(s) >= 0
            && r.activeNs + r.excludedNs <= run.validatorObservedNs
  {
    var s := run.intervals;
    ActiveTimeExact(p, s);
    ActiveTimeIsPositive(p, s);
    OuterGapsNonNegative(p, s);
    SpanIsConserved(p, s);
  }
}
