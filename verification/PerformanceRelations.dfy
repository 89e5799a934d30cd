/** How a measurement changes when an active interval is split, and when work is delayed. */
module PerformanceRelations {
  import opened Prelude
  import opened ByteStrings
  import opened Performance

  // ---------- concatenation ----------

  lemma {:induction false} FirstActiveConcat(a: seq<WorkInterval>, b: seq<WorkInterval>)
    ensures FirstActive(a + b) == if HasActive(a) then FirstActive(a) else |a| + FirstActive(b)
  {
    if a == [] {
      assert a + b == b;
    } else {
      assert (a + b)[1..] == a[1..] + b;
      FirstActiveConcat(a[1..], b);
    }
  }

  lemma {:induction false} EndOfActiveConcat(a: seq<WorkInterval>, b: seq<WorkInterval>)
    ensures EndOfActive(a + b) == if EndOfActive(b) > 0 then |a| + EndOfActive(b) else EndOfActive(a)
  {
    if b == [] {
      assert a + b == a;
    } else {
      assert (a + b)[..|a + b| - 1] == a + b[..|b| - 1];
      EndOfActiveConcat(a, b[..|b| - 1]);
    }
  }

  lemma SliceConcat(a: seq<WorkInterval>, b: seq<WorkInterval>, lo: nat, hi: nat)
    requires lo <= |a| <= hi <= |a| + |b|
    ensures (a + b)[lo..hi] == a[lo..] + b[..hi - |a|]
  {
  }

  lemma HasActiveByEnd(s: seq<WorkInterval>)
    ensures HasActive(s) <==> EndOfActive(s) > 0
  {
    FirstActiveIsFirst(s);
    EndOfActiveIsEnd(s);
  }

  lemma {:induction false} LastWorkStepConcat(a: seq<WorkInterval>, b: seq<WorkInterval>)
    ensures LastWorkStep(a + b) == if LastWorkStep(b).Some? then LastWorkStep(b) else LastWorkStep(a)
  {
    if b == [] {
      assert a + b == a;
    } else {
      assert (a + b)[..|a + b| - 1] == a + b[..|b| - 1];
      LastWorkStepConcat(a, b[..|b| - 1]);
    }
  }

  // ---------- interval-wise changes ----------

  /** A change that keeps the phase and the steps of every interval. */
  ghost predicate KeepsWork(g: WorkInterval -> WorkInterval) {
    forall v :: g(v).phase == v.phase && g(v).firstStep == v.firstStep && g(v).lastStep == v.lastStep
             && g(v).completedBatches == v.completedBatches && Duration(g(v)) == Duration(v)
  }

  lemma MapPrefix(g: WorkInterval -> WorkInterval, s: seq<WorkInterval>, lo: nat, hi: nat)
    requires lo <= hi <= |s|
    ensures Map(g, s)[lo..hi] == Map(g, s[lo..hi])
    ensures Map(g, s)[..hi] == Map(g, s[..hi])
  {
  }

  lemma {:induction false} FirstActiveMap(g: WorkInterval -> WorkInterval, s: seq<WorkInterval>)
    requires KeepsWork(g)
    ensures FirstActive(Map(g, s)) == FirstActive(s)
  {
    if s != [] {
      assert Map(g, s)[1..] == Map(g, s[1..]);
      FirstActiveMap(g, s[1..]);
    }
  }

  lemma {:induction false} EndOfActiveMap(g: WorkInterval -> WorkInterval, s: seq<WorkInterval>)
    requires KeepsWork(g)
    ensures EndOfActive(Map(g, s)) == EndOfActive(s)
  {
    if s != [] {
      var n := |s| - 1;
      MapPrefix(g, s, 0, n);
      EndOfActiveMap(g, s[..n]);
    }
  }

  lemma ActiveMap(g: WorkInterval -> WorkInterval, s: seq<WorkInterval>)
    requires KeepsWork(g)
    ensures FirstActive(Map(g, s)) == FirstActive(s) && EndOfActive(Map(g, s)) == EndOfActive(s)
  {
    FirstActiveMap(g, s);
    EndOfActiveMap(g, s);
  }

  lemma {:induction false} LastWorkStepMap(g: WorkInterval -> WorkInterval, s: seq<WorkInterval>)
    requires KeepsWork(g)
    ensures LastWorkStep(Map(g, s)) == LastWorkStep(s)
  {
    if s != [] {
      var n := |s| - 1;
      MapPrefix(g, s, 0, n);
      LastWorkStepMap(g, s[..n]);
    }
  }

  lemma {:induction false} TotalMap(w: WorkInterval -> int, g: WorkInterval -> WorkInterval, s: seq<WorkInterval>)
    requires forall v :: w(g(v)) == w(v)
    ensures Total(w, Map(g, s)) == Total(w, s)
  {
    if s != [] {
      var n := |s| - 1;
      MapPrefix(g, s, 0, n);
      TotalMap(w, g, s[..n]);
    }
  }

  lemma TotalsMap(g: WorkInterval -> WorkInterval, s: seq<WorkInterval>, phase: Phase)
    requires KeepsWork(g)
    ensures PhaseNs(phase, Map(g, s)) == PhaseNs(phase, s)
    ensures PhaseSteps(phase, Map(g, s)) == PhaseSteps(phase, s)
    ensures ActiveBatches(Map(g, s)) == ActiveBatches(s)
  {
    forall v: WorkInterval
      ensures InPhase(phase, Duration)(g(v)) == InPhase(phase, Duration)(v)
      ensures InPhase(phase, CompletedSteps)(g(v)) == InPhase(phase, CompletedSteps)(v)
      ensures InPhase(Active, BatchesOf)(g(v)) == InPhase(Active, BatchesOf)(v)
    {
      assert g(v).phase == v.phase && CompletedSteps(g(v)) == CompletedSteps(v) && BatchesOf(g(v)) == BatchesOf(v);
    }
    TotalMap(InPhase(phase, Duration), g, s);
    TotalMap(InPhase(phase, CompletedSteps), g, s);
    TotalMap(InPhase(Active, BatchesOf), g, s);
  }

  lemma TotalsConcat(a: seq<WorkInterval>, b: seq<WorkInterval>, phase: Phase)
    ensures PhaseNs(phase, a + b) == PhaseNs(phase, a) + PhaseNs(phase, b)
    ensures PhaseSteps(phase, a + b) == PhaseSteps(phase, a) + PhaseSteps(phase, b)
    ensures ActiveBatches(a + b) == ActiveBatches(a) + ActiveBatches(b)
  {
    TotalConcat(InPhase(phase, Duration), a, b);
    TotalConcat(InPhase(phase, CompletedSteps), a, b);
    TotalConcat(InPhase(Active, BatchesOf), a, b);
  }

  // ---------- splitting an active interval ----------

  function Renumber(v: WorkInterval): WorkInterval {
    v.(sequence := v.sequence + 1)
  }

  function LeftPart(p: PerformancePolicy, v: WorkInterval, instant: int, step: int): WorkInterval {
    v.(endNs := instant, lastStep := step, completedBatches := (step - v.firstStep + 1) * p.batchesPerStep)
  }

  function RightPart(p: PerformancePolicy, v: WorkInterval, instant: int, step: int): WorkInterval {
    v.(sequence := v.sequence + 1, startNs := instant, firstStep := step + 1,
       completedBatches := (v.lastStep - step) * p.batchesPerStep)
  }

  /** The two parts in place of one interval. */
  function Parts(p: PerformancePolicy, v: WorkInterval, instant: int, step: int): seq<WorkInterval> {
    [LeftPart(p, v, instant, step), RightPart(p, v, instant, step)]
  }

  /** A run's intervals with interval `k` split, and everything after it renumbered. */
  function Split(p: PerformancePolicy, s: seq<WorkInterval>, k: nat, instant: int, step: int): seq<WorkInterval>
    requires k < |s|
  {
    s[..k] + Parts(p, s[k], instant, step) + Map(Renumber, s[k + 1..])
  }

  /** An active interval with the right number of batches, and an instant and a step inside it. */
  ghost predicate Splittable(p: PerformancePolicy, v: WorkInterval, instant: int, step: int) {
    && v.phase.Active? && v.completedBatches == CompletedSteps(v) * p.batchesPerStep
    && v.startNs < instant < v.endNs && v.firstStep <= step < v.lastStep
  }

  lemma TotalOfOne(w: WorkInterval -> int, v: WorkInterval)
    ensures Total(w, [v]) == w(v)
  {
    var s := [v];
    assert s[..|s| - 1] == [];
  }

  lemma TotalsOfOne(v: WorkInterval, phase: Phase)
    ensures PhaseNs(phase, [v]) == if v.phase == phase then Duration(v) else 0
    ensures PhaseSteps(phase, [v]) == if v.phase == phase then CompletedSteps(v) else 0
    ensures ActiveBatches([v]) == if v.phase.Active? then v.completedBatches else 0
  {
    TotalOfOne(InPhase(phase, Duration), v);
    TotalOfOne(InPhase(phase, CompletedSteps), v);
    TotalOfOne(InPhase(Active, BatchesOf), v);
    assert BatchesOf(v) == v.completedBatches;
  }

  lemma PartsOfInterval(p: PerformancePolicy, v: WorkInterval, instant: int, step: int)
    requires Splittable(p, v, instant, step)
    ensures var l, r := LeftPart(p, v, instant, step), RightPart(p, v, instant, step);
            && l.phase == v.phase == r.phase
            && Duration(l) + Duration(r) == Duration(v)
            && CompletedSteps(l) + CompletedSteps(r) == CompletedSteps(v)
            && l.completedBatches + r.completedBatches == v.completedBatches
  {
    Distribute(step - v.firstStep + 1, v.lastStep - step, p.batchesPerStep);
  }

  lemma PairTotals(l: WorkInterval, r: WorkInterval, phase: Phase)
    requires l.phase == r.phase
    ensures PhaseNs(phase, [l, r]) == if l.phase == phase then Duration(l) + Duration(r) else 0
    ensures PhaseSteps(phase, [l, r]) == if l.phase == phase then CompletedSteps(l) + CompletedSteps(r) else 0
    ensures ActiveBatches([l, r]) == if l.phase.Active? then l.completedBatches + r.completedBatches else 0
  {
    assert [l, r] == [l] + [r];
    TotalsConcat([l], [r], phase);
    TotalsOfOne(l, phase);
    TotalsOfOne(r, phase);
  }

  lemma PartsAddUp(p: PerformancePolicy, v: WorkInterval, instant: int, step: int, phase: Phase)
    requires Splittable(p, v, instant, step)
    ensures var parts := Parts(p, v, instant, step);
            && PhaseNs(phase, parts) == PhaseNs(phase, [v])
            && PhaseSteps(phase, parts) == PhaseSteps(phase, [v])
            && ActiveBatches(parts) == ActiveBatches([v])
  {
    PartsOfInterval(p, v, instant, step);
    PairTotals(LeftPart(p, v, instant, step), RightPart(p, v, instant, step), phase);
    TotalsOfOne(v, phase);
  }

  /** What an interval looks at in the intervals before it is not changed by a split. */
  lemma SplitIsInvisible(p: PerformancePolicy, pre: seq<WorkInterval>, v: WorkInterval, post: seq<WorkInterval>,
                         instant: int, step: int)
    requires Splittable(p, v, instant, step)
    ensures var before, after := pre + [v] + post, pre + Parts(p, v, instant, step) + Map(Renumber, post);
            && |after| == |before| + 1 && HasActive(before) && HasActive(after)
            && LastWorkStep(before) == LastWorkStep(after)
            && before[|before| - 1].endNs == after[|after| - 1].endNs
  {
    var parts := Parts(p, v, instant, step);
    LastWorkStepMap(Renumber, post);
    LastWorkStepConcat(pre + [v], post);
    LastWorkStepConcat(pre + parts, Map(Renumber, post));
    LastWorkStepConcat(pre, [v]);
    LastWorkStepConcat(pre, parts);
    FirstActiveIsFirst(pre + [v] + post);
    FirstActiveIsFirst(pre + parts + Map(Renumber, post));
    assert (pre + [v] + post)[|pre|] == v && (pre + parts + Map(Renumber, post))[|pre|] == parts[0];
  }

  lemma LeftAccepted(p: PerformancePolicy, pre: seq<WorkInterval>, v: WorkInterval, instant: int, step: int)
    requires Splittable(p, v, instant, step) && Duration(v) <= p.maximumIntervalNs
    ensures IntervalProblem(p, pre, LeftPart(p, v, instant, step)) == IntervalProblem(p, pre, v)
    ensures IntervalProblem(p, pre, v).None? ==>
              IntervalProblem(p, pre + [LeftPart(p, v, instant, step)], RightPart(p, v, instant, step)).None?
  {
    var l := LeftPart(p, v, instant, step);
    LastWorkStepConcat(pre, [l]);
  }

  lemma ScanStep(p: PerformancePolicy, before: seq<WorkInterval>, v: WorkInterval)
    ensures ScanProblem(p, before + [v])
         == if ScanProblem(p, before).Some? then ScanProblem(p, before) else IntervalProblem(p, before, v)
  {
    assert (before + [v])[..|before|] == before;
  }

  lemma SplitScanBase(p: PerformancePolicy, pre: seq<WorkInterval>, v: WorkInterval, instant: int, step: int)
    requires Splittable(p, v, instant, step) && Duration(v) <= p.maximumIntervalNs
    ensures ScanProblem(p, pre + Parts(p, v, instant, step)) == ScanProblem(p, pre + [v])
  {
    var parts := Parts(p, v, instant, step);
    assert pre + parts == pre + [parts[0]] + [parts[1]];
    LeftAccepted(p, pre, v, instant, step);
    ScanStep(p, pre, v);
    ScanStep(p, pre, parts[0]);
    ScanStep(p, pre + [parts[0]], parts[1]);
  }

  lemma RenumberedProblem(p: PerformancePolicy, before: seq<WorkInterval>, after: seq<WorkInterval>, w: WorkInterval)
    requires before != [] && |after| == |before| + 1 && HasActive(before) && HasActive(after)
    requires LastWorkStep(before) == LastWorkStep(after)
    requires before[|before| - 1].endNs == after[|after| - 1].endNs
    ensures IntervalProblem(p, after, Renumber(w)) == IntervalProblem(p, before, w)
  {
  }

  lemma {:induction false} SplitScan(p: PerformancePolicy, pre: seq<WorkInterval>, v: WorkInterval,
                                     post: seq<WorkInterval>, instant: int, step: int)
    requires Splittable(p, v, instant, step) && Duration(v) <= p.maximumIntervalNs
    ensures ScanProblem(p, pre + Parts(p, v, instant, step) + Map(Renumber, post)) == ScanProblem(p, pre + [v] + post)
  {
    var parts := Parts(p, v, instant, step);
    if post == [] {
      assert pre + [v] + post == pre + [v];
      assert pre + parts + Map(Renumber, post) == pre + parts;
      SplitScanBase(p, pre, v, instant, step);
    } else {
      var init, w := post[..|post| - 1], post[|post| - 1];
      var before, after := pre + [v] + init, pre + parts + Map(Renumber, init);
      assert pre + [v] + post == before + [w];
      assert pre + parts + Map(Renumber, post) == after + [Renumber(w)];
      SplitScan(p, pre, v, init, instant, step);
      SplitIsInvisible(p, pre, v, init, instant, step);
      RenumberedProblem(p, before, after, w);
      ScanStep(p, before, w);
      ScanStep(p, after, Renumber(w));
    }
  }

  lemma ActiveAround(pre: seq<WorkInterval>, v: WorkInterval, post: seq<WorkInterval>)
    requires v.phase.Active?
    ensures FirstActive(pre + [v] + post) == FirstActive(pre)
    ensures EndOfActive(pre + [v] + post) == |pre| + 1 + EndOfActive(post)
  {
    assert [v][1..] == [];
    FirstActiveConcat(pre + [v], post);
    FirstActiveConcat(pre, [v]);
    EndOfActiveConcat(pre + [v], post);
    EndOfActiveConcat(pre, [v]);
  }

  lemma SliceAround(pre: seq<WorkInterval>, v: WorkInterval, post: seq<WorkInterval>, f: nat, e: nat)
    requires f <= |pre| && e <= |post|
    ensures (pre + [v] + post)[f..|pre| + 1 + e] == pre[f..] + [v] + post[..e]
  {
  }

  /** The core around a known active interval. */
  lemma CoreAround(pre: seq<WorkInterval>, v: WorkInterval, post: seq<WorkInterval>)
    requires v.phase.Active?
    ensures HasActive(pre + [v] + post)
    ensures Core(pre + [v] + post) == pre[FirstActive(pre)..] + [v] + post[..EndOfActive(post)]
  {
    ActiveAround(pre, v, post);
    SliceAround(pre, v, post, FirstActive(pre), EndOfActive(post));
  }

  lemma Regroup(head: seq<WorkInterval>, l: WorkInterval, r: WorkInterval, tail: seq<WorkInterval>, e: nat)
    requires e <= |tail|
    ensures head + [l, r] + tail == head + [l] + ([r] + tail)
    ensures ([r] + tail)[..1 + e] == [r] + tail[..e]
  {
  }

  lemma CoreAroundPair(pre: seq<WorkInterval>, l: WorkInterval, r: WorkInterval, post: seq<WorkInterval>)
    requires l.phase.Active? && r.phase.Active?
    ensures HasActive(pre + [l, r] + post)
    ensures Core(pre + [l, r] + post) == pre[FirstActive(pre)..] + [l, r] + post[..EndOfActive(post)]
  {
    var e := EndOfActive(post);
    Regroup(pre, l, r, post, e);
    CoreAround(pre, l, [r] + post);
    EndOfActiveConcat([r], post);
    assert EndOfActive([r]) == 1;
    Regroup(pre[FirstActive(pre)..], l, r, post[..e], e);
  }

  lemma SplitCore(p: PerformancePolicy, pre: seq<WorkInterval>, v: WorkInterval, post: seq<WorkInterval>,
                  instant: int, step: int)
    requires Splittable(p, v, instant, step)
    ensures var after := pre + Parts(p, v, instant, step) + Map(Renumber, post);
            && HasActive(after)
            && Core(after) == pre[FirstActive(pre)..] + Parts(p, v, instant, step)
                              + Map(Renumber, post[..EndOfActive(post)])
  {
    CoreAroundPair(pre, LeftPart(p, v, instant, step), RightPart(p, v, instant, step), Map(Renumber, post));
    ActiveMap(Renumber, post);
    MapPrefix(Renumber, post, 0, EndOfActive(post));
  }

  lemma SplitTotals(p: PerformancePolicy, pre: seq<WorkInterval>, v: WorkInterval, post: seq<WorkInterval>,
                    instant: int, step: int, phase: Phase)
    requires Splittable(p, v, instant, step)
    ensures var before, after := pre + [v] + post, pre + Parts(p, v, instant, step) + Map(Renumber, post);
            && PhaseNs(phase, before) == PhaseNs(phase, after)
            && PhaseSteps(phase, before) == PhaseSteps(phase, after)
            && ActiveBatches(before) == ActiveBatches(after)
            && Elapsed(before) == Elapsed(after)
  {
    var parts := Parts(p, v, instant, step);
    TotalsConcat(pre + [v], post, phase);
    TotalsConcat(pre, [v], phase);
    TotalsConcat(pre + parts, Map(Renumber, post), phase);
    TotalsConcat(pre, parts, phase);
    TotalsMap(Renumber, post, phase);
    PartsAddUp(p, v, instant, step, phase);
  }

  lemma SplitActiveTime(p: PerformancePolicy, pre: seq<WorkInterval>, v: WorkInterval, post: seq<WorkInterval>,
                        instant: int, step: int)
    requires Splittable(p, v, instant, step)
    ensures var before, after := pre + [v] + post, pre + Parts(p, v, instant, step) + Map(Renumber, post);
            HasActive(before) && HasActive(after) && ActiveNs(before) == ActiveNs(after)
  {
    CoreAround(pre, v, post);
    SplitCore(p, pre, v, post, instant, step);
    SplitTotals(p, pre[FirstActive(pre)..], v, post[..EndOfActive(post)], instant, step, Checkpoint);
  }

  /** Everything that a measurement reads from the intervals. */
  ghost predicate SameMeasurements(p: PerformancePolicy, s: seq<WorkInterval>, t: seq<WorkInterval>)
    requires s != [] && t != []
  {
    && ScanProblem(p, s) == ScanProblem(p, t)
    && PhaseNs(Warmup, s) == PhaseNs(Warmup, t) && PhaseNs(Checkpoint, s) == PhaseNs(Checkpoint, t)
    && PhaseSteps(Warmup, s) == PhaseSteps(Warmup, t) && PhaseSteps(Active, s) == PhaseSteps(Active, t)
    && ActiveBatches(s) == ActiveBatches(t) && Elapsed(s) == Elapsed(t)
    && HasActive(s) == HasActive(t) && (HasActive(s) ==> ActiveNs(s) == ActiveNs(t))
  }

  lemma SameMeasurementsSameResult(p: PerformancePolicy, run: PerformanceRun, t: seq<WorkInterval>)
    requires ValidRun(run) && ValidRun(run.(intervals := t)) && SameMeasurements(p, run.intervals, t)
    ensures Measured(p, run.(intervals := t)) == Measured(p, run)
  {
    var other := run.(intervals := t);
    assert HeaderProblem(p, other) == HeaderProblem(p, run);
    assert AcceptedUnits(p, t) == AcceptedUnits(p, run.intervals);
    assert SummaryProblem(p, other) == SummaryProblem(p, run);
    if ScanProblem(p, t).None? && HasActive(t) {
      ActiveTimeIsPositive(p, t);
      assert Rate(AcceptedUnits(p, t), ActiveNs(t)) == Rate(AcceptedUnits(p, run.intervals), ActiveNs(run.intervals));
      assert Summary(p, other) == Summary(p, run);
    }
  }

  function SplitRun(p: PerformancePolicy, run: PerformanceRun, k: nat, instant: int, step: int): PerformanceRun
    requires k < |run.intervals|
  {
    run.(intervals := Split(p, run.intervals, k, instant, step))
  }

  /** An interval over the limit is refused as such, unless something before it is refused first. */
  lemma TooLongIsRefused(p: PerformancePolicy, run: PerformanceRun, k: nat)
    requires ValidRun(run) && k < |run.intervals| && Duration(run.intervals[k]) > p.maximumIntervalNs
    ensures Measured(p, run).Err?
    ensures HeaderProblem(p, run).None? && ScanProblem(p, run.intervals[..k]).None? ==>
              Measured(p, run) == Err(TimerInvalid)
  {
    var s := run.intervals;
    if ScanProblem(p, s[..k]).None? {
      ProblemStep(p, s, k);
    } else {
      FirstProblemStays(p, s, k);
    }
  }

  lemma SplitWithinLimit(p: PerformancePolicy, run: PerformanceRun, k: nat, instant: int, step: int)
    requires ValidRun(run) && k < |run.intervals| && Splittable(p, run.intervals[k], instant, step)
    requires ValidRun(SplitRun(p, run, k, instant, step)) && Duration(run.intervals[k]) <= p.maximumIntervalNs
    ensures Measured(p, SplitRun(p, run, k, instant, step)) == Measured(p, run)
  {
    var s := run.intervals;
    var pre, v, post := s[..k], s[k], s[k + 1..];
    assert s == pre + [v] + post;
    SplitScan(p, pre, v, post, instant, step);
    SplitActiveTime(p, pre, v, post, instant, step);
    SplitTotals(p, pre, v, post, instant, step, Warmup);
    SplitTotals(p, pre, v, post, instant, step, Active);
    SplitTotals(p, pre, v, post, instant, step, Checkpoint);
    SameMeasurementsSameResult(p, run, Split(p, s, k, instant, step));
  }

  /**
   What splitting an active interval at an instant and a step inside it changes. An interval within
   the limit can be split freely: result and error stay the same. In general a run is accepted
   exactly when its split is accepted and the whole interval was within the limit.
   */
  lemma SplittingExact(p: PerformancePolicy, run: PerformanceRun, k: nat, instant: int, step: int)
    requires ValidRun(run) && k < |run.intervals| && Splittable(p, run.intervals[k], instant, step)
    requires ValidRun(SplitRun(p, run, k, instant, step))
    ensures Duration(run.intervals[k]) <= p.maximumIntervalNs ==>
              Measured(p, SplitRun(p, run, k, instant, step)) == Measured(p, run)
    ensures Measured(p, run).Ok? <==>
              Measured(p, SplitRun(p, run, k, instant, step)).Ok? && Duration(run.intervals[k]) <= p.maximumIntervalNs
    ensures Duration(run.intervals[k]) > p.maximumIntervalNs && HeaderProblem(p, run).None?
            && ScanProblem(p, run.intervals[..k]).None? ==>
              Measured(p, run) == Err(TimerInvalid)
  {
    if Duration(run.intervals[k]) <= p.maximumIntervalNs {
      SplitWithinLimit(p, run, k, instant, step);
    } else {
      TooLongIsRefused(p, run, k);
    }
  }

  /** A policy that permits intervals of 5 and active time of 10 nanoseconds. */
  function SamplePolicy(): PerformancePolicy {
    var digest := SHA_PREFIX + seq(64, _ => '0');
    PerformancePolicy(digest, digest, Samples, 1, 1, 1, 1, Bf16, digest, 1, 0, 1, 5, 10, 0, 0, 10)
  }

  /** A run of one active interval of 10 nanoseconds and two steps. */
  function SampleRun(): PerformanceRun {
    var digest := SHA_PREFIX + seq(64, _ => '0');
    PerformanceRun(digest, digest, Bf16, digest, 1, 1, 0, 0, 10,
                   [WorkInterval(0, Active, 0, 10, 1, 2, 2, true, true, true)])
  }

  lemma SampleIsValid()
    ensures var p, run := SamplePolicy(), SampleRun();
            && ValidPolicy(p) && ValidRun(run) && Splittable(p, run.intervals[0], 5, 1)
            && ValidRun(SplitRun(p, run, 0, 5, 1))
  {
    var p := SamplePolicy();
    assert p.manifestDigest[..7] == SHA_PREFIX && p.manifestDigest[7..] == seq(64, _ => '0');
  }

  lemma SampleIsRefused()
    ensures ValidRun(SampleRun()) && Measured(SamplePolicy(), SampleRun()) == Err(TimerInvalid)
  {
    SampleIsValid();
    var p, run := SamplePolicy(), SampleRun();
    assert HeaderProblem(p, run).None?;
    assert ScanProblem(p, run.intervals[..0]).None?;
    TooLongIsRefused(p, run, 0);
  }

  lemma SampleSplitIsAccepted()
    ensures ValidRun(SplitRun(SamplePolicy(), SampleRun(), 0, 5, 1))
    ensures Measured(SamplePolicy(), SplitRun(SamplePolicy(), SampleRun(), 0, 5, 1)).Ok?
  {
    SampleIsValid();
    var p, run := SamplePolicy(), SplitRun(SamplePolicy(), SampleRun(), 0, 5, 1);
    var v := SampleRun().intervals[0];
    var l, r := LeftPart(p, v, 5, 1), RightPart(p, v, 5, 1);
    assert run.intervals == [l, r];
    assert HeaderProblem(p, run).None?;
    SampleScan(p, l, r);
    PairTotals(l, r, Active);
    PairTotals(l, r, Warmup);
    PairTotals(l, r, Checkpoint);
    assert Core([l, r]) == [l, r];
    assert SummaryProblem(p, run).None?;
  }

  lemma SampleScan(p: PerformancePolicy, l: WorkInterval, r: WorkInterval)
    requires IntervalProblem(p, [], l).None? && IntervalProblem(p, [l], r).None?
    ensures ScanProblem(p, [l, r]).None?
  {
    ScanStep(p, [], l);
    ScanStep(p, [l], r);
    assert [] + [l] == [l] && [l] + [r] == [l, r];
  }

  /** The limit cannot be dropped: a run that is refused whole and accepted when it is split in two. */
  lemma SplittingCanAdmit()
    ensures var p, run := SamplePolicy(), SampleRun();
            && ValidPolicy(p) && ValidRun(run) && Splittable(p, run.intervals[0], 5, 1)
            && ValidRun(SplitRun(p, run, 0, 5, 1))
            && Measured(p, run) == Err(TimerInvalid)
            && Measured(p, SplitRun(p, run, 0, 5, 1)).Ok?
  {
    SampleIsValid();
    SampleIsRefused();
    SampleSplitIsAccepted();
  }

  // ---------- delaying the rest of a run ----------

  function Delay(d: int): WorkInterval -> WorkInterval {
    (v: WorkInterval) => v.(startNs := v.startNs + d, endNs := v.endNs + d)
  }

  /** A delayed interval is accepted after intervals that ended no later than the delay allows. */
  lemma DelayedProblem(p: PerformancePolicy, before: seq<WorkInterval>, after: seq<WorkInterval>,
                       v: WorkInterval, d: nat)
    requires IntervalProblem(p, before, v).None?
    requires |after| == |before| && HasActive(after) == HasActive(before) && LastWorkStep(after) == LastWorkStep(before)
    requires before != [] ==> after[|after| - 1].endNs <= before[|before| - 1].endNs + d
    ensures IntervalProblem(p, after, Delay(d)(v)).None?
  {
  }

  lemma DelayedBefore(a: seq<WorkInterval>, b: seq<WorkInterval>, d: nat)
    ensures var before, after := a + b, a + Map(Delay(d), b);
            && |after| == |before| && HasActive(after) == HasActive(before)
            && LastWorkStep(after) == LastWorkStep(before)
            && (before != [] ==> after[|after| - 1].endNs <= before[|before| - 1].endNs + d)
  {
    LastWorkStepConcat(a, b);
    LastWorkStepConcat(a, Map(Delay(d), b));
    LastWorkStepMap(Delay(d), b);
    FirstActiveConcat(a, b);
    FirstActiveConcat(a, Map(Delay(d), b));
    ActiveMap(Delay(d), b);
  }

  lemma LastOfDelayed(a: seq<WorkInterval>, b: seq<WorkInterval>, d: nat)
    requires b != []
    ensures a + b == a + b[..|b| - 1] + [b[|b| - 1]]
    ensures a + Map(Delay(d), b) == a + Map(Delay(d), b[..|b| - 1]) + [Delay(d)(b[|b| - 1])]
  {
  }

  lemma {:induction false} DelayedScan(p: PerformancePolicy, a: seq<WorkInterval>, b: seq<WorkInterval>, d: nat)
    requires ScanProblem(p, a + b).None?
    ensures ScanProblem(p, a + Map(Delay(d), b)).None?
  {
    if b == [] {
      assert a + b == a + Map(Delay(d), b);
    } else {
      var init, w := b[..|b| - 1], b[|b| - 1];
      var before, after := a + init, a + Map(Delay(d), init);
      LastOfDelayed(a, b, d);
      ScanStep(p, before, w);
      DelayedScan(p, a, init, d);
      DelayedBefore(a, init, d);
      DelayedProblem(p, before, after, w, d);
      ScanStep(p, after, Delay(d)(w));
    }
  }

  /** The core of two parts: all of it in one part, or one end in each. */
  lemma ActiveAcross(a: seq<WorkInterval>, b: seq<WorkInterval>)
    requires HasActive(a) && HasActive(b)
    ensures FirstActive(a + b) == FirstActive(a) && EndOfActive(a + b) == |a| + EndOfActive(b)
  {
    FirstActiveConcat(a, b);
    EndOfActiveConcat(a, b);
    ActiveBounds(b);
  }

  lemma CoreAcross(a: seq<WorkInterval>, b: seq<WorkInterval>)
    requires HasActive(a) && HasActive(b)
    ensures HasActive(a + b) && Core(a + b) == a[FirstActive(a)..] + b[..EndOfActive(b)]
  {
    ActiveAcross(a, b);
    SliceConcat(a, b, FirstActive(a), |a| + EndOfActive(b));
  }

  lemma CoreOnLeft(a: seq<WorkInterval>, b: seq<WorkInterval>)
    requires HasActive(a) && !HasActive(b)
    ensures HasActive(a + b) && Core(a + b) == Core(a)
  {
    FirstActiveConcat(a, b);
    EndOfActiveConcat(a, b);
    HasActiveByEnd(b);
    ActiveBounds(a);
  }

  lemma CoreOnRight(a: seq<WorkInterval>, b: seq<WorkInterval>)
    requires !HasActive(a) && HasActive(b)
    ensures HasActive(a + b) && Core(a + b) == Core(b)
  {
    FirstActiveConcat(a, b);
    EndOfActiveConcat(a, b);
    ActiveBounds(b);
  }

  lemma DelayedTail(a: seq<WorkInterval>, b: seq<WorkInterval>, d: nat, phase: Phase)
    requires a + b != []
    ensures var t := a + Map(Delay(d), b);
            && PhaseNs(phase, t) == PhaseNs(phase, a + b) && PhaseSteps(phase, t) == PhaseSteps(phase, a + b)
            && ActiveBatches(t) == ActiveBatches(a + b)
            && Elapsed(t) == Elapsed(a + b) + if a != [] && b != [] then d else 0
  {
    TotalsConcat(a, b, phase);
    TotalsConcat(a, Map(Delay(d), b), phase);
    TotalsMap(Delay(d), b, phase);
  }

  lemma DelayedAcross(a: seq<WorkInterval>, b: seq<WorkInterval>, d: nat)
    requires HasActive(a) && HasActive(b)
    ensures HasActive(a + b) && HasActive(Map(Delay(d), b)) && HasActive(a + Map(Delay(d), b))
    ensures ActiveNs(a + Map(Delay(d), b)) == ActiveNs(a + b) + d
  {
    var later, e := Map(Delay(d), b), EndOfActive(b);
    ActiveMap(Delay(d), b);
    CoreAcross(a, b);
    CoreAcross(a, later);
    ActiveBounds(b);
    MapPrefix(Delay(d), b, 0, e);
    FirstActiveIsFirst(a);
    DelayedTail(a[FirstActive(a)..], b[..e], d, Checkpoint);
  }

  lemma CoreMap(g: WorkInterval -> WorkInterval, s: seq<WorkInterval>)
    requires KeepsWork(g) && HasActive(s)
    ensures HasActive(Map(g, s)) && Core(Map(g, s)) == Map(g, Core(s))
  {
    ActiveMap(g, s);
    ActiveBounds(s);
    MapPrefix(g, s, FirstActive(s), EndOfActive(s));
  }

  lemma DelayedWhole(s: seq<WorkInterval>, d: nat)
    requires HasActive(s)
    ensures HasActive(Map(Delay(d), s)) && ActiveNs(Map(Delay(d), s)) == ActiveNs(s)
  {
    CoreMap(Delay(d), s);
    ActiveBounds(s);
    TotalsMap(Delay(d), Core(s), Checkpoint);
  }

  lemma DelayedOnRight(a: seq<WorkInterval>, b: seq<WorkInterval>, d: nat)
    requires !HasActive(a) && HasActive(b)
    ensures HasActive(a + b) && HasActive(Map(Delay(d), b)) && HasActive(a + Map(Delay(d), b))
    ensures ActiveNs(a + Map(Delay(d), b)) == ActiveNs(a + b)
  {
    DelayedWhole(b, d);
    CoreOnRight(a, b);
    CoreOnRight(a, Map(Delay(d), b));
  }

  /** The active time grows by the delay exactly when the delay falls inside the active span. */
  lemma DelayedActiveTime(a: seq<WorkInterval>, b: seq<WorkInterval>, d: nat)
    requires HasActive(a + b)
    ensures HasActive(a + Map(Delay(d), b))
    ensures ActiveNs(a + Map(Delay(d), b)) == ActiveNs(a + b) + if HasActive(a) && HasActive(b) then d else 0
  {
    FirstActiveConcat(a, b);
    if !HasActive(b) {
      ActiveMap(Delay(d), b);
      CoreOnLeft(a, b);
      CoreOnLeft(a, Map(Delay(d), b));
    } else if HasActive(a) {
      DelayedAcross(a, b, d);
    } else {
      DelayedOnRight(a, b, d);
    }
  }

  lemma ProductMonotone(q: nat, x: nat, y: nat)
    requires x <= y
    ensures q * x <= q * y
  {
  }

  lemma QuotientBound(n: nat, x: nat, q: nat)
    requires x > 0 && q * x <= n
    ensures q <= n / x
  {
    var r := n / x;
    assert n < r * x + x && (r + 1) * x == r * x + x;
    if q > r {
      ProductMonotone(x, r + 1, q);
    }
  }

  lemma FloorDecreases(n: nat, x: nat, y: nat)
    requires 0 < x <= y
    ensures n / y <= n / x
  {
    ProductMonotone(n / y, x, y);
    QuotientBound(n, x, n / y);
  }

  function DelayRun(run: PerformanceRun, k: nat, d: nat): PerformanceRun
    requires k <= |run.intervals|
  {
    run.(intervals := run.intervals[..k] + Map(Delay(d), run.intervals[k..]))
  }

  /** The delay falls between the first and the last active interval. */
  predicate InsideActiveSpan(s: seq<WorkInterval>, k: nat)
    requires k <= |s|
  {
    HasActive(s[..k]) && HasActive(s[k..])
  }

  lemma DelayedMeasurements(p: PerformancePolicy, run: PerformanceRun, k: nat, d: nat)
    requires ValidRun(run) && k <= |run.intervals| && Measured(p, run).Ok?
    ensures var s, t := run.intervals, DelayRun(run, k, d).intervals;
            && ScanProblem(p, t).None? && HasActive(s) && HasActive(t)
            && PhaseNs(Warmup, s) == PhaseNs(Warmup, t) && PhaseNs(Checkpoint, s) == PhaseNs(Checkpoint, t)
            && PhaseSteps(Warmup, s) == PhaseSteps(Warmup, t) && PhaseSteps(Active, s) == PhaseSteps(Active, t)
            && ActiveBatches(s) == ActiveBatches(t)
            && Elapsed(t) == Elapsed(s) + (if 0 < k < |s| then d else 0)
            && ActiveNs(t) == ActiveNs(s) + if InsideActiveSpan(s, k) then d else 0
  {
    var s := run.intervals;
    var a, b := s[..k], s[k..];
    assert s == a + b;
    DelayedScan(p, a, b, d);
    DelayedActiveTime(a, b, d);
    DelayedTail(a, b, d, Warmup);
    DelayedTail(a, b, d, Active);
    DelayedTail(a, b, d, Checkpoint);
  }

  /** The summary of a slower run of the same work. */
  lemma DelayedSummary(p: PerformancePolicy, run: PerformanceRun, other: PerformanceRun)
    requires ValidPolicy(p) && ValidRun(run) && ValidRun(other) && other == run.(intervals := other.intervals)
    requires ScanProblem(p, run.intervals).None? && ScanProblem(p, other.intervals).None?
    requires SummaryProblem(p, run).None?
    requires HasActive(other.intervals) && ActiveNs(run.intervals) <= ActiveNs(other.intervals)
    requires Elapsed(run.intervals) <= Elapsed(other.intervals)
    requires var s, t := run.intervals, other.intervals;
             && PhaseNs(Warmup, s) == PhaseNs(Warmup, t) && PhaseNs(Checkpoint, s) == PhaseNs(Checkpoint, t)
             && PhaseSteps(Warmup, s) == PhaseSteps(Warmup, t) && PhaseSteps(Active, s) == PhaseSteps(Active, t)
             && ActiveBatches(s) == ActiveBatches(t)
    ensures ActiveNs(run.intervals) > 0 && ActiveNs(other.intervals) > 0
    ensures SummaryProblem(p, other).None? <==>
              && ActiveNs(other.intervals) <= p.maximumActiveNs
              && run.fetchNs + run.setupNs + Elapsed(other.intervals) <= run.validatorObservedNs
    ensures var r := Summary(p, other);
            && r == Summary(p, run).(activeNs := ActiveNs(other.intervals), rate := r.rate)
            && r.rate <= Summary(p, run).rate
  {
    var s, t := run.intervals, other.intervals;
    ActiveTimeIsPositive(p, s);
    ActiveTimeIsPositive(p, t);
    UnitsArePositive(p, s);
    var units := AcceptedUnits(p, s);
    assert AcceptedUnits(p, t) == units;
    RateFalls(units, ActiveNs(s), ActiveNs(t));
  }

  lemma RateFalls(units: int, x: int, y: int)
    requires units >= 0 && 0 < x <= y
    ensures Rate(units, y) <= Rate(units, x)
  {
    FloorDecreases(units * MILLI_NANOSECONDS, x, y);
  }

  /**
   Delaying everything from interval `k` on keeps the accepted work and never raises the rate. The
   active time grows by exactly the delay when it falls inside the active span and not at all
   otherwise, and the delayed run is accepted exactly when the longer times respect their limits.
   */
  lemma DelayingNeverPays(p: PerformancePolicy, run: PerformanceRun, k: nat, d: nat)
    requires ValidPolicy(p) && ValidRun(run) && k <= |run.intervals| && ValidRun(DelayRun(run, k, d))
    requires Measured(p, run).Ok?
    ensures var s, r, delayed := run.intervals, Measured(p, run).value, Measured(p, DelayRun(run, k, d));
            var active := r.activeNs + (if InsideActiveSpan(s, k) then d else 0);
            && (delayed.Ok? <==>
                  && active <= p.maximumActiveNs
                  && run.fetchNs + run.setupNs + Elapsed(s) + (if 0 < k < |s| then d else 0) <= run.validatorObservedNs)
            && (delayed.Ok? ==>
                  && delayed.value == r.(activeNs := active, rate := delayed.value.rate)
                  && delayed.value.rate <= r.rate)
  {
    var s, t := run.intervals, DelayRun(run, k, d).intervals;
    DelayedMeasurements(p, run, k, d);
    DelayedSummary(p, run, DelayRun(run, k, d));
    assert HeaderProblem(p, DelayRun(run, k, d)) == HeaderProblem(p, run);
  }
}
