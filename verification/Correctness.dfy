/** Hidden correctness challenges: which steps and tensor slices a validator asks for. */
module Correctness {
  import opened Prelude
  import opened Ordering
  import opened ByteStrings
  import opened JsonValues
  import opened Merkle
  import opened Sampling

  const MAX_PROBES := 4096
  const MAX_VALUES_PER_PROBE := 64
  const MAX_CANDIDATE_STEPS := 100000
  const STEP_DOMAIN := "gpuforge/correctness/steps/v1\0"
  const SLICE_DOMAIN := "gpuforge/correctness/slice/v1\0"

  datatype ProofKind = Loss | Gradient | ParameterDelta | OptimizerState | CanaryOutput

  datatype ErrorCode =
    | Invalid
    | CounterOverflow
    | IdentityMismatch
    | StaleCheckpoint
    | CheckpointMismatch
    | MissingProbe
    | UnexpectedProbe
    | NumericMismatch

  datatype ProbeTarget = ProbeTarget(kind: ProofKind, tensorName: string, elementCount: int)

  datatype ProbeRequest = ProbeRequest(kind: ProofKind, step: int, tensorName: string, indices: seq<int>)

  datatype Challenge = Challenge(
    seed: string, scriptDigest: string, hyperparametersDigest: string, checkpointStep: int,
    requests: seq<ProbeRequest>)

  function KindText(kind: ProofKind): string {
    match kind
    case Loss => "loss"
    case Gradient => "gradient"
    case ParameterDelta => "parameter_delta"
    case OptimizerState => "optimizer_state"
    case CanaryOutput => "canary_output"
  }

  predicate ValidTarget(t: ProbeTarget) {
    IsTensorName(t.tensorName) && 1 <= t.elementCount <= MAX_INT63
  }

  /** The rules of the `ProbeRequest` constructor. */
  predicate ValidRequest(r: ProbeRequest) {
    && 1 <= r.step <= MAX_INT63
    && IsTensorName(r.tensorName)
    && 1 <= |r.indices| <= MAX_VALUES_PER_PROBE
    && (forall i :: 0 <= i < |r.indices| ==> 0 <= r.indices[i] < MAX_INT63)
    && AllDistinct(r.indices)
  }

  /** The rules of the `CorrectnessChallenge` constructor; the key of a request is all of it. */
  predicate ValidChallenge(c: Challenge) {
    && IsHex256(c.seed) && IsDigest(c.scriptDigest) && IsDigest(c.hyperparametersDigest)
    && 1 <= c.checkpointStep <= MAX_INT63
    && 1 <= |c.requests| <= MAX_PROBES
    && (forall r :: r in c.requests ==> ValidRequest(r))
    && AllDistinct(c.requests)
    && (forall r :: r in c.requests ==> r.step <= c.checkpointStep)
  }

  datatype Arguments = Arguments(
    seed: string, scriptDigest: string, hyperparametersDigest: string, checkpointStep: int,
    candidateSteps: seq<int>, targets: seq<ProbeTarget>, selectedStepCount: int, valuesPerTarget: int)

  datatype TargetKey = TargetKey(kind: ProofKind, tensorName: string)

  function KeyOfTarget(t: ProbeTarget): TargetKey {
    TargetKey(t.kind, t.tensorName)
  }

  predicate CoversKind(targets: seq<ProbeTarget>, kind: ProofKind) {
    exists i :: 0 <= i < |targets| && targets[i].kind == kind
  }

  /** The checks at the start of `generate_correctness_challenge`. */
  predicate ValidArguments(a: Arguments) {
    && IsHex256(a.seed) && IsDigest(a.scriptDigest) && IsDigest(a.hyperparametersDigest)
    && 1 <= a.checkpointStep <= MAX_INT63
    && 1 <= |a.candidateSteps| <= MAX_CANDIDATE_STEPS
    && (forall i :: 0 <= i < |a.candidateSteps| ==> 1 <= a.candidateSteps[i] <= a.checkpointStep)
    && AllDistinct(a.candidateSteps)
    && a.targets != []
    && (forall t :: t in a.targets ==> ValidTarget(t))
    && AllDistinct(Map(KeyOfTarget, a.targets))
    && (forall kind :: CoversKind(a.targets, kind))
    && 1 <= a.selectedStepCount <= |a.candidateSteps|
    && 1 <= a.valuesPerTarget <= MAX_VALUES_PER_PROBE
    && a.selectedStepCount * |a.targets| <= MAX_PROBES
  }

  predicate TargetLe(a: ProbeTarget, b: ProbeTarget) {
    if KindText(a.kind) == KindText(b.kind) then LexLe(a.tensorName, b.tensorName)
    else LexLe(KindText(a.kind), KindText(b.kind))
  }

  /** The first `count` candidates in the keyed ranking, in increasing order. */
  function Selected(mac: Hmac, seed: Bytes, candidates: seq<nat>, count: nat): (steps: seq<int>)
    requires count <= |candidates|
  {
    RankedIsSortedPermutation(mac, seed, STEP_DOMAIN, candidates);
    Sort<int>(IntLe, Ranked(mac, seed, STEP_DOMAIN, candidates)[..count])
  }

  /** The steps that the seed selects, in order. */
  function SelectedSteps(mac: Hmac, a: Arguments): seq<int>
    requires ValidArguments(a)
  {
    Selected(mac, FromHex(a.seed), a.candidateSteps, a.selectedStepCount)
  }

  /** Kind, name and step, each closed by a NUL. */
  function SliceContext(t: ProbeTarget, step: int, rest: Bytes): Bytes {
    KindText(t.kind) + ['\0'] + (t.tensorName + ['\0'] + (PrintInt(step) + ['\0'] + rest))
  }

  function SliceDomain(t: ProbeTarget, step: int): Bytes {
    SLICE_DOMAIN + SliceContext(t, step, "")
  }

  /** The stream behind each target and step. */
  type Slices = (ProbeTarget, int) -> Stream

  function ChallengeSlices(mac: Hmac, seed: Bytes): Slices {
    (t: ProbeTarget, step: int) =>
      if t.elementCount > 0 then SampleStream(mac, seed, SliceDomain(t, step), t.elementCount)
      else Stream(_ => 0, 1, 0)
  }

  /** Every stream samples among the elements of its target. */
  ghost predicate SlicesFit(slices: Slices) {
    forall t: ProbeTarget, step: int :: t.elementCount > 0 ==> slices(t, step).size == t.elementCount
  }

  function SampleCount(t: ProbeTarget, valuesPerTarget: int): nat
    requires ValidTarget(t) && valuesPerTarget >= 1
  {
    Min(valuesPerTarget, t.elementCount)
  }

  /** `r` asks for the sample of target `t` at `step`. */
  ghost predicate IsRequest(slices: Slices, values: int, step: int, t: ProbeTarget, r: ProbeRequest)
    requires SlicesFit(slices) && ValidTarget(t) && values >= 1
  {
    && r.kind == t.kind && r.step == step && r.tensorName == t.tensorName
    && slices(t, step).IsSample(SampleCount(t, values), r.indices)
  }

  ghost predicate ValidTargets(targets: seq<ProbeTarget>) {
    forall t :: t in targets ==> ValidTarget(t)
  }

  /** One request per target, in order. */
  ghost predicate IsRow(slices: Slices, values: int, step: int, targets: seq<ProbeTarget>, row: seq<ProbeRequest>)
    requires SlicesFit(slices) && values >= 1 && ValidTargets(targets)
  {
    |row| == |targets| && forall j :: 0 <= j < |row| ==> IsRequest(slices, values, step, targets[j], row[j])
  }

  /** One row of requests per step, in order. */
  ghost predicate InRows(isRow: (int, seq<ProbeRequest>) -> bool, width: nat, steps: seq<int>,
                         requests: seq<ProbeRequest>)
  {
    if steps == [] then requests == []
    else
      var last, n := |steps| - 1, |requests| - width;
      n >= 0 && InRows(isRow, width, steps[..last], requests[..n]) && isRow(steps[last], requests[n..])
  }

  ghost predicate AreRequests(slices: Slices, values: int, steps: seq<int>, targets: seq<ProbeTarget>,
                              requests: seq<ProbeRequest>)
    requires SlicesFit(slices) && values >= 1 && ValidTargets(targets)
  {
    InRows((step, row) => IsRow(slices, values, step, targets, row), |targets|, steps, requests)
  }

  lemma ChallengeSlicesFit(mac: Hmac, seed: Bytes)
    ensures SlicesFit(ChallengeSlices(mac, seed))
  {
  }

  lemma SortedTargets(targets: seq<ProbeTarget>)
    requires ValidTargets(targets)
    ensures ValidTargets(Sort(TargetLe, targets)) && |Sort(TargetLe, targets)| == |targets|
    ensures forall t :: t in Sort(TargetLe, targets) <==> t in targets
  {
    SortMultiset(TargetLe, targets);
  }

  /** What `generate_correctness_challenge` returns for valid arguments. */
  ghost predicate IsChallenge(mac: Hmac, a: Arguments, c: Challenge)
    requires ValidArguments(a)
  {
    ChallengeSlicesFit(mac, FromHex(a.seed));
    SortedTargets(a.targets);
    && c == Challenge(a.seed, a.scriptDigest, a.hyperparametersDigest, a.checkpointStep, c.requests)
    && AreRequests(ChallengeSlices(mac, FromHex(a.seed)), a.valuesPerTarget, SelectedSteps(mac, a),
                   Sort(TargetLe, a.targets), c.requests)
  }

  /** The stream of some selected step and target never shows enough distinct indices. */
  ghost predicate SomeStreamExhausted(slices: Slices, values: int, steps: seq<int>, targets: seq<ProbeTarget>)
    requires SlicesFit(slices) && values >= 1 && ValidTargets(targets)
  {
    exists step, t :: step in steps && t in targets && slices(t, step).Exhausted(SampleCount(t, values))
  }

  /**
   One request for every selected step and every target, in order; a stream that runs out is an error.
   */
  method GenerateChallenge(mac: Hmac, a: Arguments) returns (r: Result<Challenge, ErrorCode>)
    ensures r == Err(Invalid) <==> !ValidArguments(a)
    ensures r.Ok? ==> IsChallenge(mac, a, r.value)
    ensures r.Err? && ValidArguments(a) ==>
              var slices := ChallengeSlices(mac, FromHex(a.seed));
              && r.error == CounterOverflow && SlicesFit(slices)
              && SomeStreamExhausted(slices, a.valuesPerTarget, SelectedSteps(mac, a), a.targets)
  {
    if !ValidArguments(a) {
      return Err(Invalid);
    }
    var slices := ChallengeSlices(mac, FromHex(a.seed));
    ChallengeSlicesFit(mac, FromHex(a.seed));
    SortedTargets(a.targets);
    var requests := AllRequests(slices, a.valuesPerTarget, SelectedSteps(mac, a), Sort(TargetLe, a.targets));
    if requests.None? {
      return Err(CounterOverflow);
    }
    return Ok(Challenge(a.seed, a.scriptDigest, a.hyperparametersDigest, a.checkpointStep, requests.value));
  }

  method AllRequests(slices: Slices, values: int, steps: seq<int>, targets: seq<ProbeTarget>)
    returns (all: Option<seq<ProbeRequest>>)
    requires SlicesFit(slices) && values >= 1 && ValidTargets(targets)
    ensures all.Some? ==> AreRequests(slices, values, steps, targets, all.value)
    ensures all.None? ==> SomeStreamExhausted(slices, values, steps, targets)
  {
    var requests: seq<ProbeRequest> := [];
    for i := 0 to |steps|
      invariant AreRequests(slices, values, steps[..i], targets, requests)
    {
      var row := StepRequests(slices, values, steps[i], targets);
      if row.None? {
        assert steps[i] in steps;
        return None;
      }
      AppendRow(slices, values, steps[..i], steps[i], targets, requests, row.value);
      assert steps[..i + 1] == steps[..i] + [steps[i]];
      requests := requests + row.value;
    }
    assert steps[..|steps|] == steps;
    return Some(requests);
  }

  method StepRequests(slices: Slices, values: int, step: int, targets: seq<ProbeTarget>)
    returns (row: Option<seq<ProbeRequest>>)
    requires SlicesFit(slices) && values >= 1 && ValidTargets(targets)
    ensures row.Some? ==> IsRow(slices, values, step, targets, row.value)
    ensures row.None? ==> exists t :: t in targets && slices(t, step).Exhausted(SampleCount(t, values))
  {
    var requests: seq<ProbeRequest> := [];
    for j := 0 to |targets|
      invariant |requests| == j
      invariant forall k :: 0 <= k < j ==> IsRequest(slices, values, step, targets[k], requests[k])
    {
      assert targets[j] in targets;
      var request := StepRequest(slices, values, step, targets[j]);
      if request.None? {
        return None;
      }
      requests := requests + [request.value];
    }
    return Some(requests);
  }

  method StepRequest(slices: Slices, values: int, step: int, t: ProbeTarget) returns (request: Option<ProbeRequest>)
    requires SlicesFit(slices) && values >= 1 && ValidTarget(t)
    ensures request.Some? ==> IsRequest(slices, values, step, t, request.value)
    ensures request.None? ==> slices(t, step).Exhausted(SampleCount(t, values))
  {
    var indices := Draw(slices(t, step), SampleCount(t, values));
    return if indices.None? then None else Some(ProbeRequest(t.kind, step, t.tensorName, indices.value));
  }

  lemma AppendRow(slices: Slices, values: int, steps: seq<int>, step: int, targets: seq<ProbeTarget>,
                  requests: seq<ProbeRequest>, row: seq<ProbeRequest>)
    requires SlicesFit(slices) && values >= 1 && ValidTargets(targets)
    requires AreRequests(slices, values, steps, targets, requests)
    requires IsRow(slices, values, step, targets, row)
    ensures AreRequests(slices, values, steps + [step], targets, requests + row)
  {
    var all, longer := requests + row, steps + [step];
    assert longer[..|longer| - 1] == steps && longer[|longer| - 1] == step;
    assert all[..|all| - |targets|] == requests && all[|all| - |targets|..] == row;
  }

  // ---------- every generated challenge satisfies the constructors ----------

  lemma SelectedProperties(mac: Hmac, seed: Bytes, candidates: seq<nat>, count: nat)
    requires count <= |candidates| && Distinct(candidates)
    ensures var steps := Selected(mac, seed, candidates, count);
            && |steps| == count && StrictlyIncreasing(steps)
            && forall i :: 0 <= i < |steps| ==> steps[i] in candidates
  {
    RankedIsSortedPermutation(mac, seed, STEP_DOMAIN, candidates);
    var ranked: seq<nat> := Ranked(mac, seed, STEP_DOMAIN, candidates);
    DistinctPermutation(candidates, ranked);
    SameElements(candidates, ranked);
    var chosen: seq<int> := ranked[..count];
    SortIntsStrict(chosen);
    SortMultiset<int>(IntLe, chosen);
    var steps := Sort<int>(IntLe, chosen);
    forall i | 0 <= i < |steps| ensures steps[i] in candidates {
      assert steps[i] in chosen;
      var j :| 0 <= j < count && ranked[j] == steps[i];
      assert ranked[j] in candidates;
    }
  }

  lemma SelectedStepsProperties(mac: Hmac, a: Arguments)
    requires ValidArguments(a)
    ensures var steps := SelectedSteps(mac, a);
            && |steps| == a.selectedStepCount && StrictlyIncreasing(steps)
            && forall i :: 0 <= i < |steps| ==> 1 <= steps[i] <= a.checkpointStep
  {
    SelectedProperties(mac, FromHex(a.seed), a.candidateSteps, a.selectedStepCount);
    var steps := SelectedSteps(mac, a);
    forall i | 0 <= i < |steps| ensures 1 <= steps[i] <= a.checkpointStep {
      assert steps[i] in a.candidateSteps;
    }
  }

  lemma RequestIsValid(slices: Slices, values: int, step: int, t: ProbeTarget, r: ProbeRequest)
    requires SlicesFit(slices) && ValidTarget(t) && 1 <= values <= MAX_VALUES_PER_PROBE
    requires 1 <= step <= MAX_INT63 && IsRequest(slices, values, step, t, r)
    ensures ValidRequest(r) && |r.indices| == SampleCount(t, values) && StrictlyIncreasing(r.indices)
    ensures forall i :: 0 <= i < |r.indices| ==> 0 <= r.indices[i] < t.elementCount
  {
    SampleProperties(slices(t, step), SampleCount(t, values), r.indices);
  }

  lemma RowIsValid(slices: Slices, values: int, step: int, targets: seq<ProbeTarget>, row: seq<ProbeRequest>)
    requires SlicesFit(slices) && ValidTargets(targets) && 1 <= values <= MAX_VALUES_PER_PROBE
    requires 1 <= step <= MAX_INT63 && IsRow(slices, values, step, targets, row)
    ensures forall r :: r in row ==> ValidRequest(r) && r.step == step
  {
    forall r | r in row ensures ValidRequest(r) && r.step == step {
      var j :| 0 <= j < |row| && row[j] == r;
      assert targets[j] in targets && ValidTarget(targets[j]);
      RequestIsValid(slices, values, step, targets[j], r);
    }
  }

  lemma RowIsDistinct(slices: Slices, values: int, step: int, targets: seq<ProbeTarget>, row: seq<ProbeRequest>)
    requires SlicesFit(slices) && ValidTargets(targets) && values >= 1
    requires IsRow(slices, values, step, targets, row) && Distinct(Map(KeyOfTarget, targets))
    ensures Distinct(row)
  {
    forall i, j | 0 <= i < j < |row| ensures row[i] != row[j] {
      assert Map(KeyOfTarget, targets)[i] != Map(KeyOfTarget, targets)[j];
      assert IsRequest(slices, values, step, targets[i], row[i]);
      assert IsRequest(slices, values, step, targets[j], row[j]);
    }
  }

  /** Some request of the step asks for the kind. */
  ghost predicate CoversStep(requests: seq<ProbeRequest>, step: int, kind: ProofKind) {
    exists r :: r in requests && r.step == step && r.kind == kind
  }

  lemma RowCovers(slices: Slices, values: int, step: int, targets: seq<ProbeTarget>,
                  row: seq<ProbeRequest>, kind: ProofKind)
    requires SlicesFit(slices) && ValidTargets(targets) && values >= 1
    requires IsRow(slices, values, step, targets, row) && CoversKind(targets, kind)
    ensures CoversStep(row, step, kind)
  {
    var j :| 0 <= j < |targets| && targets[j].kind == kind;
    assert IsRequest(slices, values, step, targets[j], row[j]);
    assert row[j] in row;
  }

  ghost predicate ValidSteps(steps: seq<int>) {
    forall i :: 0 <= i < |steps| ==> 1 <= steps[i] <= MAX_INT63
  }

  lemma {:induction false} RequestsProperties(slices: Slices, values: int, steps: seq<int>,
                                              targets: seq<ProbeTarget>, requests: seq<ProbeRequest>)
    requires SlicesFit(slices) && ValidTargets(targets) && 1 <= values <= MAX_VALUES_PER_PROBE
    requires ValidSteps(steps) && Distinct(steps) && Distinct(Map(KeyOfTarget, targets))
    requires AreRequests(slices, values, steps, targets, requests)
    ensures |requests| == |steps| * |targets|
    ensures forall r :: r in requests ==> ValidRequest(r) && r.step in steps
    ensures Distinct(requests)
  {
    if steps != [] {
      var n, last := |requests| - |targets|, steps[|steps| - 1];
      var before, row, earlier := requests[..n], requests[n..], steps[..|steps| - 1];
      assert steps == earlier + [last] && requests == before + row;
      assert last !in earlier;
      RequestsProperties(slices, values, earlier, targets, before);
      RowIsValid(slices, values, last, targets, row);
      RowIsDistinct(slices, values, last, targets, row);
      DistinctConcat(before, row);
      OneMore(|earlier|, |targets|);
    }
  }

  lemma OneMore(m: nat, n: nat)
    ensures m * n + n == (m + 1) * n
  {
  }

  lemma DistinctConcat(before: seq<ProbeRequest>, row: seq<ProbeRequest>)
    requires Distinct(before) && Distinct(row)
    requires forall r, s :: r in before && s in row ==> r.step != s.step
    ensures Distinct(before + row)
  {
    var all := before + row;
    forall i, j | 0 <= i < j < |all| ensures all[i] != all[j] {
      if i < |before| <= j {
        assert all[i] in before && all[j] in row;
      }
    }
  }

  /** Every step has its row among the requests. */
  lemma {:induction false} RowOf(isRow: (int, seq<ProbeRequest>) -> bool, width: nat, steps: seq<int>,
                                 requests: seq<ProbeRequest>, i: nat) returns (row: seq<ProbeRequest>)
    requires InRows(isRow, width, steps, requests) && i < |steps|
    ensures isRow(steps[i], row) && forall r :: r in row ==> r in requests
  {
    var n, last := |requests| - width, |steps| - 1;
    if i < last {
      row := RowOf(isRow, width, steps[..last], requests[..n], i);
    } else {
      row := requests[n..];
    }
  }

  lemma RequestsCover(slices: Slices, values: int, steps: seq<int>, targets: seq<ProbeTarget>,
                      requests: seq<ProbeRequest>, i: nat, kind: ProofKind)
    requires SlicesFit(slices) && ValidTargets(targets) && values >= 1
    requires AreRequests(slices, values, steps, targets, requests)
    requires i < |steps| && CoversKind(targets, kind)
    ensures CoversStep(requests, steps[i], kind)
  {
    var row := RowOf((step, row) => IsRow(slices, values, step, targets, row), |targets|, steps, requests, i);
    RowCovers(slices, values, steps[i], targets, row, kind);
    var r :| r in row && r.step == steps[i] && r.kind == kind;
    assert r in requests;
  }

  lemma TargetsPermuted(a: seq<ProbeTarget>, b: seq<ProbeTarget>)
    requires multiset(a) == multiset(b) && Distinct(Map(KeyOfTarget, a))
    ensures Distinct(Map(KeyOfTarget, b))
    ensures forall kind :: CoversKind(a, kind) ==> CoversKind(b, kind)
  {
    MapMultiset(KeyOfTarget, a, b);
    DistinctPermutation(Map(KeyOfTarget, a), Map(KeyOfTarget, b));
    SameElements(a, b);
    forall kind | CoversKind(a, kind) ensures CoversKind(b, kind) {
      var i :| 0 <= i < |a| && a[i].kind == kind;
      assert a[i] in b;
    }
  }

  /**
   A challenge generated from arguments that pass the checks always satisfies every constructor
   rule: it has one valid request per selected step and target, no request twice, no step beyond the
   checkpoint, and every proof kind at every selected step.
   */
  lemma GeneratedChallengeIsValid(mac: Hmac, a: Arguments, c: Challenge)
    requires ValidArguments(a) && IsChallenge(mac, a, c)
    ensures ValidChallenge(c)
    ensures |c.requests| == a.selectedStepCount * |a.targets|
    ensures |SelectedSteps(mac, a)| == a.selectedStepCount
    ensures forall i, kind :: 0 <= i < a.selectedStepCount ==>
              CoversStep(c.requests, SelectedSteps(mac, a)[i], kind)
  {
    var slices := ChallengeSlices(mac, FromHex(a.seed));
    var steps, targets := SelectedSteps(mac, a), Sort(TargetLe, a.targets);
    ChallengeSlicesFit(mac, FromHex(a.seed));
    SortedTargets(a.targets);
    SortMultiset(TargetLe, a.targets);
    SelectedStepsProperties(mac, a);
    TargetsPermuted(a.targets, targets);
    RequestsProperties(slices, a.valuesPerTarget, steps, targets, c.requests);
    assert a.selectedStepCount * |a.targets| >= 1;
    forall i, kind | 0 <= i < a.selectedStepCount ensures CoversStep(c.requests, steps[i], kind) {
      RequestsCover(slices, a.valuesPerTarget, steps, targets, c.requests, i, kind);
    }
  }

  /** The candidates in the order of their keyed digests. */
  ghost predicate IsRanking(mac: Hmac, seed: Bytes, candidates: seq<nat>, ranking: seq<nat>) {
    multiset(ranking) == multiset(candidates) && Sorted(KeyedLe, Keys(mac, seed, STEP_DOMAIN, ranking))
  }

  /** The selected steps are exactly the first ones of that order, listed in increasing order. */
  lemma SelectedExact(mac: Hmac, seed: Bytes, candidates: seq<nat>, count: nat, ranking: seq<nat>)
    requires count <= |candidates| && Distinct(candidates) && IsRanking(mac, seed, candidates, ranking)
    ensures |ranking| == |candidates|
    ensures var steps := Selected(mac, seed, candidates, count);
            StrictlyIncreasing(steps) && ToSet(steps) == set i | 0 <= i < count :: ranking[i] as int
  {
    RankedIsUnique(mac, seed, STEP_DOMAIN, candidates, ranking);
    RankedIsSortedPermutation(mac, seed, STEP_DOMAIN, candidates);
    SelectedProperties(mac, seed, candidates, count);
    var chosen: seq<int> := ranking[..count];
    SortMultiset<int>(IntLe, chosen);
    var steps := Selected(mac, seed, candidates, count);
    SameElements<int>(steps, chosen);
    forall x ensures x in ToSet(steps) <==> exists i :: 0 <= i < count && ranking[i] == x {
      if i :| 0 <= i < count && ranking[i] == x {
        assert chosen[i] == x;
      }
    }
  }

  /** The request samples the target: different indices among its elements, as many as asked for or as there are. */
  ghost predicate Samples(a: Arguments, t: ProbeTarget, r: ProbeRequest) {
    && r.kind == t.kind && r.tensorName == t.tensorName
    && |r.indices| == (if a.valuesPerTarget <= t.elementCount then a.valuesPerTarget else t.elementCount)
    && StrictlyIncreasing(r.indices) && forall i :: 0 <= i < |r.indices| ==> 0 <= r.indices[i] < t.elementCount
  }

  /** Every request belongs to a row. */
  lemma {:induction false} RowWith(isRow: (int, seq<ProbeRequest>) -> bool, width: nat, steps: seq<int>,
                                   requests: seq<ProbeRequest>, r: ProbeRequest)
    returns (step: int, row: seq<ProbeRequest>)
    requires InRows(isRow, width, steps, requests) && r in requests
    ensures step in steps && isRow(step, row) && r in row
  {
    var n, last := |requests| - width, |steps| - 1;
    assert requests == requests[..n] + requests[n..];
    if r in requests[n..] {
      step, row := steps[last], requests[n..];
    } else {
      step, row := RowWith(isRow, width, steps[..last], requests[..n], r);
      assert steps == steps[..last] + [steps[last]];
    }
  }

  /** A generated challenge asks, at the selected steps and for the targets given, for samples and nothing else. */
  lemma RequestsAreSamples(mac: Hmac, a: Arguments, c: Challenge, r: ProbeRequest)
    requires ValidArguments(a) && IsChallenge(mac, a, c) && r in c.requests
    ensures r.step in SelectedSteps(mac, a)
    ensures exists t :: t in a.targets && Samples(a, t, r)
  {
    var slices := ChallengeSlices(mac, FromHex(a.seed));
    var steps, targets := SelectedSteps(mac, a), Sort(TargetLe, a.targets);
    ChallengeSlicesFit(mac, FromHex(a.seed));
    SortedTargets(a.targets);
    SelectedStepsProperties(mac, a);
    var step, row := RowWith((step, row) => IsRow(slices, a.valuesPerTarget, step, targets, row), |targets|, steps,
                             c.requests, r);
    var j :| 0 <= j < |row| && row[j] == r;
    assert targets[j] in targets && ValidTarget(targets[j]);
    RequestIsValid(slices, a.valuesPerTarget, step, targets[j], r);
    assert targets[j] in a.targets && Samples(a, targets[j], r);
  }

  /** And it asks for a sample of every target at every selected step. */
  lemma TargetsAreSampled(mac: Hmac, a: Arguments, c: Challenge, i: nat, t: ProbeTarget)
    requires ValidArguments(a) && IsChallenge(mac, a, c)
    requires i < |SelectedSteps(mac, a)| && t in a.targets
    ensures exists r :: r in c.requests && r.step == SelectedSteps(mac, a)[i] && Samples(a, t, r)
  {
    var slices := ChallengeSlices(mac, FromHex(a.seed));
    var steps, targets := SelectedSteps(mac, a), Sort(TargetLe, a.targets);
    ChallengeSlicesFit(mac, FromHex(a.seed));
    SortedTargets(a.targets);
    SelectedStepsProperties(mac, a);
    var row := RowOf((step, row) => IsRow(slices, a.valuesPerTarget, step, targets, row), |targets|, steps,
                     c.requests, i);
    var j :| 0 <= j < |targets| && targets[j] == t;
    RequestIsValid(slices, a.valuesPerTarget, steps[i], t, row[j]);
    assert row[j] in row && Samples(a, t, row[j]);
  }

  // ---------- the order of the arguments does not matter ----------

  lemma TargetOrder(targets: seq<ProbeTarget>)
    requires Distinct(Map(KeyOfTarget, targets))
    ensures TotalPreorder(TargetLe) && Separates(TargetLe, targets)
  {
    forall a: ProbeTarget, b: ProbeTarget ensures TargetLe(a, b) || TargetLe(b, a) {
      LexTotal(a.tensorName, b.tensorName);
      LexTotal(KindText(a.kind), KindText(b.kind));
    }
    forall a: ProbeTarget, b: ProbeTarget, c: ProbeTarget | TargetLe(a, b) && TargetLe(b, c)
      ensures TargetLe(a, c)
    {
      TargetLeTransitive(a, b, c);
    }
    forall x, y | x in targets && y in targets && TargetLe(x, y) && TargetLe(y, x) ensures x == y {
      TargetLeAntisymmetric(x, y);
      SameKeySameTarget(targets, x, y);
    }
  }

  lemma TargetLeAntisymmetric(x: ProbeTarget, y: ProbeTarget)
    requires TargetLe(x, y) && TargetLe(y, x)
    ensures KeyOfTarget(x) == KeyOfTarget(y)
  {
    if KindText(x.kind) != KindText(y.kind) {
      LexAntisymmetric(KindText(x.kind), KindText(y.kind));
    } else {
      LexAntisymmetric(x.tensorName, y.tensorName);
      KindTextInjective(x.kind, y.kind);
    }
  }

  lemma KindTextInjective(a: ProofKind, b: ProofKind)
    requires KindText(a) == KindText(b)
    ensures a == b
  {
    assert KindText(a)[0] == KindText(b)[0];
  }

  lemma SameKeySameTarget(targets: seq<ProbeTarget>, x: ProbeTarget, y: ProbeTarget)
    requires Distinct(Map(KeyOfTarget, targets)) && x in targets && y in targets && KeyOfTarget(x) == KeyOfTarget(y)
    ensures x == y
  {
    var i :| 0 <= i < |targets| && targets[i] == x;
    var j :| 0 <= j < |targets| && targets[j] == y;
    assert Map(KeyOfTarget, targets)[i] == Map(KeyOfTarget, targets)[j];
  }

  lemma TargetLeTransitive(a: ProbeTarget, b: ProbeTarget, c: ProbeTarget)
    requires TargetLe(a, b) && TargetLe(b, c)
    ensures TargetLe(a, c)
  {
    var x, y, z := KindText(a.kind), KindText(b.kind), KindText(c.kind);
    if x == y == z {
      LexTransitive(a.tensorName, b.tensorName, c.tensorName);
    } else if x != y && y != z {
      LexTransitive(x, y, z);
      if x == z {
        LexAntisymmetric(x, y);
      }
    }
  }

  lemma RowUnique(slices: Slices, values: int, step: int, targets: seq<ProbeTarget>,
                  r: seq<ProbeRequest>, s: seq<ProbeRequest>)
    requires SlicesFit(slices) && ValidTargets(targets) && values >= 1
    requires IsRow(slices, values, step, targets, r) && IsRow(slices, values, step, targets, s)
    ensures r == s
  {
    forall j | 0 <= j < |targets| ensures r[j] == s[j] {
      assert ValidTarget(targets[j]);
      assert IsRequest(slices, values, step, targets[j], r[j]) && IsRequest(slices, values, step, targets[j], s[j]);
      SampleProperties(slices(targets[j], step), SampleCount(targets[j], values), r[j].indices);
    }
  }

  lemma {:induction false} RowsUnique(isRow: (int, seq<ProbeRequest>) -> bool, width: nat, steps: seq<int>,
                                      r: seq<ProbeRequest>, s: seq<ProbeRequest>)
    requires forall step, x, y :: isRow(step, x) && isRow(step, y) ==> x == y
    requires InRows(isRow, width, steps, r) && InRows(isRow, width, steps, s)
    ensures r == s
  {
    if steps != [] {
      var n, m := |r| - width, |s| - width;
      RowsUnique(isRow, width, steps[..|steps| - 1], r[..n], s[..m]);
      assert r == r[..n] + r[n..] && s == s[..m] + s[m..];
    }
  }

  lemma RequestsUnique(slices: Slices, values: int, steps: seq<int>, targets: seq<ProbeTarget>,
                       r: seq<ProbeRequest>, s: seq<ProbeRequest>)
    requires SlicesFit(slices) && ValidTargets(targets) && values >= 1
    requires AreRequests(slices, values, steps, targets, r)
    requires AreRequests(slices, values, steps, targets, s)
    ensures r == s
  {
    var isRow := (step, row) => IsRow(slices, values, step, targets, row);
    forall step, x, y | isRow(step, x) && isRow(step, y) ensures x == y {
      RowUnique(slices, values, step, targets, x, y);
    }
    RowsUnique(isRow, |targets|, steps, r, s);
  }

  /** Listing the candidate steps or the targets in another order gives the same challenge. */
  lemma ChallengeIgnoresOrder(mac: Hmac, a: Arguments, b: Arguments, c: Challenge, d: Challenge)
    requires ValidArguments(a) && ValidArguments(b)
    requires b == a.(candidateSteps := b.candidateSteps, targets := b.targets)
    requires multiset(a.candidateSteps) == multiset(b.candidateSteps)
    requires multiset(a.targets) == multiset(b.targets)
    requires IsChallenge(mac, a, c) && IsChallenge(mac, b, d)
    ensures c == d
  {
    RankedIgnoresOrder(mac, FromHex(a.seed), STEP_DOMAIN, a.candidateSteps, b.candidateSteps);
    TargetOrder(a.targets);
    SortCanonical(TargetLe, a.targets, b.targets);
    SortedTargets(a.targets);
    ChallengeSlicesFit(mac, FromHex(a.seed));
    RequestsUnique(ChallengeSlices(mac, FromHex(a.seed)), a.valuesPerTarget, SelectedSteps(mac, a),
                   Sort(TargetLe, a.targets), c.requests, d.requests);
  }

  // ---------- comparing a miner's observations with the reference run ----------

  datatype ProbeResult<D> = ProbeResult(request: ProbeRequest, values: seq<D>)

  datatype ProofBundle<D> = ProofBundle(
    scriptDigest: string, hyperparametersDigest: string, checkpointStep: int, checkpointRoot: string,
    probes: seq<ProbeResult<D>>)

  function RequestOf<D>(probe: ProbeResult<D>): ProbeRequest {
    probe.request
  }

  /** The rules of the `ProbeResult` and `TrainingProofBundle` constructors that shape the probes. */
  ghost predicate ValidBundle<D>(b: ProofBundle<D>) {
    && 1 <= |b.probes| <= MAX_PROBES
    && (forall p :: p in b.probes ==> |p.values| == |p.request.indices|)
    && Distinct(Map(RequestOf<D>, b.probes))
  }

  /** The probes by the request they answer. */
  function ByRequest<D>(probes: seq<ProbeResult<D>>): (m: map<ProbeRequest, ProbeResult<D>>)
    ensures forall r :: r in m ==> m[r] in probes && m[r].request == r
    ensures forall p :: p in probes ==> p.request in m
  {
    if probes == [] then map[]
    else
      assert probes == probes[..|probes| - 1] + [probes[|probes| - 1]];
      ByRequest(probes[..|probes| - 1])[probes[|probes| - 1].request := probes[|probes| - 1]]
  }

  function Required(requests: seq<ProbeRequest>): set<ProbeRequest> {
    set r | r in requests
  }

  /** The first problem with identities, steps, roots or the sets of probes. */
  function Mismatch<D>(c: Challenge, expected: ProofBundle<D>, observed: ProofBundle<D>): Option<ErrorCode> {
    if expected.scriptDigest != c.scriptDigest || expected.hyperparametersDigest != c.hyperparametersDigest then
      Some(IdentityMismatch)
    else if expected.checkpointStep != c.checkpointStep then Some(StaleCheckpoint)
    else if observed.scriptDigest != c.scriptDigest || observed.hyperparametersDigest != c.hyperparametersDigest then
      Some(IdentityMismatch)
    else if observed.checkpointStep != c.checkpointStep then Some(StaleCheckpoint)
    else if expected.checkpointRoot != observed.checkpointRoot then Some(CheckpointMismatch)
    else
      var required := Required(c.requests);
      var e, o := ByRequest(expected.probes).Keys, ByRequest(observed.probes).Keys;
      if !(required <= e) || !(required <= o) then Some(MissingProbe)
      else if e != required || o != required then Some(UnexpectedProbe)
      else None
  }

  /** Whether a policy accepts an observed value for an expected one of some proof kind. */
  type Tolerance<!D> = (ProofKind, D, D) -> bool

  predicate Within<D>(accepts: Tolerance<D>, kind: ProofKind, expected: seq<D>, observed: seq<D>)
    requires |expected| == |observed|
  {
    forall i :: 0 <= i < |expected| ==> accepts(kind, expected[i], observed[i])
  }

  /** All requested values are within tolerance. */
  ghost predicate AllWithin<D>(accepts: Tolerance<D>, requests: seq<ProbeRequest>,
                               expected: map<ProbeRequest, ProbeResult<D>>, observed: map<ProbeRequest, ProbeResult<D>>)
  {
    forall i :: 0 <= i < |requests| && requests[i] in expected && requests[i] in observed ==>
      var e, o := expected[requests[i]].values, observed[requests[i]].values;
      |e| == |o| && Within(accepts, requests[i].kind, e, o)
  }

  function ValueCount(requests: seq<ProbeRequest>): nat {
    if requests == [] then 0
    else ValueCount(requests[..|requests| - 1]) + |requests[|requests| - 1].indices|
  }

  datatype Summary = Summary(checkedProbes: nat, checkedValues: nat, checkpointRoot: string)

  lemma BundleShape<D>(b: ProofBundle<D>, r: ProbeRequest)
    requires ValidBundle(b) && r in ByRequest(b.probes)
    ensures |ByRequest(b.probes)[r].values| == |r.indices|
  {
  }

  /** The inner loop over the values of one probe. */
  method CompareValues<D>(accepts: Tolerance<D>, kind: ProofKind, expected: seq<D>, observed: seq<D>, before: nat)
    returns (ok: bool, checkedValues: nat)
    requires |expected| == |observed|
    ensures ok <==> Within(accepts, kind, expected, observed)
    ensures ok ==> checkedValues == before + |expected|
  {
    checkedValues := before;
    for k := 0 to |expected|
      invariant checkedValues == before + k
      invariant forall l :: 0 <= l < k ==> accepts(kind, expected[l], observed[l])
    {
      checkedValues := checkedValues + 1;
      if !accepts(kind, expected[k], observed[k]) {
        return false, checkedValues;
      }
    }
    return true, checkedValues;
  }

  /** The request has as many values as indices. */
  ghost predicate Answered<D>(r: ProbeRequest, values: map<ProbeRequest, ProbeResult<D>>) {
    r in values && |values[r].values| == |r.indices|
  }

  lemma RequestsAnswered<D>(requests: seq<ProbeRequest>, b: ProofBundle<D>)
    requires ValidBundle(b) && Required(requests) <= ByRequest(b.probes).Keys
    ensures forall i :: 0 <= i < |requests| ==> Answered(requests[i], ByRequest(b.probes))
  {
    forall i | 0 <= i < |requests| ensures Answered(requests[i], ByRequest(b.probes)) {
      assert requests[i] in Required(requests);
      BundleShape(b, requests[i]);
    }
  }

  lemma MatchedBundlesCover<D>(c: Challenge, expected: ProofBundle<D>, observed: ProofBundle<D>)
    requires Mismatch(c, expected, observed).None?
    ensures Required(c.requests) <= ByRequest(expected.probes).Keys
    ensures Required(c.requests) <= ByRequest(observed.probes).Keys
  {
  }

  lemma MatchedBundlesAnswer<D>(c: Challenge, expected: ProofBundle<D>, observed: ProofBundle<D>)
    requires ValidBundle(expected) && ValidBundle(observed) && Mismatch(c, expected, observed).None?
    ensures forall i :: 0 <= i < |c.requests| ==>
              && Answered(c.requests[i], ByRequest(expected.probes))
              && Answered(c.requests[i], ByRequest(observed.probes))
  {
    MatchedBundlesCover(c, expected, observed);
    assert forall i :: 0 <= i < |c.requests| ==> Answered(c.requests[i], ByRequest(expected.probes)) by {
      RequestsAnswered(c.requests, expected);
    }
    assert forall i :: 0 <= i < |c.requests| ==> Answered(c.requests[i], ByRequest(observed.probes)) by {
      RequestsAnswered(c.requests, observed);
    }
  }

  /** The outer loop over the requests. */
  method CompareProbes<D>(accepts: Tolerance<D>, requests: seq<ProbeRequest>,
                          expected: map<ProbeRequest, ProbeResult<D>>, observed: map<ProbeRequest, ProbeResult<D>>)
    returns (ok: bool, checkedValues: nat)
    requires forall i :: 0 <= i < |requests| ==> Answered(requests[i], expected) && Answered(requests[i], observed)
    ensures ok <==> AllWithin(accepts, requests, expected, observed)
    ensures ok ==> checkedValues == ValueCount(requests)
  {
    checkedValues := 0;
    for i := 0 to |requests|
      invariant checkedValues == ValueCount(requests[..i])
      invariant forall j :: 0 <= j < i ==>
                  Within(accepts, requests[j].kind, expected[requests[j]].values, observed[requests[j]].values)
    {
      var e, o := expected[requests[i]].values, observed[requests[i]].values;
      assert requests[..i + 1][..i] == requests[..i];
      var same;
      same, checkedValues := CompareValues(accepts, requests[i].kind, e, o, checkedValues);
      if !same {
        return false, checkedValues;
      }
    }
    assert requests[..|requests|] == requests;
    return true, checkedValues;
  }

  lemma OneProbePerRequest<D>(probes: seq<ProbeResult<D>>, p: ProbeResult<D>, q: ProbeResult<D>)
    requires Distinct(Map(RequestOf<D>, probes)) && p in probes && q in probes && p.request == q.request
    ensures p == q
  {
    var i :| 0 <= i < |probes| && probes[i] == p;
    var j :| 0 <= j < |probes| && probes[j] == q;
    assert Map(RequestOf<D>, probes)[i] == Map(RequestOf<D>, probes)[j];
  }

  lemma ByRequestFinds<D>(probes: seq<ProbeResult<D>>, p: ProbeResult<D>)
    requires Distinct(Map(RequestOf<D>, probes)) && p in probes
    ensures p.request in ByRequest(probes) && ByRequest(probes)[p.request] == p
  {
    OneProbePerRequest(probes, p, ByRequest(probes)[p.request]);
  }

  // ---------- when a bundle is accepted ----------

  ghost predicate Answers<D>(b: ProofBundle<D>, r: ProbeRequest) {
    exists p :: p in b.probes && p.request == r
  }

  /** The bundle is about the challenge's script, hyperparameters and checkpoint step. */
  predicate IsAbout<D>(c: Challenge, b: ProofBundle<D>) {
    HasIdentity(c, b) && b.checkpointStep == c.checkpointStep
  }

  predicate HasIdentity<D>(c: Challenge, b: ProofBundle<D>) {
    b.scriptDigest == c.scriptDigest && b.hyperparametersDigest == c.hyperparametersDigest
  }

  /** Both bundles are about the challenge and have the same root. */
  predicate Comparable<D>(c: Challenge, expected: ProofBundle<D>, observed: ProofBundle<D>) {
    IsAbout(c, expected) && IsAbout(c, observed) && expected.checkpointRoot == observed.checkpointRoot
  }

  ghost predicate AnswersAll<D>(c: Challenge, b: ProofBundle<D>) {
    forall r :: r in c.requests ==> Answers(b, r)
  }

  ghost predicate AnswersOnly<D>(c: Challenge, b: ProofBundle<D>) {
    forall r :: Answers(b, r) ==> r in c.requests
  }

  /** Wherever the bundles answer the same request, every value is within tolerance of its counterpart. */
  ghost predicate ValuesAgree<D>(accepts: Tolerance<D>, expected: ProofBundle<D>, observed: ProofBundle<D>) {
    forall p, q :: p in expected.probes && q in observed.probes && p.request == q.request ==>
      Agree(accepts, p, q)
  }

  ghost predicate Agree<D>(accepts: Tolerance<D>, p: ProbeResult<D>, q: ProbeResult<D>) {
    && |p.values| == |q.values|
    && forall k :: 0 <= k < |p.values| ==> accepts(p.request.kind, p.values[k], q.values[k])
  }

  /** The observed bundle reproduces the expected one on exactly the requests of the challenge. */
  ghost predicate Reproduces<D>(accepts: Tolerance<D>, c: Challenge, expected: ProofBundle<D>, observed: ProofBundle<D>)
  {
    && Comparable(c, expected, observed)
    && AnswersAll(c, expected) && AnswersAll(c, observed) && AnswersOnly(c, expected) && AnswersOnly(c, observed)
    && ValuesAgree(accepts, expected, observed)
  }

  predicate Covers<D>(c: Challenge, b: ProofBundle<D>) {
    Required(c.requests) <= ByRequest(b.probes).Keys
  }

  predicate CoveredBy<D>(c: Challenge, b: ProofBundle<D>) {
    ByRequest(b.probes).Keys <= Required(c.requests)
  }

  lemma AnswersByRequest<D>(c: Challenge, b: ProofBundle<D>)
    ensures AnswersAll(c, b) <==> Covers(c, b)
    ensures AnswersOnly(c, b) <==> CoveredBy(c, b)
  {
    var m := ByRequest(b.probes);
    forall r ensures Answers(b, r) <==> r in m {
      if r in m {
        assert m[r] in b.probes;
      }
    }
  }

  lemma MismatchBySets<D>(c: Challenge, expected: ProofBundle<D>, observed: ProofBundle<D>)
    ensures var found := Mismatch(c, expected, observed);
            && (found == Some(IdentityMismatch) <==>
                  !HasIdentity(c, expected) || (IsAbout(c, expected) && !HasIdentity(c, observed)))
            && (found == Some(StaleCheckpoint) <==>
                  && HasIdentity(c, expected)
                  && (!IsAbout(c, expected) || (HasIdentity(c, observed) && !IsAbout(c, observed))))
            && (found == Some(CheckpointMismatch) <==>
                  && IsAbout(c, expected) && IsAbout(c, observed)
                  && expected.checkpointRoot != observed.checkpointRoot)
            && (found == Some(MissingProbe) <==>
                  Comparable(c, expected, observed) && !(Covers(c, expected) && Covers(c, observed)))
            && (found == Some(UnexpectedProbe) <==>
                  && Comparable(c, expected, observed) && Covers(c, expected) && Covers(c, observed)
                  && !(CoveredBy(c, expected) && CoveredBy(c, observed)))
            && (found == None <==>
                  && Comparable(c, expected, observed) && Covers(c, expected) && Covers(c, observed)
                  && CoveredBy(c, expected) && CoveredBy(c, observed))
  {
  }

  /** Which mismatch is found, in the order in which they are looked for. */
  lemma MismatchExact<D>(c: Challenge, expected: ProofBundle<D>, observed: ProofBundle<D>)
    ensures var found := Mismatch(c, expected, observed);
            && (found == Some(IdentityMismatch) <==>
                  !HasIdentity(c, expected) || (IsAbout(c, expected) && !HasIdentity(c, observed)))
            && (found == Some(StaleCheckpoint) <==>
                  && HasIdentity(c, expected)
                  && (!IsAbout(c, expected) || (HasIdentity(c, observed) && !IsAbout(c, observed))))
            && (found == Some(CheckpointMismatch) <==>
                  && IsAbout(c, expected) && IsAbout(c, observed)
                  && expected.checkpointRoot != observed.checkpointRoot)
            && (found == Some(MissingProbe) <==>
                  Comparable(c, expected, observed) && !(AnswersAll(c, expected) && AnswersAll(c, observed)))
            && (found == Some(UnexpectedProbe) <==>
                  && Comparable(c, expected, observed) && AnswersAll(c, expected) && AnswersAll(c, observed)
                  && !(AnswersOnly(c, expected) && AnswersOnly(c, observed)))
            && (found == None <==>
                  && Comparable(c, expected, observed) && AnswersAll(c, expected) && AnswersAll(c, observed)
                  && AnswersOnly(c, expected) && AnswersOnly(c, observed))
  {
    AnswersByRequest(c, expected);
    AnswersByRequest(c, observed);
    MismatchBySets(c, expected, observed);
  }

  /** Comparing the values request by request is comparing all pairs of probes for the same request. */
  lemma WithinIsAgreement<D>(accepts: Tolerance<D>, c: Challenge, expected: ProofBundle<D>, observed: ProofBundle<D>)
    requires ValidBundle(expected) && ValidBundle(observed)
    requires AnswersAll(c, expected) && AnswersAll(c, observed)
    requires AnswersOnly(c, expected) && AnswersOnly(c, observed)
    ensures AllWithin(accepts, c.requests, ByRequest(expected.probes), ByRequest(observed.probes))
       <==> ValuesAgree(accepts, expected, observed)
  {
    var e, o := ByRequest(expected.probes), ByRequest(observed.probes);
    AnswersByRequest(c, expected);
    AnswersByRequest(c, observed);
    if AllWithin(accepts, c.requests, e, o) {
      forall p, q | p in expected.probes && q in observed.probes && p.request == q.request
        ensures Agree(accepts, p, q)
      {
        ByRequestFinds(expected.probes, p);
        ByRequestFinds(observed.probes, q);
        assert p.request in Required(c.requests);
        var i :| 0 <= i < |c.requests| && c.requests[i] == p.request;
      }
    }
    if ValuesAgree(accepts, expected, observed) {
      forall i | 0 <= i < |c.requests| && c.requests[i] in e && c.requests[i] in o
        ensures |e[c.requests[i]].values| == |o[c.requests[i]].values|
        ensures Within(accepts, c.requests[i].kind, e[c.requests[i]].values, o[c.requests[i]].values)
      {
        assert Agree(accepts, e[c.requests[i]], o[c.requests[i]]);
      }
    }
  }

  /**
   `TrainingCorrectnessVerifier.verify`: it accepts exactly when identities, step and root agree, both
   bundles answer exactly the requests of the challenge, and every single value is within tolerance; it
   then reports how much it compared.
   */
  method Verify<D>(accepts: Tolerance<D>, c: Challenge, expected: ProofBundle<D>, observed: ProofBundle<D>)
    returns (r: Result<Summary, ErrorCode>)
    requires ValidBundle(expected) && ValidBundle(observed)
    ensures r.Ok? <==> Reproduces(accepts, c, expected, observed)
    ensures r.Ok? ==> r.value == Summary(|c.requests|, ValueCount(c.requests), observed.checkpointRoot)
    ensures r.Err? ==> r.error == match Mismatch(c, expected, observed)
                                  case Some(code) => code
                                  case None => NumericMismatch
  {
    var mismatch := Mismatch(c, expected, observed);
    MismatchExact(c, expected, observed);
    if mismatch.Some? {
      return Err(mismatch.value);
    }
    var expectedValues, observedValues := ByRequest(expected.probes), ByRequest(observed.probes);
    MatchedBundlesAnswer(c, expected, observed);
    WithinIsAgreement(accepts, c, expected, observed);
    var ok, checkedValues := CompareProbes(accepts, c.requests, expectedValues, observedValues);
    return if ok then Ok(Summary(|c.requests|, checkedValues, observed.checkpointRoot)) else Err(NumericMismatch);
  }

  // ---------- a reproduced reference run ----------

  lemma ByRequestAgrees<D>(a: seq<ProbeResult<D>>, b: seq<ProbeResult<D>>, r: ProbeRequest)
    requires Distinct(Map(RequestOf<D>, b)) && (forall p :: p in a ==> p in b) && r in ByRequest(a)
    ensures r in ByRequest(b) && ByRequest(b)[r] == ByRequest(a)[r]
  {
    ByRequestFinds(b, ByRequest(a)[r]);
  }

  lemma ByRequestWithin<D>(a: seq<ProbeResult<D>>, b: seq<ProbeResult<D>>)
    requires Distinct(Map(RequestOf<D>, b)) && forall p :: p in a ==> p in b
    ensures forall r :: r in ByRequest(a) ==> r in ByRequest(b) && ByRequest(b)[r] == ByRequest(a)[r]
  {
    forall r | r in ByRequest(a) ensures r in ByRequest(b) && ByRequest(b)[r] == ByRequest(a)[r] {
      ByRequestAgrees(a, b, r);
    }
  }

  lemma ByRequestIgnoresOrder<D>(a: seq<ProbeResult<D>>, b: seq<ProbeResult<D>>)
    requires Distinct(Map(RequestOf<D>, a)) && multiset(a) == multiset(b)
    ensures Distinct(Map(RequestOf<D>, b)) && ByRequest(a) == ByRequest(b)
  {
    SameElements(a, b);
    MapMultiset(RequestOf<D>, a, b);
    DistinctPermutation(Map(RequestOf<D>, a), Map(RequestOf<D>, b));
    ByRequestWithin(a, b);
    ByRequestWithin(b, a);
  }

  /**
   If equal values are always accepted, a miner who reproduces the reference run is accepted, in
   whatever order the probes are reported.
   */
  lemma ReferenceRunIsAccepted<D>(accepts: Tolerance<D>, c: Challenge,
                                expected: ProofBundle<D>, observed: ProofBundle<D>)
    requires forall kind: ProofKind, d: D :: accepts(kind, d, d)
    requires ValidBundle(expected) && Mismatch(c, expected, expected).None?
    requires observed == expected.(probes := observed.probes) && multiset(observed.probes) == multiset(expected.probes)
    ensures ValidBundle(observed) && Mismatch(c, expected, observed).None?
    ensures AllWithin(accepts, c.requests, ByRequest(expected.probes), ByRequest(observed.probes))
  {
    SameElements(expected.probes, observed.probes);
    ByRequestIgnoresOrder(expected.probes, observed.probes);
  }

  // ---------- tolerances ----------

  /** Absolute and relative bound of decimal numbers. */
  datatype NumericTolerance = NumericTolerance(absolute: real, relative: real)

  predicate ValidTolerance(t: NumericTolerance) {
    t.absolute >= 0.0 && t.relative >= 0.0
  }

  function Magnitude(x: real): real {
    if x < 0.0 then -x else x
  }

  function Larger(x: real, y: real): real {
    if x < y then y else x
  }

  /** How decimal arithmetic rounds the result of every operation to its precision. */
  type Rounding = real -> real

  /** Rounding keeps the order and the sign, and leaves what is rounded already. */
  ghost predicate IsRounding(round: Rounding) {
    && (forall x, y :: x <= y ==> round(x) <= round(y))
    && (forall x :: round(-x) == -round(x))
    && (forall x :: round(round(x)) == round(x))
  }

  /** The larger bound; the magnitude and the product are rounded, the absolute bound is not. */
  function Bound(round: Rounding, t: NumericTolerance, expected: real): real {
    Larger(t.absolute, round(t.relative * round(Magnitude(expected))))
  }

  predicate Accepts(round: Rounding, t: NumericTolerance, expected: real, observed: real) {
    round(Magnitude(round(observed - expected))) <= Bound(round, t, expected)
  }

  /** The tolerances of a policy, which has one for every proof kind. */
  function PolicyTolerance(round: Rounding, policy: ProofKind -> NumericTolerance): Tolerance<real> {
    (kind: ProofKind, expected: real, observed: real) => Accepts(round, policy(kind), expected, observed)
  }

  lemma RoundedMagnitude(round: Rounding, x: real)
    requires IsRounding(round)
    ensures round(0.0) == 0.0
    ensures round(Magnitude(round(x))) == round(Magnitude(x)) == Magnitude(round(x))
  {
    assert round(-0.0) == -round(0.0);
    assert round(-x) == -round(x) && round(-round(x)) == -round(round(x));
  }

  /** Which magnitudes round to at most some bound. */
  lemma RoundedWithin(round: Rounding, d: real, bound: real)
    requires IsRounding(round)
    ensures round(d) <= bound <==>
              if round(bound) <= bound then d <= bound || round(d) == round(bound) else round(d) < round(bound)
  {
    if round(d) <= bound {
      assert round(round(d)) <= round(bound);
    }
    if d <= bound {
      assert round(d) <= round(bound);
    } else {
      assert round(bound) <= round(d);
    }
    if bound < round(d) {
      assert round(bound) <= round(round(d));
    }
  }

  /**
   A value is accepted exactly when its exact distance from the expected one is within the bound or rounds
   to what the bound rounds to; when the bound itself would be rounded up, exactly when the distance
   rounds to less than that. The expected value itself is always accepted.
   */
  lemma ToleranceExact(round: Rounding, t: NumericTolerance, expected: real, observed: real)
    requires IsRounding(round) && ValidTolerance(t)
    ensures var distance, bound := Magnitude(observed - expected), Bound(round, t, expected);
            (Accepts(round, t, expected, observed) <==>
               if round(bound) <= bound then distance <= bound || round(distance) == round(bound)
               else round(distance) < round(bound))
    ensures Accepts(round, t, expected, expected)
  {
    RoundedMagnitude(round, observed - expected);
    RoundedMagnitude(round, expected - expected);
    RoundedWithin(round, Magnitude(observed - expected), Bound(round, t, expected));
  }

  /** With a value everything between it and the expected one is accepted. */
  lemma AcceptedBetween(round: Rounding, t: NumericTolerance, expected: real, observed: real, x: real)
    requires IsRounding(round) && Accepts(round, t, expected, observed)
    requires expected <= x <= observed || observed <= x <= expected
    ensures Accepts(round, t, expected, x)
  {
    RoundedMagnitude(round, observed - expected);
    RoundedMagnitude(round, x - expected);
    assert Magnitude(x - expected) <= Magnitude(observed - expected);
  }

  /** So a value outside the bound is accepted when its distance from the expected one is rounded to it. */
  lemma RoundingAdmits(round: Rounding, tiny: real)
    requires IsRounding(round) && tiny > 0.0 && round(1.0) == 1.0 && round(1.0 + tiny) == 1.0
    ensures var t := NumericTolerance(1.0, 0.0);
            && Bound(round, t, 1.0) == 1.0 < Magnitude(2.0 + tiny - 1.0)
            && Accepts(round, t, 1.0, 2.0 + tiny)
  {
    RoundedMagnitude(round, 1.0 + tiny);
    assert 2.0 + tiny - 1.0 == 1.0 + tiny;
    assert 0.0 * round(Magnitude(1.0)) == 0.0;
  }

  /** For every policy of valid tolerances the reproduced reference run is accepted. */
  lemma PolicyAcceptsReferenceRun(round: Rounding, policy: ProofKind -> NumericTolerance, c: Challenge,
                                  expected: ProofBundle<real>, observed: ProofBundle<real>)
    requires IsRounding(round) && forall kind: ProofKind :: ValidTolerance(policy(kind))
    requires ValidBundle(expected) && Mismatch(c, expected, expected).None?
    requires observed == expected.(probes := observed.probes) && multiset(observed.probes) == multiset(expected.probes)
    ensures ValidBundle(observed) && Mismatch(c, expected, observed).None?
    ensures AllWithin(PolicyTolerance(round, policy), c.requests,
                      ByRequest(expected.probes), ByRequest(observed.probes))
  {
    forall kind: ProofKind, d: real ensures PolicyTolerance(round, policy)(kind, d, d) {
      ToleranceExact(round, policy(kind), d, d);
    }
    ReferenceRunIsAccepted(PolicyTolerance(round, policy), c, expected, observed);
  }
}
