/** The typed protocol messages and the rules their constructors enforce. */
module Protocol {
  import opened Prelude
  import opened Ordering
  import opened ByteStrings
  import opened JsonValues

  const PROTOCOL_VERSION := 1
  const MAX_BLOCK_NUMBER := 0x7FFF_FFFF_FFFF_FFFF
  const MAX_WORK_UNITS := 0x7FFF_FFFF_FFFF_FFFF
  const MAX_CHECKPOINTS := 4096
  const MAX_LIST := 32

  datatype NetworkPolicy = Deny | Allowlist

  datatype EvidenceTier = TierA | TierB | TierC

  datatype CapabilityTrust = SelfReported

  datatype ResourcePolicy = ResourcePolicy(
    gpuCount: int, gpuMemoryMb: int, cpuCores: int, memoryMb: int, maxRuntimeSeconds: int,
    networkPolicy: NetworkPolicy)

  datatype VerificationPolicy = VerificationPolicy(
    minimumEvidenceTier: EvidenceTier, challengeKind: string, checkpointIntervalSteps: int)

  datatype SoftwareVersion = SoftwareVersion(name: string, version: string)

  datatype CheckpointCommitment = CheckpointCommitment(step: int, digest: string)

  /** The five message classes; `protocolVersion` and `signature` are common to all. */
  datatype Message =
    | JobManifest(
        jobId: string, containerDigest: string, entrypointDigest: string, inputRoot: string,
        framework: string, resourcePolicy: ResourcePolicy, verificationPolicy: VerificationPolicy,
        leaseSeconds: int, publisherHotkey: string, expiresAtBlock: int,
        signature: string, protocolVersion: int)
    | CapabilityClaim(
        claimMiner: string, gpuCount: int, gpuModel: string, gpuMemoryMb: int,
        gpuInterconnect: string, discoveryTrust: CapabilityTrust,
        runtimeVersions: seq<SoftwareVersion>, supportedEvidenceTiers: seq<EvidenceTier>,
        availableGpuSeconds: int, claimNonce: string, observedAtBlock: int,
        signature: string, protocolVersion: int)
    | WorkLease(
        manifestDigest: string, leaseMiner: string, leaseValidator: string, shardId: string,
        challengeCommitment: string, startBlock: int, deadlineBlock: int, leaseNonce: string,
        signature: string, protocolVersion: int)
    | ExecutionEvidence(
        leaseDigest: string, evidenceMiner: string, attestationDigest: Option<string>,
        imageDigest: string, challengeResponseDigest: string,
        checkpoints: seq<CheckpointCommitment>, resultDigest: string, workUnits: int,
        activeSecondsMs: int, submittedAtBlock: int, sequence: int,
        signature: string, protocolVersion: int, bundleRoot: Option<string>)
    | ValidationReceipt(
        evidenceDigest: string, receiptValidator: string, accepted: bool,
        reasonCodes: seq<string>, verifiedWorkUnits: int, confidenceTier: Option<EvidenceTier>,
        validatedAtBlock: int, signature: string, protocolVersion: int)

  // ---------- text formats ----------

  predicate IsLower(c: char) { 'a' <= c <= 'z' }

  predicate IsNumeral(c: char) { '0' <= c <= '9' }

  predicate IsAlphanumeric(c: char) { IsLower(c) || 'A' <= c <= 'Z' || IsNumeral(c) }

  /** `[A-Za-z0-9]{3,128}` */
  predicate IsHotkey(s: string) {
    3 <= |s| <= 128 && forall i :: 0 <= i < |s| ==> IsAlphanumeric(s[i])
  }

  /** `[A-Za-z0-9][A-Za-z0-9._:-]{0,63}` */
  predicate IsIdentifier(s: string) {
    && 1 <= |s| <= 64 && IsAlphanumeric(s[0])
    && forall i :: 1 <= i < |s| ==>
         IsAlphanumeric(s[i]) || s[i] == '.' || s[i] == '_' || s[i] == ':' || s[i] == '-'
  }

  /** `[a-z0-9][a-z0-9_]{0,63}` */
  predicate IsCode(s: string) {
    && 1 <= |s| <= 64 && (IsLower(s[0]) || IsNumeral(s[0]))
    && forall i :: 1 <= i < |s| ==> IsLower(s[i]) || IsNumeral(s[i]) || s[i] == '_'
  }

  /** `[a-z][a-z0-9._-]{0,31}` */
  predicate IsSoftwareName(s: string) {
    && 1 <= |s| <= 32 && IsLower(s[0])
    && forall i :: 1 <= i < |s| ==>
         IsLower(s[i]) || IsNumeral(s[i]) || s[i] == '.' || s[i] == '_' || s[i] == '-'
  }

  predicate IsNonce(s: string) { |s| == 64 && IsHex(s) }

  predicate IsSignature(s: string) { |s| == 128 && IsHex(s) }

  predicate IsShortText(s: string) { 1 <= |s| <= 64 && IsPrintable(s) }

  // ---------- constructor rules ----------

  predicate ValidResourcePolicy(p: ResourcePolicy) {
    && 1 <= p.gpuCount <= 8
    && 1024 <= p.gpuMemoryMb <= 1048576
    && 1 <= p.cpuCores <= 256
    && 1024 <= p.memoryMb <= 2097152
    && 60 <= p.maxRuntimeSeconds <= 86400
  }

  predicate ValidVerificationPolicy(p: VerificationPolicy) {
    IsIdentifier(p.challengeKind) && 1 <= p.checkpointIntervalSteps <= 1000000000
  }

  predicate ValidSoftwareVersion(v: SoftwareVersion) {
    IsSoftwareName(v.name) && IsShortText(v.version)
  }

  predicate ValidCheckpoint(c: CheckpointCommitment) {
    1 <= c.step <= MAX_WORK_UNITS && IsDigest(c.digest)
  }

  predicate ValidOptionalDigest(d: Option<string>) {
    d.Some? ==> IsDigest(d.value)
  }

  predicate ValidJobManifest(m: Message)
    requires m.JobManifest?
  {
    && m.protocolVersion == PROTOCOL_VERSION
    && IsIdentifier(m.jobId)
    && IsDigest(m.containerDigest) && IsDigest(m.entrypointDigest) && IsDigest(m.inputRoot)
    && IsSoftwareName(m.framework)
    && ValidResourcePolicy(m.resourcePolicy) && ValidVerificationPolicy(m.verificationPolicy)
    && 60 <= m.leaseSeconds <= 86400
    && IsHotkey(m.publisherHotkey)
    && 1 <= m.expiresAtBlock <= MAX_BLOCK_NUMBER
    && IsSignature(m.signature)
  }

  predicate SoftwareLe(a: SoftwareVersion, b: SoftwareVersion) {
    LexLe(a.name, b.name)
  }

  function TierText(t: EvidenceTier): string {
    match t case TierA => "a" case TierB => "b" case TierC => "c"
  }

  predicate TierLe(a: EvidenceTier, b: EvidenceTier) {
    LexLe(TierText(a), TierText(b))
  }

  predicate CheckpointLe(a: CheckpointCommitment, b: CheckpointCommitment) {
    a.step <= b.step
  }

  function NameOf(v: SoftwareVersion): string { v.name }

  function StepOf(c: CheckpointCommitment): int { c.step }

  /** The rules of a capability claim apart from the order of its two lists. */
  predicate ValidCapabilityClaim(m: Message)
    requires m.CapabilityClaim?
  {
    && m.protocolVersion == PROTOCOL_VERSION
    && IsHotkey(m.claimMiner)
    && 1 <= m.gpuCount <= 8
    && IsShortText(m.gpuModel)
    && 1024 <= m.gpuMemoryMb <= 1048576
    && IsCode(m.gpuInterconnect) && |m.gpuInterconnect| <= 32
    && 1 <= |m.runtimeVersions| <= MAX_LIST
    && (forall v :: v in m.runtimeVersions ==> ValidSoftwareVersion(v))
    && AllDistinct(Map(NameOf, m.runtimeVersions))
    && 1 <= |m.supportedEvidenceTiers| <= 3
    && AllDistinct(m.supportedEvidenceTiers)
    && 0 <= m.availableGpuSeconds <= MAX_WORK_UNITS
    && IsNonce(m.claimNonce)
    && 1 <= m.observedAtBlock <= MAX_BLOCK_NUMBER
    && IsSignature(m.signature)
  }

  predicate ValidWorkLease(m: Message)
    requires m.WorkLease?
  {
    && m.protocolVersion == PROTOCOL_VERSION
    && IsDigest(m.manifestDigest)
    && IsHotkey(m.leaseMiner) && IsHotkey(m.leaseValidator)
    && IsIdentifier(m.shardId)
    && IsDigest(m.challengeCommitment)
    && 1 <= m.startBlock <= MAX_BLOCK_NUMBER
    && 1 <= m.deadlineBlock <= MAX_BLOCK_NUMBER
    && m.startBlock < m.deadlineBlock
    && IsNonce(m.leaseNonce)
    && IsSignature(m.signature)
  }

  predicate ValidExecutionEvidence(m: Message)
    requires m.ExecutionEvidence?
  {
    && m.protocolVersion == PROTOCOL_VERSION
    && IsDigest(m.leaseDigest)
    && IsHotkey(m.evidenceMiner)
    && ValidOptionalDigest(m.attestationDigest)
    && IsDigest(m.imageDigest) && IsDigest(m.challengeResponseDigest)
    && 1 <= |m.checkpoints| <= MAX_CHECKPOINTS
    && (forall c :: c in m.checkpoints ==> ValidCheckpoint(c))
    && AllDistinct(Map(StepOf, m.checkpoints))
    && IsDigest(m.resultDigest)
    && 1 <= m.workUnits <= MAX_WORK_UNITS
    && 1 <= m.activeSecondsMs <= 86400000
    && 1 <= m.submittedAtBlock <= MAX_BLOCK_NUMBER
    && 0 <= m.sequence <= MAX_WORK_UNITS
    && IsSignature(m.signature)
    && ValidOptionalDigest(m.bundleRoot)
  }

  predicate ValidValidationReceipt(m: Message)
    requires m.ValidationReceipt?
  {
    && m.protocolVersion == PROTOCOL_VERSION
    && IsDigest(m.evidenceDigest)
    && IsHotkey(m.receiptValidator)
    && |m.reasonCodes| <= MAX_LIST
    && (forall c :: c in m.reasonCodes ==> IsCode(c))
    && AllDistinct(m.reasonCodes)
    && 0 <= m.verifiedWorkUnits <= MAX_WORK_UNITS
    && (if m.accepted
        then m.reasonCodes == [] && m.verifiedWorkUnits != 0 && m.confidenceTier.Some?
        else m.reasonCodes != [] && m.verifiedWorkUnits == 0 && m.confidenceTier.None?)
    && 1 <= m.validatedAtBlock <= MAX_BLOCK_NUMBER
    && IsSignature(m.signature)
  }

  predicate ValidFields(m: Message) {
    && (m.JobManifest? ==> ValidJobManifest(m))
    && (m.CapabilityClaim? ==> ValidCapabilityClaim(m))
    && (m.WorkLease? ==> ValidWorkLease(m))
    && (m.ExecutionEvidence? ==> ValidExecutionEvidence(m))
    && (m.ValidationReceipt? ==> ValidValidationReceipt(m))
  }

  /** What `__post_init__` stores: set-like fields in sorted order. */
  function Normalize(m: Message): Message {
    if m.CapabilityClaim? then
      m.(runtimeVersions := Sort(SoftwareLe, m.runtimeVersions),
         supportedEvidenceTiers := Sort(TierLe, m.supportedEvidenceTiers))
    else if m.ExecutionEvidence? then m.(checkpoints := Sort(CheckpointLe, m.checkpoints))
    else if m.ValidationReceipt? then m.(reasonCodes := Sort(LexLe, m.reasonCodes))
    else m
  }

  /** Constructing a message from the given field values; `None` is `ProtocolValidationError`. */
  function Construct(raw: Message): Option<Message> {
    if ValidFields(raw) then Some(Normalize(raw)) else None
  }

  /** A value that some constructor call returned. */
  ghost predicate Constructible(m: Message) {
    exists raw :: Construct(raw) == Some(m)
  }

  // ---------- the constructors forget the order of set-like arguments ----------

  lemma OrdersAreTotal()
    ensures TotalPreorder(SoftwareLe) && TotalPreorder(TierLe) && TotalPreorder(CheckpointLe)
    ensures TotalPreorder(LexLe)
  {
    LexTotalPreorder();
    assert forall a: SoftwareVersion, b: SoftwareVersion :: SoftwareLe(a, b) || SoftwareLe(b, a);
    assert forall a: EvidenceTier, b: EvidenceTier :: TierLe(a, b) || TierLe(b, a);
  }

  lemma SoftwareSeparates(versions: seq<SoftwareVersion>)
    requires AllDistinct(Map(NameOf, versions))
    ensures Separates(SoftwareLe, versions)
  {
    forall x, y | x in versions && y in versions && SoftwareLe(x, y) && SoftwareLe(y, x)
      ensures x == y
    {
      LexAntisymmetric(x.name, y.name);
      var i :| 0 <= i < |versions| && versions[i] == x;
      var j :| 0 <= j < |versions| && versions[j] == y;
      assert Map(NameOf, versions)[i] == Map(NameOf, versions)[j];
    }
  }

  lemma TierSeparates(tiers: seq<EvidenceTier>)
    ensures Separates(TierLe, tiers)
  {
    forall x, y | x in tiers && y in tiers && TierLe(x, y) && TierLe(y, x) ensures x == y {
      LexAntisymmetric(TierText(x), TierText(y));
    }
  }

  lemma CheckpointSeparates(checkpoints: seq<CheckpointCommitment>)
    requires AllDistinct(Map(StepOf, checkpoints))
    ensures Separates(CheckpointLe, checkpoints)
  {
    forall x, y | x in checkpoints && y in checkpoints && CheckpointLe(x, y) && CheckpointLe(y, x)
      ensures x == y
    {
      var i :| 0 <= i < |checkpoints| && checkpoints[i] == x;
      var j :| 0 <= j < |checkpoints| && checkpoints[j] == y;
      assert Map(StepOf, checkpoints)[i] == Map(StepOf, checkpoints)[j];
    }
  }

  lemma CodeSeparates(codes: seq<string>)
    ensures Separates(LexLe, codes)
  {
    forall x, y | x in codes && y in codes && LexLe(x, y) && LexLe(y, x) ensures x == y {
      LexAntisymmetric(x, y);
    }
  }

  /** Two argument lists that differ only in the order of set-like fields. */
  ghost predicate SameUpToOrder(a: Message, b: Message) {
    if a.CapabilityClaim? then
      && b.CapabilityClaim?
      && b == a.(runtimeVersions := b.runtimeVersions,
                 supportedEvidenceTiers := b.supportedEvidenceTiers)
      && multiset(a.runtimeVersions) == multiset(b.runtimeVersions)
      && multiset(a.supportedEvidenceTiers) == multiset(b.supportedEvidenceTiers)
    else if a.ExecutionEvidence? then
      && b.ExecutionEvidence?
      && b == a.(checkpoints := b.checkpoints)
      && multiset(a.checkpoints) == multiset(b.checkpoints)
    else if a.ValidationReceipt? then
      && b.ValidationReceipt?
      && b == a.(reasonCodes := b.reasonCodes)
      && multiset(a.reasonCodes) == multiset(b.reasonCodes)
    else a == b
  }

  lemma ValidFieldsIgnoreOrder(a: Message, b: Message)
    requires SameUpToOrder(a, b) && ValidFields(a)
    ensures ValidFields(b)
  {
    if a.CapabilityClaim? {
      SameElements(a.runtimeVersions, b.runtimeVersions);
      SameElements(a.supportedEvidenceTiers, b.supportedEvidenceTiers);
      MapMultiset(NameOf, a.runtimeVersions, b.runtimeVersions);
      DistinctPermutation(Map(NameOf, a.runtimeVersions), Map(NameOf, b.runtimeVersions));
      DistinctPermutation(a.supportedEvidenceTiers, b.supportedEvidenceTiers);
    } else if a.ExecutionEvidence? {
      SameElements(a.checkpoints, b.checkpoints);
      MapMultiset(StepOf, a.checkpoints, b.checkpoints);
      DistinctPermutation(Map(StepOf, a.checkpoints), Map(StepOf, b.checkpoints));
    } else if a.ValidationReceipt? {
      SameElements(a.reasonCodes, b.reasonCodes);
      DistinctPermutation(a.reasonCodes, b.reasonCodes);
    }
  }

  /** Permuting set-like arguments changes neither the outcome nor the constructed value. */
  lemma ConstructIgnoresOrder(a: Message, b: Message)
    requires SameUpToOrder(a, b)
    ensures Construct(a) == Construct(b)
  {
    if ValidFields(a) {
      ValidFieldsIgnoreOrder(a, b);
      NormalizeIgnoresOrder(a, b);
    } else if ValidFields(b) {
      ValidFieldsIgnoreOrder(b, a);
    }
  }

  lemma NormalizeIgnoresOrder(a: Message, b: Message)
    requires SameUpToOrder(a, b) && ValidFields(a)
    ensures Normalize(a) == Normalize(b)
  {
    OrdersAreTotal();
    if a.CapabilityClaim? {
      SoftwareSeparates(a.runtimeVersions);
      TierSeparates(a.supportedEvidenceTiers);
      SortCanonical(SoftwareLe, a.runtimeVersions, b.runtimeVersions);
      SortCanonical(TierLe, a.supportedEvidenceTiers, b.supportedEvidenceTiers);
    } else if a.ExecutionEvidence? {
      CheckpointSeparates(a.checkpoints);
      SortCanonical(CheckpointLe, a.checkpoints, b.checkpoints);
    } else if a.ValidationReceipt? {
      CodeSeparates(a.reasonCodes);
      SortCanonical(LexLe, a.reasonCodes, b.reasonCodes);
    }
  }

  lemma NormalizeKeepsElements(m: Message)
    ensures SameUpToOrder(m, Normalize(m))
  {
    if m.CapabilityClaim? {
      SortMultiset(SoftwareLe, m.runtimeVersions);
      SortMultiset(TierLe, m.supportedEvidenceTiers);
    } else if m.ExecutionEvidence? {
      SortMultiset(CheckpointLe, m.checkpoints);
    } else if m.ValidationReceipt? {
      SortMultiset(LexLe, m.reasonCodes);
    }
  }

  /** Constructing is idempotent, so a value is constructible exactly when it reconstructs itself. */
  lemma ConstructibleIsFixpoint(m: Message)
    ensures Constructible(m) <==> Construct(m) == Some(m)
  {
    if Constructible(m) {
      var raw :| Construct(raw) == Some(m);
      NormalizeKeepsElements(raw);
      ConstructIgnoresOrder(raw, m);
    }
  }

  /** Constructors leave the set-like fields in order. */
  lemma ConstructibleIsSorted(m: Message)
    requires Constructible(m)
    ensures m.CapabilityClaim? ==>
              Sorted(SoftwareLe, m.runtimeVersions) && Sorted(TierLe, m.supportedEvidenceTiers)
    ensures m.ExecutionEvidence? ==> Sorted(CheckpointLe, m.checkpoints)
    ensures m.ValidationReceipt? ==> Sorted(LexLe, m.reasonCodes)
  {
    var raw :| Construct(raw) == Some(m);
    OrdersAreTotal();
    if m.CapabilityClaim? {
      SortSorted(SoftwareLe, raw.runtimeVersions);
      SortSorted(TierLe, raw.supportedEvidenceTiers);
    } else if m.ExecutionEvidence? {
      SortSorted(CheckpointLe, raw.checkpoints);
    } else if m.ValidationReceipt? {
      SortSorted(LexLe, raw.reasonCodes);
    }
  }

  /** A receipt that accepts names verified work and a tier and no reason; one that refuses, only reasons. */
  lemma ReceiptsDecide(m: Message)
    requires Constructible(m) && m.ValidationReceipt?
    ensures m.verifiedWorkUnits >= 0
    ensures m.accepted <==> m.verifiedWorkUnits > 0
    ensures m.accepted <==> m.reasonCodes == []
    ensures m.accepted <==> m.confidenceTier.Some?
  {
    ConstructibleIsFixpoint(m);
  }

  /** The checkpoints of constructible evidence have strictly increasing steps. */
  lemma EvidenceStepsIncrease(m: Message)
    requires Constructible(m) && m.ExecutionEvidence?
    ensures StrictlyIncreasing(Map(StepOf, m.checkpoints))
  {
    ConstructibleIsSorted(m);
    ConstructibleIsFixpoint(m);
    forall i, j | 0 <= i < j < |m.checkpoints|
      ensures m.checkpoints[i].step < m.checkpoints[j].step
    {
      assert CheckpointLe(m.checkpoints[i], m.checkpoints[j]);
      assert Map(StepOf, m.checkpoints)[i] != Map(StepOf, m.checkpoints)[j];
    }
  }
}
