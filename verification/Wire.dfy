/** Canonical encoding, decoding and signing bytes of the protocol messages. */
module Wire {
  import opened Prelude
  import opened Ordering
  import opened ByteStrings
  import opened JsonValues
  import opened JsonParser
  import opened Protocol

  const MAX_WIRE_BYTES := 65536
  const SIGNATURE_DOMAIN := "gpuforge-protocol-signature-v1\0"
  const CONTENT_DOMAIN := "gpuforge-protocol-content-v1\0"
  const DIGEST_DOMAIN := "gpuforge-protocol-digest-v1\0"

  // ---------- encoding ----------

  function OptionalText(s: Option<string>): Json {
    if s.Some? then Str(s.value) else Null
  }

  function NetworkText(p: NetworkPolicy): string {
    match p case Deny => "deny" case Allowlist => "allowlist"
  }

  function ResourcePolicyJson(p: ResourcePolicy): Json {
    Obj(map[
      "cpu_cores" := Int(p.cpuCores),
      "gpu_count" := Int(p.gpuCount),
      "gpu_memory_mb" := Int(p.gpuMemoryMb),
      "max_runtime_seconds" := Int(p.maxRuntimeSeconds),
      "memory_mb" := Int(p.memoryMb),
      "network_policy" := Str(NetworkText(p.networkPolicy))])
  }

  function VerificationPolicyJson(p: VerificationPolicy): Json {
    Obj(map[
      "challenge_kind" := Str(p.challengeKind),
      "checkpoint_interval_steps" := Int(p.checkpointIntervalSteps),
      "minimum_evidence_tier" := Str(TierText(p.minimumEvidenceTier))])
  }

  function SoftwareJson(v: SoftwareVersion): Json {
    Obj(map["name" := Str(v.name), "version" := Str(v.version)])
  }

  function TierJson(t: EvidenceTier): Json {
    Str(TierText(t))
  }

  function CheckpointJson(c: CheckpointCommitment): Json {
    Obj(map["digest" := Str(c.digest), "step" := Int(c.step)])
  }

  function TextJson(s: string): Json {
    Str(s)
  }

  function JobPayload(m: Message): map<string, Json>
    requires m.JobManifest?
  {
    map[
      "container_digest" := Str(m.containerDigest),
      "entrypoint_digest" := Str(m.entrypointDigest),
      "expires_at_block" := Int(m.expiresAtBlock),
      "framework" := Str(m.framework),
      "input_root" := Str(m.inputRoot),
      "job_id" := Str(m.jobId),
      "lease_seconds" := Int(m.leaseSeconds),
      "publisher_hotkey" := Str(m.publisherHotkey),
      "resource_policy" := ResourcePolicyJson(m.resourcePolicy),
      "signature" := Str(m.signature),
      "verification_policy" := VerificationPolicyJson(m.verificationPolicy)]
  }

  function ClaimPayload(m: Message): map<string, Json>
    requires m.CapabilityClaim?
  {
    map[
      "available_gpu_seconds" := Int(m.availableGpuSeconds),
      "gpu_count" := Int(m.gpuCount),
      "gpu_interconnect" := Str(m.gpuInterconnect),
      "gpu_memory_mb" := Int(m.gpuMemoryMb),
      "gpu_model" := Str(m.gpuModel),
      "discovery_trust" := Str("self_reported"),
      "miner_hotkey" := Str(m.claimMiner),
      "nonce" := Str(m.claimNonce),
      "observed_at_block" := Int(m.observedAtBlock),
      "runtime_versions" := Arr(Map(SoftwareJson, m.runtimeVersions)),
      "signature" := Str(m.signature),
      "supported_evidence_tiers" := Arr(Map(TierJson, m.supportedEvidenceTiers))]
  }

  function LeasePayload(m: Message): map<string, Json>
    requires m.WorkLease?
  {
    map[
      "challenge_commitment" := Str(m.challengeCommitment),
      "deadline_block" := Int(m.deadlineBlock),
      "manifest_digest" := Str(m.manifestDigest),
      "miner_hotkey" := Str(m.leaseMiner),
      "nonce" := Str(m.leaseNonce),
      "shard_id" := Str(m.shardId),
      "signature" := Str(m.signature),
      "start_block" := Int(m.startBlock),
      "validator_hotkey" := Str(m.leaseValidator)]
  }

  function EvidenceBase(m: Message): map<string, Json>
    requires m.ExecutionEvidence?
  {
    map[
      "active_seconds_ms" := Int(m.activeSecondsMs),
      "attestation_digest" := OptionalText(m.attestationDigest),
      "challenge_response_digest" := Str(m.challengeResponseDigest),
      "checkpoints" := Arr(Map(CheckpointJson, m.checkpoints)),
      "image_digest" := Str(m.imageDigest),
      "lease_digest" := Str(m.leaseDigest),
      "miner_hotkey" := Str(m.evidenceMiner),
      "result_digest" := Str(m.resultDigest),
      "sequence" := Int(m.sequence),
      "signature" := Str(m.signature),
      "submitted_at_block" := Int(m.submittedAtBlock),
      "work_units" := Int(m.workUnits)]
  }

  /** `bundle_root` is left out of the object when it is absent, not written as null. */
  function EvidencePayload(m: Message): map<string, Json>
    requires m.ExecutionEvidence?
  {
    if m.bundleRoot.Some? then EvidenceBase(m)["bundle_root" := Str(m.bundleRoot.value)] else EvidenceBase(m)
  }

  function ReceiptPayload(m: Message): map<string, Json>
    requires m.ValidationReceipt?
  {
    map[
      "accepted" := Bool(m.accepted),
      "confidence_tier" := if m.confidenceTier.Some? then TierJson(m.confidenceTier.value) else Null,
      "evidence_digest" := Str(m.evidenceDigest),
      "reason_codes" := Arr(Map(TextJson, m.reasonCodes)),
      "signature" := Str(m.signature),
      "validated_at_block" := Int(m.validatedAtBlock),
      "validator_hotkey" := Str(m.receiptValidator),
      "verified_work_units" := Int(m.verifiedWorkUnits)]
  }

  function MessageType(m: Message): string {
    if m.JobManifest? then "job_manifest"
    else if m.CapabilityClaim? then "capability_claim"
    else if m.WorkLease? then "work_lease"
    else if m.ExecutionEvidence? then "execution_evidence"
    else "validation_receipt"
  }

  function Payload(m: Message): map<string, Json> {
    if m.JobManifest? then JobPayload(m)
    else if m.CapabilityClaim? then ClaimPayload(m)
    else if m.WorkLease? then LeasePayload(m)
    else if m.ExecutionEvidence? then EvidencePayload(m)
    else ReceiptPayload(m)
  }

  function Envelope(messageType: string, payload: map<string, Json>, version: int): Json {
    Obj(map[
      "message_type" := Str(messageType),
      "payload" := Obj(payload),
      "protocol_version" := Int(version)])
  }

  /** `to_primitive` */
  function ToPrimitive(m: Message): Json {
    Envelope(MessageType(m), Payload(m), m.protocolVersion)
  }

  /** `_unsigned_primitive` */
  function UnsignedPrimitive(m: Message): Json {
    Envelope(MessageType(m), Payload(m) - {"signature"}, m.protocolVersion)
  }

  /** `_canonical_json`; `None` is `ProtocolValidationError`. */
  function CanonicalJson(v: Json): Option<Bytes> {
    if ValidCanonical(v) then Some(Print(v)) else None
  }

  function CanonicalBytes(m: Message): Option<Bytes> {
    var encoded :- CanonicalJson(ToPrimitive(m));
    if |encoded| > MAX_WIRE_BYTES then None else Some(encoded)
  }

  function SigningBytes(m: Message): Option<Bytes> {
    var encoded :- CanonicalJson(UnsignedPrimitive(m));
    Some(SIGNATURE_DOMAIN + encoded)
  }

  function ContentPreimage(m: Message): Option<Bytes> {
    var encoded :- CanonicalJson(UnsignedPrimitive(m));
    Some(CONTENT_DOMAIN + encoded)
  }

  function ContentDigest(h: Sha256, m: Message): Option<string> {
    var preimage :- ContentPreimage(m);
    Some(DigestText(h(preimage)))
  }

  function MessageDigest(h: Sha256, m: Message): Option<string> {
    var encoded :- CanonicalBytes(m);
    Some(DigestText(h(DIGEST_DOMAIN + encoded)))
  }

  // ---------- decoding ----------

  function Text(v: Json): Option<string> {
    if v.Str? then Some(v.text) else None
  }

  function Integer(v: Json): Option<int> {
    if v.Int? then Some(v.number) else None
  }

  function Boolean(v: Json): Option<bool> {
    if v.Bool? then Some(v.flag) else None
  }

  function Mapping(v: Json): Option<map<string, Json>> {
    if v.Obj? then Some(v.fields) else None
  }

  function List(v: Json, minimum: nat, maximum: nat): Option<seq<Json>> {
    if v.Arr? && minimum <= |v.items| <= maximum then Some(v.items) else None
  }

  function NullableText(v: Json): Option<Option<string>> {
    if v.Null? then Some(None) else if v.Str? then Some(Some(v.text)) else None
  }

  function DecodeAll<T>(decode: Json -> Option<T>, items: seq<Json>): (r: Option<seq<T>>)
    ensures r.Some? ==> |r.value| == |items|
  {
    if items == [] then Some([])
    else
      var x :- decode(items[0]);
      var xs :- DecodeAll(decode, items[1..]);
      Some([x] + xs)
  }

  function TierFrom(v: Json): Option<EvidenceTier> {
    var text :- Text(v);
    if text == "a" then Some(TierA)
    else if text == "b" then Some(TierB)
    else if text == "c" then Some(TierC)
    else None
  }

  function NullableTier(v: Json): Option<Option<EvidenceTier>> {
    if v.Null? then Some(None)
    else
      var tier :- TierFrom(v);
      Some(Some(tier))
  }

  function NetworkFrom(v: Json): Option<NetworkPolicy> {
    var text :- Text(v);
    if text == "deny" then Some(Deny) else if text == "allowlist" then Some(Allowlist) else None
  }

  function TrustFrom(v: Json): Option<CapabilityTrust> {
    var text :- Text(v);
    if text == "self_reported" then Some(SelfReported) else None
  }

  function ResourcePolicyFrom(v: Json): Option<ResourcePolicy> {
    var data :- Mapping(v);
    if data.Keys != {"cpu_cores", "gpu_count", "gpu_memory_mb", "max_runtime_seconds",
                     "memory_mb", "network_policy"} then None
    else
      var gpuCount :- Integer(data["gpu_count"]);
      var gpuMemoryMb :- Integer(data["gpu_memory_mb"]);
      var cpuCores :- Integer(data["cpu_cores"]);
      var memoryMb :- Integer(data["memory_mb"]);
      var maxRuntimeSeconds :- Integer(data["max_runtime_seconds"]);
      var networkPolicy :- NetworkFrom(data["network_policy"]);
      var policy := ResourcePolicy(gpuCount, gpuMemoryMb, cpuCores, memoryMb, maxRuntimeSeconds,
                                   networkPolicy);
      if ValidResourcePolicy(policy) then Some(policy) else None
  }

  function VerificationPolicyFrom(v: Json): Option<VerificationPolicy> {
    var data :- Mapping(v);
    if data.Keys != {"challenge_kind", "checkpoint_interval_steps", "minimum_evidence_tier"} then
      None
    else
      var tier :- TierFrom(data["minimum_evidence_tier"]);
      var kind :- Text(data["challenge_kind"]);
      var interval :- Integer(data["checkpoint_interval_steps"]);
      var policy := VerificationPolicy(tier, kind, interval);
      if ValidVerificationPolicy(policy) then Some(policy) else None
  }

  function SoftwareFrom(v: Json): Option<SoftwareVersion> {
    var data :- Mapping(v);
    if data.Keys != {"name", "version"} then None
    else
      var name :- Text(data["name"]);
      var version :- Text(data["version"]);
      var software := SoftwareVersion(name, version);
      if ValidSoftwareVersion(software) then Some(software) else None
  }

  function CheckpointFrom(v: Json): Option<CheckpointCommitment> {
    var data :- Mapping(v);
    if data.Keys != {"digest", "step"} then None
    else
      var step :- Integer(data["step"]);
      var digest :- Text(data["digest"]);
      var checkpoint := CheckpointCommitment(step, digest);
      if ValidCheckpoint(checkpoint) then Some(checkpoint) else None
  }

  function JobArguments(p: map<string, Json>, version: int): Option<Message> {
    if p.Keys != {"container_digest", "entrypoint_digest", "expires_at_block", "framework",
                  "input_root", "job_id", "lease_seconds", "publisher_hotkey", "resource_policy",
                  "signature", "verification_policy"} then None
    else
      var jobId :- Text(p["job_id"]);
      var containerDigest :- Text(p["container_digest"]);
      var entrypointDigest :- Text(p["entrypoint_digest"]);
      var inputRoot :- Text(p["input_root"]);
      var framework :- Text(p["framework"]);
      var resourcePolicy :- ResourcePolicyFrom(p["resource_policy"]);
      var verificationPolicy :- VerificationPolicyFrom(p["verification_policy"]);
      var leaseSeconds :- Integer(p["lease_seconds"]);
      var publisherHotkey :- Text(p["publisher_hotkey"]);
      var expiresAtBlock :- Integer(p["expires_at_block"]);
      var signature :- Text(p["signature"]);
      Some(JobManifest(jobId, containerDigest, entrypointDigest, inputRoot, framework,
                            resourcePolicy, verificationPolicy, leaseSeconds, publisherHotkey,
                            expiresAtBlock, signature, version))
  }

  function ClaimArguments(p: map<string, Json>, version: int): Option<Message> {
    if p.Keys != {"available_gpu_seconds", "gpu_count", "gpu_interconnect", "gpu_memory_mb",
                  "gpu_model", "discovery_trust", "miner_hotkey", "nonce", "observed_at_block",
                  "runtime_versions", "signature", "supported_evidence_tiers"} then None
    else
      var runtimeValues :- List(p["runtime_versions"], 1, 32);
      var tierValues :- List(p["supported_evidence_tiers"], 1, 3);
      var minerHotkey :- Text(p["miner_hotkey"]);
      var gpuCount :- Integer(p["gpu_count"]);
      var gpuModel :- Text(p["gpu_model"]);
      var gpuMemoryMb :- Integer(p["gpu_memory_mb"]);
      var gpuInterconnect :- Text(p["gpu_interconnect"]);
      var trust :- TrustFrom(p["discovery_trust"]);
      var runtimeVersions :- DecodeAll(SoftwareFrom, runtimeValues);
      var tiers :- DecodeAll(TierFrom, tierValues);
      var available :- Integer(p["available_gpu_seconds"]);
      var nonce :- Text(p["nonce"]);
      var observedAtBlock :- Integer(p["observed_at_block"]);
      var signature :- Text(p["signature"]);
      Some(CapabilityClaim(minerHotkey, gpuCount, gpuModel, gpuMemoryMb, gpuInterconnect, trust,
                                runtimeVersions, tiers, available, nonce, observedAtBlock,
                                signature, version))
  }

  function LeaseArguments(p: map<string, Json>, version: int): Option<Message> {
    if p.Keys != {"challenge_commitment", "deadline_block", "manifest_digest", "miner_hotkey",
                  "nonce", "shard_id", "signature", "start_block", "validator_hotkey"} then None
    else
      var manifestDigest :- Text(p["manifest_digest"]);
      var minerHotkey :- Text(p["miner_hotkey"]);
      var validatorHotkey :- Text(p["validator_hotkey"]);
      var shardId :- Text(p["shard_id"]);
      var challengeCommitment :- Text(p["challenge_commitment"]);
      var startBlock :- Integer(p["start_block"]);
      var deadlineBlock :- Integer(p["deadline_block"]);
      var nonce :- Text(p["nonce"]);
      var signature :- Text(p["signature"]);
      Some(WorkLease(manifestDigest, minerHotkey, validatorHotkey, shardId,
                          challengeCommitment, startBlock, deadlineBlock, nonce, signature, version))
  }

  /** An absent `bundle_root` is read as null before the field names are compared. */
  function EvidenceArguments(payload: map<string, Json>, version: int): Option<Message> {
    var p := if "bundle_root" in payload then payload else payload["bundle_root" := Null];
    if p.Keys != {"active_seconds_ms", "attestation_digest", "challenge_response_digest",
                  "checkpoints", "image_digest", "lease_digest", "miner_hotkey", "result_digest",
                  "sequence", "signature", "submitted_at_block", "work_units", "bundle_root"} then
      None
    else
      var checkpointValues :- List(p["checkpoints"], 1, MAX_CHECKPOINTS);
      var attestationDigest :- NullableText(p["attestation_digest"]);
      var leaseDigest :- Text(p["lease_digest"]);
      var minerHotkey :- Text(p["miner_hotkey"]);
      var imageDigest :- Text(p["image_digest"]);
      var challengeResponseDigest :- Text(p["challenge_response_digest"]);
      var checkpoints :- DecodeAll(CheckpointFrom, checkpointValues);
      var resultDigest :- Text(p["result_digest"]);
      var workUnits :- Integer(p["work_units"]);
      var activeSecondsMs :- Integer(p["active_seconds_ms"]);
      var submittedAtBlock :- Integer(p["submitted_at_block"]);
      var sequence :- Integer(p["sequence"]);
      var signature :- Text(p["signature"]);
      var bundleRoot :- NullableText(p["bundle_root"]);
      Some(ExecutionEvidence(leaseDigest, minerHotkey, attestationDigest, imageDigest,
                                  challengeResponseDigest, checkpoints, resultDigest, workUnits,
                                  activeSecondsMs, submittedAtBlock, sequence, signature, version,
                                  bundleRoot))
  }

  function ReceiptArguments(p: map<string, Json>, version: int): Option<Message> {
    if p.Keys != {"accepted", "confidence_tier", "evidence_digest", "reason_codes", "signature",
                  "validated_at_block", "validator_hotkey", "verified_work_units"} then None
    else
      var reasonValues :- List(p["reason_codes"], 0, 32);
      var confidenceTier :- NullableTier(p["confidence_tier"]);
      var evidenceDigest :- Text(p["evidence_digest"]);
      var validatorHotkey :- Text(p["validator_hotkey"]);
      var accepted :- Boolean(p["accepted"]);
      var reasonCodes :- DecodeAll(Text, reasonValues);
      var verifiedWorkUnits :- Integer(p["verified_work_units"]);
      var validatedAtBlock :- Integer(p["validated_at_block"]);
      var signature :- Text(p["signature"]);
      Some(ValidationReceipt(evidenceDigest, validatorHotkey, accepted, reasonCodes,
                                  verifiedWorkUnits, confidenceTier, validatedAtBlock, signature,
                                  version))
  }

  /** The constructor arguments found in a payload; `None` when a field is missing, unknown or ill-typed. */
  function Arguments(messageType: string, p: map<string, Json>, version: int): Option<Message> {
    if messageType == "job_manifest" then JobArguments(p, version)
    else if messageType == "capability_claim" then ClaimArguments(p, version)
    else if messageType == "work_lease" then LeaseArguments(p, version)
    else if messageType == "execution_evidence" then EvidenceArguments(p, version)
    else if messageType == "validation_receipt" then ReceiptArguments(p, version)
    else None
  }

  /** `from_payload` of the class that `message_type` names. */
  function FromPayload(messageType: string, p: map<string, Json>, version: int): Option<Message> {
    var raw :- Arguments(messageType, p, version);
    Construct(raw)
  }

  function FromPrimitive(v: Json): Option<Message> {
    var root :- Mapping(v);
    if root.Keys != {"message_type", "payload", "protocol_version"} then None
    else
      var messageType :- Text(root["message_type"]);
      var version :- Integer(root["protocol_version"]);
      if version != PROTOCOL_VERSION then None
      else
        var payload :- Mapping(root["payload"]);
        FromPayload(messageType, payload, version)
  }

  /** `decode_message`; `None` is `ProtocolDecodeError`. */
  function DecodeMessage(data: Bytes): Option<Message> {
    if data == "" || |data| > MAX_WIRE_BYTES then None
    else
      var decoded :- Parse(data);
      var m :- FromPrimitive(decoded);
      if CanonicalBytes(m) != Some(data) then None else Some(m)
  }

  // ---------- decoding undoes encoding ----------

  lemma {:induction false} DecodeAllOf<T>(encode: T -> Json, decode: Json -> Option<T>, xs: seq<T>)
    requires forall x :: x in xs ==> decode(encode(x)) == Some(x)
    ensures DecodeAll(decode, Map(encode, xs)) == Some(xs)
  {
    if xs != [] {
      var items := Map(encode, xs);
      DecodeAllOf(encode, decode, xs[1..]);
      assert items[1..] == Map(encode, xs[1..]);
      assert [xs[0]] + xs[1..] == xs;
    }
  }

  lemma ResourcePolicyRoundTrip(p: ResourcePolicy)
    requires ValidResourcePolicy(p)
    ensures ResourcePolicyFrom(ResourcePolicyJson(p)) == Some(p)
  {
  }

  lemma VerificationPolicyRoundTrip(p: VerificationPolicy)
    requires ValidVerificationPolicy(p)
    ensures VerificationPolicyFrom(VerificationPolicyJson(p)) == Some(p)
  {
  }

  lemma SoftwareListRoundTrip(versions: seq<SoftwareVersion>)
    requires forall v :: v in versions ==> ValidSoftwareVersion(v)
    ensures DecodeAll(SoftwareFrom, Map(SoftwareJson, versions)) == Some(versions)
  {
    forall v | v in versions ensures SoftwareFrom(SoftwareJson(v)) == Some(v) {
      assert ValidSoftwareVersion(v);
    }
    DecodeAllOf(SoftwareJson, SoftwareFrom, versions);
  }

  lemma TierListRoundTrip(tiers: seq<EvidenceTier>)
    ensures DecodeAll(TierFrom, Map(TierJson, tiers)) == Some(tiers)
  {
    DecodeAllOf(TierJson, TierFrom, tiers);
  }

  lemma CheckpointListRoundTrip(checkpoints: seq<CheckpointCommitment>)
    requires forall c :: c in checkpoints ==> ValidCheckpoint(c)
    ensures DecodeAll(CheckpointFrom, Map(CheckpointJson, checkpoints)) == Some(checkpoints)
  {
    forall c | c in checkpoints ensures CheckpointFrom(CheckpointJson(c)) == Some(c) {
      assert ValidCheckpoint(c);
    }
    DecodeAllOf(CheckpointJson, CheckpointFrom, checkpoints);
  }

  /** The payload `p` has exactly the fields of `m`. */
  ghost predicate JobFieldsAre(p: map<string, Json>, m: Message)
    requires m.JobManifest?
  {
    && p.Keys == {"container_digest", "entrypoint_digest", "expires_at_block",
                   "framework", "input_root", "job_id", "lease_seconds",
                   "publisher_hotkey", "resource_policy", "signature",
                   "verification_policy"}
    && p["container_digest"] == Str(m.containerDigest)
    && p["entrypoint_digest"] == Str(m.entrypointDigest)
    && p["expires_at_block"] == Int(m.expiresAtBlock)
    && p["framework"] == Str(m.framework)
    && p["input_root"] == Str(m.inputRoot)
    && p["job_id"] == Str(m.jobId)
    && p["lease_seconds"] == Int(m.leaseSeconds)
    && p["publisher_hotkey"] == Str(m.publisherHotkey)
    && p["resource_policy"] == ResourcePolicyJson(m.resourcePolicy)
    && p["signature"] == Str(m.signature)
    && p["verification_policy"] == VerificationPolicyJson(m.verificationPolicy)
  }

  lemma JobFields(m: Message)
    requires m.JobManifest?
    ensures JobFieldsAre(JobPayload(m), m)
  {
  }

  lemma JobRoundTrip(p: map<string, Json>, m: Message)
    requires m.JobManifest? && JobFieldsAre(p, m)
    requires ValidResourcePolicy(m.resourcePolicy) && ValidVerificationPolicy(m.verificationPolicy)
    ensures JobArguments(p, m.protocolVersion) == Some(m)
  {
    ResourcePolicyRoundTrip(m.resourcePolicy);
    VerificationPolicyRoundTrip(m.verificationPolicy);
  }

  /** The payload `p` has exactly the fields of `m`. */
  ghost predicate ClaimFieldsAre(p: map<string, Json>, m: Message)
    requires m.CapabilityClaim?
  {
    && p.Keys == {"available_gpu_seconds", "gpu_count", "gpu_interconnect",
                   "gpu_memory_mb", "gpu_model", "discovery_trust", "miner_hotkey",
                   "nonce", "observed_at_block", "runtime_versions", "signature",
                   "supported_evidence_tiers"}
    && p["available_gpu_seconds"] == Int(m.availableGpuSeconds)
    && p["gpu_count"] == Int(m.gpuCount)
    && p["gpu_interconnect"] == Str(m.gpuInterconnect)
    && p["gpu_memory_mb"] == Int(m.gpuMemoryMb)
    && p["gpu_model"] == Str(m.gpuModel)
    && p["discovery_trust"] == Str("self_reported")
    && p["miner_hotkey"] == Str(m.claimMiner)
    && p["nonce"] == Str(m.claimNonce)
    && p["observed_at_block"] == Int(m.observedAtBlock)
    && p["runtime_versions"] == Arr(Map(SoftwareJson, m.runtimeVersions))
    && p["signature"] == Str(m.signature)
    && p["supported_evidence_tiers"] == Arr(Map(TierJson, m.supportedEvidenceTiers))
  }

  lemma ClaimFields(m: Message)
    requires m.CapabilityClaim?
    ensures ClaimFieldsAre(ClaimPayload(m), m)
  {
  }

  lemma ClaimRoundTrip(p: map<string, Json>, m: Message)
    requires m.CapabilityClaim? && ClaimFieldsAre(p, m)
    requires 1 <= |m.runtimeVersions| <= 32 && 1 <= |m.supportedEvidenceTiers| <= 3
    requires DecodeAll(SoftwareFrom, Map(SoftwareJson, m.runtimeVersions)) == Some(m.runtimeVersions)
    ensures ClaimArguments(p, m.protocolVersion) == Some(m)
  {
    TierListRoundTrip(m.supportedEvidenceTiers);
    assert m.discoveryTrust == SelfReported;
  }

  /** The payload `p` has exactly the fields of `m`. */
  ghost predicate LeaseFieldsAre(p: map<string, Json>, m: Message)
    requires m.WorkLease?
  {
    && p.Keys == {"challenge_commitment", "deadline_block", "manifest_digest",
                   "miner_hotkey", "nonce", "shard_id", "signature", "start_block",
                   "validator_hotkey"}
    && p["challenge_commitment"] == Str(m.challengeCommitment)
    && p["deadline_block"] == Int(m.deadlineBlock)
    && p["manifest_digest"] == Str(m.manifestDigest)
    && p["miner_hotkey"] == Str(m.leaseMiner)
    && p["nonce"] == Str(m.leaseNonce)
    && p["shard_id"] == Str(m.shardId)
    && p["signature"] == Str(m.signature)
    && p["start_block"] == Int(m.startBlock)
    && p["validator_hotkey"] == Str(m.leaseValidator)
  }

  lemma LeaseFields(m: Message)
    requires m.WorkLease?
    ensures LeaseFieldsAre(LeasePayload(m), m)
  {
  }

  lemma LeaseRoundTrip(p: map<string, Json>, m: Message)
    requires m.WorkLease? && LeaseFieldsAre(p, m)
    ensures LeaseArguments(p, m.protocolVersion) == Some(m)
  {
  }

  /** The payload `p` has the fields that every evidence message has. */
  ghost predicate EvidenceBaseFieldsAre(p: map<string, Json>, m: Message)
    requires m.ExecutionEvidence?
  {
    && {"active_seconds_ms", "attestation_digest", "challenge_response_digest", "checkpoints", "image_digest",
        "lease_digest", "miner_hotkey", "result_digest", "sequence", "signature", "submitted_at_block",
        "work_units"} <= p.Keys
    && p["active_seconds_ms"] == Int(m.activeSecondsMs)
    && p["attestation_digest"] == OptionalText(m.attestationDigest)
    && p["challenge_response_digest"] == Str(m.challengeResponseDigest)
    && p["checkpoints"] == Arr(Map(CheckpointJson, m.checkpoints))
    && p["image_digest"] == Str(m.imageDigest)
    && p["lease_digest"] == Str(m.leaseDigest)
    && p["miner_hotkey"] == Str(m.evidenceMiner)
    && p["result_digest"] == Str(m.resultDigest)
    && p["sequence"] == Int(m.sequence)
    && p["signature"] == Str(m.signature)
    && p["submitted_at_block"] == Int(m.submittedAtBlock)
    && p["work_units"] == Int(m.workUnits)
  }

  /** The payload `p` has exactly the fields of `m`. */
  ghost predicate EvidenceFieldsAre(p: map<string, Json>, m: Message)
    requires m.ExecutionEvidence?
  {
    && p.Keys == (if m.bundleRoot.Some? then {"bundle_root"} else {}) +
                 {"active_seconds_ms", "attestation_digest",
                   "challenge_response_digest", "checkpoints", "image_digest",
                   "lease_digest", "miner_hotkey", "result_digest", "sequence",
                   "signature", "submitted_at_block", "work_units"}
    && (m.bundleRoot.Some? ==> p["bundle_root"] == Str(m.bundleRoot.value))
    && EvidenceBaseFieldsAre(p, m)
  }

  lemma EvidenceBaseFields(m: Message)
    requires m.ExecutionEvidence?
    ensures EvidenceBaseFieldsAre(EvidenceBase(m), m)
    ensures EvidenceBase(m).Keys == {"active_seconds_ms", "attestation_digest", "challenge_response_digest",
                                     "checkpoints", "image_digest", "lease_digest", "miner_hotkey", "result_digest",
                                     "sequence", "signature", "submitted_at_block", "work_units"}
  {
  }

  /** Adding the bundle root changes no other field. */
  lemma WithBundleRoot(p: map<string, Json>, m: Message, root: Json)
    requires m.ExecutionEvidence? && EvidenceBaseFieldsAre(p, m)
    ensures EvidenceBaseFieldsAre(p["bundle_root" := root], m)
  {
  }

  lemma EvidenceFields(m: Message)
    requires m.ExecutionEvidence?
    ensures EvidenceFieldsAre(EvidencePayload(m), m)
  {
    EvidenceBaseFields(m);
    if m.bundleRoot.Some? {
      WithBundleRoot(EvidenceBase(m), m, Str(m.bundleRoot.value));
    }
  }

  lemma EvidenceRoundTrip(p: map<string, Json>, m: Message)
    requires m.ExecutionEvidence? && EvidenceFieldsAre(p, m)
    requires 1 <= |m.checkpoints| <= MAX_CHECKPOINTS
    requires DecodeAll(CheckpointFrom, Map(CheckpointJson, m.checkpoints)) == Some(m.checkpoints)
    ensures EvidenceArguments(p, m.protocolVersion) == Some(m)
  {
  }

  /** The payload `p` has exactly the fields of `m`. */
  ghost predicate ReceiptFieldsAre(p: map<string, Json>, m: Message)
    requires m.ValidationReceipt?
  {
    && p.Keys == {"accepted", "confidence_tier", "evidence_digest", "reason_codes",
                   "signature", "validated_at_block", "validator_hotkey",
                   "verified_work_units"}
    && p["accepted"] == Bool(m.accepted)
    && p["confidence_tier"] == (if m.confidenceTier.Some? then TierJson(m.confidenceTier.value) else Null)
    && p["evidence_digest"] == Str(m.evidenceDigest)
    && p["reason_codes"] == Arr(Map(TextJson, m.reasonCodes))
    && p["signature"] == Str(m.signature)
    && p["validated_at_block"] == Int(m.validatedAtBlock)
    && p["validator_hotkey"] == Str(m.receiptValidator)
    && p["verified_work_units"] == Int(m.verifiedWorkUnits)
  }

  lemma ReceiptFields(m: Message)
    requires m.ValidationReceipt?
    ensures ReceiptFieldsAre(ReceiptPayload(m), m)
  {
  }

  lemma ReceiptRoundTrip(p: map<string, Json>, m: Message)
    requires m.ValidationReceipt? && |m.reasonCodes| <= 32 && ReceiptFieldsAre(p, m)
    ensures ReceiptArguments(p, m.protocolVersion) == Some(m)
  {
    DecodeAllOf(TextJson, Text, m.reasonCodes);
  }

  lemma JobCase(m: Message)
    requires m.JobManifest? && ValidJobManifest(m)
    ensures JobArguments(JobPayload(m), m.protocolVersion) == Some(m)
  {
    JobFields(m);
    JobRoundTrip(JobPayload(m), m);
  }

  lemma ClaimCase(m: Message)
    requires m.CapabilityClaim? && ValidCapabilityClaim(m)
    ensures ClaimArguments(ClaimPayload(m), m.protocolVersion) == Some(m)
  {
    SoftwareListRoundTrip(m.runtimeVersions);
    ClaimFields(m);
    ClaimRoundTrip(ClaimPayload(m), m);
  }

  lemma LeaseCase(m: Message)
    requires m.WorkLease? && ValidWorkLease(m)
    ensures LeaseArguments(LeasePayload(m), m.protocolVersion) == Some(m)
  {
    LeaseFields(m);
    LeaseRoundTrip(LeasePayload(m), m);
  }

  lemma EvidenceCase(m: Message)
    requires m.ExecutionEvidence? && ValidExecutionEvidence(m)
    ensures EvidenceArguments(EvidencePayload(m), m.protocolVersion) == Some(m)
  {
    CheckpointListRoundTrip(m.checkpoints);
    EvidenceFields(m);
    EvidenceRoundTrip(EvidencePayload(m), m);
  }

  lemma ReceiptCase(m: Message)
    requires m.ValidationReceipt? && ValidValidationReceipt(m)
    ensures ReceiptArguments(ReceiptPayload(m), m.protocolVersion) == Some(m)
  {
    ReceiptFields(m);
    ReceiptRoundTrip(ReceiptPayload(m), m);
  }

  lemma ArgumentsDispatch(m: Message, p: map<string, Json>, version: int)
    ensures m.JobManifest? ==> Arguments(MessageType(m), p, version) == JobArguments(p, version)
    ensures m.CapabilityClaim? ==> Arguments(MessageType(m), p, version) == ClaimArguments(p, version)
    ensures m.WorkLease? ==> Arguments(MessageType(m), p, version) == LeaseArguments(p, version)
    ensures m.ExecutionEvidence? ==> Arguments(MessageType(m), p, version) == EvidenceArguments(p, version)
    ensures m.ValidationReceipt? ==> Arguments(MessageType(m), p, version) == ReceiptArguments(p, version)
  {
  }

  /** The fields that a valid message writes are the arguments that reading finds. */
  lemma ArgumentsRoundTrip(m: Message)
    requires ValidFields(m)
    ensures Arguments(MessageType(m), Payload(m), m.protocolVersion) == Some(m)
  {
    ArgumentsDispatch(m, Payload(m), m.protocolVersion);
    if m.JobManifest? {
      JobCase(m);
    } else if m.CapabilityClaim? {
      ClaimCase(m);
    } else if m.WorkLease? {
      LeaseCase(m);
    } else if m.ExecutionEvidence? {
      EvidenceCase(m);
    } else {
      ReceiptCase(m);
    }
  }
}
