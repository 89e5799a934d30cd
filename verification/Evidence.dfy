/** Evidence bundles: hash-linked references behind one signed execution message. */
module Evidence {
  import opened Prelude
  import opened Ordering
  import opened ByteStrings
  import opened JsonValues
  import opened JsonParser
  import opened Protocol
  import opened Wire
  import opened WireTheorems

  const MAX_BLOB_BYTES := 4194304
  const MAX_BUNDLE_BYTES := 65536
  const SIZE_WIDTH := 8
  const ROOT_DOMAIN := "gpuforge-evidence-bundle-v1\0"
  const RESULT_DOMAIN := "gpuforge-result-binding-v1\0"

  /** Content-addressed external data. */
  datatype BlobReference = BlobReference(digest: string, sizeBytes: nat)

  datatype EvidenceBundle = EvidenceBundle(
    manifestDigest: string, leaseDigest: string, challengeCommitment: string,
    challengeResponse: BlobReference, attestation: Option<BlobReference>, runtimeImageDigest: string,
    checkpoints: seq<CheckpointCommitment>, result: BlobReference, measurement: BlobReference,
    failureEvents: BlobReference)

  predicate ValidReference(r: BlobReference) {
    IsDigest(r.digest) && 1 <= r.sizeBytes <= MAX_BLOB_BYTES
  }

  /** `BlobReference.verify`; false is the mismatch failure. */
  predicate VerifyBlob(h: Sha256, r: BlobReference, payload: Bytes) {
    |payload| == r.sizeBytes && DigestText(h(payload)) == r.digest
  }

  /** The constructor rules of a bundle. */
  ghost predicate ValidBundle(b: EvidenceBundle) {
    && IsDigest(b.manifestDigest) && IsDigest(b.leaseDigest)
    && IsDigest(b.challengeCommitment) && IsDigest(b.runtimeImageDigest)
    && ValidReference(b.challengeResponse) && ValidReference(b.result)
    && ValidReference(b.measurement) && ValidReference(b.failureEvents)
    && (b.attestation.Some? ==> ValidReference(b.attestation.value))
    && 1 <= |b.checkpoints| <= MAX_CHECKPOINTS
    && (forall i :: 0 <= i < |b.checkpoints| ==> ValidCheckpoint(b.checkpoints[i]))
    && StrictlyIncreasing(Map(StepOf, b.checkpoints))
    && BundleBytes(b).Some?
  }

  function ReferenceJson(r: BlobReference): Json {
    Obj(map["digest" := Str(r.digest), "size_bytes" := Int(r.sizeBytes)])
  }

  function BundleJson(b: EvidenceBundle): Json {
    Obj(map[
      "attestation" := if b.attestation.None? then Null else ReferenceJson(b.attestation.value),
      "challenge_commitment" := Str(b.challengeCommitment),
      "challenge_response" := ReferenceJson(b.challengeResponse),
      "checkpoints" := Arr(Map(CheckpointJson, b.checkpoints)),
      "failure_events" := ReferenceJson(b.failureEvents),
      "lease_digest" := Str(b.leaseDigest),
      "manifest_digest" := Str(b.manifestDigest),
      "measurement" := ReferenceJson(b.measurement),
      "result" := ReferenceJson(b.result),
      "runtime_image_digest" := Str(b.runtimeImageDigest)])
  }

  /** `canonical_bytes`; `None` is the oversized failure. */
  function BundleBytes(b: EvidenceBundle): Option<Bytes> {
    var encoded := Print(BundleJson(b));
    if |encoded| > MAX_BUNDLE_BYTES then None else Some(encoded)
  }

  function RootInput(b: EvidenceBundle): Bytes
    requires BundleBytes(b).Some?
  {
    ROOT_DOMAIN + BundleBytes(b).value
  }

  /** `root` */
  function Root(h: Sha256, b: EvidenceBundle): string
    requires BundleBytes(b).Some?
  {
    DigestText(h(RootInput(b)))
  }

  // ---------- result binding ----------

  /** One reference in fixed width: 32 digest bytes and 8 size bytes. */
  function ReferenceBytes(r: BlobReference): (b: Bytes)
    requires ValidReference(r)
    ensures |b| == DIGEST_BYTES + SIZE_WIDTH
  {
    DigestBytes(r.digest) + BigEndian(r.sizeBytes, SIZE_WIDTH)
  }

  function ReferencesBytes(rs: seq<BlobReference>): Bytes
    requires forall i :: 0 <= i < |rs| ==> ValidReference(rs[i])
  {
    if rs == [] then "" else ReferencesBytes(rs[..|rs| - 1]) + ReferenceBytes(rs[|rs| - 1])
  }

  function ResultInput(rs: seq<BlobReference>): Bytes
    requires forall i :: 0 <= i < |rs| ==> ValidReference(rs[i])
  {
    RESULT_DOMAIN + ReferencesBytes(rs)
  }

  function ResultBinding(h: Sha256, result: BlobReference, measurement: BlobReference, failureEvents: BlobReference)
    : string
    requires ValidReference(result) && ValidReference(measurement) && ValidReference(failureEvents)
  {
    DigestText(h(ResultInput([result, measurement, failureEvents])))
  }

  /** `result_binding_digest` */
  method ResultBindingDigest(h: Sha256, result: BlobReference, measurement: BlobReference, failureEvents: BlobReference)
    returns (digest: string)
    requires ValidReference(result) && ValidReference(measurement) && ValidReference(failureEvents)
    ensures digest == ResultBinding(h, result, measurement, failureEvents)
  {
    var references := [result, measurement, failureEvents];
    var value := RESULT_DOMAIN;
    for i := 0 to |references|
      invariant value == ResultInput(references[..i])
    {
      assert references[..i + 1][..i] == references[..i];
      var size := BigEndian(references[i].sizeBytes, SIZE_WIDTH);
      Reassociate(RESULT_DOMAIN, ReferencesBytes(references[..i]), DigestBytes(references[i].digest) + size);
      value := value + (DigestBytes(references[i].digest) + size);
    }
    assert references[..|references|] == references;
    digest := DigestText(h(value));
  }

  lemma Reassociate(a: string, b: string, c: string)
    ensures a + (b + c) == a + b + c
  {
  }

  lemma SizesFit()
    ensures MAX_BLOB_BYTES < Pow256(SIZE_WIDTH)
  {
    assert Pow256(4) == 0x1_0000_0000;
  }

  lemma ReferenceBytesInjective(r: BlobReference, s: BlobReference)
    requires ValidReference(r) && ValidReference(s) && ReferenceBytes(r) == ReferenceBytes(s)
    ensures r == s
  {
    var x, y := ReferenceBytes(r), ReferenceBytes(s);
    assert DigestBytes(r.digest) == x[..DIGEST_BYTES] && DigestBytes(s.digest) == y[..DIGEST_BYTES];
    DigestBytesInjective(r.digest, s.digest);
    SizesFit();
    assert BigEndian(r.sizeBytes, SIZE_WIDTH) == x[DIGEST_BYTES..];
    assert BigEndian(s.sizeBytes, SIZE_WIDTH) == y[DIGEST_BYTES..];
    BigEndianInjective(r.sizeBytes, s.sizeBytes, SIZE_WIDTH);
  }

  lemma SplitLast(a: Bytes, x: Bytes, b: Bytes, y: Bytes)
    requires |x| == |y| && a + x == b + y
    ensures a == b && x == y
  {
    assert |a| == |b|;
    assert (a + x)[..|a|] == a && (a + x)[|a|..] == x;
    assert (b + y)[..|b|] == b && (b + y)[|b|..] == y;
  }

  /** Fixed width makes the concatenation injective on lists of the same length. */
  lemma {:induction false} ReferencesBytesInjective(rs: seq<BlobReference>, ss: seq<BlobReference>)
    requires |rs| == |ss|
    requires forall i :: 0 <= i < |rs| ==> ValidReference(rs[i]) && ValidReference(ss[i])
    requires ReferencesBytes(rs) == ReferencesBytes(ss)
    ensures rs == ss
  {
    if rs != [] {
      var n := |rs| - 1;
      assert rs == rs[..n] + [rs[n]] && ss == ss[..n] + [ss[n]];
      SplitLast(ReferencesBytes(rs[..n]), ReferenceBytes(rs[n]), ReferencesBytes(ss[..n]), ReferenceBytes(ss[n]));
      assert rs[n] == ss[n] by { ReferenceBytesInjective(rs[n], ss[n]); }
      assert rs[..n] == ss[..n] by { ReferencesBytesInjective(rs[..n], ss[..n]); }
    }
  }

  /**
   Unless the hash collides on the two inputs, equal result digests mean the same result, the same
   measurement and the same failure events, each in its own place.
   */
  lemma ResultBindingExact(h: Sha256, rs: seq<BlobReference>, ss: seq<BlobReference>)
    requires |rs| == |ss| == 3
    requires forall i :: 0 <= i < |rs| ==> ValidReference(rs[i]) && ValidReference(ss[i])
    requires CollisionFree(h, {ResultInput(rs), ResultInput(ss)})
    ensures ResultBinding(h, rs[0], rs[1], rs[2]) == ResultBinding(h, ss[0], ss[1], ss[2]) <==> rs == ss
  {
    assert rs == [rs[0], rs[1], rs[2]] && ss == [ss[0], ss[1], ss[2]];
    var x, y := ResultInput(rs), ResultInput(ss);
    if DigestText(h(x)) == DigestText(h(y)) {
      DigestTextInjective(h(x), h(y));
      CancelPrefix(RESULT_DOMAIN, ReferencesBytes(rs), ReferencesBytes(ss));
      ReferencesBytesInjective(rs, ss);
    }
  }

  // ---------- the root covers the whole bundle ----------

  lemma ReferenceJsonInjective(r: BlobReference, s: BlobReference)
    requires ReferenceJson(r) == ReferenceJson(s)
    ensures r == s
  {
    var f, g := ReferenceJson(r).fields, ReferenceJson(s).fields;
    assert f["digest"] == g["digest"] && f["size_bytes"] == g["size_bytes"];
  }

  lemma CheckpointJsonInjective(c: CheckpointCommitment, d: CheckpointCommitment)
    requires CheckpointJson(c) == CheckpointJson(d)
    ensures c == d
  {
    var f, g := CheckpointJson(c).fields, CheckpointJson(d).fields;
    assert f["digest"] == g["digest"] && f["step"] == g["step"];
  }

  lemma CheckpointsJsonInjective(cs: seq<CheckpointCommitment>, ds: seq<CheckpointCommitment>)
    requires Map(CheckpointJson, cs) == Map(CheckpointJson, ds)
    ensures cs == ds
  {
    assert |cs| == |Map(CheckpointJson, cs)| == |ds|;
    forall i | 0 <= i < |cs| ensures cs[i] == ds[i] {
      assert Map(CheckpointJson, cs)[i] == Map(CheckpointJson, ds)[i];
      CheckpointJsonInjective(cs[i], ds[i]);
    }
  }

  /** The fields of a bundle's object. */
  ghost predicate BundleFieldsAre(f: map<string, Json>, b: EvidenceBundle) {
    && "attestation" in f
    && f["attestation"] == (if b.attestation.None? then Null else ReferenceJson(b.attestation.value))
    && "challenge_commitment" in f && f["challenge_commitment"] == Str(b.challengeCommitment)
    && "challenge_response" in f && f["challenge_response"] == ReferenceJson(b.challengeResponse)
    && "checkpoints" in f && f["checkpoints"] == Arr(Map(CheckpointJson, b.checkpoints))
    && "failure_events" in f && f["failure_events"] == ReferenceJson(b.failureEvents)
    && "lease_digest" in f && f["lease_digest"] == Str(b.leaseDigest)
    && "manifest_digest" in f && f["manifest_digest"] == Str(b.manifestDigest)
    && "measurement" in f && f["measurement"] == ReferenceJson(b.measurement)
    && "result" in f && f["result"] == ReferenceJson(b.result)
    && "runtime_image_digest" in f && f["runtime_image_digest"] == Str(b.runtimeImageDigest)
  }

  lemma BundleFields(b: EvidenceBundle)
    ensures BundleFieldsAre(BundleJson(b).fields, b)
  {
  }

  lemma BundleFieldsInjective(f: map<string, Json>, b: EvidenceBundle, c: EvidenceBundle)
    requires BundleFieldsAre(f, b) && BundleFieldsAre(f, c)
    ensures b == c
  {
    ReferenceJsonInjective(b.challengeResponse, c.challengeResponse);
    ReferenceJsonInjective(b.failureEvents, c.failureEvents);
    ReferenceJsonInjective(b.measurement, c.measurement);
    ReferenceJsonInjective(b.result, c.result);
    CheckpointsJsonInjective(b.checkpoints, c.checkpoints);
    if b.attestation.Some? && c.attestation.Some? {
      ReferenceJsonInjective(b.attestation.value, c.attestation.value);
    }
  }

  /** The canonical encoding determines the bundle. */
  lemma BundleBytesInjective(b: EvidenceBundle, c: EvidenceBundle)
    requires BundleBytes(b).Some? && BundleBytes(b) == BundleBytes(c)
    ensures b == c
  {
    PrintInjective(BundleJson(b), BundleJson(c));
    BundleFields(b);
    BundleFields(c);
    BundleFieldsInjective(BundleJson(b).fields, b, c);
  }

  /** Unless the hash collides on the two encodings, equal roots mean equal bundles. */
  lemma RootExact(h: Sha256, b: EvidenceBundle, c: EvidenceBundle)
    requires BundleBytes(b).Some? && BundleBytes(c).Some?
    requires CollisionFree(h, {RootInput(b), RootInput(c)})
    ensures Root(h, b) == Root(h, c) <==> b == c
  {
    if Root(h, b) == Root(h, c) {
      var x, y := RootInput(b), RootInput(c);
      DigestTextInjective(h(x), h(y));
      assert x == y;
      CancelPrefix(ROOT_DOMAIN, BundleBytes(b).value, BundleBytes(c).value);
      BundleBytesInjective(b, c);
    }
  }

  // ---------- binding to the signed messages ----------

  function OptionalDigest(r: Option<BlobReference>): Option<string> {
    if r.None? then None else Some(r.value.digest)
  }

  /** `verify_binding`; false is a failure. */
  ghost predicate VerifyBinding(h: Sha256, b: EvidenceBundle, lease: Message, evidence: Message)
    requires ValidBundle(b) && lease.WorkLease? && evidence.ExecutionEvidence?
  {
    && b.manifestDigest == lease.manifestDigest
    && MessageDigest(h, lease) == Some(b.leaseDigest)
    && b.leaseDigest == evidence.leaseDigest
    && b.challengeCommitment == lease.challengeCommitment
    && b.challengeResponse.digest == evidence.challengeResponseDigest
    && OptionalDigest(b.attestation) == evidence.attestationDigest
    && b.runtimeImageDigest == evidence.imageDigest
    && b.checkpoints == evidence.checkpoints
    && evidence.bundleRoot == Some(Root(h, b))
    && ResultBinding(h, b.result, b.measurement, b.failureEvents) == evidence.resultDigest
  }

  /**
   Once one bundle is bound to a signed lease and evidence, every other bundle that the hash tells
   apart from it is refused: an iff, so nothing but that bundle passes.
   */
  lemma BindingExact(h: Sha256, b: EvidenceBundle, c: EvidenceBundle, lease: Message, evidence: Message)
    requires ValidBundle(b) && ValidBundle(c) && lease.WorkLease? && evidence.ExecutionEvidence?
    requires CollisionFree(h, {RootInput(b), RootInput(c)})
    requires VerifyBinding(h, b, lease, evidence)
    ensures VerifyBinding(h, c, lease, evidence) <==> b == c
  {
    RootExact(h, b, c);
  }

  /** The reference that a payload is published under. */
  function ReferenceTo(h: Sha256, payload: Bytes): BlobReference {
    BlobReference(DigestText(h(payload)), |payload|)
  }

  /** A payload passes under its own reference and under no other. */
  lemma VerifyBlobExact(h: Sha256, r: BlobReference, payload: Bytes)
    ensures VerifyBlob(h, r, payload) <==> r == ReferenceTo(h, payload)
  {
  }

  /** A reference is verified by one payload only, so a bound bundle also fixes every external blob. */
  lemma BlobExact(h: Sha256, r: BlobReference, payload: Bytes, other: Bytes)
    requires VerifyBlob(h, r, payload) && CollisionFree(h, {payload, other})
    ensures VerifyBlob(h, r, other) <==> payload == other
  {
    if VerifyBlob(h, r, other) {
      DigestTextInjective(h(payload), h(other));
    }
  }

  /** The message that binds a bundle, other fields being those of `draft`. */
  function Bind(h: Sha256, b: EvidenceBundle, draft: Message): Message
    requires draft.ExecutionEvidence? && BundleBytes(b).Some?
    requires ValidReference(b.result) && ValidReference(b.measurement) && ValidReference(b.failureEvents)
  {
    draft.(leaseDigest := b.leaseDigest, attestationDigest := OptionalDigest(b.attestation),
           imageDigest := b.runtimeImageDigest, challengeResponseDigest := b.challengeResponse.digest,
           checkpoints := b.checkpoints, bundleRoot := Some(Root(h, b)),
           resultDigest := ResultBinding(h, b.result, b.measurement, b.failureEvents))
  }

  /** The bundle was made for this lease. */
  predicate BelongsTo(h: Sha256, b: EvidenceBundle, lease: Message)
    requires lease.WorkLease?
  {
    && b.manifestDigest == lease.manifestDigest && b.challengeCommitment == lease.challengeCommitment
    && MessageDigest(h, lease) == Some(b.leaseDigest)
  }

  /** A bundle passes exactly when it was made for the lease and binding it changes nothing in the evidence. */
  lemma VerifyBindingExact(h: Sha256, b: EvidenceBundle, lease: Message, evidence: Message)
    requires ValidBundle(b) && lease.WorkLease? && evidence.ExecutionEvidence?
    ensures VerifyBinding(h, b, lease, evidence) <==> BelongsTo(h, b, lease) && evidence == Bind(h, b, evidence)
  {
  }

  lemma StrictlySorted(checkpoints: seq<CheckpointCommitment>)
    requires StrictlyIncreasing(Map(StepOf, checkpoints))
    ensures AllDistinct(Map(StepOf, checkpoints)) && Sort(CheckpointLe, checkpoints) == checkpoints
  {
    var steps := Map(StepOf, checkpoints);
    forall i, j | 0 <= i < j < |checkpoints|
      ensures steps[i] != steps[j] && CheckpointLe(checkpoints[i], checkpoints[j])
    {
      assert steps[i] < steps[j];
    }
    DistinctCardinality(steps);
    OrdersAreTotal();
    SortFixpoint(CheckpointLe, checkpoints);
  }

  /**
   Binding is complete: for every valid bundle of a lease there is a constructible evidence message
   that it passes against, with all unrelated fields as one likes.
   */
  lemma BindingComplete(h: Sha256, b: EvidenceBundle, lease: Message, draft: Message)
    requires ValidBundle(b) && lease.WorkLease? && MessageDigest(h, lease) == Some(b.leaseDigest)
    requires b.manifestDigest == lease.manifestDigest && b.challengeCommitment == lease.challengeCommitment
    requires draft.ExecutionEvidence? && ValidExecutionEvidence(draft)
    ensures Constructible(Bind(h, b, draft)) && VerifyBinding(h, b, lease, Bind(h, b, draft))
  {
    StrictlySorted(b.checkpoints);
    var m := Bind(h, b, draft);
    assert ValidExecutionEvidence(m);
    assert Construct(m) == Some(m);
  }
}
