/** Commit-reveal challenges: committing, revealing, and consuming each reveal once. */
module Challenge {
  import opened Prelude
  import opened Ordering
  import opened ByteStrings
  import opened JsonValues
  import opened JsonParser
  import opened Sampling

  const MAX_ITEMS := 1000000
  const SEED_DOMAIN := "gpuforge/challenge/seed/v1\0"
  const COMMITMENT_DOMAIN := "gpuforge/challenge/commitment/v1\0"
  const SHARD_DOMAIN := "gpuforge/challenge/shard/v1\0"
  const CANARY_DOMAIN := "gpuforge/challenge/canary/v1\0"

  datatype ErrorCode = Invalid | NotAccepted | Expired | Mismatch | Replay | Capacity

  datatype Commitment = Commitment(
    challengeId: string, commitmentDigest: string, deadlineBlock: int,
    shardCount: int, canaryPoolSize: int, canaryCount: int)

  datatype Reveal = Reveal(challengeId: string, seed: string, shardOrder: seq<nat>, canaryIndices: seq<nat>)

  /** The lease that a challenge belongs to. */
  datatype Lease = Lease(jobDigest: string, nonce: string)

  predicate ValidCommitment(c: Commitment) {
    && IsHex256(c.challengeId) && IsDigest(c.commitmentDigest)
    && 1 <= c.deadlineBlock <= MAX_INT63
    && 1 <= c.shardCount <= MAX_ITEMS
    && 1 <= c.canaryPoolSize <= MAX_ITEMS
    && 1 <= c.canaryCount <= c.canaryPoolSize
  }

  predicate ValidIndices(s: seq<nat>) {
    |s| <= MAX_ITEMS && (forall i :: 0 <= i < |s| ==> s[i] < MAX_ITEMS) && AllDistinct(s)
  }

  predicate ValidReveal(r: Reveal) {
    IsHex256(r.challengeId) && IsHex256(r.seed) && ValidIndices(r.shardOrder) && ValidIndices(r.canaryIndices)
  }

  function ContextJson(c: Commitment, lease: Lease): Json {
    Obj(map[
      "canary_count" := Int(c.canaryCount),
      "canary_pool_size" := Int(c.canaryPoolSize),
      "challenge_id" := Str(c.challengeId),
      "deadline_block" := Int(c.deadlineBlock),
      "job_digest" := Str(lease.jobDigest),
      "lease_nonce" := Str(lease.nonce),
      "shard_count" := Int(c.shardCount)])
  }

  predicate ValidLease(lease: Lease) {
    IsDigest(lease.jobDigest) && IsHex256(lease.nonce)
  }

  /** `_context` of a valid lease */
  function Context(c: Commitment, lease: Lease): Bytes {
    Print(ContextJson(c, lease))
  }

  function CommitmentInput(context: Bytes, seed: Bytes): Bytes {
    COMMITMENT_DOMAIN + context + seed
  }

  /** `_commitment_digest` */
  function CommitmentDigest(h: Sha256, context: Bytes, seed: Bytes): string {
    DigestText(h(CommitmentInput(context, seed)))
  }

  /** The indices below `size`, in order. */
  function Range(size: nat): (r: seq<nat>)
    ensures |r| == size && forall i :: 0 <= i < size ==> r[i] == i
  {
    seq(size, i => i)
  }

  /** `_selection` */
  function Selection(mac: Hmac, seed: Bytes, domain: Bytes, size: nat): (r: seq<nat>)
    ensures |r| == size
  {
    RankedIsSortedPermutation(mac, seed, domain, Range(size));
    Ranked(mac, seed, domain, Range(size))
  }

  /** `_build_reveal` */
  function BuildReveal(mac: Hmac, c: Commitment, seed: Bytes): Reveal
    requires ValidCommitment(c)
  {
    Reveal(c.challengeId, Hex(seed),
           Selection(mac, seed, SHARD_DOMAIN, c.shardCount)[..c.shardCount],
           Selection(mac, seed, CANARY_DOMAIN, c.canaryPoolSize)[..c.canaryCount])
  }

  /** `_acceptance_window` */
  function WindowProblem(c: Commitment, accepted: bool, block: int): Option<ErrorCode> {
    if !accepted then Some(NotAccepted)
    else if !(0 <= block <= MAX_INT63) then Some(Invalid)
    else if block > c.deadlineBlock then Some(Expired)
    else None
  }

  /** The validator's seed for a context. */
  function SeedFor(mac: Hmac, secret: Bytes, context: Bytes): Bytes {
    mac(secret, SEED_DOMAIN + context)
  }

  /** `ValidatorChallengeGenerator.commit`; the digest of `draft` is filled in. */
  function Commit(h: Sha256, mac: Hmac, secret: Bytes, draft: Commitment, lease: Lease): Result<Commitment, ErrorCode> {
    if !ValidCommitment(draft) || !ValidLease(lease) then Err(Invalid)
    else
      var context := Context(draft, lease);
      Ok(draft.(commitmentDigest := CommitmentDigest(h, context, SeedFor(mac, secret, context))))
  }

  /** `ValidatorChallengeGenerator.reveal` */
  function RevealFor(h: Sha256, mac: Hmac, secret: Bytes, c: Commitment, lease: Lease, accepted: bool, block: int)
    : Result<Reveal, ErrorCode>
    requires ValidCommitment(c)
  {
    var problem := WindowProblem(c, accepted, block);
    if problem.Some? then Err(problem.value)
    else if !ValidLease(lease) then Err(Invalid)
    else
      var context := Context(c, lease);
      var seed := SeedFor(mac, secret, context);
      if c.commitmentDigest != CommitmentDigest(h, context, seed) then Err(Mismatch)
      else Ok(BuildReveal(mac, c, seed))
  }

  /** Everything that `verify_and_consume` checks before it looks at the consumed set. */
  function RevealProblem(h: Sha256, mac: Hmac, c: Commitment, r: Reveal, lease: Lease, accepted: bool, block: int)
    : Option<ErrorCode>
    requires ValidCommitment(c) && ValidReveal(r)
  {
    var problem := WindowProblem(c, accepted, block);
    if problem.Some? then problem
    else if !ValidLease(lease) then Some(Invalid)
    else
      var context, seed := Context(c, lease), FromHex(r.seed);
      var expected := BuildReveal(mac, c, seed);
      if c.challengeId != r.challengeId || c.commitmentDigest != CommitmentDigest(h, context, seed)
         || r.shardOrder != expected.shardOrder || r.canaryIndices != expected.canaryIndices
      then Some(Mismatch)
      else None
  }

  class ChallengeVerifier {
    const h: Sha256
    const mac: Hmac
    const maxConsumed: int
    var consumed: set<string>

    constructor (h: Sha256, mac: Hmac, maxConsumed: int)
      requires 1 <= maxConsumed <= 10000000
      ensures consumed == {} && this.h == h && this.mac == mac && this.maxConsumed == maxConsumed
    {
      this.h, this.mac, this.maxConsumed, consumed := h, mac, maxConsumed, {};
    }

    /** A reveal that passes every check is consumed; every other call leaves the set as it was. */
    method VerifyAndConsume(c: Commitment, r: Reveal, lease: Lease, accepted: bool, block: int)
      returns (error: Option<ErrorCode>)
      requires ValidCommitment(c) && ValidReveal(r)
      modifies this
      ensures (error, consumed) ==
                Consume(Checks(h, mac), maxConsumed, old(consumed), Attempt(c, r, lease, accepted, block))
      ensures error.None? <==>
                && IsOpen(c, accepted, block) && IsDigest(lease.jobDigest) && IsHex256(lease.nonce)
                && Opens(h, mac, c, r, lease)
                && c.commitmentDigest !in old(consumed) && |old(consumed)| < maxConsumed
      ensures consumed == old(consumed) + (if error.None? then {c.commitmentDigest} else {})
    {
      RevealProblemExact(h, mac, c, r, lease, accepted, block);
      var problem := RevealProblem(h, mac, c, r, lease, accepted, block);
      if problem.Some? {
        return problem;
      }
      var replayKey := c.commitmentDigest;
      if replayKey in consumed {
        return Some(Replay);
      }
      if |consumed| >= maxConsumed {
        return Some(Capacity);
      }
      consumed := consumed + {replayKey};
      return None;
    }
  }

  // ---------- what a reveal contains ----------

  lemma RangeDistinct(size: nat)
    ensures Distinct(Range(size)) && forall x: nat :: x in Range(size) <==> x < size
  {
    forall x: nat | x < size ensures x in Range(size) {
      assert Range(size)[x] == x;
    }
  }

  /** The selection is the one permutation of `0..size-1` in the order of the keyed digests. */
  lemma SelectionExact(mac: Hmac, seed: Bytes, domain: Bytes, size: nat, other: seq<nat>)
    ensures other == Selection(mac, seed, domain, size)
       <==> multiset(other) == multiset(Range(size)) && Sorted(KeyedLe, Keys(mac, seed, domain, other))
  {
    RankedIsSortedPermutation(mac, seed, domain, Range(size));
    if multiset(other) == multiset(Range(size)) && Sorted(KeyedLe, Keys(mac, seed, domain, other)) {
      RankedIsUnique(mac, seed, domain, Range(size), other);
    }
  }

  lemma SelectionProperties(mac: Hmac, seed: Bytes, domain: Bytes, size: nat)
    ensures Distinct(Selection(mac, seed, domain, size))
    ensures forall x: nat :: x in Selection(mac, seed, domain, size) <==> x < size
  {
    RangeDistinct(size);
    RankedIsSortedPermutation(mac, seed, domain, Range(size));
    DistinctPermutation(Range(size), Selection(mac, seed, domain, size));
    SameElements(Range(size), Selection(mac, seed, domain, size));
  }

  // ---------- when a reveal is accepted, and when a seed is disclosed ----------

  /** The lease was accepted and the deadline has not passed. */
  predicate IsOpen(c: Commitment, accepted: bool, block: int) {
    accepted && 0 <= block <= c.deadlineBlock
  }

  /** The permutation of `0..size-1` in the order of the keyed digests. */
  ghost predicate IsOrder(mac: Hmac, seed: Bytes, domain: Bytes, size: nat, s: seq<nat>) {
    multiset(s) == multiset(Range(size)) && Sorted(KeyedLe, Keys(mac, seed, domain, s))
  }

  /** The first `count` of that permutation. */
  ghost predicate IsStart(mac: Hmac, seed: Bytes, domain: Bytes, size: nat, count: nat, s: seq<nat>) {
    exists order :: IsOrder(mac, seed, domain, size, order) && count <= |order| && s == order[..count]
  }

  /** The digest commits to the published parameters, the lease and the seed. */
  predicate CommitsTo(h: Sha256, c: Commitment, lease: Lease, seed: Bytes) {
    c.commitmentDigest == DigestText(h(COMMITMENT_DOMAIN + Context(c, lease) + seed))
  }

  /** The reveal is the one that the commitment was made for. */
  ghost predicate Opens(h: Sha256, mac: Hmac, c: Commitment, r: Reveal, lease: Lease)
    requires ValidCommitment(c) && ValidReveal(r)
  {
    var seed := FromHex(r.seed);
    && r.challengeId == c.challengeId && CommitsTo(h, c, lease, seed)
    && IsOrder(mac, seed, SHARD_DOMAIN, c.shardCount, r.shardOrder)
    && IsStart(mac, seed, CANARY_DOMAIN, c.canaryPoolSize, c.canaryCount, r.canaryIndices)
  }

  lemma StartExact(mac: Hmac, seed: Bytes, domain: Bytes, size: nat, count: nat, s: seq<nat>)
    requires count <= size
    ensures IsStart(mac, seed, domain, size, count, s) <==> s == Selection(mac, seed, domain, size)[..count]
  {
    var selection := Selection(mac, seed, domain, size);
    SelectionExact(mac, seed, domain, size, selection);
    forall order | IsOrder(mac, seed, domain, size, order) ensures order == selection {
      SelectionExact(mac, seed, domain, size, order);
    }
  }

  /** A reveal opens a commitment exactly when it agrees with the reveal built from its own seed. */
  lemma OpensExact(h: Sha256, mac: Hmac, c: Commitment, r: Reveal, lease: Lease)
    requires ValidCommitment(c) && ValidReveal(r)
    ensures var expected := BuildReveal(mac, c, FromHex(r.seed));
            Opens(h, mac, c, r, lease) <==>
              && c.challengeId == r.challengeId
              && c.commitmentDigest == CommitmentDigest(h, Context(c, lease), FromHex(r.seed))
              && r.shardOrder == expected.shardOrder && r.canaryIndices == expected.canaryIndices
  {
    var seed := FromHex(r.seed);
    SelectionExact(mac, seed, SHARD_DOMAIN, c.shardCount, r.shardOrder);
    StartExact(mac, seed, CANARY_DOMAIN, c.canaryPoolSize, c.canaryCount, r.canaryIndices);
    var shards := Selection(mac, seed, SHARD_DOMAIN, c.shardCount);
    assert shards[..c.shardCount] == shards;
  }

  /** Which check a reveal fails, before the consumed set is looked at. */
  lemma RevealProblemExact(h: Sha256, mac: Hmac, c: Commitment, r: Reveal, lease: Lease, accepted: bool, block: int)
    requires ValidCommitment(c) && ValidReveal(r)
    ensures var problem := RevealProblem(h, mac, c, r, lease, accepted, block);
            var wellFormed := IsDigest(lease.jobDigest) && IsHex256(lease.nonce);
            && (problem == Some(NotAccepted) <==> !accepted)
            && (problem == Some(Expired) <==> accepted && c.deadlineBlock < block <= MAX_INT63)
            && (problem == Some(Invalid) <==>
                  accepted && (block < 0 || block > MAX_INT63 || (IsOpen(c, accepted, block) && !wellFormed)))
            && (problem == Some(Mismatch) <==>
                  IsOpen(c, accepted, block) && wellFormed && !Opens(h, mac, c, r, lease))
            && (problem == None <==> IsOpen(c, accepted, block) && wellFormed && Opens(h, mac, c, r, lease))
  {
    OpensExact(h, mac, c, r, lease);
  }

  /**
   A commitment is made exactly for well-formed parameters, job and nonce; it publishes the parameters as
   they are, with a digest that commits to them, to the lease and to the generator's own seed.
   */
  lemma CommitExact(h: Sha256, mac: Hmac, secret: Bytes, draft: Commitment, lease: Lease)
    ensures var answer := Commit(h, mac, secret, draft, lease);
            && (answer.Ok? <==> ValidCommitment(draft) && IsDigest(lease.jobDigest) && IsHex256(lease.nonce))
            && (answer.Err? ==> answer.error == Invalid)
            && (answer.Ok? ==>
                  var c := answer.value;
                  && ValidCommitment(c) && c == draft.(commitmentDigest := c.commitmentDigest)
                  && CommitsTo(h, c, lease, mac(secret, SEED_DOMAIN + Context(c, lease))))
  {
    if ValidCommitment(draft) && ValidLease(lease) {
      ContextIgnoresDigest(draft, lease, Commit(h, mac, secret, draft, lease).value.commitmentDigest);
    }
  }

  /**
   The generator discloses a seed exactly when the lease was accepted, the deadline has not passed, and the
   commitment is its own for this lease; what it discloses then opens the commitment.
   */
  lemma DisclosureExact(h: Sha256, mac: Hmac, secret: Bytes, c: Commitment, lease: Lease, accepted: bool, block: int)
    requires ValidCommitment(c)
    ensures var seed := mac(secret, SEED_DOMAIN + Context(c, lease));
            var answer := RevealFor(h, mac, secret, c, lease, accepted, block);
            var wellFormed := IsDigest(lease.jobDigest) && IsHex256(lease.nonce);
            && (answer.Ok? <==> IsOpen(c, accepted, block) && wellFormed && CommitsTo(h, c, lease, seed))
            && (answer.Ok? ==>
                  ValidReveal(answer.value) && FromHex(answer.value.seed) == seed
                  && Opens(h, mac, c, answer.value, lease))
            && (answer == Err(NotAccepted) <==> !accepted)
            && (answer == Err(Expired) <==> accepted && c.deadlineBlock < block <= MAX_INT63)
            && (answer == Err(Mismatch) <==> IsOpen(c, accepted, block) && wellFormed && !CommitsTo(h, c, lease, seed))
  {
    var seed := mac(secret, SEED_DOMAIN + Context(c, lease));
    BuildRevealIsValid(mac, c, seed);
    OpensExact(h, mac, c, BuildReveal(mac, c, seed), lease);
  }

  /**
   A reveal visits every shard exactly once and names exactly `canaryCount` different canaries of the
   pool, so it always satisfies its constructor.
   */
  lemma BuildRevealIsValid(mac: Hmac, c: Commitment, seed: Bytes)
    requires ValidCommitment(c) && |seed| == DIGEST_BYTES && IsBytes(seed)
    ensures var r := BuildReveal(mac, c, seed);
            && ValidReveal(r) && FromHex(r.seed) == seed
            && |r.shardOrder| == c.shardCount && (forall x: nat :: x in r.shardOrder <==> x < c.shardCount)
            && |r.canaryIndices| == c.canaryCount && (forall x :: x in r.canaryIndices ==> x < c.canaryPoolSize)
            && Distinct(r.shardOrder) && Distinct(r.canaryIndices)
  {
    HexRoundTrip(seed);
    SelectionProperties(mac, seed, SHARD_DOMAIN, c.shardCount);
    SelectionProperties(mac, seed, CANARY_DOMAIN, c.canaryPoolSize);
    var r := BuildReveal(mac, c, seed);
    var shards := Selection(mac, seed, SHARD_DOMAIN, c.shardCount);
    var canaries := Selection(mac, seed, CANARY_DOMAIN, c.canaryPoolSize);
    assert r.shardOrder == shards && r.canaryIndices == canaries[..c.canaryCount];
    forall i | 0 <= i < |shards| ensures shards[i] < MAX_ITEMS { assert shards[i] in shards; }
    forall i | 0 <= i < |r.canaryIndices| ensures r.canaryIndices[i] < c.canaryPoolSize {
      assert r.canaryIndices[i] == canaries[i] && canaries[i] in canaries;
    }
  }

  // ---------- completeness ----------

  /** The digest is not part of the context. */
  lemma ContextIgnoresDigest(c: Commitment, lease: Lease, digest: string)
    ensures Context(c.(commitmentDigest := digest), lease) == Context(c, lease)
  {
  }

  /**
   The generator's own reveal for its own commitment is always made before the deadline, and always
   accepted by a verifier that has room and has not consumed the commitment yet.
   */
  lemma OwnRevealIsAccepted(h: Sha256, mac: Hmac, secret: Bytes, draft: Commitment, lease: Lease,
                            block: int, later: int, maxConsumed: int, consumed: set<string>)
    requires ValidCommitment(draft) && ValidLease(lease)
    requires 0 <= block <= draft.deadlineBlock && 0 <= later <= draft.deadlineBlock
    requires |consumed| < maxConsumed
    ensures var commitment := Commit(h, mac, secret, draft, lease);
            && commitment.Ok? && ValidCommitment(commitment.value)
            && var c := commitment.value;
               var r := RevealFor(h, mac, secret, c, lease, true, block);
               && r.Ok? && ValidReveal(r.value)
               && Consume(Checks(h, mac), maxConsumed, consumed, Attempt(c, r.value, lease, true, later))
                  == (if c.commitmentDigest in consumed then (Some(Replay), consumed)
                      else (None, consumed + {c.commitmentDigest}))
  {
    var context := Context(draft, lease);
    var seed := SeedFor(mac, secret, context);
    var c := Commit(h, mac, secret, draft, lease).value;
    ContextIgnoresDigest(draft, lease, c.commitmentDigest);
    BuildRevealIsValid(mac, c, seed);
  }

  // ---------- contexts ----------

  lemma ContextFields(c: Commitment, lease: Lease)
    ensures var f := ContextJson(c, lease).fields;
            && "canary_count" in f && f["canary_count"] == Int(c.canaryCount)
            && "canary_pool_size" in f && f["canary_pool_size"] == Int(c.canaryPoolSize)
            && "challenge_id" in f && f["challenge_id"] == Str(c.challengeId)
            && "deadline_block" in f && f["deadline_block"] == Int(c.deadlineBlock)
            && "job_digest" in f && f["job_digest"] == Str(lease.jobDigest)
            && "lease_nonce" in f && f["lease_nonce"] == Str(lease.nonce)
            && "shard_count" in f && f["shard_count"] == Int(c.shardCount)
  {
  }

  lemma ContextInjective(c: Commitment, lease: Lease, d: Commitment, other: Lease)
    requires Context(c, lease) == Context(d, other)
    ensures lease == other && d == c.(commitmentDigest := d.commitmentDigest)
  {
    PrintInjective(ContextJson(c, lease), ContextJson(d, other));
    ContextFields(c, lease);
    ContextFields(d, other);
  }

  /** A context of any length followed by a seed of fixed length is split in one way only. */
  lemma CommitmentInputInjective(context: Bytes, seed: Bytes, other: Bytes, otherSeed: Bytes)
    requires |seed| == |otherSeed| && CommitmentInput(context, seed) == CommitmentInput(other, otherSeed)
    ensures context == other && seed == otherSeed
  {
    var x, y, n := CommitmentInput(context, seed), CommitmentInput(other, otherSeed), |COMMITMENT_DOMAIN|;
    assert |context| == |other|;
    assert x[n..n + |context|] == context && y[n..n + |other|] == other;
    assert x[n + |context|..] == seed && y[n + |other|..] == otherSeed;
  }

  // ---------- whole runs ----------

  datatype Attempt = Attempt(commitment: Commitment, revealed: Reveal, lease: Lease, accepted: bool, block: int)

  predicate ValidAttempt(a: Attempt) {
    ValidCommitment(a.commitment) && ValidReveal(a.revealed)
  }

  /** The checks of one verifier; an ill-formed commitment or reveal cannot be constructed at all. */
  function Checks(h: Sha256, mac: Hmac): Attempt -> Option<ErrorCode> {
    (a: Attempt) =>
      if ValidAttempt(a) then RevealProblem(h, mac, a.commitment, a.revealed, a.lease, a.accepted, a.block)
      else Some(Invalid)
  }

  /** `verify_and_consume` as a function of the consumed set. */
  function Consume(checks: Attempt -> Option<ErrorCode>, maxConsumed: int, consumed: set<string>, a: Attempt)
    : (Option<ErrorCode>, set<string>)
  {
    if checks(a).Some? then (checks(a), consumed)
    else if a.commitment.commitmentDigest in consumed then (Some(Replay), consumed)
    else if |consumed| >= maxConsumed then (Some(Capacity), consumed)
    else (None, consumed + {a.commitment.commitmentDigest})
  }

  /** The consumed set after a run that starts with a new verifier. */
  function ConsumedAfter(checks: Attempt -> Option<ErrorCode>, maxConsumed: int, attempts: seq<Attempt>): set<string> {
    if attempts == [] then {}
    else
      var n := |attempts| - 1;
      Consume(checks, maxConsumed, ConsumedAfter(checks, maxConsumed, attempts[..n]), attempts[n]).1
  }

  ghost predicate AcceptedAt(checks: Attempt -> Option<ErrorCode>, maxConsumed: int, attempts: seq<Attempt>, i: nat)
    requires i < |attempts|
  {
    Consume(checks, maxConsumed, ConsumedAfter(checks, maxConsumed, attempts[..i]), attempts[i]).0.None?
  }

  ghost predicate DigestAcceptedAt(checks: Attempt -> Option<ErrorCode>, maxConsumed: int, attempts: seq<Attempt>,
                                   i: nat, digest: string)
    requires i < |attempts|
  {
    AcceptedAt(checks, maxConsumed, attempts, i) && attempts[i].commitment.commitmentDigest == digest
  }

  ghost predicate AcceptedDigest(checks: Attempt -> Option<ErrorCode>, maxConsumed: int, attempts: seq<Attempt>,
                                 digest: string)
  {
    exists i: nat :: i < |attempts| && DigestAcceptedAt(checks, maxConsumed, attempts, i, digest)
  }

  lemma SameInPrefix(checks: Attempt -> Option<ErrorCode>, maxConsumed: int, attempts: seq<Attempt>, i: nat,
                     digest: string)
    requires i < |attempts| - 1
    ensures DigestAcceptedAt(checks, maxConsumed, attempts[..|attempts| - 1], i, digest)
         == DigestAcceptedAt(checks, maxConsumed, attempts, i, digest)
  {
    assert attempts[..|attempts| - 1][..i] == attempts[..i];
  }

  lemma AcceptedInPrefix(checks: Attempt -> Option<ErrorCode>, maxConsumed: int, attempts: seq<Attempt>, digest: string)
    requires attempts != []
    ensures AcceptedDigest(checks, maxConsumed, attempts, digest)
       <==> AcceptedDigest(checks, maxConsumed, attempts[..|attempts| - 1], digest)
            || DigestAcceptedAt(checks, maxConsumed, attempts, |attempts| - 1, digest)
  {
    var before := attempts[..|attempts| - 1];
    forall i: nat | i < |before|
      ensures DigestAcceptedAt(checks, maxConsumed, before, i, digest)
           == DigestAcceptedAt(checks, maxConsumed, attempts, i, digest)
    {
      SameInPrefix(checks, maxConsumed, attempts, i, digest);
    }
  }

  /** The consumed set is exactly the set of accepted digests, and never exceeds its limit. */
  lemma {:induction false} ConsumedExact(checks: Attempt -> Option<ErrorCode>, maxConsumed: int, attempts: seq<Attempt>,
                                         digest: string)
    requires maxConsumed >= 0
    ensures digest in ConsumedAfter(checks, maxConsumed, attempts)
       <==> AcceptedDigest(checks, maxConsumed, attempts, digest)
    ensures |ConsumedAfter(checks, maxConsumed, attempts)| <= maxConsumed
  {
    if attempts != [] {
      var n := |attempts| - 1;
      ConsumedExact(checks, maxConsumed, attempts[..n], digest);
      AcceptedInPrefix(checks, maxConsumed, attempts, digest);
    }
  }

  /** Over any run, each commitment digest is accepted at most once. */
  lemma ConsumedAtMostOnce(checks: Attempt -> Option<ErrorCode>, maxConsumed: int,
                           attempts: seq<Attempt>, i: nat, j: nat)
    requires maxConsumed >= 0 && i < j < |attempts|
    requires AcceptedAt(checks, maxConsumed, attempts, i) && AcceptedAt(checks, maxConsumed, attempts, j)
    ensures attempts[i].commitment.commitmentDigest != attempts[j].commitment.commitmentDigest
  {
    var before := attempts[..j];
    ConsumedExact(checks, maxConsumed, before, attempts[i].commitment.commitmentDigest);
    assert before[..i] == attempts[..i];
    assert DigestAcceptedAt(checks, maxConsumed, before, i, attempts[i].commitment.commitmentDigest);
  }

  // ---------- binding ----------

  /** The bytes behind the commitment digest that an attempt is checked against. */
  function InputOf(a: Attempt): Bytes
    requires ValidAttempt(a)
  {
    CommitmentInput(Context(a.commitment, a.lease), FromHex(a.revealed.seed))
  }

  /** What the checks establish about an attempt that passes them. */
  lemma PassedChecks(h: Sha256, mac: Hmac, a: Attempt)
    requires ValidAttempt(a) && Checks(h, mac)(a).None?
    ensures a.commitment.commitmentDigest == DigestText(h(InputOf(a)))
    ensures a.revealed == BuildReveal(mac, a.commitment, FromHex(a.revealed.seed)).(seed := a.revealed.seed)
  {
  }

  /**
   Unless the hash collides on the two inputs, two reveals that pass the checks against the same
   commitment digest, for whatever leases and published parameters, agree on all of them: job, nonce,
   deadline, counts, seed, shard order and canaries.
   */
  lemma CommitmentIsBinding(h: Sha256, mac: Hmac, a: Attempt, b: Attempt)
    requires ValidAttempt(a) && ValidAttempt(b) && CollisionFree(h, {InputOf(a), InputOf(b)})
    requires Checks(h, mac)(a).None? && Checks(h, mac)(b).None?
    requires a.commitment.commitmentDigest == b.commitment.commitmentDigest
    ensures a.commitment == b.commitment && a.lease == b.lease && a.revealed == b.revealed
  {
    PassedChecks(h, mac, a);
    PassedChecks(h, mac, b);
    DigestTextInjective(h(InputOf(a)), h(InputOf(b)));
    SameInput(a, b);
  }

  lemma SameInput(a: Attempt, b: Attempt)
    requires ValidAttempt(a) && ValidAttempt(b) && InputOf(a) == InputOf(b)
    requires a.commitment.commitmentDigest == b.commitment.commitmentDigest
    ensures a.commitment == b.commitment && a.lease == b.lease && a.revealed.seed == b.revealed.seed
  {
    CommitmentInputInjective(Context(a.commitment, a.lease), FromHex(a.revealed.seed),
                             Context(b.commitment, b.lease), FromHex(b.revealed.seed));
    ContextInjective(a.commitment, a.lease, b.commitment, b.lease);
    FromHexInjective(a.revealed.seed, b.revealed.seed);
  }
}
