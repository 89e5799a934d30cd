/** Freshness of messages and the authenticator that combines signature, freshness and replay checks. */
module Identity {
  import opened Prelude
  import opened ByteStrings
  import opened Protocol
  import opened Wire
  import opened WireTheorems
  import opened Replay
  import opened ReplayRuns

  datatype AuthError =
    | BadSignature
    | NotEncodable
    | BlockInvalid
    | PolicyInvalid
    | Expired
    | NotActive
    | TooFarInFuture
    | Stale
    | ReplayRefused(reason: ReplayError)

  /** Whether a hotkey, a payload and a signature belong together. */
  type Verifier = (string, Bytes, Bytes) -> bool

  datatype Policy = Policy(maxAgeBlocks: int, maxFutureBlocks: int)

  predicate ValidPolicy(p: Policy) {
    1 <= p.maxAgeBlocks <= 100000 && 0 <= p.maxFutureBlocks <= 1000
  }

  /** `signer_hotkey` */
  function SignerHotkey(m: Message): string {
    match m
    case JobManifest(_, _, _, _, _, _, _, _, hotkey, _, _, _) => hotkey
    case CapabilityClaim(hotkey, _, _, _, _, _, _, _, _, _, _, _, _) => hotkey
    case WorkLease(_, _, hotkey, _, _, _, _, _, _, _) => hotkey
    case ExecutionEvidence(_, hotkey, _, _, _, _, _, _, _, _, _, _, _, _) => hotkey
    case ValidationReceipt(_, hotkey, _, _, _, _, _, _, _) => hotkey
  }

  /** `verify_message_signature` */
  function SignatureProblem(verify: Verifier, m: Message): Option<AuthError> {
    if !IsSignature(m.signature) then Some(BadSignature)
    else if SigningBytes(m).None? then Some(NotEncodable)
    else if !verify(SignerHotkey(m), SigningBytes(m).value, FromHex(m.signature)) then Some(BadSignature)
    else None
  }

  const SIGNATURE_BYTES := 64

  /** `sign_message`; `None` is a signer for another role, or one that returns a signature of the wrong size. */
  function SignMessage(m: Message, hotkey: string, sign: Bytes -> Bytes): Option<Message> {
    if hotkey != SignerHotkey(m) then None
    else
      var payload :- SigningBytes(m);
      var signature := sign(payload);
      if |signature| != SIGNATURE_BYTES then None else Some(Resign(m, Hex(signature)))
  }

  /** A new signature leaves the signer, the signed bytes and the content as they are. */
  lemma ResignedSameSigner(m: Message, signature: string)
    ensures var signed := Resign(m, signature);
            && signed.signature == signature && SameContent(m, signed)
            && SignerHotkey(signed) == SignerHotkey(m) && SigningBytes(signed) == SigningBytes(m)
  {
    ResignedUnsigned(m, signature);
  }

  /** A message signed by the key that its verifier recognizes has the same content and passes the check. */
  lemma SignedMessageVerifies(verify: Verifier, m: Message, hotkey: string, sign: Bytes -> Bytes)
    requires Constructible(m) && SignMessage(m, hotkey, sign).Some?
    requires forall payload :: IsBytes(sign(payload)) && verify(hotkey, payload, sign(payload))
    ensures var signed := SignMessage(m, hotkey, sign).value;
            Constructible(signed) && SameContent(m, signed) && SignatureProblem(verify, signed).None?
  {
    var signature := sign(SigningBytes(m).value);
    HexRoundTrip(signature);
    ResignedIsConstructible(m, Hex(signature));
    ResignedSameSigner(m, Hex(signature));
  }

  /** No signature is valid for both messages, each under its own hotkey, unless they sign the same bytes. */
  ghost predicate NoSharedSignature(verify: Verifier, a: Message, b: Message)
    requires Constructible(a) && Constructible(b)
  {
    ConstructibleIsSignable(a);
    ConstructibleIsSignable(b);
    var p, q := SigningBytes(a).value, SigningBytes(b).value;
    forall s :: verify(SignerHotkey(a), p, s) && verify(SignerHotkey(b), q, s) ==> p == q
  }

  /** Unless such a signature exists, two messages that pass verification with the same signature are equal. */
  lemma SignatureBindsContent(verify: Verifier, a: Message, b: Message)
    requires Constructible(a) && Constructible(b) && a.signature == b.signature
    requires NoSharedSignature(verify, a, b)
    requires SignatureProblem(verify, a).None? && SignatureProblem(verify, b).None?
    ensures a == b
  {
    SigningBytesExact(a, b);
    assert verify(SignerHotkey(a), SigningBytes(a).value, FromHex(a.signature));
  }

  /** The block that claims, evidence and receipts say they were made at. */
  function ObservedBlock(m: Message): int
    requires m.CapabilityClaim? || m.ExecutionEvidence? || m.ValidationReceipt?
  {
    if m.CapabilityClaim? then m.observedAtBlock
    else if m.ExecutionEvidence? then m.submittedAtBlock
    else m.validatedAtBlock
  }

  /** `validate_freshness`: the block at which replay state may expire. */
  function ValidateFreshness(m: Message, block: int, p: Policy): Result<int, AuthError> {
    if !InRange(block) then Err(BlockInvalid)
    else if !ValidPolicy(p) then Err(PolicyInvalid)
    else if m.JobManifest? then
      if block > m.expiresAtBlock then Err(Expired) else Ok(m.expiresAtBlock)
    else if m.WorkLease? then
      if block + p.maxFutureBlocks < m.startBlock then Err(NotActive)
      else if block > m.deadlineBlock then Err(Expired)
      else Ok(m.deadlineBlock)
    else
      var observed := ObservedBlock(m);
      if observed > block + p.maxFutureBlocks then Err(TooFarInFuture)
      else if block - observed > p.maxAgeBlocks then Err(Stale)
      else Ok(observed + p.maxAgeBlocks)
  }

  /**
   The returned expiry is exactly the last block at which the message is still fresh: from the
   current block on, the message is fresh up to the expiry and never after it. A policy that allows
   at most the same age, however it changes the future allowance, never extends that.
   */
  lemma FreshUntilExpiry(m: Message, block: int, p: Policy, later: int)
    requires ValidateFreshness(m, block, p).Ok? && block <= later && InRange(later)
    ensures ValidateFreshness(m, later, p).Ok? <==> later <= ValidateFreshness(m, block, p).value
    ensures block <= ValidateFreshness(m, block, p).value
    ensures forall q: Policy :: q.maxAgeBlocks <= p.maxAgeBlocks && ValidateFreshness(m, later, q).Ok? ==>
              later <= ValidateFreshness(m, later, q).value <= ValidateFreshness(m, block, p).value
  {
  }

  // ---------- the window of freshness ----------

  /** The first block at which a message is fresh. */
  function Opening(m: Message, p: Policy): int {
    if m.JobManifest? then 0
    else if m.WorkLease? then m.startBlock - p.maxFutureBlocks
    else ObservedBlock(m) - p.maxFutureBlocks
  }

  /** The last block at which it is. */
  function Closing(m: Message, p: Policy): int {
    if m.JobManifest? then m.expiresAtBlock
    else if m.WorkLease? then m.deadlineBlock
    else ObservedBlock(m) + p.maxAgeBlocks
  }

  predicate InWindow(m: Message, block: int, p: Policy) {
    && 0 <= block <= MAX_INT63 && 1 <= p.maxAgeBlocks <= 100000 && 0 <= p.maxFutureBlocks <= 1000
    && Opening(m, p) <= block <= Closing(m, p)
  }

  /**
   A message is fresh exactly inside its window, and the returned expiry is the end of the window; outside
   of it the error says on which side.
   */
  lemma FreshnessExact(m: Message, block: int, p: Policy)
    ensures ValidateFreshness(m, block, p).Ok? <==> InWindow(m, block, p)
    ensures InWindow(m, block, p) ==> ValidateFreshness(m, block, p) == Ok(Closing(m, p))
    ensures InRange(block) && ValidPolicy(p) && block < Opening(m, p) ==>
              ValidateFreshness(m, block, p) == Err(if m.WorkLease? then NotActive else TooFarInFuture)
    ensures InRange(block) && ValidPolicy(p) && Opening(m, p) <= block && Closing(m, p) < block ==>
              ValidateFreshness(m, block, p) == Err(if m.JobManifest? || m.WorkLease? then Expired else Stale)
    ensures !InRange(block) ==> ValidateFreshness(m, block, p) == Err(BlockInvalid)
    ensures InRange(block) && !ValidPolicy(p) ==> ValidateFreshness(m, block, p) == Err(PolicyInvalid)
  {
  }

  /** Publishers sign manifests, miners claims and evidence, validators leases and receipts. */
  predicate IsSigner(m: Message, hotkey: string) {
    && (m.JobManifest? ==> hotkey == m.publisherHotkey)
    && (m.CapabilityClaim? ==> hotkey == m.claimMiner)
    && (m.ExecutionEvidence? ==> hotkey == m.evidenceMiner)
    && (m.WorkLease? ==> hotkey == m.leaseValidator)
    && (m.ValidationReceipt? ==> hotkey == m.receiptValidator)
  }

  /** The verifier accepts the message's signature of its domain-separated unsigned text under its signer's key. */
  ghost predicate IsSignedBySigner(verify: Verifier, m: Message) {
    && IsSignature(m.signature)
    && exists hotkey :: IsSigner(m, hotkey) && verify(hotkey, SIGNATURE_DOMAIN + UnsignedText(m), FromHex(m.signature))
  }

  /** That is all that a constructed message is checked for. */
  lemma SignatureExact(verify: Verifier, m: Message)
    requires Constructible(m)
    ensures SignatureProblem(verify, m).None? <==> IsSignedBySigner(verify, m)
  {
    ConstructibleIsSigned(m);
    ConstructibleIsSignable(m);
    assert IsSigner(m, SignerHotkey(m));
    assert forall hotkey :: IsSigner(m, hotkey) ==> hotkey == SignerHotkey(m);
  }

  /** Every constructed message is fresh at some block; a lease is fresh at its start and at its deadline. */
  lemma WindowOpens(m: Message, p: Policy)
    requires Constructible(m) && ValidPolicy(p)
    ensures exists block :: InWindow(m, block, p)
    ensures m.WorkLease? ==> InWindow(m, m.startBlock, p) && InWindow(m, m.deadlineBlock, p)
  {
    ConstructibleIsFixpoint(m);
    assert ValidFields(m);
    var block := if m.JobManifest? then m.expiresAtBlock else if m.WorkLease? then m.startBlock else ObservedBlock(m);
    assert InWindow(m, block, p);
  }

  /** The replay token of a message. */
  function ReplayToken(h: Sha256, m: Message): Option<string> {
    if m.CapabilityClaim? then Some(m.claimNonce)
    else if m.WorkLease? then Some(m.leaseNonce)
    else ContentDigest(h, m)
  }

  function ReplayScope(m: Message): string {
    MessageType(m) + ":" + SignerHotkey(m)
  }

  /** What the authenticator asks of the replay cache once signature and freshness are in order. */
  function CheckMessage(h: Sha256, verify: Verifier, p: Policy, m: Message, block: int)
    : Result<Request, AuthError>
  {
    if SignatureProblem(verify, m).Some? then Err(SignatureProblem(verify, m).value)
    else
      match ValidateFreshness(m, block, p)
      case Err(e) => Err(e)
      case Ok(expiry) =>
        match ReplayToken(h, m)
        case None => Err(NotEncodable)
        case Some(token) =>
          var key := CacheKey(h, ReplayScope(m), token);
          if m.ExecutionEvidence? then
            var sequenceScope := m.evidenceMiner + ":" + m.leaseDigest;
            Ok(Request(key, block, expiry, Some(CacheKey(h, "sequence", sequenceScope)), m.sequence))
          else Ok(Request(key, block, expiry, None, 0))
  }

  class MessageAuthenticator {
    const verify: Verifier
    const replayCache: ReplayCache
    const policy: Policy

    constructor (verify: Verifier, replayCache: ReplayCache, policy: Policy)
      ensures this.verify == verify && this.replayCache == replayCache && this.policy == policy
    {
      this.verify, this.replayCache, this.policy := verify, replayCache, policy;
    }

    method Authenticate(m: Message, currentBlock: int, diskOk: bool) returns (error: Option<AuthError>)
      modifies replayCache, replayCache.file
      ensures var cache := replayCache;
              match CheckMessage(cache.h, verify, policy, m, currentBlock)
              case Err(e) => error == Some(e) && cache.Contents() == old(cache.Contents())
              case Ok(r) =>
                var (refusal, next) := AcceptToken(cache.limits, cache.file != null, diskOk,
                                                   old(cache.Contents()), r);
                && cache.Contents() == next
                && error == (if refusal.Some? then Some(ReplayRefused(refusal.value)) else None)
    {
      var problem := SignatureProblem(verify, m);
      if problem.Some? {
        return problem;
      }
      var freshness := ValidateFreshness(m, currentBlock, policy);
      if freshness.Err? {
        return Some(freshness.error);
      }
      var token := ReplayToken(replayCache.h, m);
      if token.None? {
        return Some(NotEncodable);
      }
      var refusal: Option<ReplayError>;
      if m.ExecutionEvidence? {
        refusal := replayCache.AcceptOnceWithSequence(
          ReplayScope(m), token.value, currentBlock, freshness.value,
          m.evidenceMiner + ":" + m.leaseDigest, m.sequence, diskOk);
      } else {
        refusal := replayCache.AcceptOnce(
          ReplayScope(m), token.value, currentBlock, freshness.value, diskOk);
      }
      return if refusal.Some? then Some(ReplayRefused(refusal.value)) else None;
    }
  }

  // ---------- whole runs ----------

  datatype Event =
    | Present(message: Message, block: int, policy: Policy, diskOk: bool)
    | Reboot

  /** The replay operation that an event leads to; `Idle` when the message is refused before. */
  function OperationOf(h: Sha256, verify: Verifier, e: Event): Operation {
    match e
    case Reboot => Reopen
    case Present(m, block, policy, diskOk) =>
      match CheckMessage(h, verify, policy, m, block)
      case Ok(r) => Token(r, diskOk)
      case Err(_) => Idle
  }

  function Operations(h: Sha256, verify: Verifier, events: seq<Event>): (ops: seq<Operation>)
    ensures |ops| == |events|
    ensures forall i :: 0 <= i < |ops| ==> ops[i] == OperationOf(h, verify, events[i])
  {
    seq(|events|, i requires 0 <= i < |events| => OperationOf(h, verify, events[i]))
  }

  /** `authenticate` returned without an error for event `i`. */
  ghost predicate Authenticated(c: Setup, h: Sha256, verify: Verifier, st: State, events: seq<Event>, i: nat)
    requires i < |events|
  {
    && events[i].Present?
    && CheckMessage(h, verify, events[i].policy, events[i].message, events[i].block).Ok?
    && Accepted(c, Ok(st), Operations(h, verify, events), i)
  }

  /** Blocks never go back; policies may change in any way. */
  ghost predicate BlocksOrderly(events: seq<Event>, from: int) {
    && (forall i :: 0 <= i < |events| && events[i].Present? ==> from <= events[i].block)
    && (forall i, j :: 0 <= i < j < |events| && events[i].Present? && events[j].Present? ==>
          events[i].block <= events[j].block)
  }

  /** The permitted age never grows. */
  ghost predicate AgesShrink(events: seq<Event>) {
    forall i, j :: 0 <= i < j < |events| && events[i].Present? && events[j].Present? ==>
      events[j].policy.maxAgeBlocks <= events[i].policy.maxAgeBlocks
  }

  ghost predicate Orderly(events: seq<Event>, from: int) {
    BlocksOrderly(events, from) && AgesShrink(events)
  }

  /** Without a state file there is nothing to restart from. */
  ghost predicate Restartable(c: Setup, events: seq<Event>) {
    c.hasPath || forall k :: 0 <= k < |events| ==> events[k].Present?
  }

  lemma SameContentSameKey(h: Sha256, a: Message, b: Message)
    requires SameContent(a, b)
    ensures ReplayScope(a) == ReplayScope(b) && ReplayToken(h, a) == ReplayToken(h, b)
  {
    SameContentSameDigest(h, a, b);
  }

  /** Freshness does not look at the signature. */
  lemma SameContentSameFreshness(a: Message, b: Message, block: int, p: Policy)
    requires SameContent(a, b)
    ensures ValidateFreshness(a, block, p) == ValidateFreshness(b, block, p)
  {
  }

  lemma CheckedRequest(h: Sha256, verify: Verifier, p: Policy, m: Message, block: int)
    requires CheckMessage(h, verify, p, m, block).Ok?
    ensures var r := CheckMessage(h, verify, p, m, block).value;
            && r.block == block && ValidKeys(r)
            && ValidateFreshness(m, block, p) == Ok(r.expiry)
            && ReplayToken(h, m).Some?
            && r.entryKey == CacheKey(h, ReplayScope(m), ReplayToken(h, m).value)
  {
  }

  lemma OperationIsOrderly(h: Sha256, verify: Verifier, e: Event)
    ensures var op := OperationOf(h, verify, e);
            && (op.Token? ==> e.Present? && op.request.block == e.block && ValidKeys(op.request))
            && !op.Number?
            && (op.Reopen? <==> e.Reboot?)
  {
    if e.Present? && CheckMessage(h, verify, e.policy, e.message, e.block).Ok? {
      CheckedRequest(h, verify, e.policy, e.message, e.block);
    }
  }

  lemma EventsGiveOperations(c: Setup, h: Sha256, verify: Verifier, events: seq<Event>, from: int)
    ensures var ops := Operations(h, verify, events);
            && KeysValid(ops) && (Restartable(c, events) ==> Durable(c, ops))
            && (BlocksOrderly(events, from) ==> Monotonic(ops, from))
  {
    var ops := Operations(h, verify, events);
    forall i | 0 <= i < |ops|
      ensures ops[i].Token? ==> events[i].Present? && ops[i].request.block == events[i].block
                                && ValidKeys(ops[i].request)
      ensures !ops[i].Number? && (ops[i].Reopen? <==> events[i].Reboot?)
    {
      OperationIsOrderly(h, verify, events[i]);
    }
  }

  /** The expiry of a message whose freshness does not depend on the policy. */
  lemma FixedExpiry(m: Message, block: int, p: Policy, later: int, q: Policy)
    requires m.JobManifest? || m.WorkLease?
    requires ValidateFreshness(m, block, p).Ok? && ValidateFreshness(m, later, q).Ok?
    ensures later <= ValidateFreshness(m, block, p).value
  {
  }

  lemma AgedExpiry(m: Message, block: int, p: Policy, later: int, q: Policy)
    requires m.CapabilityClaim? || m.ExecutionEvidence? || m.ValidationReceipt?
    requires ValidateFreshness(m, block, p).Ok? && ValidateFreshness(m, later, q).Ok?
    ensures ValidateFreshness(m, block, p).value == ObservedBlock(m) + p.maxAgeBlocks
    ensures later <= ObservedBlock(m) + q.maxAgeBlocks
  {
  }

  /**
   When the same content is accepted twice although blocks do not go back, whatever the policies are: it
   is not a manifest and not a lease, the permitted age has grown in between, and the second block lies
   beyond the age that the first policy permitted. This covers second signatures, failed writes and
   restarts from the state file.
   */
  lemma RepeatIsLate(c: Setup, h: Sha256, verify: Verifier, st: State, seen: Snapshot,
                               events: seq<Event>, from: int, i: nat, j: nat)
    requires Faithful(c, st, seen, from) && BlocksOrderly(events, from) && Restartable(c, events)
    requires i < j < |events|
    requires Authenticated(c, h, verify, st, events, i) && Authenticated(c, h, verify, st, events, j)
    requires SameContent(events[i].message, events[j].message)
    ensures !events[i].message.JobManifest? && !events[i].message.WorkLease?
    ensures ObservedBlock(events[i].message) + events[i].policy.maxAgeBlocks < events[j].block
    ensures events[i].policy.maxAgeBlocks < events[j].policy.maxAgeBlocks
  {
    var ops, a, b := Operations(h, verify, events), events[i], events[j];
    EventsGiveOperations(c, h, verify, events, from);
    CheckedRequest(h, verify, a.policy, a.message, a.block);
    CheckedRequest(h, verify, b.policy, b.message, b.block);
    SameContentSameKey(h, a.message, b.message);
    TokenIsNotReplayed(c, st, seen, ops, from, i, j);
    SameContentSameFreshness(a.message, b.message, b.block, b.policy);
    if a.message.JobManifest? || a.message.WorkLease? {
      FixedExpiry(a.message, a.block, a.policy, b.block, b.policy);
    } else {
      AgedExpiry(a.message, a.block, a.policy, b.block, b.policy);
    }
  }

  /**
   No message content is ever accepted twice: not after its token was purged, not under a second
   signature, not after failed writes and not after restarts from the state file.
   */
  lemma NoContentAcceptedTwice(c: Setup, h: Sha256, verify: Verifier, st: State, seen: Snapshot,
                               events: seq<Event>, from: int, i: nat, j: nat)
    requires Faithful(c, st, seen, from) && Orderly(events, from) && Restartable(c, events)
    requires i < j < |events|
    requires Authenticated(c, h, verify, st, events, i) && Authenticated(c, h, verify, st, events, j)
    ensures !SameContent(events[i].message, events[j].message)
  {
    if SameContent(events[i].message, events[j].message) {
      RepeatIsLate(c, h, verify, st, seen, events, from, i, j);
    }
  }

  /** An empty cache without a state file, or with one that was never written, is a good start. */
  lemma FreshCacheIsFaithful(c: Setup, from: int)
    requires ValidLimits(c.limits)
    ensures Faithful(c, State(EMPTY, None), EMPTY, from)
  {
    assert Purge(EMPTY.entries, from) == map[];
  }

  /** So is a cache opened on a state file that an earlier process wrote. */
  lemma ReopenedCacheIsFaithful(c: Setup, saved: Snapshot, from: int)
    requires c.hasPath && WellFormed(saved, c.limits) && |StateText(saved)| <= MAX_STATE_BYTES
    ensures var reopened := Restart(c.limits, true, Some(StateText(saved)));
            && reopened == Ok(State(saved, Some(StateText(saved))))
            && Faithful(c, reopened.value, saved, from)
  {
    LoadUndoesPersist(saved, c.limits);
  }

  /**
   The order of blocks is needed: if the block number may go back, a purged token is accepted a
   second time, with the same expiry and at the same block.
   */
  lemma BackwardClockReplays(limits: Limits, key: string, other: string)
    requires ValidLimits(limits) && limits.maxEntries >= 2
    requires IsHex256(key) && IsHex256(other) && key != other
    ensures var c := Setup(limits, false);
            var first, later := Request(Some(key), 10, 10, None, 0), Request(Some(other), 11, 20, None, 0);
            var ops := [Token(first, true), Token(later, true), Token(first, true)];
            Accepted(c, Ok(State(EMPTY, None)), ops, 0) && Accepted(c, Ok(State(EMPTY, None)), ops, 2)
  {
    var c := Setup(limits, false);
    var start := Ok(State(EMPTY, None));
    var first, later := Request(Some(key), 10, 10, None, 0), Request(Some(other), 11, 20, None, 0);
    var ops := [Token(first, true), Token(later, true), Token(first, true)];
    var one := State(Snapshot(map[key := 10], map[]), None);
    var two := State(Snapshot(map[other := 20], map[]), None);
    assert Purge(map[], 10) == map[] && Purge(map[key := 10], 11) == map[];
    assert Purge(map[other := 20], 10) == map[other := 20];
    assert ops[..0] == [];
    assert ops[..1] == [Token(first, true)] && ops[..1][..0] == [];
    assert ops[..2] == [Token(first, true), Token(later, true)] && ops[..2][..1] == ops[..1];
    assert After(c, start, ops[..1]) == Ok(one);
    assert After(c, start, ops[..2]) == Ok(two);
  }
}
