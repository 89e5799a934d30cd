/** Exactly when the authenticator accepts a message, over whole runs and in terms of messages. */
module Acceptances {
  import opened Prelude
  import opened ByteStrings
  import opened Protocol
  import opened Wire
  import opened WireTheorems
  import opened Replay
  import opened ReplayRuns
  import opened ReplaySequences
  import opened ReplayKeys
  import opened Identity
  import opened Refusals

  // ---------- the numbers of evidence ----------

  /** Evidence of the same miner for the same lease shares its sequence numbers. */
  predicate SameSeries(a: Message, b: Message) {
    && a.ExecutionEvidence? && b.ExecutionEvidence?
    && a.evidenceMiner == b.evidenceMiner && a.leaseDigest == b.leaseDigest
  }

  function SequenceScope(m: Message): string
    requires m.ExecutionEvidence?
  {
    m.evidenceMiner + ":" + m.leaseDigest
  }

  function SequenceKey(h: Sha256, m: Message): Option<string>
    requires m.ExecutionEvidence?
  {
    CacheKey(h, "sequence", SequenceScope(m))
  }

  function SequenceInput(m: Message): Bytes
    requires m.ExecutionEvidence?
  {
    KeyInput("sequence", SequenceScope(m))
  }

  lemma SequenceScopeExact(a: Message, b: Message)
    requires Constructible(a) && a.ExecutionEvidence? && Constructible(b) && b.ExecutionEvidence?
    ensures SequenceScope(a) == SequenceScope(b) <==> SameSeries(a, b)
  {
    SignerIsHotkey(a);
    SignerIsHotkey(b);
    HotkeyHasNoMarks(a.evidenceMiner);
    HotkeyHasNoMarks(b.evidenceMiner);
    if SequenceScope(a) == SequenceScope(b) {
      assert SequenceScope(a) == a.evidenceMiner + [':'] + a.leaseDigest;
      assert SequenceScope(b) == b.evidenceMiner + [':'] + b.leaseDigest;
      SplitAtMark(':', a.evidenceMiner, a.leaseDigest, b.evidenceMiner, b.leaseDigest);
    }
  }

  /** Without a collision, evidence has the same sequence key exactly when miner and lease are the same. */
  lemma SequenceKeyExact(h: Sha256, a: Message, b: Message)
    requires Constructible(a) && a.ExecutionEvidence? && Constructible(b) && b.ExecutionEvidence?
    requires CollisionFree(h, {SequenceInput(a), SequenceInput(b)})
    ensures SequenceKey(h, a).Some? && SequenceKey(h, b).Some?
    ensures SequenceKey(h, a) == SequenceKey(h, b) <==> SameSeries(a, b)
  {
    ScopesFit(a);
    ScopesFit(b);
    SequenceScopeExact(a, b);
    NoNulIn("sequence");
    CacheKeyExact(h, "sequence", SequenceScope(a), "sequence", SequenceScope(b));
  }

  lemma NoNulIn(s: string)
    requires forall i :: 0 <= i < |s| ==> s[i] != '\0'
    ensures '\0' !in s
  {
  }

  function SequenceInputs(events: seq<Event>): set<Bytes> {
    set i | 0 <= i < |events| && events[i].Present? && events[i].message.ExecutionEvidence? ::
      SequenceInput(events[i].message)
  }

  lemma OperationSequence(h: Sha256, verify: Verifier, e: Event)
    ensures var op := OperationOf(h, verify, e);
            SequenceOf(op) == if op.Token? && e.message.ExecutionEvidence? && SequenceKey(h, e.message).Some? then
                                Some((SequenceKey(h, e.message).value, e.message.sequence))
                              else None
  {
    if e.Present? && CheckMessage(h, verify, e.policy, e.message, e.block).Ok? {
      if e.message.ExecutionEvidence? {
        EvidenceSequence(h, verify, e);
      } else {
        PlainRequest(h, verify, e.policy, e.message, e.block);
      }
    }
  }

  lemma PlainRequest(h: Sha256, verify: Verifier, p: Policy, m: Message, block: int)
    requires CheckMessage(h, verify, p, m, block).Ok? && !m.ExecutionEvidence?
    ensures CheckMessage(h, verify, p, m, block).value.sequenceKey == None
  {
  }

  /** Event `i` accepted evidence of the same miner for the same lease. */
  ghost predicate SeriesAccepted(c: Setup, events: seq<Event>, ops: seq<Operation>, i: nat, m: Message)
    requires |events| == |ops| && i < |ops|
  {
    && ops[i].Token? && Accepted(c, Ok(State(EMPTY, None)), ops, i)
    && events[i].Present? && SameSeries(events[i].message, m)
  }

  lemma SeriesHashedInRun(h: Sha256, events: seq<Event>, i: nat, n: nat)
    requires CollisionFree(h, SequenceInputs(events)) && i < |events| && n < |events|
    requires events[i].Present? && events[i].message.ExecutionEvidence?
    requires events[n].Present? && events[n].message.ExecutionEvidence?
    ensures CollisionFree(h, {SequenceInput(events[i].message), SequenceInput(events[n].message)})
  {
    assert SequenceInput(events[i].message) in SequenceInputs(events);
    assert SequenceInput(events[n].message) in SequenceInputs(events);
  }

  lemma SeriesHasKey(c: Setup, h: Sha256, verify: Verifier, events: seq<Event>, i: nat, n: nat)
    requires AllConstructible(events) && CollisionFree(h, SequenceInputs(events))
    requires i < |events| && n < |events| && events[n].Present? && events[n].message.ExecutionEvidence?
    ensures var ops, m := Operations(h, verify, events), events[n].message;
            && SequenceKey(h, m).Some?
            && (SeriesAccepted(c, events, ops, i, m) <==>
                  Accepted(c, Ok(State(EMPTY, None)), ops, i) && ops[i].Token? && events[i].Present?
                  && events[i].message.ExecutionEvidence?
                  && SequenceOf(ops[i]) == Some((SequenceKey(h, m).value, events[i].message.sequence)))
  {
    var m := events[n].message;
    SeriesHashedInRun(h, events, n, n);
    SequenceKeyExact(h, m, m);
    if events[i].Present? && events[i].message.ExecutionEvidence? {
      SeriesHashedInRun(h, events, i, n);
      SequenceKeyExact(h, events[i].message, m);
      OperationSequence(h, verify, events[i]);
    }
  }

  /** Larger than every number that was accepted for the same miner and lease, and there was one or there is room. */
  ghost predicate NumberFits(c: Setup, events: seq<Event>, ops: seq<Operation>, n: nat, room: bool)
    requires |events| == |ops| && n < |events| && events[n].Present? && events[n].message.ExecutionEvidence?
  {
    var m := events[n].message;
    && (forall i :: 0 <= i < n && SeriesAccepted(c, events, ops, i, m) ==> events[i].message.sequence < m.sequence)
    && (room || exists i :: 0 <= i < n && SeriesAccepted(c, events, ops, i, m))
  }

  lemma NumberFitsSeries(c: Setup, h: Sha256, verify: Verifier, events: seq<Event>, n: nat, room: bool)
    requires ValidLimits(c.limits) && AllConstructible(events) && Restartable(c, events)
    requires CollisionFree(h, SequenceInputs(events))
    requires n < |events| && events[n].Present? && events[n].message.ExecutionEvidence?
    requires After(c, Ok(State(EMPTY, None)), Operations(h, verify, events)[..n]).Ok?
    ensures SequenceKey(h, events[n].message).Some?
    ensures var held := After(c, Ok(State(EMPTY, None)), Operations(h, verify, events)[..n]).value.memory.sequences;
            var key, number := SequenceKey(h, events[n].message).value, events[n].message.sequence;
            (if key in held then held[key] < number else room)
            <==> NumberFits(c, events, Operations(h, verify, events), n, room)
  {
    var ops, m, w := Operations(h, verify, events), events[n].message, Ok(State(EMPTY, None));
    SeriesHasKey(c, h, verify, events, n, n);
    var key := SequenceKey(h, m).value;
    EventsGiveOperations(c, h, verify, events, 0);
    NumberFitsExact(c, ops, n, key, m.sequence, room);
    forall i | 0 <= i < n
      ensures SeriesAccepted(c, events, ops, i, m) <==> NumberAccepted(c, w, ops, i, key)
      ensures SeriesAccepted(c, events, ops, i, m) ==> SequenceOf(ops[i]).value.1 == events[i].message.sequence
    {
      SeriesHasKey(c, h, verify, events, i, n);
      OperationSequence(h, verify, events[i]);
    }
  }

  // ---------- acceptance ----------

  /** A message reaches the replay cache exactly when its signature and its freshness are in order. */
  lemma ChecksExact(h: Sha256, verify: Verifier, e: Event)
    requires e.Present? && Constructible(e.message)
    ensures OperationOf(h, verify, e).Token? <==>
              IsSignedBySigner(verify, e.message) && InWindow(e.message, e.block, e.policy)
    ensures OperationOf(h, verify, e).Token? ==>
              OperationOf(h, verify, e).request.expiry == Closing(e.message, e.policy)
  {
    TokensFit(h, e.message);
    SignatureExact(verify, e.message);
    FreshnessExact(e.message, e.block, e.policy);
  }

  lemma RequestOfMessage(h: Sha256, verify: Verifier, e: Event)
    requires e.Present? && Constructible(e.message) && OperationOf(h, verify, e).Token?
    ensures var r := OperationOf(h, verify, e).request;
            && r.entryKey.Some? && r.block == e.block && InRange(r.block) && r.block <= r.expiry && InRange(r.sequence)
            && OperationOf(h, verify, e).tokenDisk == e.diskOk
            && r.sequenceKey == (if e.message.ExecutionEvidence? then Some(SequenceKey(h, e.message)) else None)
            && (e.message.ExecutionEvidence? ==> SequenceKey(h, e.message).Some? && r.sequence == e.message.sequence)
  {
    CheckedRequest(h, verify, e.policy, e.message, e.block);
    MessageHasKeys(h, verify, e.policy, e.message, e.block);
    if e.message.ExecutionEvidence? {
      EvidenceSequence(h, verify, e);
    } else {
      PlainRequest(h, verify, e.policy, e.message, e.block);
    }
  }

  /** The cache accepts a request with valid keys exactly when nothing of this stands in its way. */
  lemma RequestAcceptedExact(c: Setup, st: State, r: Request, diskOk: bool)
    requires r.entryKey.Some? && r.sequenceKey != Some(None)
    requires InRange(r.block) && r.block <= r.expiry && InRange(r.sequence)
    ensures var (error, next) := AcceptToken(c.limits, c.hasPath, diskOk, st, r);
            error.None? <==>
              && InRange(r.expiry) && error != Some(AlreadyAccepted)
              && |Purge(st.memory.entries, r.block)| < c.limits.maxEntries
              && (r.sequenceKey.Some? ==>
                    var key, held := r.sequenceKey.value.value, st.memory.sequences;
                    if key in held then held[key] < r.sequence else |held| < c.limits.maxSequences)
              && (c.hasPath ==> diskOk)
  {
  }

  /** What the cache asks of a message that reaches it. */
  lemma CacheAcceptsExact(c: Setup, h: Sha256, verify: Verifier, events: seq<Event>, from: int, n: nat, now: State)
    requires ValidLimits(c.limits) && AllConstructible(events)
    requires BlocksOrderly(events, from) && Restartable(c, events)
    requires CollisionFree(h, KeyInputs(NamesOf(h, events))) && CollisionFree(h, ContentInputs(events))
    requires CollisionFree(h, SequenceInputs(events))
    requires n < |events| && events[n].Present? && Operations(h, verify, events)[n].Token?
    requires After(c, Ok(State(EMPTY, None)), Operations(h, verify, events)[..n]) == Ok(now)
    ensures var ops, e := Operations(h, verify, events), events[n];
            AcceptToken(c.limits, c.hasPath, e.diskOk, now, ops[n].request).0.None? <==>
              && InRange(ops[n].request.expiry)
              && (forall i :: 0 <= i < n ==> !TicketActiveFrom(c, events, ops, i, e.message, e.block))
              && |Purge(now.memory.entries, e.block)| < c.limits.maxEntries
              && (e.message.ExecutionEvidence? ==>
                    NumberFits(c, events, ops, n, |now.memory.sequences| < c.limits.maxSequences))
              && (c.hasPath ==> e.diskOk)
  {
    var ops, e := Operations(h, verify, events), events[n];
    RequestOfMessage(h, verify, e);
    RequestAcceptedExact(c, now, ops[n].request, e.diskOk);
    if InRange(ops[n].request.expiry) {
      MessageRefusedExactlyWhenAccepted(c, h, verify, events, from, n);
    }
    if e.message.ExecutionEvidence? {
      NumberFitsSeries(c, h, verify, events, n, |now.memory.sequences| < c.limits.maxSequences);
    }
  }

  /**
   Unless the hash collides on the keys and contents of the run, the authenticator of a new cache accepts a
   message exactly when its signature is valid, it is fresh, its ticket is not active, there is room for
   it, evidence has a larger number than all evidence accepted before it for the same miner and lease,
   and the state can be written. Policies may change from call to call.
   */
  lemma MessageAcceptedExact(c: Setup, h: Sha256, verify: Verifier, events: seq<Event>, from: int, n: nat)
    requires ValidLimits(c.limits) && AllConstructible(events)
    requires BlocksOrderly(events, from) && Restartable(c, events)
    requires CollisionFree(h, KeyInputs(NamesOf(h, events))) && CollisionFree(h, ContentInputs(events))
    requires CollisionFree(h, SequenceInputs(events))
    requires n < |events| && events[n].Present?
    requires After(c, Ok(State(EMPTY, None)), Operations(h, verify, events)[..n]).Ok?
    ensures var ops, e := Operations(h, verify, events), events[n];
            var memory := After(c, Ok(State(EMPTY, None)), ops[..n]).value.memory;
            Authenticated(c, h, verify, State(EMPTY, None), events, n) <==>
              && IsSignedBySigner(verify, e.message)
              && InWindow(e.message, e.block, e.policy) && Closing(e.message, e.policy) <= MAX_INT63
              && (forall i :: 0 <= i < n ==> !TicketActiveFrom(c, events, ops, i, e.message, e.block))
              && |Purge(memory.entries, e.block)| < c.limits.maxEntries
              && (e.message.ExecutionEvidence? ==>
                    NumberFits(c, events, ops, n, |memory.sequences| < c.limits.maxSequences))
              && (c.hasPath ==> e.diskOk)
  {
    var ops, e := Operations(h, verify, events), events[n];
    ChecksExact(h, verify, e);
    if ops[n].Token? {
      RequestOfMessage(h, verify, e);
      CacheAcceptsExact(c, h, verify, events, from, n, After(c, Ok(State(EMPTY, None)), ops[..n]).value);
    }
  }
}
