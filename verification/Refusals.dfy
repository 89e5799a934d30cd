/** Over whole runs of the authenticator: when a message is accepted, and when it is refused as already accepted. */
module Refusals {
  import opened Prelude
  import opened ByteStrings
  import opened Protocol
  import opened Wire
  import opened WireTheorems
  import opened Replay
  import opened ReplayRuns
  import opened ReplaySequences
  import opened ReplayKeys
  import opened Identity

  // ---------- scopes ----------

  predicate HasNoMarks(s: string) {
    forall i :: 0 <= i < |s| ==> s[i] != '\0' && s[i] != ':'
  }

  lemma TypeHasNoMarks(m: Message)
    ensures '\0' !in MessageType(m) && ':' !in MessageType(m)
  {
    assert HasNoMarks(MessageType(m)) by {
      match m
      case JobManifest(_, _, _, _, _, _, _, _, _, _, _, _) => assert HasNoMarks("job_manifest");
      case CapabilityClaim(_, _, _, _, _, _, _, _, _, _, _, _, _) => assert HasNoMarks("capability_claim");
      case WorkLease(_, _, _, _, _, _, _, _, _, _) => assert HasNoMarks("work_lease");
      case ExecutionEvidence(_, _, _, _, _, _, _, _, _, _, _, _, _, _) => assert HasNoMarks("execution_evidence");
      case ValidationReceipt(_, _, _, _, _, _, _, _, _) => assert HasNoMarks("validation_receipt");
    }
  }

  lemma HotkeyHasNoMarks(s: string)
    requires IsHotkey(s)
    ensures '\0' !in s && ':' !in s
  {
    assert !IsAlphanumeric('\0') && !IsAlphanumeric(':');
  }

  lemma SignerIsHotkey(m: Message)
    requires Constructible(m)
    ensures IsHotkey(SignerHotkey(m))
  {
    ConstructibleIsFixpoint(m);
  }

  /** Replay scopes hold no NUL and determine message type and signer. */
  lemma ScopeExact(a: Message, b: Message)
    requires Constructible(a) && Constructible(b)
    ensures '\0' !in ReplayScope(a)
    ensures ReplayScope(a) == ReplayScope(b) <==> MessageType(a) == MessageType(b) && SignerHotkey(a) == SignerHotkey(b)
  {
    SignerIsHotkey(a);
    HotkeyHasNoMarks(SignerHotkey(a));
    TypeHasNoMarks(a);
    TypeHasNoMarks(b);
    if ReplayScope(a) == ReplayScope(b) {
      assert ReplayScope(a) == MessageType(a) + [':'] + SignerHotkey(a);
      assert ReplayScope(b) == MessageType(b) + [':'] + SignerHotkey(b);
      SplitAtMark(':', MessageType(a), SignerHotkey(a), MessageType(b), SignerHotkey(b));
    }
  }

  // ---------- the same ticket ----------

  /**
   What must not be accepted twice: the same nonce of the same miner or validator for claims and
   leases, the same content for the other messages.
   */
  ghost predicate SameTicket(a: Message, b: Message) {
    if a.CapabilityClaim? then b.CapabilityClaim? && a.claimMiner == b.claimMiner && a.claimNonce == b.claimNonce
    else if a.WorkLease? then b.WorkLease? && a.leaseValidator == b.leaseValidator && a.leaseNonce == b.leaseNonce
    else SameContent(a, b)
  }

  function ContentInput(m: Message): Bytes {
    CONTENT_DOMAIN + UnsignedText(m)
  }

  lemma TypesExact(a: Message, b: Message)
    ensures MessageType(a) == MessageType(b) <==>
              && (a.JobManifest? <==> b.JobManifest?) && (a.CapabilityClaim? <==> b.CapabilityClaim?)
              && (a.WorkLease? <==> b.WorkLease?) && (a.ExecutionEvidence? <==> b.ExecutionEvidence?)
  {
    assert MessageType(a)[0] == (if a.JobManifest? then 'j' else if a.CapabilityClaim? then 'c'
                                 else if a.WorkLease? then 'w' else if a.ExecutionEvidence? then 'e' else 'v');
    assert MessageType(b)[0] == (if b.JobManifest? then 'j' else if b.CapabilityClaim? then 'c'
                                 else if b.WorkLease? then 'w' else if b.ExecutionEvidence? then 'e' else 'v');
  }

  lemma SameContentSameSigner(a: Message, b: Message)
    requires SameContent(a, b)
    ensures MessageType(a) == MessageType(b) && SignerHotkey(a) == SignerHotkey(b)
  {
  }

  /** Without a collision, scope and token are the same exactly when the ticket is. */
  lemma NameExact(h: Sha256, a: Message, b: Message)
    requires Constructible(a) && Constructible(b)
    requires CollisionFree(h, {ContentInput(a), ContentInput(b)})
    ensures ReplayToken(h, a).Some? && ReplayToken(h, b).Some?
    ensures (ReplayScope(a) == ReplayScope(b) && ReplayToken(h, a) == ReplayToken(h, b)) <==> SameTicket(a, b)
  {
    ScopeExact(a, b);
    TypesExact(a, b);
    ContentDigestExact(h, a, b);
    if SameContent(a, b) {
      SameContentSameSigner(a, b);
    }
  }

  // ---------- whole runs ----------

  /** The scope and token that an event asks for. */
  function NameOf(h: Sha256, e: Event): Name {
    if e.Present? && ReplayToken(h, e.message).Some? then
      Name(ReplayScope(e.message), ReplayToken(h, e.message).value)
    else Name("", "")
  }

  function NamesOf(h: Sha256, events: seq<Event>): (names: seq<Name>)
    ensures |names| == |events| && forall i :: 0 <= i < |names| ==> names[i] == NameOf(h, events[i])
  {
    seq(|events|, i requires 0 <= i < |events| => NameOf(h, events[i]))
  }

  /** The contents that the run hashes. */
  function ContentInputs(events: seq<Event>): set<Bytes> {
    set i | 0 <= i < |events| && events[i].Present? :: ContentInput(events[i].message)
  }

  ghost predicate AllConstructible(events: seq<Event>) {
    forall i :: 0 <= i < |events| && events[i].Present? ==> Constructible(events[i].message)
  }

  lemma EventsAreNamed(h: Sha256, verify: Verifier, events: seq<Event>)
    requires AllConstructible(events)
    ensures Named(h, NamesOf(h, events), Operations(h, verify, events))
  {
    var ops, names := Operations(h, verify, events), NamesOf(h, events);
    forall i | 0 <= i < |ops| && ops[i].Token?
      ensures '\0' !in names[i].scope && ops[i].request.entryKey == CacheKey(h, names[i].scope, names[i].token)
    {
      var e := events[i];
      OperationIsOrderly(h, verify, e);
      ScopeExact(e.message, e.message);
      CheckedRequest(h, verify, e.policy, e.message, e.block);
    }
  }

  /** Event `i` accepted the ticket of a message with an expiry not before the block. */
  ghost predicate TicketActiveFrom(c: Setup, events: seq<Event>, ops: seq<Operation>, i: nat, m: Message, block: int)
    requires |events| == |ops| && i < |ops|
  {
    && ops[i].Token? && Accepted(c, Ok(State(EMPTY, None)), ops, i)
    && events[i].Present? && SameTicket(events[i].message, m) && block <= ops[i].request.expiry
  }

  lemma NameOfMessage(h: Sha256, e: Event)
    requires e.Present? && Constructible(e.message)
    ensures ReplayToken(h, e.message).Some?
    ensures NameOf(h, e) == Name(ReplayScope(e.message), ReplayToken(h, e.message).value)
  {
    ConstructibleIsSignable(e.message);
  }

  lemma EventNamesExact(h: Sha256, a: Event, b: Event)
    requires a.Present? && b.Present? && Constructible(a.message) && Constructible(b.message)
    requires CollisionFree(h, {ContentInput(a.message), ContentInput(b.message)})
    ensures NameOf(h, a) == NameOf(h, b) <==> SameTicket(a.message, b.message)
  {
    NameOfMessage(h, a);
    NameOfMessage(h, b);
    NameExact(h, a.message, b.message);
  }

  lemma SameNameSameTicket(h: Sha256, events: seq<Event>, i: nat, n: nat)
    requires AllConstructible(events) && CollisionFree(h, ContentInputs(events))
    requires i < |events| && n < |events| && events[i].Present? && events[n].Present?
    ensures NamesOf(h, events)[i] == NamesOf(h, events)[n] <==> SameTicket(events[i].message, events[n].message)
  {
    HashedInRun(h, events, i, n);
    EventNamesExact(h, events[i], events[n]);
  }

  lemma HashedInRun(h: Sha256, events: seq<Event>, i: nat, n: nat)
    requires CollisionFree(h, ContentInputs(events))
    requires i < |events| && n < |events| && events[i].Present? && events[n].Present?
    ensures CollisionFree(h, {ContentInput(events[i].message), ContentInput(events[n].message)})
  {
    assert ContentInput(events[i].message) in ContentInputs(events);
    assert ContentInput(events[n].message) in ContentInputs(events);
  }

  lemma ScopesFit(m: Message)
    requires Constructible(m)
    ensures 1 <= |ReplayScope(m)| <= MAX_KEY_PART
    ensures m.ExecutionEvidence? ==> |m.evidenceMiner + ":" + m.leaseDigest| <= MAX_KEY_PART
  {
    ConstructibleIsFixpoint(m);
    SignerIsHotkey(m);
    assert |MessageType(m)| <= 18;
  }

  lemma TokensFit(h: Sha256, m: Message)
    requires Constructible(m)
    ensures ReplayToken(h, m).Some? && 1 <= |ReplayToken(h, m).value| <= MAX_KEY_PART
  {
    ConstructibleIsFixpoint(m);
    ConstructibleIsSignable(m);
  }

  /** The keys of a constructed message always exist, and its sequence number is in range. */
  lemma MessageHasKeys(h: Sha256, verify: Verifier, p: Policy, m: Message, block: int)
    requires Constructible(m) && CheckMessage(h, verify, p, m, block).Ok?
    ensures var r := CheckMessage(h, verify, p, m, block).value;
            && r.entryKey.Some? && r.sequenceKey != Some(None)
            && InRange(r.sequence) && InRange(r.block) && r.block <= r.expiry
  {
    ScopesFit(m);
    TokensFit(h, m);
    if m.ExecutionEvidence? {
      SequenceInRange(m);
    }
    FreshUntilExpiry(m, block, p, block);
  }

  lemma OperationHasKeys(h: Sha256, verify: Verifier, e: Event)
    requires e.Present? && Constructible(e.message) && OperationOf(h, verify, e).Token?
    ensures var r := OperationOf(h, verify, e).request;
            && r.entryKey.Some? && r.sequenceKey != Some(None)
            && InRange(r.sequence) && InRange(r.block) && r.block <= r.expiry
  {
    MessageHasKeys(h, verify, e.policy, e.message, e.block);
  }

  lemma SequenceInRange(m: Message)
    requires Constructible(m) && m.ExecutionEvidence?
    ensures InRange(m.sequence)
  {
    ConstructibleIsFixpoint(m);
  }

  /**
   Unless the hash collides on the keys and contents of the run, a message that passes signature and
   freshness is refused as already accepted exactly when its ticket was accepted before and has not
   expired since: the same nonce of the same signer, or the same content. Only an expiry beyond the
   range of block numbers is refused for another reason.
   */
  lemma MessageRefusedExactlyWhenAccepted(c: Setup, h: Sha256, verify: Verifier, events: seq<Event>, from: int, n: nat)
    requires ValidLimits(c.limits) && AllConstructible(events)
    requires BlocksOrderly(events, from) && Restartable(c, events)
    requires CollisionFree(h, KeyInputs(NamesOf(h, events))) && CollisionFree(h, ContentInputs(events))
    requires n < |events| && Operations(h, verify, events)[n].Token?
    requires InRange(Operations(h, verify, events)[n].request.expiry)
    requires After(c, Ok(State(EMPTY, None)), Operations(h, verify, events)[..n]).Ok?
    ensures events[n].Present?
    ensures Step(c, After(c, Ok(State(EMPTY, None)), Operations(h, verify, events)[..n]),
                 Operations(h, verify, events)[n]).0
            == Some(AlreadyAccepted)
       <==> exists i :: 0 <= i < n && TicketActiveFrom(c, events, Operations(h, verify, events), i,
                                                       events[n].message, events[n].block)
  {
    var ops, names, e := Operations(h, verify, events), NamesOf(h, events), events[n];
    OperationIsOrderly(h, verify, e);
    EventsGiveOperations(c, h, verify, events, from);
    EventsAreNamed(h, verify, events);
    OperationHasKeys(h, verify, e);
    RefusedExactlyWhenAccepted(c, h, names, ops, from, n);
    TicketsAreNames(c, h, verify, events, n);
  }

  lemma TicketsAreNames(c: Setup, h: Sha256, verify: Verifier, events: seq<Event>, n: nat)
    requires AllConstructible(events) && CollisionFree(h, ContentInputs(events))
    requires n < |events| && events[n].Present?
    ensures (exists i :: 0 <= i < n && TicketActiveFrom(c, events, Operations(h, verify, events), i,
                                                        events[n].message, events[n].block))
       <==> exists i :: 0 <= i < n && NameActiveFrom(c, Ok(State(EMPTY, None)), NamesOf(h, events),
                                                     Operations(h, verify, events), i,
                                                     NamesOf(h, events)[n], events[n].block)
  {
    var ops, names, e := Operations(h, verify, events), NamesOf(h, events), events[n];
    forall i | 0 <= i < n
      ensures TicketActiveFrom(c, events, ops, i, e.message, e.block)
         <==> NameActiveFrom(c, Ok(State(EMPTY, None)), names, ops, i, names[n], e.block)
    {
      TicketIsName(c, h, verify, events, i, n);
    }
  }

  lemma TicketIsName(c: Setup, h: Sha256, verify: Verifier, events: seq<Event>, i: nat, n: nat)
    requires AllConstructible(events) && CollisionFree(h, ContentInputs(events))
    requires i < n < |events| && events[n].Present?
    ensures TicketActiveFrom(c, events, Operations(h, verify, events), i, events[n].message, events[n].block)
       <==> NameActiveFrom(c, Ok(State(EMPTY, None)), NamesOf(h, events), Operations(h, verify, events), i,
                           NamesOf(h, events)[n], events[n].block)
  {
    OperationIsOrderly(h, verify, events[i]);
    if events[i].Present? {
      SameNameSameTicket(h, events, i, n);
    }
  }

  // ---------- evidence ----------

  lemma EvidenceSequence(h: Sha256, verify: Verifier, e: Event)
    requires e.Present? && e.message.ExecutionEvidence?
    requires CheckMessage(h, verify, e.policy, e.message, e.block).Ok?
    ensures var op := OperationOf(h, verify, e);
            var key := CacheKey(h, "sequence", e.message.evidenceMiner + ":" + e.message.leaseDigest);
            && op.Token? && op.request.sequenceKey == Some(key) && op.request.sequence == e.message.sequence
            && SequenceOf(op) == (if key.Some? then Some((key.value, e.message.sequence)) else None)
  {
  }

  /** Evidence with the same content asks for the same sequence number under the same key. */
  lemma SameEvidenceSameSequence(c: Setup, h: Sha256, verify: Verifier, st: State, a: Event, b: Event)
    requires a.Present? && b.Present? && a.message.ExecutionEvidence? && SameContent(a.message, b.message)
    requires CheckMessage(h, verify, a.policy, a.message, a.block).Ok?
    requires CheckMessage(h, verify, b.policy, b.message, b.block).Ok?
    requires Step(c, Ok(st), OperationOf(h, verify, a)).0.None?
    ensures SequenceOf(OperationOf(h, verify, a)).Some?
    ensures SequenceOf(OperationOf(h, verify, a)) == SequenceOf(OperationOf(h, verify, b))
  {
    EvidenceSequence(h, verify, a);
    EvidenceSequence(h, verify, b);
    var op := OperationOf(h, verify, a);
    AcceptanceExact(c.limits, c.hasPath, op.tokenDisk, st, op.request);
  }

  /**
   Evidence needs neither a fixed age nor an order of blocks: its sequence number stops a second
   acceptance of the same content in every run.
   */
  lemma EvidenceAcceptedOnce(c: Setup, h: Sha256, verify: Verifier, st: State, events: seq<Event>, i: nat, j: nat)
    requires SameSequences(c, st) && Restartable(c, events) && i < j < |events|
    requires Authenticated(c, h, verify, st, events, i) && Authenticated(c, h, verify, st, events, j)
    requires events[i].message.ExecutionEvidence?
    ensures !SameContent(events[i].message, events[j].message)
  {
    if SameContent(events[i].message, events[j].message) {
      var ops := Operations(h, verify, events);
      EventsGiveOperations(c, h, verify, events, 0);
      SameEvidenceSameSequence(c, h, verify, After(c, Ok(st), ops[..i]).value, events[i], events[j]);
      SequencesIncrease(c, st, ops, i, j);
    }
  }

  /**
   Whatever the policies are, only a claim or a receipt can be accepted twice while blocks do not go back,
   and only beyond the age that the first policy permitted and within a larger one.
   */
  lemma RepeatedContentIsLate(c: Setup, h: Sha256, verify: Verifier, st: State, seen: Snapshot,
                              events: seq<Event>, from: int, i: nat, j: nat)
    requires Faithful(c, st, seen, from) && BlocksOrderly(events, from) && Restartable(c, events)
    requires i < j < |events|
    requires Authenticated(c, h, verify, st, events, i) && Authenticated(c, h, verify, st, events, j)
    requires SameContent(events[i].message, events[j].message)
    ensures events[i].message.CapabilityClaim? || events[i].message.ValidationReceipt?
    ensures ObservedBlock(events[i].message) + events[i].policy.maxAgeBlocks < events[j].block
    ensures events[i].policy.maxAgeBlocks < events[j].policy.maxAgeBlocks
  {
    RepeatIsLate(c, h, verify, st, seen, events, from, i, j);
    if events[i].message.ExecutionEvidence? {
      FaithfulHasSameSequences(c, st, seen, from);
      EvidenceAcceptedOnce(c, h, verify, st, events, i, j);
    }
  }
}
