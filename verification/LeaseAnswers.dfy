/**
 What the lease store answers, operation by operation: exactly when an offer, a transition or a claim is
 stored, and what memory and file hold then.
 */
module LeaseAnswers {
  import opened Prelude
  import opened ByteStrings
  import opened Protocol
  import opened Lease
  import opened LeaseRuns

  /** Answer and state after one operation of a store. */
  function Performed(maxRecords: int, hasPath: bool, st: State, op: Operation, fate: Fate)
    : (Result<Reply, LeaseError>, State)
  {
    Carry(FileCodec(maxRecords), hasPath, st, Decide(maxRecords, st.memory, op), fate)
  }

  // ---------- storing one record ----------

  function With(records: Records, r: LeaseRecord): Records {
    records[r.leaseDigest := r]
  }

  /** The revision can still grow, the new text fits the file and the write completes. */
  predicate CanStore(hasPath: bool, st: State, r: LeaseRecord, fate: Fate) {
    r.revision <= MAX_INT63 && (hasPath ==> |StateText(With(st.memory, r))| <= MAX_STATE_BYTES && fate.Written?)
  }

  /** Memory and file hold the new record, and nothing else has changed. */
  predicate IsStored(hasPath: bool, st: State, r: LeaseRecord, next: State) {
    && next.memory == With(st.memory, r)
    && next.disk == if hasPath then Some(StateText(With(st.memory, r))) else st.disk
  }

  /** Memory is as before; the file as well, unless the write replaced it before it failed. */
  predicate NotStored(hasPath: bool, st: State, r: LeaseRecord, fate: Fate, next: State) {
    && next.memory == st.memory
    && next.disk == (if hasPath && fate == Raised(true) && r.revision <= MAX_INT63
                        && |StateText(With(st.memory, r))| <= MAX_STATE_BYTES
                     then Some(StateText(With(st.memory, r))) else st.disk)
  }

  /** Why a record that should be stored was not. */
  function StoreError(hasPath: bool, st: State, r: LeaseRecord): LeaseError {
    if r.revision > MAX_INT63 then InvalidArgument
    else if hasPath && |StateText(With(st.memory, r))| > MAX_STATE_BYTES then TooLarge
    else WriteFailed
  }

  /** The operation stores the record and replies, or fails to store it. */
  predicate Stores(hasPath: bool, st: State, r: LeaseRecord, reply: Reply, fate: Fate,
                   answer: Result<Reply, LeaseError>, next: State)
  {
    if CanStore(hasPath, st, r, fate) then answer == Ok(reply) && IsStored(hasPath, st, r, next)
    else answer == Err(StoreError(hasPath, st, r)) && NotStored(hasPath, st, r, fate, next)
  }

  lemma PutStores(maxRecords: int, hasPath: bool, st: State, r: LeaseRecord, reply: Reply, fate: Fate)
    requires r.revision <= MAX_INT63
    ensures var (answer, next) := Carry(FileCodec(maxRecords), hasPath, st, Put(r, reply), fate);
            Stores(hasPath, st, r, reply, fate, answer, next)
  {
  }

  /** A decision to store a record that is valid apart from its revision. */
  lemma PutIfValidStores(maxRecords: int, hasPath: bool, st: State, r: LeaseRecord, reply: Reply, fate: Fate)
    requires ValidRecord(r.(revision := 0)) && r.revision >= 0
    ensures var (answer, next) := Carry(FileCodec(maxRecords), hasPath, st, PutIfValid(r, reply), fate);
            Stores(hasPath, st, r, reply, fate, answer, next)
  {
    if r.revision <= MAX_INT63 {
      assert ValidRecord(r);
      PutStores(maxRecords, hasPath, st, r, reply, fate);
    }
  }

  // ---------- claims ----------

  /** The record of a granted execution claim. */
  function Started(r: LeaseRecord): LeaseRecord {
    r.(state := Running, revision := r.revision + 1, executionStarted := true)
  }

  /** The record of a granted evidence claim. */
  function Submitted(r: LeaseRecord): LeaseRecord {
    r.(revision := r.revision + 1, evidenceSubmitted := true)
  }

  lemma KnownRecord(records: Records, maxRecords: int, lease: string)
    requires WellFormed(records, maxRecords) && lease in records
    ensures ValidRecord(records[lease]) && records[lease].leaseDigest == lease && IsDigest(lease)
  {
  }

  lemma StartedIsValid(r: LeaseRecord)
    requires ValidRecord(r) && r.state.Ready?
    ensures ValidRecord(Started(r).(revision := 0))
  {
  }

  lemma SubmittedIsValid(r: LeaseRecord)
    requires ValidRecord(r) && r.state.Completed?
    ensures ValidRecord(Submitted(r).(revision := 0))
  {
  }

  lemma ExpiredIsValid(r: LeaseRecord)
    requires ValidRecord(r) && !Terminal(r.state)
    ensures ValidRecord(ExpiredAfter(r).(revision := 0))
  {
  }

  /** An execution claim of a known lease, case by case. */
  lemma ExecutionClaimAnswer(maxRecords: int, hasPath: bool, st: State, lease: string, block: int, fate: Fate)
    requires WellFormed(st.memory, maxRecords) && lease in st.memory
    ensures var (answer, next) := Performed(maxRecords, hasPath, st, ClaimExecution(lease, block), fate);
            var r := st.memory[lease];
            && (!InRange(block) ==> answer == Err(InvalidArgument) && next == st)
            && (0 <= block <= r.deadlineBlock && r.executionStarted ==> answer == Ok(Claim(false)) && next == st)
            && (0 <= block <= r.deadlineBlock && !r.executionStarted && !r.state.Ready? ==>
                  answer == Err(NotReady) && next == st)
            && (0 <= block <= r.deadlineBlock && !r.executionStarted && r.state.Ready? ==>
                  Stores(hasPath, st, Started(r), Claim(true), fate, answer, next))
            && (InRange(block) && block > r.deadlineBlock && Terminal(r.state) ==>
                  answer == Ok(Claim(false)) && next == st)
            && (InRange(block) && block > r.deadlineBlock && !Terminal(r.state) ==>
                  Stores(hasPath, st, ExpiredAfter(r), Claim(false), fate, answer, next))
  {
    var r := st.memory[lease];
    KnownRecord(st.memory, maxRecords, lease);
    if r.state.Ready? {
      StartedIsValid(r);
      PutIfValidStores(maxRecords, hasPath, st, Started(r), Claim(true), fate);
    }
    if !Terminal(r.state) {
      ExpiredIsValid(r);
      PutIfValidStores(maxRecords, hasPath, st, ExpiredAfter(r), Claim(false), fate);
      LateClaimExpires(r);
    }
  }

  lemma LateClaimExpires(r: LeaseRecord)
    requires !Terminal(r.state)
    ensures LateClaim(r) == PutIfValid(ExpiredAfter(r), Claim(false))
  {
  }

  /** An evidence claim of a known lease, case by case. */
  lemma EvidenceClaimAnswer(maxRecords: int, hasPath: bool, st: State, lease: string, fate: Fate)
    requires WellFormed(st.memory, maxRecords) && lease in st.memory
    ensures var (answer, next) := Performed(maxRecords, hasPath, st, ClaimEvidence(lease), fate);
            var r := st.memory[lease];
            && (!r.state.Completed? ==> answer == Err(NotComplete) && next == st)
            && (r.state.Completed? && r.evidenceSubmitted ==> answer == Ok(Claim(false)) && next == st)
            && (r.state.Completed? && !r.evidenceSubmitted ==>
                  Stores(hasPath, st, Submitted(r), Claim(true), fate, answer, next))
  {
    var r := st.memory[lease];
    KnownRecord(st.memory, maxRecords, lease);
    if r.state.Completed? {
      SubmittedIsValid(r);
      PutIfValidStores(maxRecords, hasPath, st, Submitted(r), Claim(true), fate);
    }
  }

  /**
   After any run of a store with a file, an execution claim of a known lease is granted exactly when the
   block is not after the deadline, the lease is ready and unclaimed, its revision can grow, the new text
   fits the file and the write completes. Memory and file then hold the started record.
   */
  lemma ExecutionClaimExact(maxRecords: int, events: seq<Event>, lease: string, block: int, fate: Fate)
    requires 1 <= maxRecords <= 1000000
    requires After(StoreRules(maxRecords), events).Ok? && lease in After(StoreRules(maxRecords), events).value.memory
    ensures var s := StoreRules(maxRecords);
            var w, claim := After(s, events), Call(ClaimExecution(lease, block), fate);
            var r := w.value.memory[lease];
            var records := w.value.memory[lease := Started(r)];
            && (Answer(s, w, claim) == Some(Claim(true)) <==>
                  && 0 <= block <= r.deadlineBlock && r.state.Ready? && !r.executionStarted
                  && r.revision < MAX_INT63 && |StateText(records)| <= MAX_STATE_BYTES && fate.Written?)
            && (Answer(s, w, claim) == Some(Claim(true)) ==>
                  Next(s, w, claim) == Ok(State(records, Some(StateText(records)))))
  {
    var s := StoreRules(maxRecords);
    StoreIsSound(maxRecords);
    RunKeepsInv(s, events);
    var st := After(s, events).value;
    KnownRecord(st.memory, maxRecords, lease);
    ExecutionClaimAnswer(maxRecords, true, st, lease, block, fate);
  }

  /**
   And an evidence claim exactly when the lease is completed and unsubmitted, its revision can grow, the
   new text fits the file and the write completes.
   */
  lemma EvidenceClaimExact(maxRecords: int, events: seq<Event>, lease: string, fate: Fate)
    requires 1 <= maxRecords <= 1000000
    requires After(StoreRules(maxRecords), events).Ok? && lease in After(StoreRules(maxRecords), events).value.memory
    ensures var s := StoreRules(maxRecords);
            var w, claim := After(s, events), Call(ClaimEvidence(lease), fate);
            var r := w.value.memory[lease];
            var records := w.value.memory[lease := Submitted(r)];
            && (Answer(s, w, claim) == Some(Claim(true)) <==>
                  && r.state.Completed? && !r.evidenceSubmitted
                  && r.revision < MAX_INT63 && |StateText(records)| <= MAX_STATE_BYTES && fate.Written?)
            && (Answer(s, w, claim) == Some(Claim(true)) ==>
                  Next(s, w, claim) == Ok(State(records, Some(StateText(records)))))
  {
    var s := StoreRules(maxRecords);
    StoreIsSound(maxRecords);
    RunKeepsInv(s, events);
    var st := After(s, events).value;
    KnownRecord(st.memory, maxRecords, lease);
    EvidenceClaimAnswer(maxRecords, true, st, lease, fate);
  }

  // ---------- transitions ----------

  /** How far a lease has come on the way from its offer to its execution. */
  function Progress(s: LeaseState): int {
    match s
    case Offered => 0
    case Accepted => 1
    case Fetching => 2
    case Ready => 3
    case Running => 4
    case Checkpointing => 5
    case Completed => 6
    case _ => 7
  }

  /**
   A live lease may always end without completion. Before its execution it moves one step at a time;
   running and checkpointing alternate, and either may complete. A ready lease starts by a claim only.
   */
  predicate MayMove(a: LeaseState, b: LeaseState) {
    && Progress(a) < 6
    && (|| Progress(b) == 7
        || (Progress(a) < 3 && Progress(b) == Progress(a) + 1)
        || (4 <= Progress(a) && 4 <= Progress(b) && b != a))
  }

  lemma MayMoveExact(a: LeaseState, b: LeaseState)
    ensures MayMove(a, b) <==> b in Transitions(a) && !(a.Ready? && b.Running?)
  {
  }

  /** A code is given exactly for a failure, and has the right form. */
  predicate FitsTarget(target: LeaseState, code: Option<string>) {
    if target.Failed? then code.Some? && IsCode(code.value) else code.None?
  }

  function MovedTo(r: LeaseRecord, target: LeaseState, code: Option<string>): LeaseRecord {
    r.(state := target, revision := r.revision + 1, failureCode := code)
  }

  lemma MovedIsValid(r: LeaseRecord, target: LeaseState, code: Option<string>)
    requires ValidRecord(r) && MayMove(r.state, target) && FitsTarget(target, code)
    ensures ValidRecord(MovedTo(r, target, code).(revision := 0))
  {
  }

  /** A transition of a known lease, case by case: before the deadline, or when the lease has ended. */
  lemma TransitionAnswer(maxRecords: int, hasPath: bool, st: State, lease: string, target: LeaseState, block: int,
                         code: Option<string>, fate: Fate)
    requires WellFormed(st.memory, maxRecords) && lease in st.memory && InRange(block)
    requires block <= st.memory[lease].deadlineBlock || Terminal(st.memory[lease].state)
    ensures var (answer, next) := Performed(maxRecords, hasPath, st, Transition(lease, target, block, code), fate);
            var r := st.memory[lease];
            && (target == r.state && (target.Failed? ==> code == r.failureCode) ==>
                  answer == Ok(Lease(r)) && next == st)
            && (target == r.state && target.Failed? && code != r.failureCode ==>
                  answer == Err(DifferentReason) && next == st)
            && (target != r.state && MayMove(r.state, target) && FitsTarget(target, code) ==>
                  Stores(hasPath, st, MovedTo(r, target, code), Lease(MovedTo(r, target, code)), fate, answer, next))
            && (target != r.state && !(MayMove(r.state, target) && FitsTarget(target, code)) ==>
                  answer.Err? && next == st)
  {
    var r := st.memory[lease];
    KnownRecord(st.memory, maxRecords, lease);
    MayMoveExact(r.state, target);
    if MayMove(r.state, target) && FitsTarget(target, code) {
      MovedIsValid(r, target, code);
      PutIfValidStores(maxRecords, hasPath, st, MovedTo(r, target, code), Lease(MovedTo(r, target, code)), fate);
    }
  }

  /** Which error refuses a transition. */
  lemma TransitionRefused(maxRecords: int, hasPath: bool, st: State, lease: string, target: LeaseState, block: int,
                          code: Option<string>, fate: Fate)
    requires WellFormed(st.memory, maxRecords) && lease in st.memory && InRange(block)
    requires block <= st.memory[lease].deadlineBlock || Terminal(st.memory[lease].state)
    requires target != st.memory[lease].state
    ensures var (answer, next) := Performed(maxRecords, hasPath, st, Transition(lease, target, block, code), fate);
            var r := st.memory[lease];
            && (r.state.Ready? && target.Running? ==> answer == Err(MustBeClaimed))
            && (!MayMove(r.state, target) && !(r.state.Ready? && target.Running?) ==> answer == Err(OutOfOrder))
            && (MayMove(r.state, target) && target.Failed? && code.None? ==> answer == Err(MissingCode))
            && (MayMove(r.state, target) && target.Failed? && code.Some? && !IsCode(code.value) ==>
                  answer == Err(InvalidArgument))
            && (MayMove(r.state, target) && !target.Failed? && code.Some? ==> answer == Err(UnexpectedCode))
  {
    KnownRecord(st.memory, maxRecords, lease);
    MayMoveExact(st.memory[lease].state, target);
  }

  /** After the deadline every transition of a live lease expires it, whatever was asked for. */
  lemma LateTransitionAnswer(maxRecords: int, hasPath: bool, st: State, lease: string, target: LeaseState, block: int,
                             code: Option<string>, fate: Fate)
    requires WellFormed(st.memory, maxRecords) && lease in st.memory && InRange(block)
    requires block > st.memory[lease].deadlineBlock && !Terminal(st.memory[lease].state)
    ensures var (answer, next) := Performed(maxRecords, hasPath, st, Transition(lease, target, block, code), fate);
            var r := st.memory[lease];
            Stores(hasPath, st, ExpiredAfter(r), Lease(ExpiredAfter(r)), fate, answer, next)
  {
    var r := st.memory[lease];
    KnownRecord(st.memory, maxRecords, lease);
    ExpiredIsValid(r);
    PutIfValidStores(maxRecords, hasPath, st, ExpiredAfter(r), Lease(ExpiredAfter(r)), fate);
  }

  // ---------- offers and unknown leases ----------

  predicate ValidOffer(lease: string, manifest: string, deadline: int) {
    IsDigest(lease) && IsDigest(manifest) && 0 <= deadline <= MAX_INT63
  }

  function NewRecord(lease: string, manifest: string, deadline: int): LeaseRecord {
    LeaseRecord(lease, manifest, deadline, Offered, 0, false, false, None)
  }

  /**
   An offer of a known lease returns its record when manifest and deadline are the same, and is refused
   otherwise; a new lease is stored as offered while there is room.
   */
  lemma OfferAnswer(maxRecords: int, hasPath: bool, st: State, lease: string, manifest: string, deadline: int,
                    fate: Fate)
    requires WellFormed(st.memory, maxRecords)
    ensures var (answer, next) := Performed(maxRecords, hasPath, st, Offer(lease, manifest, deadline), fate);
            && (!ValidOffer(lease, manifest, deadline) ==> answer == Err(InvalidArgument) && next == st)
            && (ValidOffer(lease, manifest, deadline) && lease in st.memory ==>
                  var r := st.memory[lease];
                  && next == st
                  && answer == if r.manifestDigest == manifest && r.deadlineBlock == deadline then Ok(Lease(r))
                               else Err(Conflict))
            && (ValidOffer(lease, manifest, deadline) && lease !in st.memory && |st.memory| >= maxRecords ==>
                  answer == Err(Full) && next == st)
            && (ValidOffer(lease, manifest, deadline) && lease !in st.memory && |st.memory| < maxRecords ==>
                  var r := NewRecord(lease, manifest, deadline);
                  Stores(hasPath, st, r, Lease(r), fate, answer, next))
  {
    if ValidOffer(lease, manifest, deadline) && lease !in st.memory && |st.memory| < maxRecords {
      var r := NewRecord(lease, manifest, deadline);
      PutStores(maxRecords, hasPath, st, r, Lease(r), fate);
    }
  }

  /** A block out of range is refused before anything is looked at. */
  lemma BadBlockAnswer(maxRecords: int, hasPath: bool, st: State, op: Operation, fate: Fate)
    requires (op.Transition? || op.ClaimExecution?) && !(0 <= op.block <= MAX_INT63)
    ensures Performed(maxRecords, hasPath, st, op, fate) == (Err(InvalidArgument), st)
  {
  }

  /** Only an offer does anything for a lease that is not known. */
  lemma UnknownLeaseAnswer(maxRecords: int, hasPath: bool, st: State, op: Operation, fate: Fate)
    requires !op.Offer? && op.lease !in st.memory
    ensures var (answer, next) := Performed(maxRecords, hasPath, st, op, fate);
            && next == st
            && answer == Err(if (op.Transition? || op.ClaimExecution?) && !(0 <= op.block <= MAX_INT63) then
                               InvalidArgument
                             else if IsDigest(op.lease) then Unavailable else InvalidArgument)
  {
  }
}
