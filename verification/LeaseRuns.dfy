/**
 What the lease store guarantees over whole runs: offers, transitions and claims, writes that fail
 with or without having replaced the file, and restarts from the file. A crash between the write and
 the update of memory is a landed failure followed by a restart.
 */
module LeaseRuns {
  import opened Prelude
  import opened ByteStrings
  import opened Lease

  // ---------- one step of one lease ----------

  predicate Fresh(r: LeaseRecord) {
    r.state.Offered? && r.revision == 0 && !r.executionStarted && !r.evidenceSubmitted
  }

  predicate SameLease(a: LeaseRecord, b: LeaseRecord) {
    a.leaseDigest == b.leaseDigest && a.manifestDigest == b.manifestDigest && a.deadlineBlock == b.deadlineBlock
  }

  /** A transition along the table, which never starts an execution. */
  predicate IsTransition(a: LeaseRecord, b: LeaseRecord) {
    && b.state in Transitions(a.state) && !(a.state.Ready? && b.state.Running?)
    && b.executionStarted == a.executionStarted && b.evidenceSubmitted == a.evidenceSubmitted
  }

  predicate IsExecutionClaim(a: LeaseRecord, b: LeaseRecord) {
    && a.state.Ready? && b.state.Running? && !a.executionStarted && b.executionStarted
    && b.evidenceSubmitted == a.evidenceSubmitted
  }

  predicate IsEvidenceClaim(a: LeaseRecord, b: LeaseRecord) {
    && a.state.Completed? && b.state.Completed? && !a.evidenceSubmitted && b.evidenceSubmitted
    && b.executionStarted == a.executionStarted
  }

  predicate LegalStep(a: LeaseRecord, b: LeaseRecord) {
    && SameLease(a, b) && b.revision == a.revision + 1
    && (IsTransition(a, b) || IsExecutionClaim(a, b) || IsEvidenceClaim(a, b))
  }

  /** What may be stored next: a first offer of a new lease, or one legal step of a known one. */
  predicate LegalPut(records: Records, maxRecords: int, r: LeaseRecord) {
    && ValidRecord(r)
    && if r.leaseDigest in records then LegalStep(records[r.leaseDigest], r)
       else Fresh(r) && |records| < maxRecords
  }

  // ---------- operations ----------

  datatype Operation =
    | Offer(lease: string, manifest: string, deadline: int)
    | Transition(lease: string, target: LeaseState, block: int, code: Option<string>)
    | ClaimExecution(lease: string, block: int)
    | ClaimEvidence(lease: string)

  function Decide(maxRecords: int, records: Records, op: Operation): Decision {
    match op
    case Offer(lease, manifest, deadline) => OfferDecision(records, maxRecords, lease, manifest, deadline)
    case Transition(lease, target, block, code) => TransitionDecision(records, lease, target, block, code)
    case ClaimExecution(lease, block) => ClaimDecision(records, lease, block)
    case ClaimEvidence(lease) => EvidenceDecision(records, lease)
  }

  datatype ClaimKind = Execution | Evidence

  predicate Claimed(kind: ClaimKind, r: LeaseRecord) {
    if kind.Execution? then r.executionStarted else r.evidenceSubmitted
  }

  predicate IsClaim(kind: ClaimKind, op: Operation) {
    if kind.Execution? then op.ClaimExecution? else op.ClaimEvidence?
  }

  predicate Unclaimed(kind: ClaimKind, records: Records, lease: string) {
    lease in records ==> !Claimed(kind, records[lease])
  }

  /** The operation carries no block, or one after the deadline of its lease. */
  predicate AfterDeadline(records: Records, op: Operation) {
    (op.Transition? || op.ClaimExecution?) && op.lease in records ==> op.block > records[op.lease].deadlineBlock
  }

  /** What each operation may decide. */
  predicate SoundDecision(maxRecords: int, records: Records, op: Operation, d: Decision) {
    match d
    case Refuse(_) => true
    case Keep(reply) => reply != Claim(true)
    case Put(r, reply) =>
      && r.leaseDigest == op.lease && LegalPut(records, maxRecords, r)
      && (reply == Claim(true) ==> SoundGrant(Execution, records, op, r) && SoundGrant(Evidence, records, op, r))
      && (reply != Claim(true) ==> SameMarks(records, r))
      && (AfterDeadline(records, op) && op.lease in records ==>
            (r.state == records[op.lease].state || r.state.Expired?)
            && !(op.ClaimExecution? && reply == Claim(true)))
  }

  /** A granted claim sets its own mark, which was not set, and no other. */
  predicate SoundGrant(kind: ClaimKind, records: Records, op: Operation, r: LeaseRecord) {
    if IsClaim(kind, op) then op.lease in records && Unclaimed(kind, records, op.lease) && Claimed(kind, r)
    else op.lease in records && Claimed(kind, r) == Claimed(kind, records[op.lease])
  }

  predicate SameMarks(records: Records, r: LeaseRecord) {
    if r.leaseDigest in records then
      && r.executionStarted == records[r.leaseDigest].executionStarted
      && r.evidenceSubmitted == records[r.leaseDigest].evidenceSubmitted
    else !r.executionStarted && !r.evidenceSubmitted
  }

  /** Every operation stores at most one legal step of its own lease, and only claims are granted. */
  lemma DecisionIsSound(maxRecords: int, records: Records, op: Operation)
    requires WellFormed(records, maxRecords)
    ensures SoundDecision(maxRecords, records, op, Decide(maxRecords, records, op))
  {
    match op
    case Offer(_, _, _) => OfferIsSound(maxRecords, records, op);
    case Transition(_, _, _, _) => TransitionIsSound(maxRecords, records, op);
    case ClaimExecution(_, _) => ClaimIsSound(maxRecords, records, op);
    case ClaimEvidence(_) => EvidenceIsSound(maxRecords, records, op);
  }

  lemma OfferIsSound(maxRecords: int, records: Records, op: Operation)
    requires WellFormed(records, maxRecords) && op.Offer?
    ensures SoundDecision(maxRecords, records, op,
                          OfferDecision(records, maxRecords, op.lease, op.manifest, op.deadline))
  {
  }

  lemma TransitionIsSound(maxRecords: int, records: Records, op: Operation)
    requires WellFormed(records, maxRecords) && op.Transition?
    ensures SoundDecision(maxRecords, records, op, TransitionDecision(records, op.lease, op.target, op.block, op.code))
  {
  }

  lemma ClaimIsSound(maxRecords: int, records: Records, op: Operation)
    requires WellFormed(records, maxRecords) && op.ClaimExecution?
    ensures SoundDecision(maxRecords, records, op, ClaimDecision(records, op.lease, op.block))
  {
  }

  lemma EvidenceIsSound(maxRecords: int, records: Records, op: Operation)
    requires WellFormed(records, maxRecords) && op.ClaimEvidence?
    ensures SoundDecision(maxRecords, records, op, EvidenceDecision(records, op.lease))
  {
  }

  // ---------- runs ----------

  /** The rules of a store with a path. */
  datatype Rules = Rules(maxRecords: int, decide: (Records, Operation) -> Decision, codec: Codec)

  function StoreRules(maxRecords: int): Rules {
    Rules(maxRecords, (records: Records, op: Operation) => Decide(maxRecords, records, op), FileCodec(maxRecords))
  }

  /** All that the results below use: sound decisions, and a file that is read back as it was written. */
  ghost predicate Sound(s: Rules) {
    && s.maxRecords >= 0
    && (forall records, op :: WellFormed(records, s.maxRecords) ==>
          SoundDecision(s.maxRecords, records, op, s.decide(records, op)))
    && (forall records :: WellFormed(records, s.maxRecords) && |s.codec.save(records)| <= MAX_STATE_BYTES ==>
          s.codec.load(s.codec.save(records)) == Ok(records))
  }

  /** The lease store has these properties, whatever its record limit. */
  lemma StoreIsSound(maxRecords: int)
    requires 1 <= maxRecords <= 1000000
    ensures Sound(StoreRules(maxRecords))
  {
    var s := StoreRules(maxRecords);
    forall records, op | WellFormed(records, maxRecords)
      ensures SoundDecision(maxRecords, records, op, s.decide(records, op))
    {
      DecisionIsSound(maxRecords, records, op);
    }
    forall records | WellFormed(records, maxRecords) && |s.codec.save(records)| <= MAX_STATE_BYTES
      ensures s.codec.load(s.codec.save(records)) == Ok(records)
    {
      LoadUndoesPersist(records, maxRecords);
    }
  }

  datatype Event = Call(op: Operation, fate: Fate) | Reopen

  /** A running store, or the reason why the last restart refused the file. */
  type World = Result<State, LeaseError>

  function Next(s: Rules, w: World, ev: Event): World {
    if w.Err? then w
    else
      match ev
      case Call(op, fate) => Ok(Carry(s.codec, true, w.value, s.decide(w.value.memory, op), fate).1)
      case Reopen => Restart(s.codec, true, w.value.disk)
  }

  /** What the caller gets; `None` for an exception and for a restart. */
  function Answer(s: Rules, w: World, ev: Event): Option<Reply> {
    if w.Err? || ev.Reopen? then None
    else
      match Carry(s.codec, true, w.value, s.decide(w.value.memory, ev.op), ev.fate).0
      case Ok(reply) => Some(reply)
      case Err(_) => None
  }

  const START: World := Ok(State(map[], None))

  function After(s: Rules, events: seq<Event>): World {
    if events == [] then START else Next(s, After(s, events[..|events| - 1]), events[|events| - 1])
  }

  /** The records in the state file. */
  function OnDisk(s: Rules, st: State): Records {
    if st.disk.None? then map[]
    else
      match s.codec.load(st.disk.value)
      case Ok(records) => records
      case Err(_) => map[]
  }

  /** The file holds what memory holds, or is ahead of it by one legal step of one lease. */
  ghost predicate Ahead(memory: Records, maxRecords: int, disk: Records) {
    disk == memory || exists r :: LegalPut(memory, maxRecords, r) && disk == memory[r.leaseDigest := r]
  }

  ghost predicate Inv(s: Rules, st: State) {
    && WellFormed(st.memory, s.maxRecords) && WellFormed(OnDisk(s, st), s.maxRecords)
    && (st.disk.Some? ==> s.codec.load(st.disk.value).Ok?)
    && Ahead(st.memory, s.maxRecords, OnDisk(s, st))
  }

  lemma PutIsWellFormed(maxRecords: int, records: Records, r: LeaseRecord)
    requires WellFormed(records, maxRecords) && LegalPut(records, maxRecords, r)
    ensures WellFormed(records[r.leaseDigest := r], maxRecords)
  {
    var next := records[r.leaseDigest := r];
    assert next.Keys == records.Keys + {r.leaseDigest};
    assert |next| == |next.Keys| && |records| == |records.Keys|;
  }

  /** How a stored decision changes memory and file. */
  lemma PutOutcome(s: Rules, st: State, op: Operation, fate: Fate)
    requires Sound(s) && Inv(s, st) && s.decide(st.memory, op).Put?
    ensures var d, next := s.decide(st.memory, op), Next(s, Ok(st), Call(op, fate)).value;
            var records := st.memory[op.lease := d.record];
            && SoundDecision(s.maxRecords, st.memory, op, d) && WellFormed(records, s.maxRecords)
            && (|| (next == st && Answer(s, Ok(st), Call(op, fate)).None?)
                || (next.memory == records && OnDisk(s, next) == records && fate.Written?)
                || (next.memory == st.memory && OnDisk(s, next) == records && fate == Raised(true)
                    && Answer(s, Ok(st), Call(op, fate)).None?))
            && (next.disk.Some? ==> s.codec.load(next.disk.value).Ok?)
  {
    PutIsWellFormed(s.maxRecords, st.memory, s.decide(st.memory, op).record);
  }

  lemma StepKeepsInv(s: Rules, st: State, ev: Event)
    requires Sound(s) && Inv(s, st)
    ensures Next(s, Ok(st), ev).Ok? && Inv(s, Next(s, Ok(st), ev).value)
  {
    if ev.Call? && s.decide(st.memory, ev.op).Put? {
      PutOutcome(s, st, ev.op, ev.fate);
      var r := s.decide(st.memory, ev.op).record;
      assert LegalPut(st.memory, s.maxRecords, r);
    }
  }

  /** Every restart in every run succeeds, and the file is never more than one step ahead of memory. */
  lemma {:induction false} RunKeepsInv(s: Rules, events: seq<Event>)
    requires Sound(s)
    ensures After(s, events).Ok? && Inv(s, After(s, events).value)
  {
    if events != [] {
      RunKeepsInv(s, events[..|events| - 1]);
      StepKeepsInv(s, After(s, events[..|events| - 1]).value, events[|events| - 1]);
    }
  }

  // ---------- every change is one legal step ----------

  /** One record later: unchanged, or one legal step further. */
  predicate Advances(a: LeaseRecord, b: LeaseRecord) {
    b == a || LegalStep(a, b)
  }

  ghost predicate AdvancesAll(before: Records, after: Records) {
    && (forall k :: k in before ==> k in after && Advances(before[k], after[k]))
    && (forall k :: k in after && k !in before ==> Fresh(after[k]))
  }

  lemma PutAdvances(maxRecords: int, records: Records, r: LeaseRecord)
    requires LegalPut(records, maxRecords, r)
    ensures AdvancesAll( records, records[r.leaseDigest := r])
  {
  }

  /** Any event changes any lease in memory by at most one legal step; leases are never dropped. */
  lemma StepIsLegal(s: Rules, st: State, ev: Event)
    requires Sound(s) && Inv(s, st)
    ensures Next(s, Ok(st), ev).Ok?
    ensures AdvancesAll( st.memory, Next(s, Ok(st), ev).value.memory)
    ensures AdvancesAll( st.memory, OnDisk(s, Next(s, Ok(st), ev).value))
  {
    StepKeepsInv(s, st, ev);
    if ev.Call? && s.decide(st.memory, ev.op).Put? {
      PutOutcome(s, st, ev.op, ev.fate);
            PutAdvances(s.maxRecords, st.memory, s.decide(st.memory, ev.op).record);
    }
    FileAdvances(s, st);
  }

  lemma FileAdvances(s: Rules, st: State)
    requires Sound(s) && Inv(s, st)
    ensures AdvancesAll( st.memory, OnDisk(s, st))
  {
    var disk := OnDisk(s, st);
    if disk != st.memory {
      var r :| LegalPut(st.memory, s.maxRecords, r) && disk == st.memory[r.leaseDigest := r];
      PutAdvances(s.maxRecords, st.memory, r);
    }
  }

  // ---------- claims ----------

  predicate Claims(kind: ClaimKind, ev: Event, lease: string) {
    ev.Call? && ev.op.lease == lease && IsClaim(kind, ev.op)
  }

  /** The claim of a lease is marked both in memory and in the file. */
  predicate Marked(s: Rules, kind: ClaimKind, st: State, lease: string) {
    && lease in st.memory && Claimed(kind, st.memory[lease])
    && lease in OnDisk(s, st) && Claimed(kind, OnDisk(s, st)[lease])
  }

  /** A mark in memory is always a mark in the file. */
  lemma MarksAreDurable(s: Rules, kind: ClaimKind, st: State, lease: string)
    requires Sound(s) && Inv(s, st) && lease in st.memory && Claimed(kind, st.memory[lease])
    ensures Marked(s, kind, st, lease)
  {
    FileAdvances(s, st);
  }

  lemma MarksStay(s: Rules, kind: ClaimKind, st: State, ev: Event, lease: string)
    requires Sound(s) && Inv(s, st) && lease in st.memory && Claimed(kind, st.memory[lease])
    ensures Next(s, Ok(st), ev).Ok?
    ensures Marked(s, kind, Next(s, Ok(st), ev).value, lease)
  {
    StepIsLegal(s, st, ev);
  }

  /** A granted claim finds no mark in memory and leaves one there and in the file. */
  lemma GrantedClaim(s: Rules, kind: ClaimKind, st: State, ev: Event, lease: string)
    requires Sound(s) && Inv(s, st) && Claims(kind, ev, lease)
    requires Answer(s, Ok(st), ev) == Some(Claim(true))
    ensures lease in st.memory && !Claimed(kind, st.memory[lease])
    ensures Next(s, Ok(st), ev).Ok?
    ensures Marked(s, kind, Next(s, Ok(st), ev).value, lease)
  {
    PutOutcome(s, st, ev.op, ev.fate);
    StepKeepsInv(s, st, ev);
    MarksAreDurable(s, kind, Next(s, Ok(st), ev).value, lease);
  }

  lemma {:induction false} MarksStayInRun(s: Rules, kind: ClaimKind, events: seq<Event>, i: nat, lease: string)
    requires Sound(s) && i <= |events| && After(s, events[..i]).Ok?
    requires Marked(s, kind, After(s, events[..i]).value, lease)
    ensures After(s, events).Ok? && Marked(s, kind, After(s, events).value, lease)
  {
    if i == |events| {
      assert events[..i] == events;
    } else {
      var before := events[..|events| - 1];
      assert before[..i] == events[..i];
      MarksStayInRun(s, kind, before, i, lease);
      RunKeepsInv(s, before);
      MarksStay(s, kind, After(s, before).value, events[|events| - 1], lease);
    }
  }

  /** A granted claim leaves its mark at the end of the run. */
  lemma GrantIsRemembered(s: Rules, kind: ClaimKind, events: seq<Event>, i: nat, lease: string)
    requires Sound(s) && i < |events| && Claims(kind, events[i], lease)
    requires Answer(s, After(s, events[..i]), events[i]) == Some(Claim(true))
    ensures After(s, events).Ok? && Inv(s, After(s, events).value) && Marked(s, kind, After(s, events).value, lease)
  {
    RunKeepsInv(s, events);
    RunKeepsInv(s, events[..i]);
    GrantedClaim(s, kind, After(s, events[..i]).value, events[i], lease);
    assert events[..i + 1][..i] == events[..i] && events[..i + 1][i] == events[i];
    MarksStayInRun(s, kind, events, i + 1, lease);
  }

  /**
   At most one execution claim, and at most one evidence claim, of a lease is ever granted, whatever
   fails, crashes or restarts in between.
   */
  lemma ClaimGrantedAtMostOnce(s: Rules, kind: ClaimKind, events: seq<Event>, i: nat, j: nat, lease: string)
    requires Sound(s) && i < j < |events| && Claims(kind, events[i], lease) && Claims(kind, events[j], lease)
    requires Answer(s, After(s, events[..i]), events[i]) == Some(Claim(true))
    ensures Answer(s, After(s, events[..j]), events[j]) != Some(Claim(true))
  {
    var before := events[..j];
    assert before[..i] == events[..i];
    GrantIsRemembered(s, kind, before, i, lease);
    if Answer(s, After(s, before), events[j]) == Some(Claim(true)) {
      GrantedClaim(s, kind, After(s, before).value, events[j], lease);
    }
  }

  /** The event is a claim of the lease, and the record it marks reaches the file. */
  ghost predicate StoresClaim(s: Rules, kind: ClaimKind, w: World, ev: Event, lease: string) {
    && w.Ok? && Claims(kind, ev, lease) && ev.fate != Raised(false)
    && s.decide(w.value.memory, ev.op).Put? && s.decide(w.value.memory, ev.op).reply == Claim(true)
  }

  ghost predicate StoredClaim(s: Rules, kind: ClaimKind, events: seq<Event>, i: nat, lease: string)
    requires i < |events|
  {
    StoresClaim(s, kind, After(s, events[..i]), events[i], lease)
  }

  ghost predicate MarkedSomewhere(s: Rules, kind: ClaimKind, st: State, lease: string) {
    (lease in st.memory && Claimed(kind, st.memory[lease]))
    || (lease in OnDisk(s, st) && Claimed(kind, OnDisk(s, st)[lease]))
  }

  lemma NewMarksAreClaims(s: Rules, kind: ClaimKind, st: State, ev: Event, lease: string)
    requires Sound(s) && Inv(s, st) && Next(s, Ok(st), ev).Ok?
    requires MarkedSomewhere(s, kind, Next(s, Ok(st), ev).value, lease)
    ensures MarkedSomewhere(s, kind, st, lease) || StoresClaim(s, kind, Ok(st), ev, lease)
  {
    if ev.Call? && s.decide(st.memory, ev.op).Put? {
      PutOutcome(s, st, ev.op, ev.fate);
    }
  }

  lemma StoredClaimInPrefix(s: Rules, kind: ClaimKind, events: seq<Event>, n: nat, i: nat, lease: string)
    requires i < n <= |events|
    ensures StoredClaim(s, kind, events[..n], i, lease) == StoredClaim(s, kind, events, i, lease)
  {
    assert events[..n][..i] == events[..i];
  }

  /** Every marked lease, in memory or in the file, has a stored claim behind it. */
  lemma {:induction false} ClaimBehindEveryMark(s: Rules, kind: ClaimKind, events: seq<Event>, lease: string)
    requires Sound(s)
    ensures After(s, events).Ok?
    ensures MarkedSomewhere(s, kind, After(s, events).value, lease) ==>
              exists i :: 0 <= i < |events| && StoredClaim(s, kind, events, i, lease)
  {
    RunKeepsInv(s, events);
    if events != [] && MarkedSomewhere(s, kind, After(s, events).value, lease) {
      var n := |events| - 1;
      var before := events[..n];
      RunKeepsInv(s, before);
      NewMarksAreClaims(s, kind, After(s, before).value, events[n], lease);
      if MarkedSomewhere(s, kind, After(s, before).value, lease) {
        ClaimBehindEveryMark(s, kind, before, lease);
        var i :| 0 <= i < n && StoredClaim(s, kind, before, i, lease);
        StoredClaimInPrefix(s, kind, events, n, i, lease);
      } else {
        assert StoredClaim(s, kind, events, n, lease);
      }
    }
  }

  /** A lease that runs, checkpoints or is completed has one durable execution claim behind it. */
  lemma ExecutingIsClaimed(s: Rules, events: seq<Event>, lease: string)
    requires Sound(s)
    ensures After(s, events).Ok?
    ensures var st := After(s, events).value;
            lease in st.memory && Executing(st.memory[lease].state) ==>
              && Marked(s, Execution, st, lease)
              && exists i :: 0 <= i < |events| && StoredClaim(s, Execution, events, i, lease)
  {
    RunKeepsInv(s, events);
    ClaimBehindEveryMark(s, Execution, events, lease);
    var st := After(s, events).value;
    if lease in st.memory && Executing(st.memory[lease].state) {
      MarksAreDurable(s, Execution, st, lease);
    }
  }

  // ---------- histories ----------

  ghost predicate IsHistory(path: seq<LeaseRecord>) {
    && path != [] && Fresh(path[0])
    && forall i :: 0 <= i < |path| - 1 ==> LegalStep(path[i], path[i + 1])
  }

  ghost predicate HasHistory(r: LeaseRecord) {
    exists path :: IsHistory(path) && path[|path| - 1] == r && |path| == r.revision + 1
  }

  lemma HistoryGrows(a: LeaseRecord, b: LeaseRecord)
    requires HasHistory(a) && Advances(a, b)
    ensures HasHistory(b)
  {
    if a != b {
      var path :| IsHistory(path) && path[|path| - 1] == a && |path| == a.revision + 1;
      assert IsHistory(path + [b]);
    }
  }

  lemma FreshHistory(r: LeaseRecord)
    requires Fresh(r)
    ensures HasHistory(r)
  {
    assert IsHistory([r]);
  }

  /**
   Every record in memory was reached from its offer by exactly `revision` legal steps: along the
   transition table, where running is entered from ready by a claim only, or by submitting evidence.
   */
  lemma {:induction false} EveryRecordHasHistory(s: Rules, events: seq<Event>, lease: string)
    requires Sound(s)
    ensures After(s, events).Ok?
    ensures lease in After(s, events).value.memory ==> HasHistory(After(s, events).value.memory[lease])
  {
    RunKeepsInv(s, events);
    if events != [] {
      var before := events[..|events| - 1];
      EveryRecordHasHistory(s, before, lease);
      RunKeepsInv(s, before);
      StepIsLegal(s, After(s, before).value, events[|events| - 1]);
      var memory, next := After(s, before).value.memory, After(s, events).value.memory;
      if lease in next {
        if lease in memory {
          HistoryGrows(memory[lease], next[lease]);
        } else {
          FreshHistory(next[lease]);
        }
      }
    }
  }

  lemma TerminalStays(a: LeaseRecord, b: LeaseRecord)
    requires Advances(a, b) && Terminal(a.state)
    ensures b.state == a.state
  {
  }

  /** Terminal states are never left, in any run from any point on. */
  lemma {:induction false} TerminalIsAbsorbing(s: Rules, events: seq<Event>, i: nat, lease: string)
    requires Sound(s) && i <= |events| && After(s, events[..i]).Ok?
    requires lease in After(s, events[..i]).value.memory
    requires Terminal(After(s, events[..i]).value.memory[lease].state)
    ensures After(s, events).Ok? && lease in After(s, events).value.memory
    ensures After(s, events).value.memory[lease].state == After(s, events[..i]).value.memory[lease].state
  {
    if i == |events| {
      assert events[..i] == events;
    } else {
      var before := events[..|events| - 1];
      assert before[..i] == events[..i];
      TerminalIsAbsorbing(s, before, i, lease);
      RunKeepsInv(s, before);
      StepIsLegal(s, After(s, before).value, events[|events| - 1]);
      TerminalStays(After(s, before).value.memory[lease], After(s, events).value.memory[lease]);
    }
  }

  // ---------- deadlines and duplicates ----------

  /**
   After the deadline the only change of state that any operation stores, in memory or in the file,
   is to expired; and no execution claim is granted.
   */
  lemma OnlyExpiryAfterDeadline(s: Rules, st: State, op: Operation, fate: Fate, lease: string)
    requires Sound(s) && Inv(s, st) && lease in st.memory && AfterDeadline(st.memory, op)
    ensures var d := s.decide(st.memory, op);
            var next := Next(s, Ok(st), Call(op, fate)).value;
            && (d.Put? && d.record.leaseDigest == lease ==>
                  d.record.state == st.memory[lease].state || d.record.state.Expired?)
            && lease in next.memory
            && (next.memory[lease].state == st.memory[lease].state || next.memory[lease].state.Expired?)
            && (next.disk != st.disk ==>
                  && lease in OnDisk(s, next)
                  && (OnDisk(s, next)[lease].state == st.memory[lease].state
                      || OnDisk(s, next)[lease].state.Expired?))
            && (op.ClaimExecution? ==> Answer(s, Ok(st), Call(op, fate)) != Some(Claim(true)))
  {
    if s.decide(st.memory, op).Put? {
      PutOutcome(s, st, op, fate);
    }
  }

  /** A repeated request is answered without a change: the block of the first one and of the repetition. */
  predicate AnsweredUnchanged(deadline: int, target: LeaseState, first: int, later: int) {
    target.Expired? || (first <= deadline && (later <= deadline || Terminal(target)))
  }

  /** The record that a late request leaves behind. */
  function ExpiredAfter(r: LeaseRecord): LeaseRecord {
    r.(state := Expired, revision := r.revision + 1, failureCode := None)
  }

  /**
   What becomes of a transition that was just stored when it is requested again, at the same block or
   a later one. It is answered without a change exactly when it asked for the expiry, or was on time
   and either is still on time or reached a terminal state. A late request for any other state is
   refused when it is repeated, and a late repetition of a request that was on time expires the lease.
   */
  lemma DuplicateTransitionExact(records: Records, lease: string, target: LeaseState, code: Option<string>,
                                 block: int, later: int)
    requires TransitionDecision(records, lease, target, block, code).Put?
    requires block <= later && InRange(later)
    requires forall k :: k in records ==> records[k].leaseDigest == k
    ensures var first := TransitionDecision(records, lease, target, block, code);
            var second := TransitionDecision(records[lease := first.record], lease, target, later, code);
            var deadline := records[lease].deadlineBlock;
            && (second == Keep(Lease(first.record)) <==> AnsweredUnchanged(deadline, target, block, later))
            && (!AnsweredUnchanged(deadline, target, block, later) ==>
                  second == if block > deadline then Refuse(OutOfOrder)
                            else PutIfValid(ExpiredAfter(first.record), Lease(ExpiredAfter(first.record))))
  {
    var first := TransitionDecision(records, lease, target, block, code).record;
    var r := records[lease];
    assert first.leaseDigest == lease && first.deadlineBlock == r.deadlineBlock;
    assert first.state == if Late(r, block) then Expired else target;
  }

  /** An offered lease with deadline 10. */
  function SampleOffer(): LeaseRecord {
    var digest := SHA_PREFIX + seq(64, _ => '0');
    LeaseRecord(digest, digest, 10, Offered, 0, false, false, None)
  }

  /**
   Two failing inputs of the documented idempotence: accepting at block 11 expires the lease and is
   refused when it is repeated; accepting at block 10 is stored, and repeated at block 11 it expires
   the lease.
   */
  lemma RepeatedTransitionFails()
    ensures var r := SampleOffer();
            var records := map[r.leaseDigest := r];
            var expired := ExpiredAfter(r);
            && TransitionDecision(records, r.leaseDigest, Accepted, 11, None) == Put(expired, Lease(expired))
            && TransitionDecision(map[r.leaseDigest := expired], r.leaseDigest, Accepted, 11, None)
               == Refuse(OutOfOrder)
    ensures var r := SampleOffer();
            var records := map[r.leaseDigest := r];
            var accepted := r.(state := Accepted, revision := 1);
            var expired := ExpiredAfter(accepted);
            && TransitionDecision(records, r.leaseDigest, Accepted, 10, None) == Put(accepted, Lease(accepted))
            && TransitionDecision(map[r.leaseDigest := accepted], r.leaseDigest, Accepted, 11, None)
               == Put(expired, Lease(expired))
  {
    var digest := SampleOffer().leaseDigest;
    assert digest[..7] == SHA_PREFIX && digest[7..] == seq(64, _ => '0');
  }

  lemma AdvancedIsSameLease(a: LeaseRecord, b: LeaseRecord, c: LeaseRecord)
    requires SameLease(a, b) && Advances(b, c)
    ensures SameLease(a, c)
  {
  }

  /**
   A lease that memory holds at some point of a run stays available for ever: looking it up always
   returns a record of the same lease, manifest and deadline.
   */
  lemma {:induction false} KnownLeaseStaysKnown(s: Rules, events: seq<Event>, i: nat, lease: string)
    requires Sound(s) && i <= |events| && After(s, events[..i]).Ok? && lease in After(s, events[..i]).value.memory
    ensures After(s, events).Ok? && lease in After(s, events).value.memory
    ensures var earlier, now := After(s, events[..i]).value.memory[lease], After(s, events).value.memory[lease];
            SameLease(earlier, now) && GetDecision(After(s, events).value.memory, lease) == Keep(Lease(now))
  {
    RunKeepsInv(s, events);
    if i == |events| {
      assert events[..i] == events;
    } else {
      var before := events[..|events| - 1];
      assert before[..i] == events[..i];
      KnownLeaseStaysKnown(s, before, i, lease);
      RunKeepsInv(s, before);
      StepIsLegal(s, After(s, before).value, events[|events| - 1]);
      AdvancedIsSameLease(After(s, events[..i]).value.memory[lease], After(s, before).value.memory[lease],
                          After(s, events).value.memory[lease]);
    }
  }

  /** A refused or failed operation leaves memory as it was. */
  lemma FailureChangesNothing(s: Rules, st: State, op: Operation, fate: Fate)
    requires Answer(s, Ok(st), Call(op, fate)).None?
    ensures Next(s, Ok(st), Call(op, fate)).value.memory == st.memory
    ensures fate != Raised(true) ==> Next(s, Ok(st), Call(op, fate)).value == st
  {
  }
}
