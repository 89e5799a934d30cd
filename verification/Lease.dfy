/** The persistent lease store of a miner. */
module Lease {
  import opened Prelude
  import opened Ordering
  import opened ByteStrings
  import opened JsonValues
  import opened JsonParser
  import opened Protocol
  import opened Wire

  const STATE_VERSION := 1
  const MAX_STATE_BYTES := 4194304

  datatype LeaseState =
    | Offered | Accepted | Fetching | Ready | Running | Checkpointing | Completed | Failed | Expired | Cancelled

  /** `_TRANSITIONS` */
  function Transitions(s: LeaseState): set<LeaseState> {
    match s
    case Offered => {Accepted, Failed, Expired, Cancelled}
    case Accepted => {Fetching, Failed, Expired, Cancelled}
    case Fetching => {Ready, Failed, Expired, Cancelled}
    case Ready => {Running, Failed, Expired, Cancelled}
    case Running => {Checkpointing, Completed, Failed, Expired, Cancelled}
    case Checkpointing => {Running, Completed, Failed, Expired, Cancelled}
    case _ => {}
  }

  predicate Terminal(s: LeaseState) {
    s.Completed? || s.Failed? || s.Expired? || s.Cancelled?
  }

  predicate Executing(s: LeaseState) {
    s.Running? || s.Checkpointing? || s.Completed?
  }

  datatype LeaseRecord = LeaseRecord(
    leaseDigest: string, manifestDigest: string, deadlineBlock: int, state: LeaseState, revision: int,
    executionStarted: bool, evidenceSubmitted: bool, failureCode: Option<string>)

  predicate InRange(n: int) {
    0 <= n <= MAX_INT63
  }

  /** The constructor rules of a record. */
  predicate ValidRecord(r: LeaseRecord) {
    && IsDigest(r.leaseDigest) && IsDigest(r.manifestDigest)
    && InRange(r.deadlineBlock) && InRange(r.revision)
    && (r.failureCode.Some? ==> IsCode(r.failureCode.value))
    && (r.failureCode.Some? <==> r.state.Failed?)
    && (Executing(r.state) ==> r.executionStarted)
    && (r.evidenceSubmitted ==> r.state.Completed?)
  }

  datatype LeaseError =
    | InvalidArgument | Conflict | Full | Unavailable | OutOfOrder | DifferentReason | MustBeClaimed
    | MissingCode | UnexpectedCode | NotReady | NotComplete | TooLarge | WriteFailed | Malformed

  type Records = map<string, LeaseRecord>

  // ---------- the state file ----------

  function StateName(s: LeaseState): string {
    match s
    case Offered => "offered"
    case Accepted => "accepted"
    case Fetching => "fetching"
    case Ready => "ready"
    case Running => "running"
    case Checkpointing => "checkpointing"
    case Completed => "completed"
    case Failed => "failed"
    case Expired => "expired"
    case Cancelled => "cancelled"
  }

  function StateFrom(v: Json): Option<LeaseState> {
    var text :- Text(v);
    if text == "offered" then Some(Offered)
    else if text == "accepted" then Some(Accepted)
    else if text == "fetching" then Some(Fetching)
    else if text == "ready" then Some(Ready)
    else if text == "running" then Some(Running)
    else if text == "checkpointing" then Some(Checkpointing)
    else if text == "completed" then Some(Completed)
    else if text == "failed" then Some(Failed)
    else if text == "expired" then Some(Expired)
    else if text == "cancelled" then Some(Cancelled)
    else None
  }

  /** `to_primitive` */
  function RecordJson(r: LeaseRecord): Json {
    Obj(map[
      "deadline_block" := Int(r.deadlineBlock),
      "evidence_submitted" := Bool(r.evidenceSubmitted),
      "execution_started" := Bool(r.executionStarted),
      "failure_code" := OptionalText(r.failureCode),
      "lease_digest" := Str(r.leaseDigest),
      "manifest_digest" := Str(r.manifestDigest),
      "revision" := Int(r.revision),
      "state" := Str(StateName(r.state))])
  }

  /** `from_primitive` */
  function RecordFrom(v: Json): Option<LeaseRecord> {
    var data :- Mapping(v);
    if data.Keys != {"deadline_block", "evidence_submitted", "execution_started", "failure_code",
                     "lease_digest", "manifest_digest", "revision", "state"} then None
    else
      var state :- StateFrom(data["state"]);
      var failureCode :- NullableText(data["failure_code"]);
      var leaseDigest :- Text(data["lease_digest"]);
      var manifestDigest :- Text(data["manifest_digest"]);
      var deadlineBlock :- Integer(data["deadline_block"]);
      var revision :- Integer(data["revision"]);
      var executionStarted :- Boolean(data["execution_started"]);
      var evidenceSubmitted :- Boolean(data["evidence_submitted"]);
      var r := LeaseRecord(leaseDigest, manifestDigest, deadlineBlock, state, revision, executionStarted,
                           evidenceSubmitted, failureCode);
      if ValidRecord(r) then Some(r) else None
  }

  function RecordList(records: Records): (r: seq<LeaseRecord>) {
    var keys := SortedKeys(records.Keys);
    SortedKeysElements(records.Keys);
    seq(|keys|, i requires 0 <= i < |keys| => assert keys[i] in keys; records[keys[i]])
  }

  function StateJson(records: Records): Json {
    Obj(map["records" := Arr(Map(RecordJson, RecordList(records))), "version" := Int(STATE_VERSION)])
  }

  /** What `_persist` writes. */
  function StateText(records: Records): string {
    Print(StateJson(records))
  }

  /** The loop of `_load` over the stored records. */
  function LoadRecords(values: seq<Json>): Option<Records> {
    if values == [] then Some(map[])
    else
      var records :- LoadRecords(values[..|values| - 1]);
      var r :- RecordFrom(values[|values| - 1]);
      if r.leaseDigest in records then None else Some(records[r.leaseDigest := r])
  }

  /** `_load`. The version test is Python's `!=`, under which `true` equals 1. */
  function LoadState(text: string, maxRecords: int): Result<Records, LeaseError> {
    if |text| > MAX_STATE_BYTES then Err(TooLarge)
    else
      match Parse(text)
      case None => Err(Malformed)
      case Some(raw) =>
        if !raw.Obj? || raw.fields.Keys != {"records", "version"} then Err(Malformed)
        else if raw.fields["version"] != Int(STATE_VERSION) && raw.fields["version"] != Bool(true) then Err(Malformed)
        else if !raw.fields["records"].Arr? || |raw.fields["records"].items| > maxRecords then Err(Malformed)
        else
          match LoadRecords(raw.fields["records"].items)
          case None => Err(Malformed)
          case Some(records) => Ok(records)
  }

  // ---------- the rules as functions of the records ----------

  datatype Reply = Lease(record: LeaseRecord) | Claim(granted: bool)

  /** What an operation wants: to fail, to answer without a change, or to store a record first. */
  datatype Decision = Refuse(error: LeaseError) | Keep(reply: Reply) | Put(record: LeaseRecord, reply: Reply)

  function OfferDecision(records: Records, maxRecords: int, lease: string, manifest: string, deadline: int): Decision {
    var candidate := LeaseRecord(lease, manifest, deadline, Offered, 0, false, false, None);
    if !ValidRecord(candidate) then Refuse(InvalidArgument)
    else if lease in records then
      if records[lease].manifestDigest != manifest || records[lease].deadlineBlock != deadline then Refuse(Conflict)
      else Keep(Lease(records[lease]))
    else if |records| >= maxRecords then Refuse(Full)
    else Put(candidate, Lease(candidate))
  }

  function GetDecision(records: Records, lease: string): Decision {
    if !IsDigest(lease) then Refuse(InvalidArgument)
    else if lease !in records then Refuse(Unavailable)
    else Keep(Lease(records[lease]))
  }

  /** A change of a record; the constructor of the new record has the last word. */
  function PutIfValid(r: LeaseRecord, reply: Reply): Decision {
    if ValidRecord(r) then Put(r, reply) else Refuse(InvalidArgument)
  }

  /** After the deadline every transition of a live lease becomes an expiry. */
  predicate Late(r: LeaseRecord, block: int) {
    block > r.deadlineBlock && !Terminal(r.state)
  }

  function MoveDecision(r: LeaseRecord, target: LeaseState, reason: Option<string>): Decision {
    if target == r.state then
      if target.Failed? && reason != r.failureCode then Refuse(DifferentReason) else Keep(Lease(r))
    else if target !in Transitions(r.state) then Refuse(OutOfOrder)
    else if r.state.Ready? && target.Running? then Refuse(MustBeClaimed)
    else if target.Failed? && reason.None? then Refuse(MissingCode)
    else if target.Failed? && !IsCode(reason.value) then Refuse(InvalidArgument)
    else if !target.Failed? && reason.Some? then Refuse(UnexpectedCode)
    else
      var updated := r.(state := target, revision := r.revision + 1, failureCode := reason);
      PutIfValid(updated, Lease(updated))
  }

  function TransitionDecision(records: Records, lease: string, target: LeaseState, block: int, code: Option<string>)
    : Decision
  {
    if !InRange(block) then Refuse(InvalidArgument)
    else if !GetDecision(records, lease).Keep? then GetDecision(records, lease)
    else if Late(records[lease], block) then MoveDecision(records[lease], Expired, None)
    else MoveDecision(records[lease], target, code)
  }

  /** A claim after the deadline grants nothing; it expires a live lease. */
  function LateClaim(r: LeaseRecord): Decision {
    if Terminal(r.state) then Keep(Claim(false))
    else
      match MoveDecision(r, Expired, None)
      case Put(updated, _) => Put(updated, Claim(false))
      case Keep(_) => Keep(Claim(false))
      case Refuse(error) => Refuse(error)
  }

  function OnTimeClaim(r: LeaseRecord): Decision {
    if r.executionStarted then Keep(Claim(false))
    else if !r.state.Ready? then Refuse(NotReady)
    else PutIfValid(r.(state := Running, revision := r.revision + 1, executionStarted := true), Claim(true))
  }

  function ClaimDecision(records: Records, lease: string, block: int): Decision {
    if !InRange(block) then Refuse(InvalidArgument)
    else if !GetDecision(records, lease).Keep? then GetDecision(records, lease)
    else if block > records[lease].deadlineBlock then LateClaim(records[lease])
    else OnTimeClaim(records[lease])
  }

  function EvidenceClaim(r: LeaseRecord): Decision {
    if !r.state.Completed? then Refuse(NotComplete)
    else if r.evidenceSubmitted then Keep(Claim(false))
    else PutIfValid(r.(revision := r.revision + 1, evidenceSubmitted := true), Claim(true))
  }

  function EvidenceDecision(records: Records, lease: string): Decision {
    if !GetDecision(records, lease).Keep? then GetDecision(records, lease)
    else EvidenceClaim(records[lease])
  }

  /** How a store writes and reads its state file. */
  datatype Codec = Codec(save: Records -> string, load: string -> Result<Records, LeaseError>)

  function FileCodec(maxRecords: int): Codec {
    Codec(StateText, (text: string) => LoadState(text, maxRecords))
  }

  /** What the state writer does with one write: complete it, or raise with or without having replaced the file. */
  datatype Fate = Written | Raised(landed: bool)

  /** Memory and state file; `disk` is `None` when there is no file. */
  datatype State = State(memory: Records, disk: Option<string>)

  /** `_replace` and `_commit`: memory changes only after a complete write. */
  function Carry(codec: Codec, hasPath: bool, st: State, d: Decision, fate: Fate): (Result<Reply, LeaseError>, State) {
    match d
    case Refuse(error) => (Err(error), st)
    case Keep(reply) => (Ok(reply), st)
    case Put(record, reply) =>
      var records := st.memory[record.leaseDigest := record];
      if !hasPath then (Ok(reply), State(records, st.disk))
      else if |codec.save(records)| > MAX_STATE_BYTES then (Err(TooLarge), st)
      else if fate.Written? then (Ok(reply), State(records, Some(codec.save(records))))
      else (Err(WriteFailed), State(st.memory, if fate.landed then Some(codec.save(records)) else st.disk))
  }

  /** A new process: `__init__` with the same path and limit. */
  function Restart(codec: Codec, hasPath: bool, disk: Option<string>): Result<State, LeaseError> {
    if !hasPath || disk.None? then Ok(State(map[], disk))
    else
      match codec.load(disk.value)
      case Ok(records) => Ok(State(records, disk))
      case Err(error) => Err(error)
  }

  // ---------- the object ----------

  class StateFile {
    var text: Option<string>

    constructor (text: Option<string>)
      ensures this.text == text
    {
      this.text := text;
    }
  }

  class LeaseStore {
    const file: StateFile?
    const maxRecords: int
    var records: Records

    ghost function Contents(): State
      reads this, file
    {
      State(records, if file == null then None else file.text)
    }

    constructor Empty(file: StateFile?, maxRecords: int)
      ensures this.file == file && this.maxRecords == maxRecords && records == map[]
    {
      this.file, this.maxRecords, records := file, maxRecords, map[];
    }

    /** A new store on a state file, or in memory only. */
    static method Open(file: StateFile?, maxRecords: int) returns (r: Result<LeaseStore, LeaseError>)
      ensures r.Ok? ==> fresh(r.value) && r.value.file == file && r.value.maxRecords == maxRecords
      ensures !(1 <= maxRecords <= 1000000) ==> r == Err(InvalidArgument)
      ensures 1 <= maxRecords <= 1000000 ==>
                match Restart(FileCodec(maxRecords), file != null, if file == null then None else file.text)
                case Ok(st) => r.Ok? && r.value.Contents() == st
                case Err(e) => r == Err(e)
    {
      if !(1 <= maxRecords <= 1000000) {
        return Err(InvalidArgument);
      }
      var store := new LeaseStore.Empty(file, maxRecords);
      if file != null && file.text.Some? {
        var loaded := LoadState(file.text.value, maxRecords);
        if loaded.Err? {
          return Err(loaded.error);
        }
        store.records := loaded.value;
      }
      return Ok(store);
    }

    method Offer(lease: string, manifest: string, deadline: int, fate: Fate) returns (r: Result<Reply, LeaseError>)
      modifies this, file
      ensures (r, Contents())
           == Carry(FileCodec(maxRecords), file != null, old(Contents()),
                    OfferDecision(old(records), maxRecords, lease, manifest, deadline), fate)
    {
      var candidate := LeaseRecord(lease, manifest, deadline, Offered, 0, false, false, None);
      if !ValidRecord(candidate) {
        return Err(InvalidArgument);
      }
      if lease in records {
        var existing := records[lease];
        if existing.manifestDigest != manifest || existing.deadlineBlock != deadline {
          return Err(Conflict);
        }
        return Ok(Lease(existing));
      }
      if |records| >= maxRecords {
        return Err(Full);
      }
      var error := Replace(candidate, fate);
      return if error.Some? then Err(error.value) else Ok(Lease(candidate));
    }

    method Get(lease: string) returns (r: Result<LeaseRecord, LeaseError>)
      ensures match GetDecision(records, lease)
              case Refuse(error) => r == Err(error)
              case Keep(reply) => r == Ok(records[lease]) && reply == Lease(records[lease])
              case Put(_, _) => false
    {
      if !IsDigest(lease) {
        return Err(InvalidArgument);
      }
      if lease !in records {
        return Err(Unavailable);
      }
      return Ok(records[lease]);
    }

    method Transition(lease: string, target: LeaseState, currentBlock: int, failureCode: Option<string>, fate: Fate)
      returns (r: Result<Reply, LeaseError>)
      modifies this, file
      ensures (r, Contents())
           == Carry(FileCodec(maxRecords), file != null, old(Contents()),
                    TransitionDecision(old(records), lease, target, currentBlock, failureCode), fate)
    {
      if !InRange(currentBlock) {
        return Err(InvalidArgument);
      }
      var found := Get(lease);
      if found.Err? {
        return Err(found.error);
      }
      var record := found.value;
      var goal, code := target, failureCode;
      if currentBlock > record.deadlineBlock && !Terminal(record.state) {
        goal, code := Expired, None;
      }
      r := Move(record, goal, code, fate);
    }

    method Move(record: LeaseRecord, goal: LeaseState, code: Option<string>, fate: Fate)
      returns (r: Result<Reply, LeaseError>)
      modifies this, file
      ensures (r, Contents())
           == Carry(FileCodec(maxRecords), file != null, old(Contents()), MoveDecision(record, goal, code), fate)
    {
      var problem := CheckMove(record, goal, code);
      if problem.Some? {
        return Err(problem.value);
      }
      if goal == record.state {
        return Ok(Lease(record));
      }
      var updated := record.(state := goal, revision := record.revision + 1, failureCode := code);
      var error := Replace(updated, fate);
      return if error.Some? then Err(error.value) else Ok(Lease(updated));
    }

    /** The reason to refuse a move. */
    static method CheckMove(record: LeaseRecord, goal: LeaseState, code: Option<string>)
      returns (problem: Option<LeaseError>)
      ensures var d := MoveDecision(record, goal, code);
              problem == if d.Refuse? then Some(d.error) else None
    {
      if goal == record.state {
        return if goal.Failed? && code != record.failureCode then Some(DifferentReason) else None;
      }
      if Terminal(record.state) || goal !in Transitions(record.state) {
        return Some(OutOfOrder);
      }
      if record.state.Ready? && goal.Running? {
        return Some(MustBeClaimed);
      }
      if goal.Failed? {
        if code.None? {
          return Some(MissingCode);
        }
        if !IsCode(code.value) {
          return Some(InvalidArgument);
        }
      } else if code.Some? {
        return Some(UnexpectedCode);
      }
      var updated := record.(state := goal, revision := record.revision + 1, failureCode := code);
      return if ValidRecord(updated) then None else Some(InvalidArgument);
    }

    method ClaimExecution(lease: string, currentBlock: int, fate: Fate) returns (r: Result<Reply, LeaseError>)
      modifies this, file
      ensures (r, Contents())
           == Carry(FileCodec(maxRecords), file != null, old(Contents()),
                    ClaimDecision(old(records), lease, currentBlock), fate)
    {
      if !InRange(currentBlock) {
        return Err(InvalidArgument);
      }
      var found := Get(lease);
      if found.Err? {
        return Err(found.error);
      }
      if currentBlock > found.value.deadlineBlock {
        r := ClaimLate(lease, currentBlock, fate);
      } else {
        r := ClaimOnTime(found.value, fate);
      }
    }

    method ClaimLate(lease: string, currentBlock: int, fate: Fate) returns (r: Result<Reply, LeaseError>)
      requires IsDigest(lease) && lease in records
      requires InRange(currentBlock) && currentBlock > records[lease].deadlineBlock
      modifies this, file
      ensures (r, Contents())
           == Carry(FileCodec(maxRecords), file != null, old(Contents()), LateClaim(old(records)[lease]), fate)
    {
      if !Terminal(records[lease].state) {
        var moved := Transition(lease, Expired, currentBlock, None, fate);
        if moved.Err? {
          return moved;
        }
      }
      return Ok(Claim(false));
    }

    method ClaimOnTime(record: LeaseRecord, fate: Fate) returns (r: Result<Reply, LeaseError>)
      modifies this, file
      ensures (r, Contents())
           == Carry(FileCodec(maxRecords), file != null, old(Contents()), OnTimeClaim(record), fate)
    {
      if record.executionStarted {
        return Ok(Claim(false));
      }
      if !record.state.Ready? {
        return Err(NotReady);
      }
      var updated := record.(state := Running, revision := record.revision + 1, executionStarted := true);
      if !ValidRecord(updated) {
        return Err(InvalidArgument);
      }
      var error := Replace(updated, fate);
      return if error.Some? then Err(error.value) else Ok(Claim(true));
    }

    method ClaimEvidenceSubmission(lease: string, fate: Fate) returns (r: Result<Reply, LeaseError>)
      modifies this, file
      ensures (r, Contents())
           == Carry(FileCodec(maxRecords), file != null, old(Contents()),
                    EvidenceDecision(old(records), lease), fate)
    {
      var found := Get(lease);
      if found.Err? {
        return Err(found.error);
      }
      r := ClaimOfCompleted(found.value, fate);
    }

    method ClaimOfCompleted(record: LeaseRecord, fate: Fate) returns (r: Result<Reply, LeaseError>)
      modifies this, file
      ensures (r, Contents())
           == Carry(FileCodec(maxRecords), file != null, old(Contents()), EvidenceClaim(record), fate)
    {
      if !record.state.Completed? {
        return Err(NotComplete);
      }
      if record.evidenceSubmitted {
        return Ok(Claim(false));
      }
      var updated := record.(revision := record.revision + 1, evidenceSubmitted := true);
      if !ValidRecord(updated) {
        return Err(InvalidArgument);
      }
      var error := Replace(updated, fate);
      return if error.Some? then Err(error.value) else Ok(Claim(true));
    }

    /** `_replace` and `_commit` */
    method Replace(record: LeaseRecord, fate: Fate) returns (error: Option<LeaseError>)
      modifies this, file
      ensures var (result, next) := Carry(FileCodec(maxRecords), file != null, old(Contents()),
                                          Put(record, Claim(true)), fate);
              && Contents() == next
              && error == if result.Ok? then None else Some(result.error)
    {
      var next := records[record.leaseDigest := record];
      error := Persist(next, fate);
      if error.None? {
        records := next;
      }
    }

    /** `_persist` */
    method Persist(next: Records, fate: Fate) returns (error: Option<LeaseError>)
      modifies file
      ensures file == null ==> error.None?
      ensures file != null && |StateText(next)| > MAX_STATE_BYTES ==>
                error == Some(TooLarge) && file.text == old(file.text)
      ensures file != null && |StateText(next)| <= MAX_STATE_BYTES ==>
                && error == (if fate.Written? then None else Some(WriteFailed))
                && file.text == (if fate.Written? || fate.landed then Some(StateText(next)) else old(file.text))
    {
      if file == null {
        return None;
      }
      var payload := StateText(next);
      if |payload| > MAX_STATE_BYTES {
        return Some(TooLarge);
      }
      if fate.Written? || fate.landed {
        file.text := Some(payload);
      }
      return if fate.Written? then None else Some(WriteFailed);
    }
  }

  // ---------- loading undoes persisting ----------

  ghost predicate WellFormed(records: Records, maxRecords: int) {
    |records| <= maxRecords && forall k :: k in records ==> ValidRecord(records[k]) && records[k].leaseDigest == k
  }

  ghost predicate RecordFieldsAre(f: map<string, Json>, r: LeaseRecord) {
    && f.Keys == {"deadline_block", "evidence_submitted", "execution_started", "failure_code",
                  "lease_digest", "manifest_digest", "revision", "state"}
    && f["deadline_block"] == Int(r.deadlineBlock) && f["evidence_submitted"] == Bool(r.evidenceSubmitted)
    && f["execution_started"] == Bool(r.executionStarted) && f["failure_code"] == OptionalText(r.failureCode)
    && f["lease_digest"] == Str(r.leaseDigest) && f["manifest_digest"] == Str(r.manifestDigest)
    && f["revision"] == Int(r.revision) && f["state"] == Str(StateName(r.state))
  }

  lemma RecordFields(r: LeaseRecord)
    ensures RecordFieldsAre(RecordJson(r).fields, r)
  {
  }

  lemma StateNameRoundTrip(s: LeaseState)
    ensures StateFrom(Str(StateName(s))) == Some(s)
  {
  }

  lemma RecordFromFields(f: map<string, Json>, r: LeaseRecord)
    requires RecordFieldsAre(f, r) && ValidRecord(r)
    ensures RecordFrom(Obj(f)) == Some(r)
  {
    StateNameRoundTrip(r.state);
  }

  lemma RecordRoundTrip(r: LeaseRecord)
    requires ValidRecord(r)
    ensures RecordFrom(RecordJson(r)) == Some(r)
  {
    RecordFields(r);
    RecordFromFields(RecordJson(r).fields, r);
  }

  ghost predicate DigestsDiffer(rs: seq<LeaseRecord>) {
    forall i, j :: 0 <= i < j < |rs| ==> rs[i].leaseDigest != rs[j].leaseDigest
  }

  /** The dictionary of a list of records. */
  function ByDigest(rs: seq<LeaseRecord>): Records {
    if rs == [] then map[] else ByDigest(rs[..|rs| - 1])[rs[|rs| - 1].leaseDigest := rs[|rs| - 1]]
  }

  lemma {:induction false} ByDigestHas(rs: seq<LeaseRecord>, i: nat)
    requires DigestsDiffer(rs) && i < |rs|
    ensures rs[i].leaseDigest in ByDigest(rs) && ByDigest(rs)[rs[i].leaseDigest] == rs[i]
  {
    var n := |rs| - 1;
    if i < n {
      ByDigestHas(rs[..n], i);
    }
  }

  lemma {:induction false} ByDigestOnly(rs: seq<LeaseRecord>, k: string) returns (i: nat)
    requires k in ByDigest(rs)
    ensures i < |rs| && rs[i].leaseDigest == k
  {
    var n := |rs| - 1;
    if rs[n].leaseDigest == k {
      i := n;
    } else {
      i := ByDigestOnly(rs[..n], k);
    }
  }

  lemma {:induction false} LoadRecordsOf(rs: seq<LeaseRecord>)
    requires DigestsDiffer(rs) && forall i :: 0 <= i < |rs| ==> ValidRecord(rs[i])
    ensures LoadRecords(Map(RecordJson, rs)) == Some(ByDigest(rs))
  {
    if rs != [] {
      var n := |rs| - 1;
      LoadRecordsOf(rs[..n]);
      assert Map(RecordJson, rs)[..n] == Map(RecordJson, rs[..n]);
      RecordRoundTrip(rs[n]);
      if rs[n].leaseDigest in ByDigest(rs[..n]) {
        var i := ByDigestOnly(rs[..n], rs[n].leaseDigest);
      }
    }
  }

  ghost predicate Lists(rs: seq<LeaseRecord>, records: Records) {
    && (forall i :: 0 <= i < |rs| ==> rs[i].leaseDigest in records && records[rs[i].leaseDigest] == rs[i])
    && (forall k :: k in records ==> records[k].leaseDigest == k && records[k] in rs)
  }

  lemma RecordListOf(records: Records, maxRecords: int)
    requires WellFormed(records, maxRecords)
    ensures var rs := RecordList(records);
            && |rs| == |records| && DigestsDiffer(rs) && (forall i :: 0 <= i < |rs| ==> ValidRecord(rs[i]))
            && Lists(rs, records)
  {
    var keys := SortedKeys(records.Keys);
    SortedKeysElements(records.Keys);
    var rs := RecordList(records);
    assert |records| == |records.Keys|;
    forall i | 0 <= i < |keys| ensures keys[i] in records && rs[i] == records[keys[i]] && rs[i].leaseDigest == keys[i] {
      assert keys[i] in keys;
    }
    forall k | k in records ensures records[k] in rs {
      assert k in keys;
      var i :| 0 <= i < |keys| && keys[i] == k;
      assert rs[i] == records[k];
    }
  }

  lemma ByDigestAt(rs: seq<LeaseRecord>, records: Records, k: string)
    requires DigestsDiffer(rs) && Lists(rs, records)
    ensures k in ByDigest(rs) <==> k in records
    ensures k in records ==> ByDigest(rs)[k] == records[k]
  {
    if k in records {
      var i :| 0 <= i < |rs| && rs[i] == records[k];
      ByDigestHas(rs, i);
    } else if k in ByDigest(rs) {
      var i := ByDigestOnly(rs, k);
    }
  }

  lemma ByDigestOf(rs: seq<LeaseRecord>, records: Records)
    requires DigestsDiffer(rs) && Lists(rs, records)
    ensures ByDigest(rs) == records
  {
    var m := ByDigest(rs);
    forall k ensures (k in m <==> k in records) && (k in records ==> m[k] == records[k]) {
      ByDigestAt(rs, records, k);
    }
  }

  lemma RecordListLoads(records: Records, maxRecords: int)
    requires WellFormed(records, maxRecords)
    ensures |RecordList(records)| == |records|
    ensures LoadRecords(Map(RecordJson, RecordList(records))) == Some(records)
  {
    RecordListOf(records, maxRecords);
    ByDigestOf(RecordList(records), records);
    LoadRecordsOf(RecordList(records));
  }

  lemma StateFields(records: Records)
    ensures var f := StateJson(records).fields;
            && f.Keys == {"records", "version"}
            && f["records"] == Arr(Map(RecordJson, RecordList(records))) && f["version"] == Int(STATE_VERSION)
  {
  }

  /** A written state is read back exactly, unless it is over the size limit. */
  lemma LoadUndoesPersist(records: Records, maxRecords: int)
    requires WellFormed(records, maxRecords)
    ensures LoadState(StateText(records), maxRecords)
         == if |StateText(records)| <= MAX_STATE_BYTES then Ok(records) else Err(TooLarge)
  {
    ParsePrintRoundTrip(StateJson(records));
    StateFields(records);
    RecordListLoads(records, maxRecords);
  }

  lemma RecordFromIsValid(v: Json)
    ensures RecordFrom(v).Some? ==> ValidRecord(RecordFrom(v).value)
  {
  }

  lemma {:induction false} LoadedRecords(values: seq<Json>)
    ensures LoadRecords(values).Some? ==>
              var records := LoadRecords(values).value;
              && |records| == |values|
              && forall k :: k in records ==> ValidRecord(records[k]) && records[k].leaseDigest == k
  {
    if values != [] && LoadRecords(values).Some? {
      var before := values[..|values| - 1];
      LoadedRecords(before);
      RecordFromIsValid(values[|values| - 1]);
      var m, r := LoadRecords(before).value, RecordFrom(values[|values| - 1]).value;
      assert m[r.leaseDigest := r].Keys == m.Keys + {r.leaseDigest};
    }
  }

  /** Whatever loads respects the record limit, the constructor rules and the keys. */
  lemma LoadedIsWellFormed(text: string, maxRecords: int)
    ensures LoadState(text, maxRecords).Ok? ==> WellFormed(LoadState(text, maxRecords).value, maxRecords)
  {
    if LoadState(text, maxRecords).Ok? {
      LoadedRecords(Parse(text).value.fields["records"].items);
    }
  }

  lemma FieldsOfRecord(f: map<string, Json>, r: LeaseRecord)
    requires RecordFrom(Obj(f)) == Some(r)
    ensures RecordFieldsAre(f, r)
  {
    StateNameOf(f["state"]);
  }

  lemma StateNameOf(v: Json)
    ensures StateFrom(v).Some? ==> v == Str(StateName(StateFrom(v).value))
  {
  }

  lemma RecordFromExact(v: Json, r: LeaseRecord)
    ensures RecordFrom(v) == Some(r) <==> ValidRecord(r) && v == RecordJson(r)
  {
    if ValidRecord(r) && v == RecordJson(r) {
      RecordRoundTrip(r);
    }
    if RecordFrom(v) == Some(r) {
      RecordFromIsValid(v);
      FieldsOfRecord(v.fields, r);
      RecordFields(r);
      assert v.fields == RecordJson(r).fields;
    }
  }

  /** Valid records with different digests, and the dictionary of them. */
  ghost predicate AreRecords(rs: seq<LeaseRecord>, records: Records) {
    && (forall i :: 0 <= i < |rs| ==> ValidRecord(rs[i])) && DigestsDiffer(rs) && Lists(rs, records)
  }

  lemma OneMoreRecord(rs: seq<LeaseRecord>, records: Records, r: LeaseRecord)
    requires AreRecords(rs, records) && ValidRecord(r) && r.leaseDigest !in records
    ensures AreRecords(rs + [r], records[r.leaseDigest := r])
  {
    var all, more := rs + [r], records[r.leaseDigest := r];
    forall i | 0 <= i < |rs| ensures all[i] == rs[i] && rs[i].leaseDigest != r.leaseDigest {
    }
    forall k | k in more ensures more[k].leaseDigest == k && more[k] in all {
    }
  }

  /** The records that a list of values was loaded from. */
  lemma {:induction false} RecordsOf(values: seq<Json>) returns (rs: seq<LeaseRecord>)
    requires LoadRecords(values).Some?
    ensures values == Map(RecordJson, rs) && AreRecords(rs, LoadRecords(values).value)
  {
    if values == [] {
      return [];
    }
    var n := |values| - 1;
    LastLoaded(values);
    var r := RecordFrom(values[n]).value;
    RecordFromExact(values[n], r);
    var before := RecordsOf(values[..n]);
    OneMoreRecord(before, LoadRecords(values[..n]).value, r);
    OneMoreValue(RecordJson, before, r, values);
    rs := before + [r];
  }

  lemma LastLoaded(values: seq<Json>)
    requires values != [] && LoadRecords(values).Some?
    ensures var earlier, r := LoadRecords(values[..|values| - 1]), RecordFrom(values[|values| - 1]);
            && earlier.Some? && r.Some? && r.value.leaseDigest !in earlier.value
            && LoadRecords(values).value == earlier.value[r.value.leaseDigest := r.value]
  {
  }

  lemma OneMoreValue<T, U>(f: T -> U, before: seq<T>, x: T, values: seq<U>)
    requires |values| == |before| + 1 && values[..|before|] == Map(f, before) && values[|before|] == f(x)
    ensures values == Map(f, before + [x])
  {
    forall i | 0 <= i < |values| ensures values[i] == f((before + [x])[i]) {
      assert i < |before| ==> values[..|before|][i] == Map(f, before)[i];
    }
  }

  /** The file lists these records; the version is the number one, or the truth value that Python takes for it. */
  ghost predicate Holds(text: string, rs: seq<LeaseRecord>, version: Json) {
    && (version == Int(1) || version == Bool(true))
    && Parse(text) == Some(Obj(map["records" := Arr(Map(RecordJson, rs)), "version" := version]))
  }

  lemma LoadedHolds(text: string, maxRecords: int) returns (rs: seq<LeaseRecord>, version: Json)
    requires LoadState(text, maxRecords).Ok?
    ensures Holds(text, rs, version) && |rs| <= maxRecords && AreRecords(rs, LoadState(text, maxRecords).value)
  {
    var f := Parse(text).value.fields;
    version := f["version"];
    rs := RecordsOf(f["records"].items);
    assert f == map["records" := Arr(Map(RecordJson, rs)), "version" := version];
  }

  lemma HeldLoads(text: string, maxRecords: int, rs: seq<LeaseRecord>, version: Json, records: Records)
    requires |text| <= MAX_STATE_BYTES && Holds(text, rs, version) && |rs| <= maxRecords && AreRecords(rs, records)
    ensures LoadState(text, maxRecords) == Ok(records)
  {
    HeldRecords(rs, records);
  }

  lemma HeldRecords(rs: seq<LeaseRecord>, records: Records)
    requires AreRecords(rs, records)
    ensures |Map(RecordJson, rs)| == |rs| && LoadRecords(Map(RecordJson, rs)) == Some(records)
  {
    LoadRecordsOf(rs);
    ByDigestOf(rs, records);
  }

  /**
   A file loads exactly when it is within the size limit and lists, under the two field names and a version
   that equals one, valid records with different digests, in any order and not more than the limit.
   */
  lemma LoadExact(text: string, maxRecords: int, records: Records)
    ensures LoadState(text, maxRecords) == Ok(records) <==>
              && |text| <= MAX_STATE_BYTES
              && exists rs, version :: Holds(text, rs, version) && |rs| <= maxRecords && AreRecords(rs, records)
    ensures |text| > MAX_STATE_BYTES <==> LoadState(text, maxRecords) == Err(TooLarge)
    ensures LoadState(text, maxRecords).Err? && |text| <= MAX_STATE_BYTES ==>
              LoadState(text, maxRecords) == Err(Malformed)
  {
    if LoadState(text, maxRecords) == Ok(records) {
      var rs, version := LoadedHolds(text, maxRecords);
    }
    if |text| <= MAX_STATE_BYTES {
      forall rs, version | Holds(text, rs, version) && |rs| <= maxRecords && AreRecords(rs, records)
        ensures LoadState(text, maxRecords) == Ok(records)
      {
        HeldLoads(text, maxRecords, rs, version, records);
      }
    }
  }

  /** A new process holds the records of the file, or none when there is no file; otherwise it does not start. */
  lemma RestartExact(maxRecords: int, hasPath: bool, disk: Option<string>, st: State)
    ensures Restart(FileCodec(maxRecords), hasPath, disk) == Ok(st) <==>
              && st.disk == disk
              && (if hasPath && disk.Some?
                  then |disk.value| <= MAX_STATE_BYTES
                       && exists rs, version ::
                            Holds(disk.value, rs, version) && |rs| <= maxRecords && AreRecords(rs, st.memory)
                  else st.memory == map[])
  {
    if disk.Some? {
      LoadExact(disk.value, maxRecords, st.memory);
    }
  }
}
