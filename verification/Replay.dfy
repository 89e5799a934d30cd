/** The bounded replay cache: its rules, its state file and the object that updates both in place. */
module Replay {
  import opened Prelude
  import opened ByteStrings
  import opened JsonValues
  import opened JsonParser

  const STATE_VERSION := 1
  const MAX_STATE_BYTES := 4194304
  const KEY_DOMAIN := "gpuforge-replay-key-v1\0"
  const MAX_KEY_PART := 512
  const LIMIT_CEILING := 1000000

  datatype ReplayError =
    | LimitsOutOfRange
    | BlockOutOfRange
    | SequenceOutOfRange
    | AlreadyExpired
    | InvalidKey
    | AlreadyAccepted
    | EntriesFull
    | NotIncreasing
    | SequencesFull
    | NotPersisted
    | StateTooLarge
    | StateMalformed

  datatype Limits = Limits(maxEntries: int, maxSequences: int)

  /** The two dictionaries of the cache. */
  datatype Snapshot = Snapshot(entries: map<string, int>, sequences: map<string, int>)

  const EMPTY := Snapshot(map[], map[])

  predicate ValidLimits(limits: Limits) {
    1 <= limits.maxEntries <= LIMIT_CEILING && 1 <= limits.maxSequences <= LIMIT_CEILING
  }

  predicate InRange(n: int) {
    0 <= n <= MAX_INT63
  }

  function KeyInput(scope: string, token: string): Bytes {
    KEY_DOMAIN + (scope + ['\0'] + token)
  }

  /** `_cache_key`; `None` is the size violation. */
  function CacheKey(h: Sha256, scope: string, token: string): (key: Option<string>)
    ensures key.Some? ==> IsHex256(key.value)
  {
    if 1 <= |scope| <= MAX_KEY_PART && 1 <= |token| <= MAX_KEY_PART then Some(Hex(h(KeyInput(scope, token))))
    else None
  }

  /** `_purge`: forget what expired before `block`. */
  function Purge(entries: map<string, int>, block: int): map<string, int> {
    map k | k in entries && entries[k] >= block :: entries[k]
  }

  // ---------- the state file ----------

  ghost predicate WellFormedMap(m: map<string, int>, limit: int) {
    |m| <= limit && forall k :: k in m ==> IsHex256(k) && InRange(m[k])
  }

  ghost predicate WellFormed(s: Snapshot, limits: Limits) {
    WellFormedMap(s.entries, limits.maxEntries) && WellFormedMap(s.sequences, limits.maxSequences)
  }

  function IntegersJson(m: map<string, int>): Json {
    Obj(map k | k in m :: Int(m[k]))
  }

  function StateJson(s: Snapshot): Json {
    Obj(map[
      "entries" := IntegersJson(s.entries),
      "sequences" := IntegersJson(s.sequences),
      "version" := Int(STATE_VERSION)])
  }

  /** What `_persist` writes. */
  function StateText(s: Snapshot): string {
    Print(StateJson(s))
  }

  predicate IsStateValue(v: Json) {
    v.Int? && InRange(v.number)
  }

  /** `_state_map` */
  function StateMap(v: Json, limit: int): Option<map<string, int>> {
    if v.Obj? && |v.fields| <= limit
       && forall k :: k in v.fields ==> IsHex256(k) && IsStateValue(v.fields[k])
    then Some(map k | k in v.fields :: v.fields[k].number)
    else None
  }

  /** `_load`. The version test is Python's `!=`, under which `true` equals 1. */
  function LoadState(text: string, limits: Limits): Result<Snapshot, ReplayError> {
    if |text| > MAX_STATE_BYTES then Err(StateTooLarge)
    else
      match Parse(text)
      case None => Err(StateMalformed)
      case Some(raw) =>
        if !raw.Obj? || raw.fields.Keys != {"entries", "sequences", "version"} then Err(StateMalformed)
        else if raw.fields["version"] != Int(STATE_VERSION) && raw.fields["version"] != Bool(true) then
          Err(StateMalformed)
        else
          match (StateMap(raw.fields["entries"], limits.maxEntries),
                 StateMap(raw.fields["sequences"], limits.maxSequences))
          case (Some(entries), Some(sequences)) => Ok(Snapshot(entries, sequences))
          case _ => Err(StateMalformed)
  }

  lemma StateMapRoundTrip(m: map<string, int>, limit: int)
    requires WellFormedMap(m, limit)
    ensures StateMap(IntegersJson(m), limit) == Some(m)
  {
    var fields := IntegersJson(m).fields;
    assert fields.Keys == m.Keys;
    assert |fields| == |fields.Keys| && |m| == |m.Keys|;
    assert forall k :: k in fields ==> fields[k] == Int(m[k]);
    assert (map k | k in fields :: fields[k].number) == m;
  }

  lemma StateFields(s: Snapshot)
    ensures var fields := StateJson(s).fields;
            && fields.Keys == {"entries", "sequences", "version"}
            && fields["entries"] == IntegersJson(s.entries)
            && fields["sequences"] == IntegersJson(s.sequences)
            && fields["version"] == Int(STATE_VERSION)
  {
  }

  /** A written state is read back exactly, unless it is over the load limit. */
  lemma LoadUndoesPersist(s: Snapshot, limits: Limits)
    requires WellFormed(s, limits)
    ensures LoadState(StateText(s), limits)
         == if |StateText(s)| <= MAX_STATE_BYTES then Ok(s) else Err(StateTooLarge)
  {
    ParsePrintRoundTrip(StateJson(s));
    StateFields(s);
    StateMapRoundTrip(s.entries, limits.maxEntries);
    StateMapRoundTrip(s.sequences, limits.maxSequences);
  }

  lemma LoadedIsWellFormed(text: string, limits: Limits)
    ensures LoadState(text, limits).Ok? ==> WellFormed(LoadState(text, limits).value, limits)
  {
    if LoadState(text, limits).Ok? {
      var fields := Parse(text).value.fields;
      StateMapWellFormed(fields["entries"], limits.maxEntries);
      StateMapWellFormed(fields["sequences"], limits.maxSequences);
    }
  }

  lemma StateMapWellFormed(v: Json, limit: int)
    ensures StateMap(v, limit).Some? ==> WellFormedMap(StateMap(v, limit).value, limit)
  {
    if StateMap(v, limit).Some? {
      assert StateMap(v, limit).value.Keys == v.fields.Keys;
      assert |StateMap(v, limit).value| == |v.fields.Keys|;
    }
  }

  lemma StateMapExact(v: Json, limit: int, m: map<string, int>)
    ensures StateMap(v, limit) == Some(m) <==> WellFormedMap(m, limit) && v == IntegersJson(m)
  {
    if WellFormedMap(m, limit) && v == IntegersJson(m) {
      StateMapRoundTrip(m, limit);
    }
    if StateMap(v, limit) == Some(m) {
      StateMapWellFormed(v, limit);
      assert v.fields == IntegersJson(m).fields;
    }
  }

  /** The file of a state; the version is the number one, or the truth value that Python takes for it. */
  ghost predicate Holds(text: string, s: Snapshot, version: Json) {
    && (version == Int(1) || version == Bool(true))
    && Parse(text) == Some(Obj(map[
         "entries" := IntegersJson(s.entries), "sequences" := IntegersJson(s.sequences), "version" := version]))
  }

  /**
   A file loads exactly when it is within the size limit and holds a well-formed state under the three field
   names and a version that equals one; a file over the limit is told apart from every other refusal.
   */
  lemma LoadExact(text: string, limits: Limits, s: Snapshot)
    ensures LoadState(text, limits) == Ok(s) <==>
              && |text| <= MAX_STATE_BYTES && WellFormed(s, limits)
              && (Holds(text, s, Int(1)) || Holds(text, s, Bool(true)))
    ensures |text| > MAX_STATE_BYTES <==> LoadState(text, limits) == Err(StateTooLarge)
    ensures LoadState(text, limits).Err? && |text| <= MAX_STATE_BYTES ==>
              LoadState(text, limits) == Err(StateMalformed)
  {
    if Parse(text).Some? && Parse(text).value.Obj?
       && Parse(text).value.fields.Keys == {"entries", "sequences", "version"} {
      var fields := Parse(text).value.fields;
      StateMapExact(fields["entries"], limits.maxEntries, s.entries);
      StateMapExact(fields["sequences"], limits.maxSequences, s.sequences);
      assert fields == map[
        "entries" := fields["entries"], "sequences" := fields["sequences"], "version" := fields["version"]];
    }
  }

  // ---------- the rules as functions of the state ----------

  /** Memory and state file; `disk` is `None` when nothing was ever written. */
  datatype State = State(memory: Snapshot, disk: Option<string>)

  /** The request for one token, with the keys already computed. */
  datatype Request = Request(
    entryKey: Option<string>, block: int, expiry: int,
    sequenceKey: Option<Option<string>>, sequence: int)

  /**
   Why the token and, if one is given, the sequence number are refused; `None` means nothing is
   wrong. `live` is what the purge leaves.
   */
  function Refusal(limits: Limits, live: map<string, int>, sequences: map<string, int>,
                   r: Request): Option<ReplayError>
  {
    if r.entryKey.None? || r.sequenceKey == Some(None) then Some(InvalidKey)
    else if r.entryKey.value in live then Some(AlreadyAccepted)
    else if r.sequenceKey.None? then
      if |live| >= limits.maxEntries then Some(EntriesFull) else None
    else
      var key := r.sequenceKey.value.value;
      if key in sequences && r.sequence <= sequences[key] then Some(NotIncreasing)
      else if |live| >= limits.maxEntries then Some(EntriesFull)
      else if key !in sequences && |sequences| >= limits.maxSequences then Some(SequencesFull)
      else None
  }

  /** The arguments are refused before anything is touched. */
  function BadArguments(r: Request): Option<ReplayError> {
    if !InRange(r.block) || !InRange(r.expiry) then Some(BlockOutOfRange)
    else if r.sequenceKey.Some? && !InRange(r.sequence) then Some(SequenceOutOfRange)
    else if r.expiry < r.block then Some(AlreadyExpired)
    else None
  }

  function Admit(s: Snapshot, r: Request): Snapshot
    requires r.entryKey.Some? && r.sequenceKey != Some(None)
  {
    var entries := Purge(s.entries, r.block)[r.entryKey.value := r.expiry];
    if r.sequenceKey.None? then Snapshot(entries, s.sequences)
    else Snapshot(entries, s.sequences[r.sequenceKey.value.value := r.sequence])
  }

  /** Writing succeeds unless there is a path and the file system fails; then the file is unchanged. */
  function Written(hasPath: bool, diskOk: bool, st: State, next: Snapshot): Option<State> {
    if !hasPath then Some(State(next, st.disk))
    else if diskOk then Some(State(next, Some(StateText(next))))
    else None
  }

  /**
   `accept_once` (no sequence) and `accept_once_with_sequence`: the outcome, with `None` for
   acceptance, and the state afterwards. A refused `accept_once` keeps its purge; a refused
   `accept_once_with_sequence` puts everything back.
   */
  function AcceptToken(limits: Limits, hasPath: bool, diskOk: bool, st: State, r: Request)
    : (result: (Option<ReplayError>, State))
  {
    if BadArguments(r).Some? then (BadArguments(r), st)
    else
      var live := Purge(st.memory.entries, r.block);
      var refused := if r.sequenceKey.None? then st.(memory := st.memory.(entries := live)) else st;
      var refusal := Refusal(limits, live, st.memory.sequences, r);
      if refusal.Some? then (refusal, refused)
      else
        match Written(hasPath, diskOk, st, Admit(st.memory, r))
        case Some(next) => (None, next)
        case None => (Some(NotPersisted), refused)
  }

  /** `accept_sequence` */
  function AcceptSequence(limits: Limits, hasPath: bool, diskOk: bool, st: State,
                          key: Option<string>, sequence: int): (result: (Option<ReplayError>, State))
  {
    if !InRange(sequence) then (Some(SequenceOutOfRange), st)
    else if key.None? then (Some(InvalidKey), st)
    else if key.value in st.memory.sequences && sequence <= st.memory.sequences[key.value] then
      (Some(NotIncreasing), st)
    else if key.value !in st.memory.sequences && |st.memory.sequences| >= limits.maxSequences then
      (Some(SequencesFull), st)
    else
      match Written(hasPath, diskOk, st,
                    st.memory.(sequences := st.memory.sequences[key.value := sequence]))
      case Some(next) => (None, next)
      case None => (Some(NotPersisted), st)
  }

  /** A new process: `__init__` with the same limits and path. */
  function Restart(limits: Limits, hasPath: bool, disk: Option<string>): Result<State, ReplayError> {
    if !hasPath || disk.None? then Ok(State(EMPTY, disk))
    else
      match LoadState(disk.value, limits)
      case Ok(s) => Ok(State(s, disk))
      case Err(e) => Err(e)
  }

  /** A new process holds what the file holds, or nothing when there is no file; otherwise it does not start. */
  lemma RestartExact(limits: Limits, hasPath: bool, disk: Option<string>, st: State)
    ensures Restart(limits, hasPath, disk) == Ok(st) <==>
              && st.disk == disk
              && (if hasPath && disk.Some?
                  then |disk.value| <= MAX_STATE_BYTES && WellFormed(st.memory, limits)
                       && (Holds(disk.value, st.memory, Int(1)) || Holds(disk.value, st.memory, Bool(true)))
                  else st.memory.entries == map[] && st.memory.sequences == map[])
  {
    if disk.Some? {
      LoadExact(disk.value, limits, st.memory);
    }
  }

  // ---------- the object ----------

  /** The state file, which outlives the cache object. */
  class StateFile {
    var text: Option<string>

    constructor (text: Option<string>)
      ensures this.text == text
    {
      this.text := text;
    }
  }

  class ReplayCache {
    const h: Sha256
    const file: StateFile?
    const limits: Limits
    var entries: map<string, int>
    var sequences: map<string, int>

    ghost function Contents(): State
      reads this, file
    {
      State(Snapshot(entries, sequences), if file == null then None else file.text)
    }

    constructor Empty(h: Sha256, file: StateFile?, limits: Limits)
      ensures this.h == h && this.file == file && this.limits == limits
      ensures entries == map[] && sequences == map[]
    {
      this.h, this.file, this.limits := h, file, limits;
      entries, sequences := map[], map[];
    }

    /** A new cache on a state file, or in memory only. */
    static method Open(h: Sha256, file: StateFile?, limits: Limits)
      returns (r: Result<ReplayCache, ReplayError>)
      ensures r.Ok? ==> fresh(r.value) && r.value.limits == limits && r.value.file == file && r.value.h == h
      ensures !ValidLimits(limits) ==> r == Err(LimitsOutOfRange)
      ensures ValidLimits(limits) ==>
                match Restart(limits, file != null, if file == null then None else file.text)
                case Ok(st) => r.Ok? && r.value.Contents() == st
                case Err(e) => r == Err(e)
    {
      if !ValidLimits(limits) {
        return Err(LimitsOutOfRange);
      }
      var cache := new ReplayCache.Empty(h, file, limits);
      if file != null && file.text.Some? {
        var loaded := LoadState(file.text.value, limits);
        if loaded.Err? {
          return Err(loaded.error);
        }
        cache.entries := loaded.value.entries;
        cache.sequences := loaded.value.sequences;
      }
      return Ok(cache);
    }

    method AcceptOnce(scope: string, token: string, currentBlock: int, expiresAtBlock: int, diskOk: bool)
      returns (error: Option<ReplayError>)
      modifies this, file
      ensures (error, Contents())
           == AcceptToken(limits, file != null, diskOk, old(Contents()),
                          Request(CacheKey(h, scope, token), currentBlock, expiresAtBlock, None, 0))
    {
      if !InRange(currentBlock) || !InRange(expiresAtBlock) {
        return Some(BlockOutOfRange);
      }
      if expiresAtBlock < currentBlock {
        return Some(AlreadyExpired);
      }
      PurgeExpired(currentBlock);
      var key := CacheKey(h, scope, token);
      if key.None? {
        return Some(InvalidKey);
      }
      if key.value in entries {
        return Some(AlreadyAccepted);
      }
      if |entries| >= limits.maxEntries {
        return Some(EntriesFull);
      }
      var entriesBefore := entries;
      entries := entries[key.value := expiresAtBlock];
      error := Persist(diskOk);
      if error.Some? {
        entries := entriesBefore;
      }
    }

    method AcceptSequenceNumber(scope: string, sequence: int, diskOk: bool)
      returns (error: Option<ReplayError>)
      modifies this, file
      ensures (error, Contents())
           == AcceptSequence(limits, file != null, diskOk, old(Contents()),
                             CacheKey(h, "sequence", scope), sequence)
    {
      if !InRange(sequence) {
        return Some(SequenceOutOfRange);
      }
      var key := CacheKey(h, "sequence", scope);
      if key.None? {
        return Some(InvalidKey);
      }
      var known := key.value in sequences;
      if known && sequence <= sequences[key.value] {
        return Some(NotIncreasing);
      }
      if !known && |sequences| >= limits.maxSequences {
        return Some(SequencesFull);
      }
      var sequencesBefore := sequences;
      sequences := sequences[key.value := sequence];
      error := Persist(diskOk);
      if error.Some? {
        sequences := sequencesBefore;
      }
    }

    method AcceptOnceWithSequence(scope: string, token: string, currentBlock: int, expiresAtBlock: int,
                                  sequenceScope: string, sequence: int, diskOk: bool)
      returns (error: Option<ReplayError>)
      modifies this, file
      ensures (error, Contents())
           == AcceptToken(limits, file != null, diskOk, old(Contents()),
                          Request(CacheKey(h, scope, token), currentBlock, expiresAtBlock,
                                  Some(CacheKey(h, "sequence", sequenceScope)), sequence))
    {
      if !InRange(currentBlock) || !InRange(expiresAtBlock) {
        return Some(BlockOutOfRange);
      }
      if !InRange(sequence) {
        return Some(SequenceOutOfRange);
      }
      if expiresAtBlock < currentBlock {
        return Some(AlreadyExpired);
      }
      var entriesBefore, sequencesBefore := entries, sequences;
      PurgeExpired(currentBlock);
      error := TryAdmit(CacheKey(h, scope, token), CacheKey(h, "sequence", sequenceScope),
                        expiresAtBlock, sequence, diskOk);
      if error.Some? {
        entries := entriesBefore;
        sequences := sequencesBefore;
      }
    }

    /** The body of the `try` block of `accept_once_with_sequence`, after the purge. */
    method TryAdmit(entryKey: Option<string>, sequenceKey: Option<string>, expiry: int, sequence: int, diskOk: bool)
      returns (error: Option<ReplayError>)
      modifies this, file
      ensures error.Some? ==> Contents().disk == old(Contents().disk)
      ensures var r := Request(entryKey, 0, expiry, Some(sequenceKey), sequence);
              var refusal := Refusal(limits, old(entries), old(sequences), r);
              if refusal.Some? then error == refusal
              else if file != null && !diskOk then error == Some(NotPersisted)
              else error == None && entries == old(entries)[entryKey.value := expiry]
                   && sequences == old(sequences)[sequenceKey.value := sequence]
                   && Contents().disk == (if file == null then None
                                          else Some(StateText(Snapshot(entries, sequences))))
    {
      if entryKey.None? || sequenceKey.None? {
        return Some(InvalidKey);
      }
      if entryKey.value in entries {
        return Some(AlreadyAccepted);
      }
      var known := sequenceKey.value in sequences;
      if known && sequence <= sequences[sequenceKey.value] {
        return Some(NotIncreasing);
      }
      if |entries| >= limits.maxEntries {
        return Some(EntriesFull);
      }
      if !known && |sequences| >= limits.maxSequences {
        return Some(SequencesFull);
      }
      entries := entries[entryKey.value := expiry];
      sequences := sequences[sequenceKey.value := sequence];
      error := Persist(diskOk);
    }

    method PurgeExpired(currentBlock: int)
      modifies this`entries
      ensures entries == Purge(old(entries), currentBlock)
    {
      entries := map k | k in entries && entries[k] >= currentBlock :: entries[k];
    }

    /** `_persist`; `diskOk` says whether the temporary file could be written and moved into place. */
    method Persist(diskOk: bool) returns (error: Option<ReplayError>)
      modifies file
      ensures file == null ==> error == None
      ensures file != null && diskOk ==>
                error == None && file.text == Some(StateText(Snapshot(entries, sequences)))
      ensures file != null && !diskOk ==> error == Some(NotPersisted) && file.text == old(file.text)
    {
      if file == null {
        return None;
      }
      if !diskOk {
        return Some(NotPersisted);
      }
      file.text := Some(StateText(Snapshot(entries, sequences)));
      return None;
    }
  }
}
