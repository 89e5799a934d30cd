/**
 What the replay cache guarantees over whole runs: requests, sequence numbers, failed writes and
 restarts from the state file, in any order, as long as the block numbers do not go backwards.

 The yardstick is a reference cache that never forgets anything.
 */
module ReplayRuns {
  import opened Prelude
  import opened ByteStrings
  import opened Replay

  // ---------- one call ----------

  /** The keys of a request are digests or invalid, as `CacheKey` computes them. */
  ghost predicate ValidKeys(r: Request) {
    && (r.entryKey.Some? ==> IsHex256(r.entryKey.value))
    && (r.sequenceKey.Some? && r.sequenceKey.value.Some? ==> IsHex256(r.sequenceKey.value.value))
  }

  /** A refused call changes no sequence number, no unexpired token and not the state file. */
  lemma RefusalChangesNothing(limits: Limits, hasPath: bool, diskOk: bool, st: State, r: Request)
    requires AcceptToken(limits, hasPath, diskOk, st, r).0.Some?
    ensures var next := AcceptToken(limits, hasPath, diskOk, st, r).1;
            && next.memory.sequences == st.memory.sequences
            && Purge(next.memory.entries, r.block) == Purge(st.memory.entries, r.block)
            && (forall k :: k in next.memory.entries ==>
                  k in st.memory.entries && next.memory.entries[k] == st.memory.entries[k])
            && next.disk == st.disk
            && (r.sequenceKey.Some? ==> next == st)
  {
  }

  /**
   A call is accepted exactly when its arguments are in range, its token is not active, its sequence
   number is new and larger than the last one, there is room, and the state can be written. Then the
   token is active, every other active token is kept, and the file holds the new memory.
   */
  lemma AcceptanceExact(limits: Limits, hasPath: bool, diskOk: bool, st: State, r: Request)
    ensures var (error, next) := AcceptToken(limits, hasPath, diskOk, st, r);
            var live := Purge(st.memory.entries, r.block);
            && (error.None? <==>
                  && InRange(r.block) && InRange(r.expiry) && r.block <= r.expiry
                  && r.entryKey.Some? && r.entryKey.value !in live
                  && |live| < limits.maxEntries
                  && (r.sequenceKey.Some? ==>
                        && InRange(r.sequence) && r.sequenceKey.value.Some?
                        && var key := r.sequenceKey.value.value;
                           if key in st.memory.sequences then st.memory.sequences[key] < r.sequence
                           else |st.memory.sequences| < limits.maxSequences)
                  && (hasPath ==> diskOk))
            && (error.None? ==>
                  && next.memory == Admit(st.memory, r)
                  && Purge(next.memory.entries, r.block) == live[r.entryKey.value := r.expiry]
                  && (hasPath ==> next.disk == Some(StateText(next.memory))))
  {
    var (error, next) := AcceptToken(limits, hasPath, diskOk, st, r);
    if error.None? {
      assert Purge(next.memory.entries, r.block) == next.memory.entries;
    }
  }

  /** Which error refuses a token: the first of these that applies. */
  lemma RefusalExact(limits: Limits, hasPath: bool, diskOk: bool, st: State, r: Request)
    ensures var error := AcceptToken(limits, hasPath, diskOk, st, r).0;
            var live, held := Purge(st.memory.entries, r.block), st.memory.sequences;
            && (error == Some(BlockOutOfRange) <==> !InRange(r.block) || !InRange(r.expiry))
            && (error == Some(SequenceOutOfRange) <==>
                  InRange(r.block) && InRange(r.expiry) && r.sequenceKey.Some? && !InRange(r.sequence))
            && (error == Some(AlreadyExpired) <==>
                  && InRange(r.block) && InRange(r.expiry) && (r.sequenceKey.Some? ==> InRange(r.sequence))
                  && r.expiry < r.block)
            && (error == Some(InvalidKey) <==>
                  BadArguments(r).None? && (r.entryKey.None? || r.sequenceKey == Some(None)))
            && (error == Some(AlreadyAccepted) <==> HasKeys(r) && r.entryKey.value in live)
            && (error == Some(NotIncreasing) <==>
                  && HasKeys(r) && r.entryKey.value !in live && r.sequenceKey.Some?
                  && r.sequenceKey.value.value in held && r.sequence <= held[r.sequenceKey.value.value])
            && (error == Some(EntriesFull) <==>
                  && HasKeys(r) && r.entryKey.value !in live && GrowsSequence(held, r) && |live| >= limits.maxEntries)
            && (error == Some(SequencesFull) <==>
                  && HasKeys(r) && r.entryKey.value !in live && |live| < limits.maxEntries && r.sequenceKey.Some?
                  && r.sequenceKey.value.value !in held && |held| >= limits.maxSequences)
  {
  }

  /** The arguments are in order and the keys exist. */
  predicate HasKeys(r: Request) {
    BadArguments(r).None? && r.entryKey.Some? && r.sequenceKey != Some(None)
  }

  /** The request carries no sequence number, or one that is larger than the one that is held. */
  predicate GrowsSequence(held: map<string, int>, r: Request)
    requires HasKeys(r)
  {
    r.sequenceKey.Some? && r.sequenceKey.value.value in held ==> held[r.sequenceKey.value.value] < r.sequence
  }

  /** A refused sequence number changes nothing. */
  lemma NumberRefusalChangesNothing(limits: Limits, hasPath: bool, diskOk: bool, st: State, key: Option<string>,
                                    number: int)
    requires AcceptSequence(limits, hasPath, diskOk, st, key, number).0.Some?
    ensures AcceptSequence(limits, hasPath, diskOk, st, key, number).1 == st
  {
  }

  /**
   A sequence number is accepted exactly when it is in range and larger than the last one of its scope,
   or there is room for a new scope, and the state can be written. Then it is the last one, every other
   number and every token is kept, and the file holds the new memory.
   */
  lemma NumberAcceptanceExact(limits: Limits, hasPath: bool, diskOk: bool, st: State, key: Option<string>, number: int)
    ensures var (error, next) := AcceptSequence(limits, hasPath, diskOk, st, key, number);
            var sequences := st.memory.sequences;
            && (error.None? <==>
                  && InRange(number) && key.Some?
                  && (if key.value in sequences then sequences[key.value] < number
                      else |sequences| < limits.maxSequences)
                  && (hasPath ==> diskOk))
            && (error.None? ==>
                  && next.memory.entries == st.memory.entries
                  && next.memory.sequences == sequences[key.value := number]
                  && (hasPath ==> next.disk == Some(StateText(next.memory))))
  {
  }

  lemma PurgeTwice(entries: map<string, int>, b: int, c: int)
    requires b <= c
    ensures Purge(Purge(entries, b), c) == Purge(entries, c)
  {
  }

  lemma PurgeFits(m: map<string, int>, block: int, limit: int)
    requires WellFormedMap(m, limit)
    ensures WellFormedMap(Purge(m, block), limit)
  {
    assert Purge(m, block).Keys <= m.Keys;
    SubsetSize(Purge(m, block).Keys, m.Keys);
  }

  lemma SubsetSize<T>(a: set<T>, b: set<T>)
    requires a <= b
    ensures |a| <= |b|
  {
    assert b == a + (b - a);
  }

  // ---------- runs ----------

  datatype Operation =
    | Token(request: Request, tokenDisk: bool)
    | Number(key: Option<string>, number: int, numberDisk: bool)
    | Reopen
    | Idle

  /** A running cache, or the reason why the last restart refused the state file. */
  type World = Result<State, ReplayError>

  datatype Setup = Setup(limits: Limits, hasPath: bool)

  function Step(c: Setup, w: World, op: Operation): (Option<ReplayError>, World) {
    if w.Err? then (Some(w.error), w)
    else
      match op
      case Token(r, diskOk) =>
        var (error, next) := AcceptToken(c.limits, c.hasPath, diskOk, w.value, r);
        (error, Ok(next))
      case Number(key, number, diskOk) =>
        var (error, next) := AcceptSequence(c.limits, c.hasPath, diskOk, w.value, key, number);
        (error, Ok(next))
      case Reopen => (None, Restart(c.limits, c.hasPath, w.value.disk))
      case Idle => (None, w)
  }

  function After(c: Setup, w: World, ops: seq<Operation>): World {
    if ops == [] then w else Step(c, After(c, w, ops[..|ops| - 1]), ops[|ops| - 1]).1
  }

  /** Call number `i` of the run is made and accepted. */
  ghost predicate Accepted(c: Setup, w: World, ops: seq<Operation>, i: nat)
    requires i < |ops|
  {
    (ops[i].Token? || ops[i].Number?) && Step(c, After(c, w, ops[..i]), ops[i]).0.None?
  }

  /** Blocks never go backwards. */
  ghost predicate Monotonic(ops: seq<Operation>, from: int) {
    && (forall i :: 0 <= i < |ops| && ops[i].Token? ==> from <= ops[i].request.block)
    && (forall i, j :: 0 <= i < j < |ops| && ops[i].Token? && ops[j].Token? ==>
          ops[i].request.block <= ops[j].request.block)
  }

  ghost predicate KeysValid(ops: seq<Operation>) {
    forall i :: 0 <= i < |ops| ==>
      && (ops[i].Token? ==> ValidKeys(ops[i].request))
      && (ops[i].Number? && ops[i].key.Some? ==> IsHex256(ops[i].key.value))
  }

  /** The block of the latest token request, or `from`. */
  function LastBlock(ops: seq<Operation>, from: int): int {
    if ops == [] then from
    else if ops[|ops| - 1].Token? then ops[|ops| - 1].request.block
    else LastBlock(ops[..|ops| - 1], from)
  }

  // ---------- the reference cache that never forgets ----------

  function Remember(seen: Snapshot, op: Operation): Snapshot {
    if op.Token? && op.request.entryKey.Some? && op.request.sequenceKey != Some(None) then
      var r := op.request;
      Snapshot(seen.entries[r.entryKey.value := r.expiry],
               if r.sequenceKey.None? then seen.sequences
               else seen.sequences[r.sequenceKey.value.value := r.sequence])
    else if op.Number? && op.key.Some? then
      seen.(sequences := seen.sequences[op.key.value := op.number])
    else seen
  }

  /** Every accepted token with its latest expiry and every accepted sequence number. */
  ghost function Reference(c: Setup, w: World, seen: Snapshot, ops: seq<Operation>): Snapshot {
    if ops == [] then seen
    else
      var before := Reference(c, w, seen, ops[..|ops| - 1]);
      if Accepted(c, w, ops, |ops| - 1) then Remember(before, ops[|ops| - 1]) else before
  }

  ghost predicate SameLive(a: Snapshot, b: Snapshot, block: int) {
    Purge(a.entries, block) == Purge(b.entries, block) && a.sequences == b.sequences
  }

  /** Memory and state file agree with the reference on everything that has not expired at `block`. */
  ghost predicate Faithful(c: Setup, st: State, seen: Snapshot, block: int) {
    && SameLive(st.memory, seen, block)
    && WellFormed(st.memory, c.limits)
    && (c.hasPath ==>
          if st.disk.None? then seen == EMPTY
          else exists saved :: WellFormed(saved, c.limits) && st.disk == Some(StateText(saved))
                               && SameLive(saved, seen, block))
  }

  lemma FaithfulLater(c: Setup, st: State, seen: Snapshot, b: int, block: int)
    requires Faithful(c, st, seen, b) && b <= block
    ensures Faithful(c, st, seen, block)
  {
    SameLiveLater(st.memory, seen, b, block);
    if c.hasPath && st.disk.Some? {
      var saved :| WellFormed(saved, c.limits) && st.disk == Some(StateText(saved)) && SameLive(saved, seen, b);
      SameLiveLater(saved, seen, b, block);
    }
  }

  lemma SameLiveLater(x: Snapshot, y: Snapshot, b: int, block: int)
    requires SameLive(x, y, b) && b <= block
    ensures SameLive(x, y, block)
  {
    PurgeTwice(x.entries, b, block);
    PurgeTwice(y.entries, b, block);
  }

  lemma PurgeAdd(m: map<string, int>, key: string, value: int, block: int)
    requires value >= block
    ensures Purge(m[key := value], block) == Purge(m, block)[key := value]
    ensures Purge(Purge(m, block)[key := value], block) == Purge(m, block)[key := value]
  {
  }

  lemma AddFits(m: map<string, int>, key: string, value: int, limit: int)
    requires WellFormedMap(m, limit) && (key in m || |m| < limit)
    requires IsHex256(key) && InRange(value)
    ensures WellFormedMap(m[key := value], limit)
  {
    var n := m[key := value];
    assert n.Keys == m.Keys + {key};
    if key in m {
      assert n.Keys == m.Keys;
    }
  }

  lemma AdmitRemembers(m: Snapshot, seen: Snapshot, r: Request, diskOk: bool, limits: Limits)
    requires SameLive(m, seen, r.block) && WellFormed(m, limits) && ValidKeys(r)
    requires r.entryKey.Some? && r.sequenceKey != Some(None)
    requires BadArguments(r).None?
    requires Refusal(limits, Purge(m.entries, r.block), m.sequences, r).None?
    ensures SameLive(Admit(m, r), Remember(seen, Token(r, diskOk)), r.block)
    ensures WellFormed(Admit(m, r), limits)
  {
    PurgeFits(m.entries, r.block, limits.maxEntries);
    AddFits(Purge(m.entries, r.block), r.entryKey.value, r.expiry, limits.maxEntries);
    PurgeAdd(m.entries, r.entryKey.value, r.expiry, r.block);
    PurgeAdd(seen.entries, r.entryKey.value, r.expiry, r.block);
    if r.sequenceKey.Some? {
      AddFits(m.sequences, r.sequenceKey.value.value, r.sequence, limits.maxSequences);
    }
  }

  lemma TokenStaysFaithful(c: Setup, st: State, seen: Snapshot, block: int, r: Request, diskOk: bool)
    requires Faithful(c, st, seen, block) && block <= r.block && ValidKeys(r)
    ensures var (error, next) := AcceptToken(c.limits, c.hasPath, diskOk, st, r);
            Faithful(c, next, if error.None? then Remember(seen, Token(r, diskOk)) else seen, r.block)
  {
    FaithfulLater(c, st, seen, block, r.block);
    var (error, next) := AcceptToken(c.limits, c.hasPath, diskOk, st, r);
    if error.None? {
      AdmitRemembers(st.memory, seen, r, diskOk, c.limits);
      assert next.memory == Admit(st.memory, r);
    } else {
      RefusalChangesNothing(c.limits, c.hasPath, diskOk, st, r);
      PurgeFits(st.memory.entries, r.block, c.limits.maxEntries);
    }
  }

  lemma NumberStaysFaithful(c: Setup, st: State, seen: Snapshot, block: int, key: Option<string>,
                            number: int, diskOk: bool)
    requires Faithful(c, st, seen, block) && (key.Some? ==> IsHex256(key.value))
    ensures var (error, next) := AcceptSequence(c.limits, c.hasPath, diskOk, st, key, number);
            Faithful(c, next, if error.None? then Remember(seen, Number(key, number, diskOk)) else seen, block)
  {
    var (error, next) := AcceptSequence(c.limits, c.hasPath, diskOk, st, key, number);
    if error.None? {
      AddFits(st.memory.sequences, key.value, number, c.limits.maxSequences);
      assert WellFormed(next.memory, c.limits);
    }
  }

  lemma RestartStaysFaithful(c: Setup, st: State, seen: Snapshot, block: int)
    requires Faithful(c, st, seen, block) && c.hasPath
    ensures Restart(c.limits, true, st.disk).Ok? ==>
              Faithful(c, Restart(c.limits, true, st.disk).value, seen, block)
  {
    if st.disk.Some? {
      var saved :| WellFormed(saved, c.limits) && st.disk == Some(StateText(saved)) && SameLive(saved, seen, block);
      LoadUndoesPersist(saved, c.limits);
    } else {
      assert |EMPTY.entries| == 0 && |EMPTY.sequences| == 0;
      assert c.limits.maxEntries >= 0 && c.limits.maxSequences >= 0;
    }
  }

  /** Runs that restart need a state file to restart from. */
  ghost predicate Durable(c: Setup, ops: seq<Operation>) {
    c.hasPath || forall i :: 0 <= i < |ops| ==> !ops[i].Reopen?
  }

  /** What the reference remembers after one more operation. */
  ghost function Recall(c: Setup, w: World, seen: Snapshot, op: Operation): Snapshot {
    if (op.Token? || op.Number?) && Step(c, w, op).0.None? then Remember(seen, op) else seen
  }

  lemma StepStaysFaithful(c: Setup, st: State, seen: Snapshot, block: int, op: Operation)
    requires Faithful(c, st, seen, block) && KeysValid([op]) && (op.Reopen? ==> c.hasPath)
    requires op.Token? ==> block <= op.request.block
    ensures Step(c, Ok(st), op).1.Ok? ==>
              Faithful(c, Step(c, Ok(st), op).1.value, Recall(c, Ok(st), seen, op),
                       if op.Token? then op.request.block else block)
  {
    assert op == [op][0];
    match op
    case Token(request, diskOk) => TokenStaysFaithful(c, st, seen, block, request, diskOk);
    case Number(key, number, diskOk) => NumberStaysFaithful(c, st, seen, block, key, number, diskOk);
    case Reopen => RestartStaysFaithful(c, st, seen, block);
    case Idle =>
  }

  lemma RunStep(c: Setup, w: World, seen: Snapshot, before: seq<Operation>, op: Operation, from: int)
    ensures var ops := before + [op];
            && After(c, w, ops) == Step(c, After(c, w, before), op).1
            && Reference(c, w, seen, ops) == Recall(c, After(c, w, before), Reference(c, w, seen, before), op)
            && LastBlock(ops, from) == if op.Token? then op.request.block else LastBlock(before, from)
  {
    assert (before + [op])[..|before|] == before;
  }

  /**
   Over any run, as long as the cache is up, its live tokens and its sequence numbers, in memory and
   in the state file, are exactly those of the cache that never forgets: purging, failed writes and
   restarts lose nothing that is still active.
   */
  lemma {:induction false} CacheIsReference(c: Setup, st: State, seen: Snapshot, ops: seq<Operation>, from: int)
    requires Faithful(c, st, seen, from)
    requires Monotonic(ops, from) && KeysValid(ops) && Durable(c, ops)
    ensures After(c, Ok(st), ops).Ok? ==>
              Faithful(c, After(c, Ok(st), ops).value, Reference(c, Ok(st), seen, ops), LastBlock(ops, from))
  {
    if ops != [] {
      var n := |ops| - 1;
      var before, op := ops[..n], ops[n];
      assert ops == before + [op];
      PrefixOfRun(c, ops, n, from);
      CacheIsReference(c, st, seen, before, from);
      RunStep(c, Ok(st), seen, before, op, from);
      var w := After(c, Ok(st), before);
      if w.Ok? {
        if op.Token? {
          LastBlockBound(before, from, op.request.block);
        }
        StepStaysFaithful(c, w.value, Reference(c, Ok(st), seen, before), LastBlock(before, from), op);
      }
    }
  }

  lemma PrefixOfRun(c: Setup, ops: seq<Operation>, n: nat, from: int)
    requires n <= |ops|
    ensures Monotonic(ops, from) ==> Monotonic(ops[..n], from)
    ensures KeysValid(ops) ==> KeysValid(ops[..n])
    ensures Durable(c, ops) ==> Durable(c, ops[..n])
  {
  }

  lemma {:induction false} LastBlockBound(ops: seq<Operation>, from: int, bound: int)
    requires from <= bound && forall i :: 0 <= i < |ops| && ops[i].Token? ==> ops[i].request.block <= bound
    ensures LastBlock(ops, from) <= bound
  {
    if ops != [] {
      LastBlockBound(ops[..|ops| - 1], from, bound);
    }
  }

  /**
   Reloading the state file and purging gives what purging memory gives, at any later block; only a
   file over the load limit is refused.
   */
  lemma ReloadEqualsMemory(c: Setup, st: State, seen: Snapshot, ops: seq<Operation>, from: int, block: int)
    requires Faithful(c, st, seen, from) && c.hasPath
    requires Monotonic(ops, from) && KeysValid(ops)
    requires After(c, Ok(st), ops).Ok? && LastBlock(ops, from) <= block
    ensures var end := After(c, Ok(st), ops).value;
            var reloaded := Restart(c.limits, true, end.disk);
            && (reloaded.Ok? <==> end.disk.None? || |end.disk.value| <= MAX_STATE_BYTES)
            && (reloaded.Ok? ==> SameLive(reloaded.value.memory, end.memory, block))
  {
    CacheIsReference(c, st, seen, ops, from);
    var end, r := After(c, Ok(st), ops).value, Reference(c, Ok(st), seen, ops);
    RestartStaysFaithful(c, end, r, LastBlock(ops, from));
    SameLiveLater(end.memory, r, LastBlock(ops, from), block);
    if end.disk.Some? {
      var saved :| WellFormed(saved, c.limits) && end.disk == Some(StateText(saved));
      LoadUndoesPersist(saved, c.limits);
    }
    if Restart(c.limits, true, end.disk).Ok? {
      SameLiveLater(Restart(c.limits, true, end.disk).value.memory, r, LastBlock(ops, from), block);
    }
  }

  // ---------- tokens ----------

  /** An accepted token replaces an older one only after that one has expired. */
  lemma AcceptedTokenIsLater(c: Setup, st: State, seen: Snapshot, block: int, r: Request, diskOk: bool)
    requires Faithful(c, st, seen, block) && block <= r.block
    requires AcceptToken(c.limits, c.hasPath, diskOk, st, r).0.None?
    ensures r.entryKey.Some?
    ensures r.entryKey.value in seen.entries ==> seen.entries[r.entryKey.value] < r.block <= r.expiry
  {
    FaithfulLater(c, st, seen, block, r.block);
    AcceptanceExact(c.limits, c.hasPath, diskOk, st, r);
    assert r.entryKey.value !in Purge(seen.entries, r.block);
  }

  /** `AlreadyAccepted` says exactly that the reference remembers the key with an unexpired token. */
  lemma AlreadyAcceptedIsTrue(c: Setup, st: State, seen: Snapshot, block: int, r: Request, diskOk: bool)
    requires Faithful(c, st, seen, block) && block <= r.block
    requires BadArguments(r).None? && r.entryKey.Some? && r.sequenceKey != Some(None)
    ensures AcceptToken(c.limits, c.hasPath, diskOk, st, r).0 == Some(AlreadyAccepted)
       <==> r.entryKey.value in seen.entries && r.block <= seen.entries[r.entryKey.value]
  {
    FaithfulLater(c, st, seen, block, r.block);
    assert r.entryKey.value in Purge(seen.entries, r.block)
      <==> r.entryKey.value in seen.entries && r.block <= seen.entries[r.entryKey.value];
  }

  ghost predicate Grows(x: map<string, int>, y: map<string, int>) {
    forall k :: k in x ==> k in y && x[k] <= y[k]
  }

  lemma GrowsTransitive(x: map<string, int>, y: map<string, int>, z: map<string, int>)
    requires Grows(x, y) && Grows(y, z)
    ensures Grows(x, z)
  {
  }

  /** One operation keeps every remembered expiry or raises it, and remembers what it accepts. */
  lemma RecallGrows(c: Setup, st: State, seen: Snapshot, block: int, op: Operation)
    requires Faithful(c, st, seen, block) && (op.Token? ==> block <= op.request.block)
    ensures var next := Recall(c, Ok(st), seen, op).entries;
            && Grows(seen.entries, next)
            && (op.Token? && Step(c, Ok(st), op).0.None? ==>
                  var key := op.request.entryKey;
                  key.Some? && key.value in next && next[key.value] == op.request.expiry)
  {
    if op.Token? && Step(c, Ok(st), op).0.None? {
      AcceptedTokenIsLater(c, st, seen, block, op.request, op.tokenDisk);
      AcceptanceExact(c.limits, c.hasPath, op.tokenDisk, st, op.request);
    }
  }

  lemma ReferenceStep(c: Setup, st: State, seen: Snapshot, ops: seq<Operation>, from: int, n: nat)
    requires Faithful(c, st, seen, from)
    requires Monotonic(ops, from) && KeysValid(ops) && Durable(c, ops)
    requires n < |ops|
    ensures var next := Reference(c, Ok(st), seen, ops[..n + 1]).entries;
            && Grows(Reference(c, Ok(st), seen, ops[..n]).entries, next)
            && (ops[n].Token? && Accepted(c, Ok(st), ops, n) ==>
                  var key := ops[n].request.entryKey;
                  key.Some? && key.value in next && next[key.value] == ops[n].request.expiry)
  {
    var before, op := ops[..n], ops[n];
    assert ops[..n + 1] == before + [op];
    PrefixOfRun(c, ops, n, from);
    CacheIsReference(c, st, seen, before, from);
    RunStep(c, Ok(st), seen, before, op, from);
    if op.Token? {
      LastBlockBound(before, from, op.request.block);
    }
    var w := After(c, Ok(st), before);
    if w.Ok? {
      RecallGrows(c, w.value, Reference(c, Ok(st), seen, before), LastBlock(before, from), op);
    }
  }

  lemma {:induction false} ExpiriesNeverShrink(c: Setup, st: State, seen: Snapshot, ops: seq<Operation>,
                                               from: int, i: nat)
    requires Faithful(c, st, seen, from)
    requires Monotonic(ops, from) && KeysValid(ops) && Durable(c, ops)
    requires i <= |ops|
    ensures Grows(Reference(c, Ok(st), seen, ops[..i]).entries, Reference(c, Ok(st), seen, ops).entries)
  {
    var n := |ops| - 1;
    if i <= n {
      var before := ops[..n];
      assert before[..i] == ops[..i] && ops[..n + 1] == ops;
      PrefixOfRun(c, ops, n, from);
      ExpiriesNeverShrink(c, st, seen, before, from, i);
      assert Grows(Reference(c, Ok(st), seen, before).entries, Reference(c, Ok(st), seen, ops).entries) by {
        ReferenceStep(c, st, seen, ops, from, n);
      }
      GrowsTransitive(Reference(c, Ok(st), seen, ops[..i]).entries, Reference(c, Ok(st), seen, before).entries,
                      Reference(c, Ok(st), seen, ops).entries);
    } else {
      assert ops[..i] == ops;
    }
  }

  /** What one token operation leaves behind is remembered with at least the same expiry for ever. */
  lemma ExpiryNeverShrinks(c: Setup, st: State, seen: Snapshot, ops: seq<Operation>, from: int, i: nat, j: nat)
    requires Faithful(c, st, seen, from)
    requires Monotonic(ops, from) && KeysValid(ops) && Durable(c, ops)
    requires i < j <= |ops| && ops[i].Token? && Accepted(c, Ok(st), ops, i)
    ensures var key := ops[i].request.entryKey;
            && key.Some?
            && key.value in Reference(c, Ok(st), seen, ops[..j]).entries
            && ops[i].request.expiry <= Reference(c, Ok(st), seen, ops[..j]).entries[key.value]
  {
    ReferenceStep(c, st, seen, ops, from, i);
    PrefixOfRun(c, ops, j, from);
    ExpiriesNeverShrink(c, st, seen, ops[..j], from, i + 1);
    assert ops[..j][..i + 1] == ops[..i + 1];
  }

  /**
   A token that was accepted is not accepted again before its expiry has passed, whatever happens in
   between: other calls, failed writes, restarts.
   */
  lemma TokenIsNotReplayed(c: Setup, st: State, seen: Snapshot, ops: seq<Operation>, from: int, i: nat, j: nat)
    requires Faithful(c, st, seen, from)
    requires Monotonic(ops, from) && KeysValid(ops) && Durable(c, ops)
    requires i < j < |ops| && ops[i].Token? && ops[j].Token?
    requires Accepted(c, Ok(st), ops, i) && Accepted(c, Ok(st), ops, j)
    requires ops[i].request.entryKey == ops[j].request.entryKey
    ensures ops[i].request.expiry < ops[j].request.block
  {
    var before := ops[..j];
    PrefixOfRun(c, ops, j, from);
    CacheIsReference(c, st, seen, before, from);
    ExpiryNeverShrinks(c, st, seen, ops, from, i, j);
    LastBlockBound(before, from, ops[j].request.block);
    AcceptedTokenIsLater(c, After(c, Ok(st), before).value, Reference(c, Ok(st), seen, before),
                         LastBlock(before, from), ops[j].request, ops[j].tokenDisk);
  }
}
