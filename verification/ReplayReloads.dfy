/** For which limits a running cache can always be restarted from the file it wrote, over whole runs. */
module ReplayReloads {
  import opened Prelude
  import opened ByteStrings
  import opened JsonValues
  import opened JsonParser
  import opened Replay
  import opened ReplayRuns
  import opened ReplayCapacity

  // ---------- within the threshold every run stays up ----------

  /** Memory respects the limits and the file, if there is one, holds a state that does. */
  ghost predicate Kept(c: Setup, st: State) {
    && WellFormed(st.memory, c.limits)
    && (st.disk.Some? ==> exists saved :: WellFormed(saved, c.limits) && st.disk == Some(StateText(saved)))
  }

  lemma TokenKeeps(c: Setup, st: State, r: Request, diskOk: bool)
    requires Kept(c, st) && ValidKeys(r)
    ensures Kept(c, AcceptToken(c.limits, c.hasPath, diskOk, st, r).1)
  {
    var (error, next) := AcceptToken(c.limits, c.hasPath, diskOk, st, r);
    if error.None? {
      AcceptanceExact(c.limits, c.hasPath, diskOk, st, r);
      AdmitRemembers(st.memory, st.memory, r, diskOk, c.limits);
    } else {
      PurgeFits(st.memory.entries, r.block, c.limits.maxEntries);
    }
  }

  lemma NumberKeeps(c: Setup, st: State, key: Option<string>, number: int, diskOk: bool)
    requires Kept(c, st) && (key.Some? ==> IsHex256(key.value))
    ensures Kept(c, AcceptSequence(c.limits, c.hasPath, diskOk, st, key, number).1)
  {
    var (error, next) := AcceptSequence(c.limits, c.hasPath, diskOk, st, key, number);
    if error.None? {
      AddFits(st.memory.sequences, key.value, number, c.limits.maxSequences);
    }
  }

  lemma RestartKeeps(c: Setup, st: State)
    requires Kept(c, st) && c.hasPath && ValidLimits(c.limits) && c.limits.maxEntries + c.limits.maxSequences <= 48209
    ensures Restart(c.limits, true, st.disk).Ok? && Kept(c, Restart(c.limits, true, st.disk).value)
  {
    if st.disk.Some? {
      var saved :| WellFormed(saved, c.limits) && st.disk == Some(StateText(saved));
      RestartAlwaysSucceeds(c.limits, saved);
    }
  }

  /**
   With limits that add up to at most 48209 no run ever fails to restart: any calls, failed writes and
   restarts, in any order and at any blocks.
   */
  lemma {:induction false} RunStaysUp(c: Setup, st: State, ops: seq<Operation>)
    requires c.hasPath && ValidLimits(c.limits) && c.limits.maxEntries + c.limits.maxSequences <= 48209
    requires Kept(c, st) && KeysValid(ops)
    ensures After(c, Ok(st), ops).Ok? && Kept(c, After(c, Ok(st), ops).value)
  {
    if ops != [] {
      var n := |ops| - 1;
      var before, op := ops[..n], ops[n];
      RunStaysUp(c, st, before);
      var now := After(c, Ok(st), before).value;
      match op
      case Token(r, diskOk) => TokenKeeps(c, now, r, diskOk);
      case Number(key, number, diskOk) => NumberKeeps(c, now, key, number, diskOk);
      case Reopen => RestartKeeps(c, now);
      case Idle =>
    }
  }

  lemma FaithfulIsKept(c: Setup, st: State, seen: Snapshot, block: int)
    requires Faithful(c, st, seen, block) && c.hasPath
    ensures Kept(c, st)
  {
  }

  /** Within the threshold a reload after any run succeeds and equals memory, at any later block. */
  lemma ReloadSucceeds(c: Setup, st: State, seen: Snapshot, ops: seq<Operation>, from: int, block: int)
    requires Faithful(c, st, seen, from) && c.hasPath
    requires ValidLimits(c.limits) && c.limits.maxEntries + c.limits.maxSequences <= 48209
    requires Monotonic(ops, from) && KeysValid(ops) && LastBlock(ops, from) <= block
    ensures After(c, Ok(st), ops).Ok?
    ensures Restart(c.limits, true, After(c, Ok(st), ops).value.disk).Ok?
    ensures SameLive(Restart(c.limits, true, After(c, Ok(st), ops).value.disk).value.memory,
                     After(c, Ok(st), ops).value.memory, block)
  {
    FaithfulIsKept(c, st, seen, from);
    RunStaysUp(c, st, ops);
    RestartKeeps(c, After(c, Ok(st), ops).value);
    ReloadEqualsMemory(c, st, seen, ops, from, block);
  }

  // ---------- beyond it some run does not ----------

  function FillToken(entry: nat -> string, i: nat): Operation {
    Token(Request(Some(entry(i)), 0, MAX_INT63, None, 0), true)
  }

  function FillNumber(sequence: nat -> string, i: nat): Operation {
    Number(Some(sequence(i)), MAX_INT63, true)
  }

  /** Calls that fill the cache with `e` tokens and then `s` sequence numbers. */
  function FillingRun(entry: nat -> string, sequence: nat -> string, e: nat, s: nat): (ops: seq<Operation>)
    ensures |ops| == e + s
  {
    if s > 0 then FillingRun(entry, sequence, e, s - 1) + [FillNumber(sequence, s - 1)]
    else if e > 0 then FillingRun(entry, sequence, e - 1, 0) + [FillToken(entry, e - 1)]
    else []
  }

  lemma {:induction false} FillingRunAt(entry: nat -> string, sequence: nat -> string, e: nat, s: nat, i: nat)
    requires i < e + s
    ensures FillingRun(entry, sequence, e, s)[i] == if i < e then FillToken(entry, i) else FillNumber(sequence, i - e)
  {
    if s > 0 && i < e + s - 1 {
      FillingRunAt(entry, sequence, e, s - 1, i);
    } else if s == 0 && i < e - 1 {
      FillingRunAt(entry, sequence, e - 1, 0, i);
    }
  }

  function FilledState(entry: nat -> string, sequence: nat -> string, e: nat, s: nat): State {
    var filled := Snapshot(Filled(entry, e), Filled(sequence, s));
    State(filled, if e + s == 0 then None else Some(StateText(filled)))
  }

  ghost predicate Moves(c: Setup, at: State, op: Operation, next: State) {
    (op.Token? || op.Number?) && Step(c, Ok(at), op) == (None, Ok(next))
  }

  lemma FillTokenStep(limits: Limits, entry: nat -> string, sequence: nat -> string, e: nat)
    requires ValidLimits(limits) && e < limits.maxEntries && GoodKeys(entry, e + 1)
    ensures Moves(Setup(limits, true), FilledState(entry, sequence, e, 0), FillToken(entry, e),
                  FilledState(entry, sequence, e + 1, 0))
  {
    FilledIsFull(entry, e);
    NextKeyIsNew(entry, e);
    assert Purge(Filled(entry, e), 0) == Filled(entry, e);
  }

  lemma FillNumberStep(limits: Limits, entry: nat -> string, sequence: nat -> string, e: nat, s: nat)
    requires ValidLimits(limits) && s < limits.maxSequences && GoodKeys(sequence, s + 1)
    ensures Moves(Setup(limits, true), FilledState(entry, sequence, e, s), FillNumber(sequence, s),
                  FilledState(entry, sequence, e, s + 1))
  {
    FilledSize(sequence, s);
    NextKeyIsNew(sequence, s);
  }

  /** From an empty cache without a file every one of these calls is accepted, and the run ends in `end`. */
  ghost predicate Fills(c: Setup, ops: seq<Operation>, end: State) {
    && After(c, Ok(State(EMPTY, None)), ops) == Ok(end)
    && forall i :: 0 <= i < |ops| ==> Accepted(c, Ok(State(EMPTY, None)), ops, i)
  }

  lemma FillsMore(c: Setup, before: seq<Operation>, at: State, op: Operation, next: State)
    requires Fills(c, before, at) && Moves(c, at, op, next)
    ensures Fills(c, before + [op], next)
  {
    var ops, start := before + [op], State(EMPTY, None);
    assert ops[..|before|] == before;
    forall i | 0 <= i < |ops| ensures Accepted(c, Ok(start), ops, i) {
      if i < |before| {
        assert ops[..i] == before[..i] && Accepted(c, Ok(start), before, i);
      }
    }
  }

  lemma FillingGrows(entry: nat -> string, sequence: nat -> string, e: nat, s: nat)
    ensures FillingRun(entry, sequence, e + 1, 0) == FillingRun(entry, sequence, e, 0) + [FillToken(entry, e)]
    ensures FillingRun(entry, sequence, e, s + 1) == FillingRun(entry, sequence, e, s) + [FillNumber(sequence, s)]
  {
  }

  lemma {:induction false} TokensFill(limits: Limits, entry: nat -> string, sequence: nat -> string, e: nat)
    requires ValidLimits(limits) && e <= limits.maxEntries && GoodKeys(entry, e)
    ensures Fills(Setup(limits, true), FillingRun(entry, sequence, e, 0), FilledState(entry, sequence, e, 0))
  {
    if e > 0 {
      TokensFill(limits, entry, sequence, e - 1);
      FillTokenStep(limits, entry, sequence, e - 1);
      FillingGrows(entry, sequence, e - 1, 0);
      FillsMore(Setup(limits, true), FillingRun(entry, sequence, e - 1, 0), FilledState(entry, sequence, e - 1, 0),
                FillToken(entry, e - 1), FilledState(entry, sequence, e, 0));
    }
  }

  lemma {:induction false} FillingRunFills(limits: Limits, entry: nat -> string, sequence: nat -> string,
                                           e: nat, s: nat)
    requires ValidLimits(limits) && e <= limits.maxEntries && s <= limits.maxSequences
    requires GoodKeys(entry, e) && GoodKeys(sequence, s)
    ensures Fills(Setup(limits, true), FillingRun(entry, sequence, e, s), FilledState(entry, sequence, e, s))
  {
    if s == 0 {
      TokensFill(limits, entry, sequence, e);
    } else {
      FillingRunFills(limits, entry, sequence, e, s - 1);
      FillNumberStep(limits, entry, sequence, e, s - 1);
      FillingGrows(entry, sequence, e, s - 1);
      FillsMore(Setup(limits, true), FillingRun(entry, sequence, e, s - 1), FilledState(entry, sequence, e, s - 1),
                FillNumber(sequence, s - 1), FilledState(entry, sequence, e, s));
    }
  }

  // ---------- with calls that can be made ----------

  /** Some call of the cache leads to this operation: its keys come from a scope and a token. */
  ghost predicate Callable(h: Sha256, op: Operation) {
    match op
    case Token(r, _) =>
      && (exists scope, token :: r.entryKey == CacheKey(h, scope, token))
      && (r.sequenceKey.Some? ==> exists scope :: r.sequenceKey.value == CacheKey(h, "sequence", scope))
    case Number(key, _, _) => exists scope :: key == CacheKey(h, "sequence", scope)
    case _ => true
  }

  ghost predicate AllCallable(h: Sha256, ops: seq<Operation>) {
    forall i :: 0 <= i < |ops| ==> Callable(h, ops[i])
  }

  /** The key of number `i`, written in decimal, under some scope. */
  function KeyOf(h: Sha256, scope: string): nat -> string {
    (i: nat) => Hex(h(KeyInput(scope, Decimal(i))))
  }

  function NumeralInput(scope: string, i: nat): Bytes {
    KeyInput(scope, Decimal(i))
  }

  /** What is hashed for the first `n` keys of a scope. */
  function NumeralInputs(scope: string, n: nat): set<Bytes> {
    set i: nat | i < n :: NumeralInput(scope, i)
  }

  lemma NumeralIsToken(h: Sha256, scope: string, i: nat)
    requires 1 <= |scope| <= MAX_KEY_PART && i < LIMIT_CEILING
    ensures CacheKey(h, scope, Decimal(i)) == Some(KeyOf(h, scope)(i))
  {
    assert Pow10(7) == 10000000;
    DecimalLength(i, 7);
  }

  lemma NumeralInputInjective(scope: string, i: nat, j: nat)
    requires NumeralInput(scope, i) == NumeralInput(scope, j)
    ensures i == j
  {
    var x, y := KeyInput(scope, Decimal(i)), KeyInput(scope, Decimal(j));
    var n := |KEY_DOMAIN| + |scope| + 1;
    assert x[n..] == Decimal(i) && y[n..] == Decimal(j);
    DecimalValueOf(i);
    DecimalValueOf(j);
  }

  lemma NumeralKeysAreGood(h: Sha256, scope: string, n: nat)
    requires CollisionFree(h, NumeralInputs(scope, n))
    ensures GoodKeys(KeyOf(h, scope), n)
  {
    var key := KeyOf(h, scope);
    forall i: nat, j: nat | i < j < n ensures key(i) != key(j) {
      assert NumeralInput(scope, i) in NumeralInputs(scope, n) && NumeralInput(scope, j) in NumeralInputs(scope, n);
      if key(i) == key(j) {
        HexInjective(h(NumeralInput(scope, i)), h(NumeralInput(scope, j)));
        NumeralInputInjective(scope, i, j);
      }
    }
    forall i: nat | i < n ensures IsHex256(key(i)) {
      KeyIsHex(h, NumeralInput(scope, i));
    }
  }

  lemma KeyIsHex(h: Sha256, input: Bytes)
    ensures IsHex256(Hex(h(input)))
  {
  }

  /** The run that fills a cache with the tokens 0, 1, 2, ... of one scope and a number for each sequence scope. */
  function FillingCalls(h: Sha256, limits: Limits): seq<Operation>
    requires ValidLimits(limits)
  {
    FillingRun(KeyOf(h, "s"), KeyOf(h, "sequence"), limits.maxEntries, limits.maxSequences)
  }

  lemma FillingCallsAreCallable(h: Sha256, limits: Limits)
    requires ValidLimits(limits)
    ensures AllCallable(h, FillingCalls(h, limits))
  {
    var ops := FillingCalls(h, limits);
    forall i | 0 <= i < |ops| ensures Callable(h, ops[i]) {
      FillingRunAt(KeyOf(h, "s"), KeyOf(h, "sequence"), limits.maxEntries, limits.maxSequences, i);
      if i < limits.maxEntries {
        NumeralIsToken(h, "s", i);
      } else {
        NumeralIsToken(h, "sequence", i - limits.maxEntries);
      }
    }
  }

  lemma CallableHasValidKeys(h: Sha256, ops: seq<Operation>)
    requires AllCallable(h, ops)
    ensures KeysValid(ops)
  {
    forall i | 0 <= i < |ops|
      ensures ops[i].Token? ==> ValidKeys(ops[i].request)
      ensures ops[i].Number? && ops[i].key.Some? ==> IsHex256(ops[i].key.value)
    {
      assert Callable(h, ops[i]);
    }
  }

  /** The hash does not collide on the keys that fill a cache with these limits. */
  ghost predicate SeparatesNumerals(h: Sha256, limits: Limits)
    requires ValidLimits(limits)
  {
    && CollisionFree(h, NumeralInputs("s", limits.maxEntries))
    && CollisionFree(h, NumeralInputs("sequence", limits.maxSequences))
  }

  /**
   Beyond the threshold there is a run of calls, all at block 0 and all accepted, whose file cannot be
   loaded again.
   */
  lemma FullCacheCannotReload(h: Sha256, limits: Limits)
    requires ValidLimits(limits) && limits.maxEntries + limits.maxSequences > 48209 && SeparatesNumerals(h, limits)
    ensures AllCallable(h, FillingCalls(h, limits))
    ensures exists end :: Fills(Setup(limits, true), FillingCalls(h, limits), end)
                          && Restart(limits, true, end.disk) == Err(StateTooLarge)
  {
    var e, n := limits.maxEntries, limits.maxSequences;
    NumeralKeysAreGood(h, "s", e);
    NumeralKeysAreGood(h, "sequence", n);
    FillingCallsAreCallable(h, limits);
    FilledFileIsTooLarge(limits, KeyOf(h, "s"), KeyOf(h, "sequence"));
    FillingRunFills(limits, KeyOf(h, "s"), KeyOf(h, "sequence"), e, n);
  }

  lemma FilledFileIsTooLarge(limits: Limits, entry: nat -> string, sequence: nat -> string)
    requires ValidLimits(limits) && limits.maxEntries + limits.maxSequences > 48209
    requires GoodKeys(entry, limits.maxEntries) && GoodKeys(sequence, limits.maxSequences)
    ensures Restart(limits, true, FilledState(entry, sequence, limits.maxEntries, limits.maxSequences).disk)
         == Err(StateTooLarge)
  {
    FullStateLength(entry, sequence, limits);
    LoadUndoesPersist(Snapshot(Filled(entry, limits.maxEntries), Filled(sequence, limits.maxSequences)), limits);
  }

  /** Every run of calls of a cache with these limits, from its first start on, survives all its restarts. */
  ghost predicate AlwaysRestarts(h: Sha256, limits: Limits) {
    forall ops :: AllCallable(h, ops) ==> After(Setup(limits, true), Ok(State(EMPTY, None)), ops).Ok?
  }

  lemma ReopenRefused(h: Sha256, c: Setup, ops: seq<Operation>, end: State)
    requires Fills(c, ops, end) && AllCallable(h, ops) && Restart(c.limits, c.hasPath, end.disk).Err?
    ensures AllCallable(h, ops + [Reopen]) && After(c, Ok(State(EMPTY, None)), ops + [Reopen]).Err?
  {
    assert (ops + [Reopen])[..|ops|] == ops;
  }

  /**
   Unless the hash collides on those keys, a cache survives all restarts of all runs of its calls exactly
   when its limits add up to at most 48209.
   */
  lemma ReloadingExact(h: Sha256, limits: Limits)
    requires ValidLimits(limits) && SeparatesNumerals(h, limits)
    ensures AlwaysRestarts(h, limits) <==> limits.maxEntries + limits.maxSequences <= 48209
  {
    var c, start := Setup(limits, true), State(EMPTY, None);
    if limits.maxEntries + limits.maxSequences <= 48209 {
      forall ops | AllCallable(h, ops) ensures After(c, Ok(start), ops).Ok? {
        CallableHasValidKeys(h, ops);
        RunStaysUp(c, start, ops);
      }
    } else {
      var ops := FillingCalls(h, limits);
      FullCacheCannotReload(h, limits);
      var end :| Fills(c, ops, end) && Restart(limits, true, end.disk) == Err(StateTooLarge);
      ReopenRefused(h, c, ops, end);
    }
  }
}
