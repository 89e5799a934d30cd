/**
 Tokens in runs whose blocks may go forwards and backwards: exactly which purges make the cache forget a
 token, and so exactly when a token is refused as already accepted.
 */
module ReplayAnyOrder {
  import opened Prelude
  import opened ByteStrings
  import opened Replay
  import opened ReplayRuns
  import opened ReplaySequences

  // ---------- what happens to the entries ----------

  /** The effect of one operation: a purge, then a new entry; a write of the file; or a restart from it. */
  datatype Effect = Effect(purge: Option<int>, entry: Option<(string, int)>, written: bool, restart: bool)

  type Entries = map<string, int>

  /** The entries in memory and in the file. */
  function EntriesAfter(t: seq<Effect>): (Entries, Entries) {
    if t == [] then (map[], map[])
    else
      var (memory, file) := EntriesAfter(t[..|t| - 1]);
      var x := t[|t| - 1];
      if x.restart then (file, file)
      else
        var next := Applied(memory, x);
        (next, if x.written then next else file)
  }

  function Applied(memory: Entries, x: Effect): Entries {
    var kept := if x.purge.Some? then Purge(memory, x.purge.value) else memory;
    if x.entry.Some? then kept[x.entry.value.0 := x.entry.value.1] else kept
  }

  /** A restart does nothing else, and an entry is written. */
  predicate Consistent(x: Effect) {
    (x.restart ==> x.purge.None? && x.entry.None? && !x.written) && (x.entry.Some? ==> x.written)
  }

  /** And an entry is new after the purge before it. */
  ghost predicate Regular(memory: Entries, x: Effect) {
    && Consistent(x)
    && (x.entry.Some? ==> x.purge.Some? && x.entry.value.0 !in Purge(memory, x.purge.value))
  }

  ghost predicate IsTrace(t: seq<Effect>) {
    forall n :: 0 <= n < |t| ==> Regular(EntriesAfter(t[..n]).0, t[n])
  }

  // ---------- which purges count ----------

  ghost predicate NoRestart(t: seq<Effect>, k: nat, n: nat)
    requires n <= |t|
  {
    forall r :: k < r < n ==> !t[r].restart
  }

  /** The purge at `k` was written to the file before the next restart. */
  ghost predicate Saved(t: seq<Effect>, k: nat, n: nat)
    requires k < n <= |t|
  {
    t[k].purge.Some? && exists m :: k <= m < n && t[m].written && NoRestart(t, k, m)
  }

  /** The purge at `k` is still in effect in memory: no restart has undone it before it was written. */
  ghost predicate InEffect(t: seq<Effect>, k: nat, n: nat)
    requires k < n <= |t|
  {
    t[k].purge.Some? && (NoRestart(t, k, n) || Saved(t, k, n))
  }

  ghost predicate Counts(t: seq<Effect>, k: nat, n: nat, inFile: bool)
    requires k < n <= |t|
  {
    if inFile then Saved(t, k, n) else InEffect(t, k, n)
  }

  /** The purge at `k` counts and was made for a block beyond the expiry. */
  ghost predicate Erases(t: seq<Effect>, k: nat, n: nat, inFile: bool, expiry: int)
    requires k < n <= |t|
  {
    Counts(t, k, n, inFile) && expiry < t[k].purge.value
  }

  /** Entry `i` was made and no later purge that counts has erased it. */
  ghost predicate Remains(t: seq<Effect>, i: nat, n: nat, key: string, expiry: int, inFile: bool)
    requires i < n <= |t|
  {
    t[i].entry == Some((key, expiry)) && forall k :: i < k < n ==> !Erases(t, k, n, inFile, expiry)
  }

  ghost predicate Holds(t: seq<Effect>, key: string, expiry: int, inFile: bool) {
    exists i :: 0 <= i < |t| && Remains(t, i, |t|, key, expiry, inFile)
  }

  /** The entries are exactly those that were made and not erased. */
  ghost predicate Exactly(m: Entries, t: seq<Effect>, inFile: bool) {
    forall key, expiry :: (key in m && m[key] == expiry) <==> Holds(t, key, expiry, inFile)
  }

  /** How one more effect changes which earlier purges count. */
  lemma CountsStep(t: seq<Effect>, k: nat)
    requires k < |t| - 1
    ensures var n := |t| - 1;
            && (Saved(t, k, |t|) <==>
                  Saved(t[..n], k, n) || (t[n].written && t[k].purge.Some? && NoRestart(t[..n], k, n)))
            && (InEffect(t, k, |t|) <==>
                  if t[n].restart then Saved(t, k, |t|) else InEffect(t[..n], k, n))
  {
    var n := |t| - 1;
    var s := t[..n];
    assert NoRestart(t, k, |t|) <==> NoRestart(s, k, n) && !t[n].restart;
    forall m | k <= m < n ensures NoRestart(t, k, m) == NoRestart(s, k, m) && t[m] == s[m] {
    }
    assert NoRestart(t, k, n) == NoRestart(s, k, n);
    if m :| k <= m < n && s[m].written && NoRestart(s, k, m) {
      assert t[m].written && NoRestart(t, k, m);
    }
    if m :| k <= m < |t| && t[m].written && NoRestart(t, k, m) {
      assert m == n || (s[m].written && NoRestart(s, k, m));
    }
  }

  /** The last purge counts in memory, and in the file if it was written. */
  lemma CountsLast(t: seq<Effect>)
    requires t != []
    ensures var n := |t| - 1;
            && (InEffect(t, n, |t|) <==> t[n].purge.Some?)
            && (Saved(t, n, |t|) <==> t[n].purge.Some? && t[n].written)
  {
    var n := |t| - 1;
    assert NoRestart(t, n, |t|) && NoRestart(t, n, n);
  }

  /** What becomes of an earlier entry. */
  lemma RemainsStep(t: seq<Effect>, i: nat, key: string, expiry: int)
    requires i < |t| - 1 && Consistent(t[|t| - 1])
    ensures var n := |t| - 1;
            var s, x := t[..n], t[n];
            && (x.restart ==> (Remains(t, i, |t|, key, expiry, false) <==> Remains(s, i, n, key, expiry, true)))
            && (!x.restart ==>
                  (Remains(t, i, |t|, key, expiry, false) <==>
                     Remains(s, i, n, key, expiry, false) && (x.purge.Some? ==> x.purge.value <= expiry)))
            && (!x.written ==> (Remains(t, i, |t|, key, expiry, true) <==> Remains(s, i, n, key, expiry, true)))
            && (x.written ==> (Remains(t, i, |t|, key, expiry, true) <==> Remains(t, i, |t|, key, expiry, false)))
  {
    var n := |t| - 1;
    var s, x := t[..n], t[n];
    CountsLast(t);
    forall k | i < k < n
      ensures x.restart ==> (Erases(t, k, |t|, false, expiry) <==> Erases(s, k, n, true, expiry))
      ensures !x.restart ==> (Erases(t, k, |t|, false, expiry) <==> Erases(s, k, n, false, expiry))
      ensures !x.written ==> (Erases(t, k, |t|, true, expiry) <==> Erases(s, k, n, true, expiry))
      ensures x.written ==> (Erases(t, k, |t|, true, expiry) <==> Erases(t, k, |t|, false, expiry))
    {
      CountsStep(t, k);
    }
    assert Erases(t, n, |t|, false, expiry) <==> x.purge.Some? && expiry < x.purge.value;
    assert Erases(t, n, |t|, true, expiry) <==> x.written && x.purge.Some? && expiry < x.purge.value;
  }

  /** The last effect brings its entry, and an entry of an earlier one is there when it remains. */
  lemma HoldsStep(t: seq<Effect>, key: string, expiry: int)
    requires t != [] && Consistent(t[|t| - 1])
    ensures var n := |t| - 1;
            var s, x := t[..n], t[n];
            && (x.restart ==> (Holds(t, key, expiry, false) <==> Holds(s, key, expiry, true)))
            && (!x.restart ==>
                  (Holds(t, key, expiry, false) <==>
                     || x.entry == Some((key, expiry))
                     || (Holds(s, key, expiry, false) && (x.purge.Some? ==> x.purge.value <= expiry))))
            && (!x.written ==> (Holds(t, key, expiry, true) <==> Holds(s, key, expiry, true)))
            && (x.written ==> (Holds(t, key, expiry, true) <==> Holds(t, key, expiry, false)))
  {
    var n := |t| - 1;
    var s, x := t[..n], t[n];
    forall i | 0 <= i < n
      ensures x.restart ==> (Remains(t, i, |t|, key, expiry, false) <==> Remains(s, i, n, key, expiry, true))
      ensures !x.restart ==>
                (Remains(t, i, |t|, key, expiry, false) <==>
                   Remains(s, i, n, key, expiry, false) && (x.purge.Some? ==> x.purge.value <= expiry))
      ensures !x.written ==> (Remains(t, i, |t|, key, expiry, true) <==> Remains(s, i, n, key, expiry, true))
      ensures x.written ==> (Remains(t, i, |t|, key, expiry, true) <==> Remains(t, i, |t|, key, expiry, false))
    {
      RemainsStep(t, i, key, expiry);
    }
    assert Remains(t, n, |t|, key, expiry, false) <==> x.entry == Some((key, expiry));
    assert Remains(t, n, |t|, key, expiry, true) <==> x.entry == Some((key, expiry));
  }

  lemma PrefixOfTrace(t: seq<Effect>)
    requires t != [] && IsTrace(t)
    ensures IsTrace(t[..|t| - 1])
  {
    var s := t[..|t| - 1];
    forall n | 0 <= n < |s| ensures s[..n] == t[..n] && s[n] == t[n] {
    }
  }

  lemma {:induction false} EntriesExact(t: seq<Effect>)
    requires IsTrace(t)
    ensures Exactly(EntriesAfter(t).0, t, false) && Exactly(EntriesAfter(t).1, t, true)
  {
    if t != [] {
      var n := |t| - 1;
      var s, x, memory, file := t[..n], t[n], EntriesAfter(t[..n]).0, EntriesAfter(t[..n]).1;
      PrefixOfTrace(t);
      EntriesExact(s);
      forall key, expiry
        ensures (key in EntriesAfter(t).0 && EntriesAfter(t).0[key] == expiry) <==> Holds(t, key, expiry, false)
        ensures (key in EntriesAfter(t).1 && EntriesAfter(t).1[key] == expiry) <==> Holds(t, key, expiry, true)
      {
        HoldsStep(t, key, expiry);
        assert (key in memory && memory[key] == expiry) <==> Holds(s, key, expiry, false);
        assert (key in file && file[key] == expiry) <==> Holds(s, key, expiry, true);
      }
    }
  }

  // ---------- the effects of a run ----------

  /** The operation purges memory: its arguments are in order, and no rollback restores what was purged. */
  ghost predicate Purges(c: Setup, w: World, op: Operation) {
    && op.Token? && w.Ok? && BadArguments(op.request).None?
    && (op.request.sequenceKey.None? || Accepts(c, w, op))
  }

  ghost function EffectOf(c: Setup, w: World, op: Operation): Effect {
    Effect(if Purges(c, w, op) then Some(op.request.block) else None,
           if op.Token? && op.request.entryKey.Some? && Accepts(c, w, op) then
             Some((op.request.entryKey.value, op.request.expiry))
           else None,
           Accepts(c, w, op), op.Reopen?)
  }

  ghost function TraceOf(c: Setup, ops: seq<Operation>): (t: seq<Effect>)
    ensures |t| == |ops|
    ensures forall n :: 0 <= n < |t| ==> t[n] == EffectOf(c, After(c, Ok(State(EMPTY, None)), ops[..n]), ops[n])
  {
    seq(|ops|, n requires 0 <= n < |ops| => EffectOf(c, After(c, Ok(State(EMPTY, None)), ops[..n]), ops[n]))
  }

  /** Memory and file hold the entries that the effects leave behind. */
  ghost predicate Matches(c: Setup, st: State, entries: (Entries, Entries)) {
    && WellFormed(st.memory, c.limits) && st.memory.entries == entries.0
    && (c.hasPath ==>
          if st.disk.None? then entries.1 == map[]
          else exists saved :: WellFormed(saved, c.limits) && st.disk == Some(StateText(saved))
                               && saved.entries == entries.1)
  }

  function EffectOn(entries: (Entries, Entries), x: Effect): (Entries, Entries) {
    if x.restart then (entries.1, entries.1)
    else (Applied(entries.0, x), if x.written then Applied(entries.0, x) else entries.1)
  }

  lemma TokenMatches(c: Setup, st: State, r: Request, diskOk: bool, entries: (Entries, Entries))
    requires Matches(c, st, entries) && ValidKeys(r)
    ensures var x := EffectOf(c, Ok(st), Token(r, diskOk));
            && Matches(c, AcceptToken(c.limits, c.hasPath, diskOk, st, r).1, EffectOn(entries, x))
            && Regular(entries.0, x)
  {
    var (error, next) := AcceptToken(c.limits, c.hasPath, diskOk, st, r);
    if error.None? {
      AcceptanceExact(c.limits, c.hasPath, diskOk, st, r);
      AdmitRemembers(st.memory, st.memory, r, diskOk, c.limits);
      assert WellFormed(next.memory, c.limits);
    } else {
      PurgeFits(st.memory.entries, r.block, c.limits.maxEntries);
    }
  }

  lemma NumberMatches(c: Setup, st: State, key: Option<string>, number: int, diskOk: bool, entries: (Entries, Entries))
    requires Matches(c, st, entries) && (key.Some? ==> IsHex256(key.value))
    ensures Matches(c, AcceptSequence(c.limits, c.hasPath, diskOk, st, key, number).1,
                    EffectOn(entries, EffectOf(c, Ok(st), Number(key, number, diskOk))))
  {
    var (error, next) := AcceptSequence(c.limits, c.hasPath, diskOk, st, key, number);
    if error.None? {
      AddFits(st.memory.sequences, key.value, number, c.limits.maxSequences);
      assert WellFormed(next.memory, c.limits);
    }
  }

  lemma RestartMatches(c: Setup, st: State, entries: (Entries, Entries))
    requires Matches(c, st, entries) && c.hasPath && Restart(c.limits, true, st.disk).Ok?
    ensures Matches(c, Restart(c.limits, true, st.disk).value, (entries.1, entries.1))
  {
    if st.disk.Some? {
      var saved :| WellFormed(saved, c.limits) && st.disk == Some(StateText(saved)) && saved.entries == entries.1;
      LoadUndoesPersist(saved, c.limits);
    } else {
      assert |EMPTY.entries| == 0 && |EMPTY.sequences| == 0;
      assert c.limits.maxEntries >= 0 && c.limits.maxSequences >= 0;
    }
  }

  lemma StepMatches(c: Setup, st: State, op: Operation, entries: (Entries, Entries))
    requires Matches(c, st, entries) && KeysValid([op]) && (op.Reopen? ==> c.hasPath)
    requires Step(c, Ok(st), op).1.Ok?
    ensures var x := EffectOf(c, Ok(st), op);
            && Matches(c, Step(c, Ok(st), op).1.value, EffectOn(entries, x))
            && Regular(entries.0, x)
  {
    assert op == [op][0];
    match op
    case Token(r, diskOk) => TokenMatches(c, st, r, diskOk, entries);
    case Number(key, number, diskOk) => NumberMatches(c, st, key, number, diskOk, entries);
    case Reopen => RestartMatches(c, st, entries);
    case Idle =>
  }

  lemma TraceGrows(c: Setup, before: seq<Operation>, op: Operation)
    ensures TraceOf(c, before + [op])
         == TraceOf(c, before) + [EffectOf(c, After(c, Ok(State(EMPTY, None)), before), op)]
  {
    var ops := before + [op];
    assert ops[..|before|] == before;
    forall i | 0 <= i < |before| ensures TraceOf(c, ops)[i] == TraceOf(c, before)[i] {
      assert ops[..i] == before[..i];
    }
  }

  lemma EntriesGrow(t: seq<Effect>, x: Effect)
    ensures EntriesAfter(t + [x]) == EffectOn(EntriesAfter(t), x)
    ensures IsTrace(t) && Regular(EntriesAfter(t).0, x) ==> IsTrace(t + [x])
  {
    var all := t + [x];
    assert all[..|t|] == t;
    forall n | 0 <= n < |t| ensures all[..n] == t[..n] && all[n] == t[n] {
    }
  }

  /** The trace belongs to the run and its entries are those of the cache. */
  ghost predicate Traces(c: Setup, ops: seq<Operation>, t: seq<Effect>) {
    && t == TraceOf(c, ops) && IsTrace(t)
    && After(c, Ok(State(EMPTY, None)), ops).Ok?
    && Matches(c, After(c, Ok(State(EMPTY, None)), ops).value, EntriesAfter(t))
  }

  lemma TracesStep(c: Setup, before: seq<Operation>, op: Operation, t: seq<Effect>, st: State)
    requires Traces(c, before, t) && After(c, Ok(State(EMPTY, None)), before) == Ok(st)
    requires KeysValid([op]) && (op.Reopen? ==> c.hasPath) && Step(c, Ok(st), op).1.Ok?
    ensures Traces(c, before + [op], t + [EffectOf(c, Ok(st), op)])
  {
    var x := EffectOf(c, Ok(st), op);
    StepMatches(c, st, op, EntriesAfter(t));
    EntriesGrow(t, x);
    TraceGrows(c, before, op);
    RunStep(c, Ok(State(EMPTY, None)), EMPTY, before, op, 0);
  }

  lemma {:induction false} RunMatches(c: Setup, ops: seq<Operation>)
    requires ValidLimits(c.limits) && KeysValid(ops) && Durable(c, ops) && After(c, Ok(State(EMPTY, None)), ops).Ok?
    ensures Traces(c, ops, TraceOf(c, ops))
  {
    if ops == [] {
      EmptyHasSameSequences(c);
    } else {
      var n := |ops| - 1;
      var before, op := ops[..n], ops[n];
      assert ops == before + [op];
      UpBefore(c, Ok(State(EMPTY, None)), ops);
      PrefixOfRun(c, ops, n, 0);
      RunMatches(c, before);
      TracesStep(c, before, op, TraceOf(c, before), After(c, Ok(State(EMPTY, None)), before).value);
      TraceGrows(c, before, op);
    }
  }

  // ---------- when a token is refused ----------

  ghost predicate NoReopen(ops: seq<Operation>, k: nat, n: nat)
    requires n <= |ops|
  {
    forall r :: k < r < n ==> !ops[r].Reopen?
  }

  /** Call `k` purged memory, and no restart came before the purge was written with an accepted call. */
  ghost predicate PurgeCounts(c: Setup, ops: seq<Operation>, k: nat)
    requires k < |ops|
  {
    && Purges(c, After(c, Ok(State(EMPTY, None)), ops[..k]), ops[k])
    && (NoReopen(ops, k, |ops|)
        || exists m :: k <= m < |ops| && Accepted(c, Ok(State(EMPTY, None)), ops, m) && NoReopen(ops, k, m))
  }

  /** A purge after call `i` counts and was made for a block beyond the expiry of call `i`. */
  ghost predicate PurgedBy(c: Setup, ops: seq<Operation>, i: nat, k: nat)
    requires i < k < |ops| && ops[i].Token?
  {
    PurgeCounts(c, ops, k) && ops[i].request.expiry < ops[k].request.block
  }

  /** Call `i` accepted the key, and no later purge has made the cache forget it. */
  ghost predicate Remembered(c: Setup, ops: seq<Operation>, i: nat, key: string)
    requires i < |ops|
  {
    && ops[i].Token? && Accepted(c, Ok(State(EMPTY, None)), ops, i) && ops[i].request.entryKey == Some(key)
    && forall k :: i < k < |ops| ==> !PurgedBy(c, ops, i, k)
  }

  lemma PurgeCountsInTrace(c: Setup, ops: seq<Operation>, k: nat)
    requires k < |ops|
    ensures InEffect(TraceOf(c, ops), k, |ops|) <==> PurgeCounts(c, ops, k)
  {
    var t, n := TraceOf(c, ops), |ops|;
    forall m | k <= m <= n ensures NoRestart(t, k, m) == NoReopen(ops, k, m) {
    }
    if m :| k <= m < n && t[m].written && NoRestart(t, k, m) {
      assert Accepted(c, Ok(State(EMPTY, None)), ops, m);
    }
    if m :| k <= m < n && Accepted(c, Ok(State(EMPTY, None)), ops, m) && NoReopen(ops, k, m) {
      assert t[m].written;
    }
  }

  lemma RememberedInTrace(c: Setup, ops: seq<Operation>, i: nat, key: string, expiry: int)
    requires i < |ops|
    ensures Remains(TraceOf(c, ops), i, |ops|, key, expiry, false)
       <==> Remembered(c, ops, i, key) && ops[i].request.expiry == expiry
  {
    var t := TraceOf(c, ops);
    if t[i].entry == Some((key, expiry)) {
      forall k | i < k < |ops| ensures Erases(t, k, |ops|, false, expiry) <==> PurgedBy(c, ops, i, k) {
        PurgeCountsInTrace(c, ops, k);
      }
    }
  }

  /** What is in memory after a run, whatever the order of its blocks is. */
  lemma HeldInAnyOrder(c: Setup, ops: seq<Operation>, key: string, expiry: int)
    requires ValidLimits(c.limits) && KeysValid(ops) && Durable(c, ops) && After(c, Ok(State(EMPTY, None)), ops).Ok?
    ensures var entries := After(c, Ok(State(EMPTY, None)), ops).value.memory.entries;
            (key in entries && entries[key] == expiry) <==>
              exists i :: 0 <= i < |ops| && Remembered(c, ops, i, key) && ops[i].request.expiry == expiry
  {
    var t := TraceOf(c, ops);
    RunMatches(c, ops);
    EntriesExact(t);
    forall i | 0 <= i < |ops|
      ensures Remains(t, i, |ops|, key, expiry, false)
         <==> Remembered(c, ops, i, key) && ops[i].request.expiry == expiry
    {
      RememberedInTrace(c, ops, i, key, expiry);
    }
    assert Holds(t, key, expiry, false) <==>
           exists i :: 0 <= i < |ops| && Remembered(c, ops, i, key) && ops[i].request.expiry == expiry;
  }

  /**
   After any run, with blocks in any order, a token is refused as already accepted exactly when an earlier
   call accepted it, its expiry has not passed, and nothing has made the cache forget it since: no purge
   for a block beyond the expiry that was still in memory, or was written, when the next restart came.
   */
  lemma RefusedInAnyOrder(c: Setup, ops: seq<Operation>, r: Request, diskOk: bool)
    requires ValidLimits(c.limits) && KeysValid(ops) && Durable(c, ops) && After(c, Ok(State(EMPTY, None)), ops).Ok?
    requires BadArguments(r).None? && r.entryKey.Some? && r.sequenceKey != Some(None)
    ensures AcceptToken(c.limits, c.hasPath, diskOk, After(c, Ok(State(EMPTY, None)), ops).value, r).0
            == Some(AlreadyAccepted)
       <==> exists i :: 0 <= i < |ops| && Remembered(c, ops, i, r.entryKey.value) && r.block <= ops[i].request.expiry
  {
    var entries, key := After(c, Ok(State(EMPTY, None)), ops).value.memory.entries, r.entryKey.value;
    if key in entries {
      HeldInAnyOrder(c, ops, key, entries[key]);
    }
    forall i | 0 <= i < |ops| && Remembered(c, ops, i, key)
      ensures key in entries && entries[key] == ops[i].request.expiry
    {
      HeldInAnyOrder(c, ops, key, ops[i].request.expiry);
    }
  }
}
