/**
 Sequence numbers over whole runs. They are never purged, so nothing here asks for an order of blocks:
 the results hold for every run of calls, failed writes and restarts.
 */
module ReplaySequences {
  import opened Prelude
  import opened ByteStrings
  import opened Replay
  import opened ReplayRuns

  /** The sequence key and number that an operation carries. */
  function SequenceOf(op: Operation): Option<(string, int)> {
    match op
    case Token(r, _) =>
      if r.sequenceKey.Some? && r.sequenceKey.value.Some? then
        Some((r.sequenceKey.value.value, r.sequence))
      else None
    case Number(key, number, _) => if key.Some? then Some((key.value, number)) else None
    case _ => None
  }

  /** Memory is well formed, and what a restart would read holds the same sequence numbers. */
  ghost predicate SameSequences(c: Setup, st: State) {
    && WellFormed(st.memory, c.limits)
    && (c.hasPath ==>
          if st.disk.None? then st.memory.sequences == map[]
          else exists saved :: WellFormed(saved, c.limits) && st.disk == Some(StateText(saved))
                               && saved.sequences == st.memory.sequences)
  }

  /** A new cache has this, and so has every state that runs with ordered blocks start from. */
  lemma FaithfulHasSameSequences(c: Setup, st: State, seen: Snapshot, block: int)
    requires Faithful(c, st, seen, block)
    ensures SameSequences(c, st)
  {
  }

  /** The sequence numbers after an operation: those before it, and the number that it accepts. */
  function Updated(sequences: map<string, int>, op: Operation, accepted: bool): map<string, int> {
    if accepted && SequenceOf(op).Some? then
      var (key, n) := SequenceOf(op).value;
      sequences[key := n]
    else sequences
  }

  lemma TokenStep(c: Setup, st: State, r: Request, diskOk: bool)
    requires SameSequences(c, st) && ValidKeys(r)
    ensures var (error, next) := AcceptToken(c.limits, c.hasPath, diskOk, st, r);
            && SameSequences(c, next)
            && next.memory.sequences == Updated(st.memory.sequences, Token(r, diskOk), error.None?)
  {
    var (error, next) := AcceptToken(c.limits, c.hasPath, diskOk, st, r);
    if error.None? {
      AcceptanceExact(c.limits, c.hasPath, diskOk, st, r);
      AdmitRemembers(st.memory, st.memory, r, diskOk, c.limits);
    } else {
      RefusalChangesNothing(c.limits, c.hasPath, diskOk, st, r);
      PurgeFits(st.memory.entries, r.block, c.limits.maxEntries);
    }
  }

  lemma NumberStep(c: Setup, st: State, key: Option<string>, number: int, diskOk: bool)
    requires SameSequences(c, st) && (key.Some? ==> IsHex256(key.value))
    ensures var (error, next) := AcceptSequence(c.limits, c.hasPath, diskOk, st, key, number);
            && SameSequences(c, next)
            && next.memory.sequences == Updated(st.memory.sequences, Number(key, number, diskOk), error.None?)
  {
    var (error, next) := AcceptSequence(c.limits, c.hasPath, diskOk, st, key, number);
    if error.None? {
      AddFits(st.memory.sequences, key.value, number, c.limits.maxSequences);
      assert WellFormed(next.memory, c.limits);
    }
  }

  lemma RestartStep(c: Setup, st: State)
    requires SameSequences(c, st) && c.hasPath && Restart(c.limits, true, st.disk).Ok?
    ensures var next := Restart(c.limits, true, st.disk).value;
            SameSequences(c, next) && next.memory.sequences == st.memory.sequences
  {
    if st.disk.Some? {
      var saved :| WellFormed(saved, c.limits) && st.disk == Some(StateText(saved))
                   && saved.sequences == st.memory.sequences;
      LoadUndoesPersist(saved, c.limits);
    } else {
      assert |EMPTY.entries| == 0 && |EMPTY.sequences| == 0;
      assert c.limits.maxEntries >= 0 && c.limits.maxSequences >= 0;
    }
  }

  ghost predicate Accepts(c: Setup, w: World, op: Operation) {
    (op.Token? || op.Number?) && Step(c, w, op).0.None?
  }

  /** Every operation keeps this, and changes the sequence numbers only by what it accepts. */
  lemma SequencesStep(c: Setup, st: State, op: Operation)
    requires SameSequences(c, st) && KeysValid([op]) && (op.Reopen? ==> c.hasPath)
    requires Step(c, Ok(st), op).1.Ok?
    ensures var next := Step(c, Ok(st), op).1.value;
            && SameSequences(c, next)
            && next.memory.sequences == Updated(st.memory.sequences, op, Accepts(c, Ok(st), op))
  {
    assert op == [op][0];
    match op
    case Token(r, diskOk) => TokenStep(c, st, r, diskOk);
    case Number(key, number, diskOk) => NumberStep(c, st, key, number, diskOk);
    case Reopen => RestartStep(c, st);
    case Idle =>
  }

  /** What is accepted is larger than the number it replaces. */
  lemma AcceptedIsLarger(c: Setup, st: State, op: Operation)
    requires Accepts(c, Ok(st), op) && SequenceOf(op).Some?
    ensures var (key, n) := SequenceOf(op).value;
            key in st.memory.sequences ==> st.memory.sequences[key] < n
  {
    if op.Token? {
      AcceptanceExact(c.limits, c.hasPath, op.tokenDisk, st, op.request);
    }
  }

  lemma UpBefore(c: Setup, w: World, ops: seq<Operation>)
    requires ops != [] && After(c, w, ops).Ok?
    ensures After(c, w, ops[..|ops| - 1]).Ok?
  {
  }

  lemma {:induction false} RunKeepsSequences(c: Setup, st: State, ops: seq<Operation>)
    requires SameSequences(c, st) && KeysValid(ops) && Durable(c, ops) && After(c, Ok(st), ops).Ok?
    ensures SameSequences(c, After(c, Ok(st), ops).value)
  {
    if ops != [] {
      var n := |ops| - 1;
      UpBefore(c, Ok(st), ops);
      PrefixOfRun(c, ops, n, 0);
      RunKeepsSequences(c, st, ops[..n]);
      SequencesStep(c, After(c, Ok(st), ops[..n]).value, ops[n]);
    }
  }

  /** The last step of a run, with what it accepted. */
  lemma LastSequences(c: Setup, st: State, ops: seq<Operation>)
    requires SameSequences(c, st) && KeysValid(ops) && Durable(c, ops) && After(c, Ok(st), ops).Ok? && ops != []
    ensures var n := |ops| - 1;
            && After(c, Ok(st), ops[..n]).Ok?
            && After(c, Ok(st), ops).value.memory.sequences
               == Updated(After(c, Ok(st), ops[..n]).value.memory.sequences, ops[n], Accepted(c, Ok(st), ops, n))
            && Grows(After(c, Ok(st), ops[..n]).value.memory.sequences, After(c, Ok(st), ops).value.memory.sequences)
  {
    var n := |ops| - 1;
    UpBefore(c, Ok(st), ops);
    PrefixOfRun(c, ops, n, 0);
    RunKeepsSequences(c, st, ops[..n]);
    var before := After(c, Ok(st), ops[..n]).value;
    SequencesStep(c, before, ops[n]);
    if Accepts(c, Ok(before), ops[n]) && SequenceOf(ops[n]).Some? {
      AcceptedIsLarger(c, before, ops[n]);
    }
  }

  /** Sequence numbers never go down and are never forgotten. */
  lemma {:induction false} SequencesNeverShrink(c: Setup, st: State, ops: seq<Operation>, i: nat)
    requires SameSequences(c, st) && KeysValid(ops) && Durable(c, ops) && After(c, Ok(st), ops).Ok?
    requires i <= |ops|
    ensures After(c, Ok(st), ops[..i]).Ok?
    ensures Grows(After(c, Ok(st), ops[..i]).value.memory.sequences, After(c, Ok(st), ops).value.memory.sequences)
  {
    var n := |ops| - 1;
    if i <= n {
      var before := ops[..n];
      assert before[..i] == ops[..i];
      LastSequences(c, st, ops);
      PrefixOfRun(c, ops, n, 0);
      SequencesNeverShrink(c, st, before, i);
      GrowsTransitive(After(c, Ok(st), ops[..i]).value.memory.sequences,
                      After(c, Ok(st), before).value.memory.sequences,
                      After(c, Ok(st), ops).value.memory.sequences);
    } else {
      assert ops[..i] == ops;
    }
  }

  /** What was accepted is held, or something larger is. */
  lemma AcceptedIsHeld(c: Setup, st: State, ops: seq<Operation>, i: nat)
    requires SameSequences(c, st) && KeysValid(ops) && Durable(c, ops) && After(c, Ok(st), ops).Ok?
    requires i < |ops| && Accepted(c, Ok(st), ops, i) && SequenceOf(ops[i]).Some?
    ensures var (key, n) := SequenceOf(ops[i]).value;
            var sequences := After(c, Ok(st), ops).value.memory.sequences;
            key in sequences && n <= sequences[key]
  {
    var first := ops[..i + 1];
    SequencesNeverShrink(c, st, ops, i + 1);
    PrefixOfRun(c, ops, i + 1, 0);
    LastSequences(c, st, first);
    assert first[..i] == ops[..i] && first[i] == ops[i];
  }

  /** And what is held was there from the start or was accepted. */
  lemma {:induction false} HeldWasAccepted(c: Setup, st: State, ops: seq<Operation>, key: string)
    requires SameSequences(c, st) && KeysValid(ops) && Durable(c, ops) && After(c, Ok(st), ops).Ok?
    requires key in After(c, Ok(st), ops).value.memory.sequences
    ensures var held := After(c, Ok(st), ops).value.memory.sequences[key];
            || (key in st.memory.sequences && st.memory.sequences[key] == held)
            || exists i :: 0 <= i < |ops| && Accepted(c, Ok(st), ops, i) && SequenceOf(ops[i]) == Some((key, held))
  {
    if ops != [] {
      var n := |ops| - 1;
      var before, held := ops[..n], After(c, Ok(st), ops).value.memory.sequences[key];
      LastSequences(c, st, ops);
      if Accepted(c, Ok(st), ops, n) && SequenceOf(ops[n]) == Some((key, held)) {
      } else {
        PrefixOfRun(c, ops, n, 0);
        HeldWasAccepted(c, st, before, key);
        if i :| 0 <= i < n && Accepted(c, Ok(st), before, i) && SequenceOf(before[i]) == Some((key, held)) {
          assert before[..i] == ops[..i] && Accepted(c, Ok(st), ops, i);
        }
      }
    }
  }

  /** Accepted sequence numbers of one scope strictly increase over every run, whatever its blocks are. */
  lemma SequencesIncrease(c: Setup, st: State, ops: seq<Operation>, i: nat, j: nat)
    requires SameSequences(c, st) && KeysValid(ops) && Durable(c, ops)
    requires i < j < |ops| && Accepted(c, Ok(st), ops, i) && Accepted(c, Ok(st), ops, j)
    requires SequenceOf(ops[i]).Some? && SequenceOf(ops[j]).Some?
    requires SequenceOf(ops[i]).value.0 == SequenceOf(ops[j]).value.0
    ensures SequenceOf(ops[i]).value.1 < SequenceOf(ops[j]).value.1
  {
    var before := ops[..j];
    assert before[..i] == ops[..i] && Accepted(c, Ok(st), before, i);
    PrefixOfRun(c, ops, j, 0);
    AcceptedIsHeld(c, st, before, i);
    AcceptedIsLarger(c, After(c, Ok(st), before).value, ops[j]);
  }

  // ---------- when a number is larger than the last one ----------

  /** Call `i` accepted a number under this key. */
  ghost predicate NumberAccepted(c: Setup, w: World, ops: seq<Operation>, i: nat, key: string)
    requires i < |ops|
  {
    Accepted(c, w, ops, i) && SequenceOf(ops[i]).Some? && SequenceOf(ops[i]).value.0 == key
  }

  /**
   On a cache that started empty, a number is larger than the one that is held, or there is room for its
   key, exactly when it is larger than every number accepted under the key before, and there was one or
   there is room.
   */
  lemma NumberFitsExact(c: Setup, ops: seq<Operation>, n: nat, key: string, number: int, room: bool)
    requires ValidLimits(c.limits) && KeysValid(ops) && Durable(c, ops)
    requires n <= |ops| && After(c, Ok(State(EMPTY, None)), ops[..n]).Ok?
    ensures var w := Ok(State(EMPTY, None));
            var held := After(c, w, ops[..n]).value.memory.sequences;
            (if key in held then held[key] < number else room) <==>
              && (forall i :: 0 <= i < n && NumberAccepted(c, w, ops, i, key) ==> SequenceOf(ops[i]).value.1 < number)
              && (room || exists i :: 0 <= i < n && NumberAccepted(c, w, ops, i, key))
  {
    var st, before := State(EMPTY, None), ops[..n];
    var held := After(c, Ok(st), before).value.memory.sequences;
    EmptyHasSameSequences(c);
    PrefixOfRun(c, ops, n, 0);
    forall i | 0 <= i < n && NumberAccepted(c, Ok(st), ops, i, key)
      ensures key in held && SequenceOf(ops[i]).value.1 <= held[key]
    {
      assert before[..i] == ops[..i];
      AcceptedIsHeld(c, st, before, i);
    }
    if key in held {
      HeldWasAccepted(c, st, before, key);
      var i :| 0 <= i < n && Accepted(c, Ok(st), before, i) && SequenceOf(before[i]) == Some((key, held[key]));
      assert before[..i] == ops[..i] && NumberAccepted(c, Ok(st), ops, i, key);
    }
  }

  lemma EmptyHasSameSequences(c: Setup)
    requires ValidLimits(c.limits)
    ensures SameSequences(c, State(EMPTY, None))
  {
    assert |EMPTY.entries| == 0 && |EMPTY.sequences| == 0;
  }
}
