/**
 What the replay cache says about scopes and tokens rather than about hashed keys: which pairs share a
 key, and that a token is refused as already accepted exactly when it is active.
 */
module ReplayKeys {
  import opened Prelude
  import opened ByteStrings
  import opened Replay
  import opened ReplayRuns

  // ---------- which pairs share a key ----------

  /** Without a collision, keys are equal exactly when scope, separator and token run together equally. */
  lemma SharedKeyExact(h: Sha256, scope: string, token: string, other: string, otherToken: string)
    requires CacheKey(h, scope, token).Some? && CacheKey(h, other, otherToken).Some?
    requires CollisionFree(h, {KeyInput(scope, token), KeyInput(other, otherToken)})
    ensures CacheKey(h, scope, token) == CacheKey(h, other, otherToken)
       <==> scope + ['\0'] + token == other + ['\0'] + otherToken
  {
    var x, y := KeyInput(scope, token), KeyInput(other, otherToken);
    assert x[|KEY_DOMAIN|..] == scope + ['\0'] + token && y[|KEY_DOMAIN|..] == other + ['\0'] + otherToken;
    if Hex(h(x)) == Hex(h(y)) {
      HexInjective(h(x), h(y));
    }
  }

  /** A scope and a token have a key unless one of them is empty or longer than 512 bytes. */
  lemma KeyExistsExact(h: Sha256, scope: string, token: string)
    ensures CacheKey(h, scope, token).None? <==> scope == "" || token == "" || |scope| > 512 || |token| > 512
    ensures CacheKey(h, scope, token).Some? ==> CacheKey(h, scope, token).value == Hex(h(KeyInput(scope, token)))
  {
  }

  /** Scopes without NUL keep all pairs apart: equal keys if and only if equal scope and token. */
  lemma CacheKeyExact(h: Sha256, scope: string, token: string, other: string, otherToken: string)
    requires CacheKey(h, scope, token).Some? && CacheKey(h, other, otherToken).Some?
    requires '\0' !in scope && '\0' !in other
    requires CollisionFree(h, {KeyInput(scope, token), KeyInput(other, otherToken)})
    ensures CacheKey(h, scope, token) == CacheKey(h, other, otherToken) <==> scope == other && token == otherToken
  {
    SharedKeyExact(h, scope, token, other, otherToken);
    if scope + ['\0'] + token == other + ['\0'] + otherToken {
      SplitAtMark('\0', scope, token, other, otherToken);
    }
  }

  /**
   With a NUL in a scope the separation fails, for every hash: once the token `c` of the scope `a\0b` has
   been accepted, the token `b\0c` of the scope `a`, which nobody has presented before, is refused.
   */
  lemma NulScopesShareKeys(h: Sha256, limits: Limits)
    requires ValidLimits(limits)
    ensures CacheKey(h, "a\0b", "c").Some? && CacheKey(h, "a\0b", "c") == CacheKey(h, "a", "b\0c")
    ensures var first := Request(CacheKey(h, "a\0b", "c"), 0, 1, None, 0);
            var unseen := Request(CacheKey(h, "a", "b\0c"), 0, 1, None, 0);
            var (error, next) := AcceptToken(limits, false, true, State(EMPTY, None), first);
            && error.None?
            && AcceptToken(limits, false, true, next, unseen).0 == Some(AlreadyAccepted)
  {
    assert "a\0b" + ['\0'] + "c" == "a" + ['\0'] + "b\0c";
    var key := CacheKey(h, "a", "b\0c").value;
    assert Purge(map[], 0) == map[] && Purge(map[key := 1], 0) == map[key := 1];
  }

  // ---------- refusals over whole runs ----------

  /** Call `i` accepted this key with an expiry not before the block. */
  ghost predicate ActiveFrom(c: Setup, w: World, ops: seq<Operation>, i: nat, key: string, block: int)
    requires i < |ops|
  {
    ops[i].Token? && Accepted(c, w, ops, i) && ops[i].request.entryKey == Some(key) && block <= ops[i].request.expiry
  }

  lemma ActiveInPrefix(c: Setup, w: World, ops: seq<Operation>, n: nat, i: nat, key: string, block: int)
    requires i < n <= |ops|
    ensures ActiveFrom(c, w, ops[..n], i, key, block) == ActiveFrom(c, w, ops, i, key, block)
  {
    assert ops[..n][..i] == ops[..i];
  }

  /** Whatever the reference remembers was accepted by some call, or was remembered from the start. */
  lemma {:induction false} RememberedWasAccepted(c: Setup, w: World, seen: Snapshot, ops: seq<Operation>, key: string,
                                                 block: int)
    ensures var entries := Reference(c, w, seen, ops).entries;
            key in entries && block <= entries[key] ==>
              || (key in seen.entries && block <= seen.entries[key])
              || exists i :: 0 <= i < |ops| && ActiveFrom(c, w, ops, i, key, block)
  {
    var entries := Reference(c, w, seen, ops).entries;
    if ops != [] && key in entries && block <= entries[key] {
      var n := |ops| - 1;
      var before := ops[..n];
      if ActiveFrom(c, w, ops, n, key, block) {
      } else {
        RememberedWasAccepted(c, w, seen, before, key, block);
        if i :| 0 <= i < n && ActiveFrom(c, w, before, i, key, block) {
          ActiveInPrefix(c, w, ops, n, i, key, block);
        }
      }
    }
  }

  /** A token is active at a block of a run: remembered from the start or accepted by an earlier call. */
  ghost predicate IsActive(c: Setup, w: World, seen: Snapshot, ops: seq<Operation>, n: nat, key: string, block: int)
    requires n <= |ops|
  {
    || (key in seen.entries && block <= seen.entries[key])
    || exists i :: 0 <= i < n && ActiveFrom(c, w, ops, i, key, block)
  }

  lemma StartIsRemembered(c: Setup, st: State, seen: Snapshot, ops: seq<Operation>, from: int, n: nat, key: string)
    requires Faithful(c, st, seen, from)
    requires Monotonic(ops, from) && KeysValid(ops) && Durable(c, ops)
    requires n <= |ops| && key in seen.entries
    ensures var entries := Reference(c, Ok(st), seen, ops[..n]).entries;
            key in entries && seen.entries[key] <= entries[key]
  {
    if n > 0 {
      StartIsRemembered(c, st, seen, ops, from, n - 1, key);
      ReferenceStep(c, st, seen, ops, from, n - 1);
    } else {
      assert ops[..0] == [];
    }
  }

  /** The reference remembers an unexpired key exactly when the key is active. */
  lemma RememberedIsActive(c: Setup, st: State, seen: Snapshot, ops: seq<Operation>, from: int, n: nat, key: string,
                           block: int)
    requires Faithful(c, st, seen, from)
    requires Monotonic(ops, from) && KeysValid(ops) && Durable(c, ops) && n <= |ops|
    ensures var entries := Reference(c, Ok(st), seen, ops[..n]).entries;
            (key in entries && block <= entries[key]) <==> IsActive(c, Ok(st), seen, ops, n, key, block)
  {
    var before := ops[..n];
    RememberedWasAccepted(c, Ok(st), seen, before, key, block);
    forall i | 0 <= i < n
      ensures ActiveFrom(c, Ok(st), before, i, key, block) == ActiveFrom(c, Ok(st), ops, i, key, block)
    {
      ActiveInPrefix(c, Ok(st), ops, n, i, key, block);
    }
    if key in seen.entries {
      StartIsRemembered(c, st, seen, ops, from, n, key);
    }
    if i :| 0 <= i < n && ActiveFrom(c, Ok(st), ops, i, key, block) {
      ExpiryNeverShrinks(c, st, seen, ops, from, i, n);
    }
  }

  /**
   In any run, a token is refused as already accepted exactly when an earlier call accepted its key and
   that acceptance has not expired.
   */
  lemma RefusedExactlyWhenActive(c: Setup, st: State, seen: Snapshot, ops: seq<Operation>, from: int, n: nat)
    requires Faithful(c, st, seen, from)
    requires Monotonic(ops, from) && KeysValid(ops) && Durable(c, ops)
    requires n < |ops| && ops[n].Token? && After(c, Ok(st), ops[..n]).Ok?
    requires var r := ops[n].request; BadArguments(r).None? && r.entryKey.Some? && r.sequenceKey != Some(None)
    ensures Step(c, After(c, Ok(st), ops[..n]), ops[n]).0 == Some(AlreadyAccepted)
       <==> IsActive(c, Ok(st), seen, ops, n, ops[n].request.entryKey.value, ops[n].request.block)
  {
    var before, r := ops[..n], ops[n].request;
    PrefixOfRun(c, ops, n, from);
    CacheIsReference(c, st, seen, before, from);
    LastBlockBound(before, from, r.block);
    RememberedIsActive(c, st, seen, ops, from, n, r.entryKey.value, r.block);
    AlreadyAcceptedIsTrue(c, After(c, Ok(st), before).value, Reference(c, Ok(st), seen, before),
                          LastBlock(before, from), r, ops[n].tokenDisk);
  }

  // ---------- scopes and tokens ----------

  /** The scope and token of a call. */
  datatype Name = Name(scope: string, token: string)

  /** The token calls of a run ask for the keys of these scopes and tokens, and no scope holds a NUL. */
  ghost predicate Named(h: Sha256, names: seq<Name>, ops: seq<Operation>) {
    && |names| == |ops|
    && forall i :: 0 <= i < |ops| && ops[i].Token? ==>
         '\0' !in names[i].scope && ops[i].request.entryKey == CacheKey(h, names[i].scope, names[i].token)
  }

  function KeyInputs(names: seq<Name>): set<Bytes> {
    set i | 0 <= i < |names| :: KeyInput(names[i].scope, names[i].token)
  }

  /** Call `i` accepted this scope and token with an expiry not before the block. */
  ghost predicate NameActiveFrom(c: Setup, w: World, names: seq<Name>, ops: seq<Operation>, i: nat,
                                 name: Name, block: int)
    requires |names| == |ops| && i < |ops|
  {
    ops[i].Token? && Accepted(c, w, ops, i) && names[i] == name && block <= ops[i].request.expiry
  }

  lemma SameKeySameName(h: Sha256, names: seq<Name>, ops: seq<Operation>, i: nat, j: nat)
    requires Named(h, names, ops) && CollisionFree(h, KeyInputs(names))
    requires i < |ops| && j < |ops| && ops[i].Token? && ops[j].Token?
    requires ops[i].request.entryKey.Some? && ops[j].request.entryKey.Some?
    ensures ops[i].request.entryKey == ops[j].request.entryKey <==> names[i] == names[j]
  {
    assert KeyInput(names[i].scope, names[i].token) in KeyInputs(names);
    assert KeyInput(names[j].scope, names[j].token) in KeyInputs(names);
    CacheKeyExact(h, names[i].scope, names[i].token, names[j].scope, names[j].token);
  }

  /**
   Unless the hash collides on the keys of the run, a run of calls on a new cache refuses a token as
   already accepted exactly when the same token was accepted under the same scope and has not expired:
   never a false alarm, and never a replay let through.
   */
  lemma RefusedExactlyWhenAccepted(c: Setup, h: Sha256, names: seq<Name>, ops: seq<Operation>, from: int, n: nat)
    requires ValidLimits(c.limits) && Named(h, names, ops) && CollisionFree(h, KeyInputs(names))
    requires Monotonic(ops, from) && KeysValid(ops) && Durable(c, ops)
    requires n < |ops| && ops[n].Token? && After(c, Ok(State(EMPTY, None)), ops[..n]).Ok?
    requires var r := ops[n].request; BadArguments(r).None? && r.entryKey.Some? && r.sequenceKey != Some(None)
    ensures Step(c, After(c, Ok(State(EMPTY, None)), ops[..n]), ops[n]).0 == Some(AlreadyAccepted)
       <==> exists i :: 0 <= i < n
              && NameActiveFrom(c, Ok(State(EMPTY, None)), names, ops, i, names[n], ops[n].request.block)
  {
    var st, r := State(EMPTY, None), ops[n].request;
    assert Purge(EMPTY.entries, from) == map[];
    RefusedExactlyWhenActive(c, st, EMPTY, ops, from, n);
    forall i | 0 <= i < n && ops[i].Token? && Accepted(c, Ok(st), ops, i)
      ensures ops[i].request.entryKey == r.entryKey <==> names[i] == names[n]
    {
      AcceptanceExact(c.limits, c.hasPath, ops[i].tokenDisk, After(c, Ok(st), ops[..i]).value, ops[i].request);
      SameKeySameName(h, names, ops, i, n);
    }
    if i :| 0 <= i < n && ActiveFrom(c, Ok(st), ops, i, r.entryKey.value, r.block) {
      assert NameActiveFrom(c, Ok(st), names, ops, i, names[n], r.block);
    }
    if i :| 0 <= i < n && NameActiveFrom(c, Ok(st), names, ops, i, names[n], r.block) {
      assert ActiveFrom(c, Ok(st), ops, i, r.entryKey.value, r.block);
    }
  }
}
