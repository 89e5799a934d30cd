/** For which limits the state file of the replay cache can always be loaded again. */
module ReplayCapacity {
  import opened Prelude
  import opened Ordering
  import opened ByteStrings
  import opened JsonValues
  import opened JsonParser
  import opened Replay

  // ---------- lengths ----------

  /** Text without quotes and backslashes is printed as it is. */
  predicate Plain(s: string) {
    forall i :: 0 <= i < |s| ==> s[i] != '"' && s[i] != '\\'
  }

  lemma {:induction false} EscapePlain(s: string)
    requires Plain(s)
    ensures Escape(s) == s
  {
    if s != "" {
      EscapePlain(s[1..]);
      assert s == [s[0]] + s[1..];
    }
  }

  lemma {:induction false} DecimalLength(n: nat, digits: nat)
    requires digits >= 1
    ensures n < Pow10(digits) ==> |Decimal(n)| <= digits
    ensures n >= Pow10(digits - 1) && n >= 1 ==> |Decimal(n)| >= digits
  {
    if digits >= 2 {
      assert Pow10(digits - 1) == 10 * Pow10(digits - 2);
      if n >= 10 {
        DecimalLength(n / 10, digits - 1);
      }
    }
  }

  function Pow10(n: nat): (r: nat)
    ensures r >= 1
  {
    if n == 0 then 1 else 10 * Pow10(n - 1)
  }

  lemma LargestIntegerLength()
    ensures Pow10(18) <= MAX_INT63 < Pow10(19)
  {
    assert Pow10(6) == 1000000;
    assert Pow10(12) == 1000000 * 1000000;
    assert Pow10(18) == 1000000 * 1000000 * 1000000;
  }

  lemma IntegerWidth(n: int, largest: int, digits: nat)
    requires 0 <= n <= largest && digits >= 1 && Pow10(digits - 1) <= largest < Pow10(digits)
    ensures |Print(Int(n))| <= digits && (n == largest ==> |Print(Int(n))| == digits)
  {
    DecimalLength(n, digits);
  }

  lemma PlainQuote(s: string)
    requires Plain(s)
    ensures |Quote(s)| == |s| + 2
  {
    EscapePlain(s);
  }

  /** One dictionary entry: comma, quoted key, colon and at most 19 digits. */
  const ENTRY_BYTES := 87

  lemma LargestIntegerWidth(n: int)
    requires InRange(n)
    ensures |Print(Int(n))| <= 19 && (n == MAX_INT63 ==> |Print(Int(n))| == 19)
  {
    LargestIntegerLength();
    IntegerWidth(n, MAX_INT63, 19);
  }

  lemma EntryLength(m: map<string, int>, k: string)
    requires k in m && IsHex256(k) && InRange(m[k])
    ensures |PrintField(IntegersJson(m), k)| <= ENTRY_BYTES - 1
    ensures m[k] == MAX_INT63 ==> |PrintField(IntegersJson(m), k)| == ENTRY_BYTES - 1
  {
    PlainQuote(k);
    LargestIntegerWidth(m[k]);
  }

  lemma {:induction false} EntriesLength(m: map<string, int>, keys: seq<string>)
    requires forall k :: k in keys ==> k in m && IsHex256(k) && InRange(m[k])
    ensures |PrintMoreFields(IntegersJson(m), keys)| <= ENTRY_BYTES * |keys|
    ensures (forall k :: k in keys ==> m[k] == MAX_INT63) ==>
              |PrintMoreFields(IntegersJson(m), keys)| == ENTRY_BYTES * |keys|
  {
    if keys != [] {
      assert keys[0] in keys && forall k :: k in keys[1..] ==> k in keys;
      EntryLength(m, keys[0]);
      EntriesLength(m, keys[1..]);
    }
  }

  lemma DictionaryLength(m: map<string, int>)
    requires forall k :: k in m ==> IsHex256(k) && InRange(m[k])
    ensures |Print(IntegersJson(m))| <= (if |m| == 0 then 2 else ENTRY_BYTES * |m| + 1)
    ensures (forall k :: k in m ==> m[k] == MAX_INT63) && |m| > 0 ==>
              |Print(IntegersJson(m))| == ENTRY_BYTES * |m| + 1
  {
    var v := IntegersJson(m);
    var keys := SortedKeys(v.fields.Keys);
    SortedKeysElements(v.fields.Keys);
    assert v.fields.Keys == m.Keys;
    assert |m| == |m.Keys| == |keys|;
    if keys != [] {
      assert keys[0] in keys && forall k :: k in keys[1..] ==> k in keys;
      EntryLength(m, keys[0]);
      EntriesLength(m, keys[1..]);
    }
  }

  lemma ThreeInOrder<T>(le: (T, T) -> bool, s: seq<T>, a: T, b: T, c: T)
    requires |s| == 3 && Distinct(s) && Sorted(le, s) && forall x :: x in s <==> x in {a, b, c}
    requires !le(b, a) && !le(c, a) && !le(c, b)
    ensures s == [a, b, c]
  {
    assert s[0] in s && s[1] in s && s[2] in s;
    assert le(s[0], s[1]) && le(s[0], s[2]) && le(s[1], s[2]);
    assert s[0] != s[1] && s[0] != s[2] && s[1] != s[2];
  }

  lemma ThreeKeysInOrder(a: string, b: string, c: string)
    requires !LexLe(b, a) && !LexLe(c, a) && !LexLe(c, b) && a != b && a != c && b != c
    ensures SortedKeys({a, b, c}) == [a, b, c]
  {
    var keys := {a, b, c};
    SortedKeysElements(keys);
    SortedKeysSorted(keys);
    assert |keys| == 3;
    ThreeInOrder(LexLe, SortedKeys(keys), a, b, c);
  }

  lemma ThreeFields(v: Json, a: string, b: string, c: string)
    requires v.Obj? && SortedKeys(v.fields.Keys) == [a, b, c]
    requires a in v.fields && b in v.fields && c in v.fields
    ensures |Print(v)| == |PrintField(v, a)| + |PrintField(v, b)| + |PrintField(v, c)| + 4
  {
    var keys := [a, b, c];
    assert keys[1..] == [b, c] && [b, c][1..] == [c] && [c][1..] == [];
    var last := PrintMoreFields(v, [c]);
    assert last == "," + PrintField(v, c) + PrintMoreFields(v, []);
    assert PrintMoreFields(v, [b, c]) == "," + PrintField(v, b) + last;
    assert PrintObject(v) == PrintField(v, a) + PrintMoreFields(v, [b, c]) + "}";
  }

  lemma StateTextLengthOf(s: Snapshot, a: string, b: string, c: string)
    requires var f := StateJson(s).fields;
             && f.Keys == {a, b, c}
             && f[a] == IntegersJson(s.entries) && f[b] == IntegersJson(s.sequences) && f[c] == Int(STATE_VERSION)
    requires !LexLe(b, a) && !LexLe(c, a) && !LexLe(c, b) && a != b && a != c && b != c
    requires Plain(a) && Plain(b) && Plain(c)
    ensures |StateText(s)|
         == |a| + |b| + |c| + 14 + |Print(IntegersJson(s.entries))| + |Print(IntegersJson(s.sequences))|
  {
    ThreeKeysInOrder(a, b, c);
    ThreeFields(StateJson(s), a, b, c);
    PlainQuote(a);
    PlainQuote(b);
    PlainQuote(c);
    assert Print(Int(STATE_VERSION)) == ['1'];
  }

  /** The text of a state is the two dictionaries and 37 fixed characters. */
  lemma StateTextLength(s: Snapshot)
    ensures |StateText(s)| == 37 + |Print(IntegersJson(s.entries))| + |Print(IntegersJson(s.sequences))|
  {
    StateFields(s);
    StateTextLengthOf(s, "entries", "sequences", "version");
  }

  // ---------- when loading cannot fail ----------

  /** Every state that the cache may hold under these limits is small enough to be loaded. */
  ghost predicate AlwaysLoadable(limits: Limits) {
    forall s :: WellFormed(s, limits) ==> |StateText(s)| <= MAX_STATE_BYTES
  }

  lemma StateTextBound(s: Snapshot, limits: Limits)
    requires ValidLimits(limits) && WellFormed(s, limits)
    ensures |StateText(s)| <= 39 + ENTRY_BYTES * (limits.maxEntries + limits.maxSequences)
  {
    StateTextLength(s);
    DictionaryLength(s.entries);
    DictionaryLength(s.sequences);
  }

  /** The default limits of ten thousand entries each are always loadable. */
  lemma DefaultLimitsLoadable()
    ensures AlwaysLoadable(Limits(10000, 10000))
  {
    forall s | WellFormed(s, Limits(10000, 10000)) ensures |StateText(s)| <= MAX_STATE_BYTES {
      StateTextBound(s, Limits(10000, 10000));
    }
  }

  // ---------- the exact threshold ----------

  /** Distinct well-formed keys. */
  function NthKey(i: nat): (k: string)
    ensures IsHex256(k)
  {
    Hex(BigEndian(i, DIGEST_BYTES))
  }

  lemma {:induction false} BigEndianIsBytes(n: nat, width: nat)
    ensures IsBytes(BigEndian(n, width))
  {
    if width > 0 {
      BigEndianIsBytes(n / 256, width - 1);
    }
  }

  lemma {:induction false} Pow256Grows(a: nat, b: nat)
    requires a <= b
    ensures Pow256(a) <= Pow256(b)
  {
    if a < b {
      Pow256Grows(a, b - 1);
    }
  }

  lemma NthKeyInjective(i: nat, j: nat)
    requires i <= LIMIT_CEILING && j <= LIMIT_CEILING && NthKey(i) == NthKey(j)
    ensures i == j
  {
    BigEndianIsBytes(i, DIGEST_BYTES);
    BigEndianIsBytes(j, DIGEST_BYTES);
    HexInjective(BigEndian(i, DIGEST_BYTES), BigEndian(j, DIGEST_BYTES));
    Pow256Grows(3, DIGEST_BYTES);
    assert Pow256(3) == 16777216;
    BigEndianInjective(i, j, DIGEST_BYTES);
  }

  /** A dictionary of `n` given keys, all with the largest value. */
  function Filled(key: nat -> string, n: nat): map<string, int> {
    if n == 0 then map[] else Filled(key, n - 1)[key(n - 1) := MAX_INT63]
  }

  lemma {:induction false} FilledKeys(key: nat -> string, n: nat, k: string) returns (i: nat)
    requires k in Filled(key, n)
    ensures Filled(key, n)[k] == MAX_INT63 && i < n && k == key(i)
  {
    if k == key(n - 1) {
      i := n - 1;
    } else {
      i := FilledKeys(key, n - 1, k);
    }
  }

  /** The first `n` keys are well formed and different. */
  ghost predicate GoodKeys(key: nat -> string, n: nat) {
    && (forall i: nat :: i < n ==> IsHex256(key(i)))
    && (forall i: nat, j: nat :: i < j < n ==> key(i) != key(j))
  }

  lemma NextKeyIsNew(key: nat -> string, n: nat)
    requires GoodKeys(key, n + 1)
    ensures key(n) !in Filled(key, n)
  {
    if key(n) in Filled(key, n) {
      var i := FilledKeys(key, n, key(n));
    }
  }

  lemma {:induction false} FilledSize(key: nat -> string, n: nat)
    requires GoodKeys(key, n)
    ensures |Filled(key, n)| == n
  {
    if n > 0 {
      FilledSize(key, n - 1);
      NextKeyIsNew(key, n - 1);
      SizeAfterAdding(Filled(key, n - 1), key(n - 1), MAX_INT63);
    }
  }

  lemma SizeAfterAdding(m: map<string, int>, k: string, v: int)
    requires k !in m
    ensures |m[k := v]| == |m| + 1
  {
    assert m[k := v].Keys == m.Keys + {k};
  }

  lemma FilledIsFull(key: nat -> string, n: nat)
    requires GoodKeys(key, n)
    ensures WellFormedMap(Filled(key, n), n) && |Filled(key, n)| == n
    ensures forall k :: k in Filled(key, n) ==> Filled(key, n)[k] == MAX_INT63
  {
    FilledSize(key, n);
    forall k | k in Filled(key, n) ensures IsHex256(k) && Filled(key, n)[k] == MAX_INT63 {
      var i := FilledKeys(key, n, k);
    }
  }

  /** A cache filled to its limits with the largest values. */
  lemma FullStateLength(entry: nat -> string, sequence: nat -> string, limits: Limits)
    requires ValidLimits(limits) && GoodKeys(entry, limits.maxEntries) && GoodKeys(sequence, limits.maxSequences)
    ensures var s := Snapshot(Filled(entry, limits.maxEntries), Filled(sequence, limits.maxSequences));
            && WellFormed(s, limits)
            && |StateText(s)| == 39 + ENTRY_BYTES * (limits.maxEntries + limits.maxSequences)
  {
    var s := Snapshot(Filled(entry, limits.maxEntries), Filled(sequence, limits.maxSequences));
    FilledIsFull(entry, limits.maxEntries);
    FilledIsFull(sequence, limits.maxSequences);
    StateTextLength(s);
    DictionaryLength(s.entries);
    DictionaryLength(s.sequences);
  }

  lemma NthKeysAreGood(n: nat)
    requires n <= LIMIT_CEILING
    ensures GoodKeys(NthKey, n)
  {
    forall i: nat, j: nat | i < j < n ensures NthKey(i) != NthKey(j) {
      if NthKey(i) == NthKey(j) {
        NthKeyInjective(i, j);
      }
    }
  }

  lemma SmallLimitsLoadable(limits: Limits)
    requires ValidLimits(limits) && limits.maxEntries + limits.maxSequences <= 48209
    ensures AlwaysLoadable(limits)
  {
    forall s | WellFormed(s, limits) ensures |StateText(s)| <= MAX_STATE_BYTES {
      StateTextBound(s, limits);
    }
  }

  lemma LargeLimitsNotLoadable(limits: Limits)
    requires ValidLimits(limits) && limits.maxEntries + limits.maxSequences > 48209
    ensures !AlwaysLoadable(limits)
  {
    var s := Snapshot(Filled(NthKey, limits.maxEntries), Filled(NthKey, limits.maxSequences));
    NthKeysAreGood(limits.maxEntries);
    NthKeysAreGood(limits.maxSequences);
    FullStateLength(NthKey, NthKey, limits);
    assert WellFormed(s, limits) && |StateText(s)| > MAX_STATE_BYTES;
  }

  /**
   The permitted limits go up to a million entries, but nothing stops the cache from writing a file
   that it will refuse to load. Loading can never fail exactly when the two limits add up to at most
   48209.
   */
  lemma LoadableExact(limits: Limits)
    requires ValidLimits(limits)
    ensures AlwaysLoadable(limits) <==> limits.maxEntries + limits.maxSequences <= 48209
  {
    if limits.maxEntries + limits.maxSequences <= 48209 {
      SmallLimitsLoadable(limits);
    } else {
      LargeLimitsNotLoadable(limits);
    }
  }

  /** Within those limits a restart from a file that the cache wrote always succeeds. */
  lemma RestartAlwaysSucceeds(limits: Limits, s: Snapshot)
    requires ValidLimits(limits) && limits.maxEntries + limits.maxSequences <= 48209
    requires WellFormed(s, limits)
    ensures Restart(limits, true, Some(StateText(s))) == Ok(State(s, Some(StateText(s))))
  {
    LoadableExact(limits);
    LoadUndoesPersist(s, limits);
  }
}
