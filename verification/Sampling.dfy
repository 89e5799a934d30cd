/** Keyed ranking and unbiased sampling from a pseudorandom stream. */
module Sampling {
  import opened Prelude
  import opened Ordering
  import opened ByteStrings

  // ---------- keyed ranking ----------

  /** A value together with the key it is ranked by. */
  datatype Keyed = Keyed(mac: Bytes, value: nat)

  predicate KeyedLe(a: Keyed, b: Keyed) {
    if a.mac == b.mac then a.value <= b.value else LexLe(a.mac, b.mac)
  }

  function KeyOf(mac: Hmac, seed: Bytes, domain: Bytes, value: nat): Keyed {
    Keyed(mac(seed, domain + BigEndian(value, 8)), value)
  }

  function Keys(mac: Hmac, seed: Bytes, domain: Bytes, values: seq<nat>): (r: seq<Keyed>)
    ensures |r| == |values|
    ensures forall i :: 0 <= i < |r| ==> r[i] == KeyOf(mac, seed, domain, values[i])
  {
    seq(|values|, i requires 0 <= i < |values| => KeyOf(mac, seed, domain, values[i]))
  }

  function ValueOf(k: Keyed): nat { k.value }

  /** The values in the order of their keyed digests; equal digests are ordered by value. */
  function Ranked(mac: Hmac, seed: Bytes, domain: Bytes, values: seq<nat>): seq<nat> {
    Map(ValueOf, Sort(KeyedLe, Keys(mac, seed, domain, values)))
  }

  lemma KeyedOrderTotal()
    ensures TotalPreorder(KeyedLe)
  {
    forall a: Keyed, b: Keyed ensures KeyedLe(a, b) || KeyedLe(b, a) {
      LexTotal(a.mac, b.mac);
    }
    forall a: Keyed, b: Keyed, c: Keyed | KeyedLe(a, b) && KeyedLe(b, c) ensures KeyedLe(a, c) {
      if LexLe(a.mac, b.mac) && LexLe(b.mac, c.mac) {
        LexTransitive(a.mac, b.mac, c.mac);
        if a.mac == c.mac && a.mac != b.mac {
          LexAntisymmetric(a.mac, b.mac);
        }
      }
    }
  }

  lemma KeyedSeparates(s: seq<Keyed>)
    ensures Separates(KeyedLe, s)
  {
    forall x, y | x in s && y in s && KeyedLe(x, y) && KeyedLe(y, x) ensures x == y {
      if x.mac != y.mac {
        LexAntisymmetric(x.mac, y.mac);
      }
    }
  }

  /** The values of keyed values are keyed by their own keys. */
  lemma KeysOfValues(mac: Hmac, seed: Bytes, domain: Bytes, s: seq<Keyed>)
    requires forall k :: k in s ==> k == KeyOf(mac, seed, domain, k.value)
    ensures Keys(mac, seed, domain, Map(ValueOf, s)) == s
  {
    forall i | 0 <= i < |s| ensures Keys(mac, seed, domain, Map(ValueOf, s))[i] == s[i] {
      assert s[i] in s;
    }
  }

  lemma ValuesOfKeys(mac: Hmac, seed: Bytes, domain: Bytes, values: seq<nat>)
    ensures Map(ValueOf, Keys(mac, seed, domain, values)) == values
  {
  }

  /** The ranking is a permutation of the values, in the order of their keys. */
  lemma RankedIsSortedPermutation(mac: Hmac, seed: Bytes, domain: Bytes, values: seq<nat>)
    ensures multiset(Ranked(mac, seed, domain, values)) == multiset(values)
    ensures |Ranked(mac, seed, domain, values)| == |values|
    ensures Sorted(KeyedLe, Keys(mac, seed, domain, Ranked(mac, seed, domain, values)))
  {
    var keys := Keys(mac, seed, domain, values);
    var sorted := Sort(KeyedLe, keys);
    SortMultiset(KeyedLe, keys);
    KeyedOrderTotal();
    SortSorted(KeyedLe, keys);
    MapMultiset(ValueOf, sorted, keys);
    ValuesOfKeys(mac, seed, domain, values);
    KeysOfValues(mac, seed, domain, sorted);
  }

  lemma {:induction false} KeysMultiset(mac: Hmac, seed: Bytes, domain: Bytes, a: seq<nat>, b: seq<nat>)
    requires multiset(a) == multiset(b)
    ensures multiset(Keys(mac, seed, domain, a)) == multiset(Keys(mac, seed, domain, b))
  {
    var key := v => KeyOf(mac, seed, domain, v);
    MapMultiset(key, a, b);
    assert Keys(mac, seed, domain, a) == Map(key, a);
    assert Keys(mac, seed, domain, b) == Map(key, b);
  }

  /** It is the only permutation of the values that is in the order of the keys. */
  lemma RankedIsUnique(mac: Hmac, seed: Bytes, domain: Bytes, values: seq<nat>, other: seq<nat>)
    requires multiset(other) == multiset(values)
    requires Sorted(KeyedLe, Keys(mac, seed, domain, other))
    ensures other == Ranked(mac, seed, domain, values)
  {
    RankedIsSortedPermutation(mac, seed, domain, values);
    var ranked := Ranked(mac, seed, domain, values);
    KeysMultiset(mac, seed, domain, other, ranked);
    KeyedSeparates(Keys(mac, seed, domain, other));
    SortedUnique(KeyedLe, Keys(mac, seed, domain, other), Keys(mac, seed, domain, ranked));
    ValuesOfKeys(mac, seed, domain, other);
    ValuesOfKeys(mac, seed, domain, ranked);
  }

  /** So the ranking does not depend on the order in which the values are listed. */
  lemma RankedIgnoresOrder(mac: Hmac, seed: Bytes, domain: Bytes, a: seq<nat>, b: seq<nat>)
    requires multiset(a) == multiset(b)
    ensures Ranked(mac, seed, domain, a) == Ranked(mac, seed, domain, b)
  {
    RankedIsSortedPermutation(mac, seed, domain, a);
    RankedIsUnique(mac, seed, domain, b, Ranked(mac, seed, domain, a));
  }

  // ---------- unbiased sampling ----------

  /** The first counter that does not fit its 8 bytes; drawing with it raises. */
  const COUNTER_LIMIT := 0x1_0000_0000_0000_0000

  /** The number of candidates: two to the power 256. */
  const MODULUS := 0x1_0000_0000_0000_0000_0000_0000_0000_0000_0000_0000_0000_0000_0000_0000_0000_0000

  /** The largest multiple of `size` up to `modulus`. */
  function LargestMultiple(modulus: nat, size: nat): (limit: nat)
    requires size > 0
    ensures limit <= modulus
  {
    modulus - modulus % size
  }

  /** `unbiased_limit` */
  function UnbiasedLimit(size: nat): nat
    requires size > 0
  {
    LargestMultiple(MODULUS, size)
  }

  /** A stream of candidates, the number of residues and the bound for acceptance. */
  datatype Stream = Stream(candidate: nat -> nat, size: nat, limit: nat) {
    /** The residue that a candidate contributes, if it is accepted. */
    function Accepted(candidate: nat): set<int>
      requires size > 0
    {
      if candidate < limit then {candidate % size} else {}
    }

    /** The residues of the accepted candidates among the first `n`. */
    function Shown(n: nat): set<int>
      requires size > 0
    {
      if n == 0 then {} else Shown(n - 1) + Accepted(candidate(n - 1))
    }

    /** No prefix shorter than `n` shows `count` distinct residues. */
    ghost predicate TooFewBefore(count: nat, n: nat)
      requires size > 0
    {
      forall m: nat :: m < n ==> |Shown(m)| < count
    }

    /** `n` candidates are the shortest prefix of the stream that shows `count` distinct residues. */
    ghost predicate Shortest(count: nat, n: nat)
      requires size > 0
    {
      |Shown(n)| == count && TooFewBefore(count, n)
    }

    /** The stream never shows `count` distinct residues before the counter overflows. */
    ghost predicate Exhausted(count: nat)
      requires size > 0
    {
      TooFewBefore(count, COUNTER_LIMIT + 1)
    }

    /** `s` is the sorted list of the first `count` distinct residues that the stream shows. */
    ghost predicate IsSample(count: nat, s: seq<int>)
      requires size > 0
    {
      exists n: nat :: n <= COUNTER_LIMIT && Shortest(count, n) && IsSortedSet(s, Shown(n))
    }
  }

  /** The stream that `_sample_indices` draws from. */
  function SampleStream(mac: Hmac, seed: Bytes, domain: Bytes, size: nat): Stream
    requires size > 0
  {
    Stream(counter => FromBigEndian(mac(seed, domain + BigEndian(counter, 8))), size, UnbiasedLimit(size))
  }

  lemma AddAtMostOne<T>(s: set<T>, added: set<T>)
    requires |added| <= 1
    ensures |s| <= |s + added| <= |s| + 1
  {
    if added == {} {
      assert s + added == s;
    } else {
      var x :| x in added;
      assert |added - {x}| == 0;
      assert added == {x};
      assert s + added == if x in s then s else s + {x};
    }
  }

  /** At most one residue is added per candidate. */
  lemma ShownGrowsByOne(stream: Stream, n: nat)
    requires stream.size > 0
    ensures stream.Shown(n + 1) == stream.Shown(n) + stream.Accepted(stream.candidate(n))
    ensures |stream.Shown(n)| <= |stream.Shown(n + 1)| <= |stream.Shown(n)| + 1
  {
    AddAtMostOne(stream.Shown(n), stream.Accepted(stream.candidate(n)));
  }

  lemma {:induction false} ShownInRange(stream: Stream, n: nat)
    requires stream.size > 0
    ensures forall r :: r in stream.Shown(n) ==> 0 <= r < stream.size
  {
    if n > 0 {
      ShownInRange(stream, n - 1);
    }
  }

  /** The list holds the elements in increasing order. */
  ghost predicate IsSortedSet(s: seq<int>, elements: set<int>) {
    StrictlyIncreasing(s) && ToSet(s) == elements
  }

  lemma {:induction false} SortedSetUnique(a: seq<int>, b: seq<int>)
    requires StrictlyIncreasing(a) && StrictlyIncreasing(b) && ToSet(a) == ToSet(b)
    ensures a == b
  {
    DistinctCardinality(a);
    DistinctCardinality(b);
    if a != [] {
      assert a[0] in ToSet(b) && b[0] in ToSet(a);
      assert a[0] == b[0];
      assert ToSet(a[1..]) == ToSet(a) - {a[0]};
      assert ToSet(b[1..]) == ToSet(b) - {b[0]};
      SortedSetUnique(a[1..], b[1..]);
      assert a == [a[0]] + a[1..] && b == [b[0]] + b[1..];
    }
  }

  method TakeOne<T(==)>(s: set<T>) returns (x: T)
    requires s != {}
    ensures x in s
  {
    x :| x in s;
  }

  method SortSet(elements: set<int>) returns (s: seq<int>)
    ensures IsSortedSet(s, elements)
  {
    var unsorted: seq<int> := [];
    var rest := elements;
    while rest != {}
      invariant rest + ToSet(unsorted) == elements && forall x :: x in unsorted ==> x !in rest
      invariant Distinct(unsorted)
      decreases rest
    {
      var x := TakeOne(rest);
      assert ToSet(unsorted + [x]) == ToSet(unsorted) + {x};
      unsorted, rest := unsorted + [x], rest - {x};
    }
    SortIntsStrict(unsorted);
    s := Sort(IntLe, unsorted);
  }

  /** Select the residue of the candidate, unless it lies beyond the unbiased limit. */
  method AddAccepted(stream: Stream, selected: set<int>, candidate: nat) returns (next: set<int>)
    requires stream.size > 0
    ensures next == selected + stream.Accepted(candidate)
  {
    next := selected;
    if candidate < stream.limit {
      next := next + {candidate % stream.size};
    }
  }

  lemma SampleFound(stream: Stream, count: nat, n: nat, s: seq<int>)
    requires stream.size > 0 && n <= COUNTER_LIMIT
    requires stream.Shortest(count, n) && IsSortedSet(s, stream.Shown(n))
    ensures stream.IsSample(count, s) && !stream.Exhausted(count)
  {
  }

  /** The loop of `_sample_indices`: draw until `count` distinct residues have been shown. */
  method Draw(stream: Stream, count: nat) returns (indices: Option<seq<int>>)
    requires stream.size > 0
    ensures indices.Some? ==> stream.IsSample(count, indices.value)
    ensures indices.None? <==> stream.Exhausted(count)
  {
    var selected: set<int> := {};
    var counter: nat := 0;
    while |selected| < count
      invariant counter <= COUNTER_LIMIT
      invariant selected == stream.Shown(counter) && |selected| <= count
      invariant stream.TooFewBefore(count, counter)
      decreases COUNTER_LIMIT - counter
    {
      if counter == COUNTER_LIMIT {
        return None;
      }
      ShownGrowsByOne(stream, counter);
      var candidate := stream.candidate(counter);
      counter := counter + 1;
      selected := AddAccepted(stream, selected, candidate);
    }
    var sorted := SortSet(selected);
    SampleFound(stream, count, counter, sorted);
    return Some(sorted);
  }

  /**
   `_sample_indices`: the sorted first `count` distinct residues that the stream shows. `None` is the
   overflow of the counter, which happens exactly when the stream never shows that many.
   */
  method SampleIndices(mac: Hmac, seed: Bytes, domain: Bytes, size: nat, count: nat)
    returns (indices: Option<seq<int>>)
    requires size > 0
    ensures indices.Some? ==> SampleStream(mac, seed, domain, size).IsSample(count, indices.value)
    ensures indices.None? <==> SampleStream(mac, seed, domain, size).Exhausted(count)
  {
    indices := Draw(SampleStream(mac, seed, domain, size), count);
  }

  lemma ShortestUnique(stream: Stream, count: nat, m: nat, n: nat)
    requires stream.size > 0 && stream.Shortest(count, m) && stream.Shortest(count, n)
    ensures m == n
  {
  }

  /** A sample is unique, has exactly `count` distinct elements and lies below `size`. */
  lemma SampleProperties(stream: Stream, count: nat, s: seq<int>)
    requires stream.size > 0 && stream.IsSample(count, s)
    ensures |s| == count && StrictlyIncreasing(s)
    ensures forall i :: 0 <= i < |s| ==> 0 <= s[i] < stream.size
    ensures forall t :: stream.IsSample(count, t) ==> t == s
  {
    var n: nat :| n <= COUNTER_LIMIT && stream.Shortest(count, n) && IsSortedSet(s, stream.Shown(n));
    DistinctCardinality(s);
    ShownInRange(stream, n);
    forall i | 0 <= i < |s| ensures 0 <= s[i] < stream.size {
      assert s[i] in ToSet(s);
    }
    forall t | stream.IsSample(count, t) ensures t == s {
      var m: nat :| m <= COUNTER_LIMIT && stream.Shortest(count, m) && IsSortedSet(t, stream.Shown(m));
      ShortestUnique(stream, count, m, n);
      SortedSetUnique(s, t);
    }
  }

  // ---------- why the sample is unbiased ----------

  /** The accepted candidates below `limit` with residue `r`. */
  function WithResidue(limit: nat, size: nat, r: nat): set<nat>
    requires size > 0
  {
    set c: nat | c < limit && c % size == r
  }

  /** A block adds exactly one number with residue `r`. */
  lemma ResidueOfBlock(start: nat, block: nat, size: nat, r: nat)
    requires r < size && start == block * size
    ensures WithResidue(start + size, size, r) == WithResidue(start, size, r) + {start + r}
  {
    var earlier, grown := WithResidue(start, size, r), WithResidue(start + size, size, r);
    BlockResidue(block, size, r);
    forall c: nat ensures c in grown <==> c in earlier + {start + r} {
      if start <= c < start + size {
        BlockResidue(block, size, c - start);
      }
    }
  }

  lemma {:induction false} ResidueCount(blocks: nat, size: nat, r: nat)
    requires r < size
    ensures |WithResidue(blocks * size, size, r)| == blocks
  {
    if blocks > 0 {
      var start := (blocks - 1) * size;
      assert blocks * size == start + size;
      ResidueCount(blocks - 1, size, r);
      ResidueOfBlock(start, blocks - 1, size, r);
    }
  }

  /** Within a block of `size` consecutive numbers the residue is the offset. */
  lemma {:induction false} BlockResidue(block: nat, size: nat, offset: nat)
    requires offset < size
    ensures (block * size + offset) % size == offset
  {
    if block > 0 {
      BlockResidue(block - 1, size, offset);
      var x := (block - 1) * size + offset;
      assert block * size + offset == x + size;
      AddDivisor(x, size);
    }
  }

  lemma AddDivisor(x: nat, size: nat)
    requires size > 0
    ensures (x + size) % size == x % size
  {
    var q, r := x / size, x % size;
    assert x + size == (q + 1) * size + r;
    DivisionUnique(x + size, size, q + 1, r);
  }

  lemma DivisionUnique(x: nat, size: nat, q: nat, r: nat)
    requires size > 0 && r < size && x == q * size + r
    ensures x / size == q && x % size == r
  {
    var p, s := x / size, x % size;
    assert x == p * size + s;
    MultiplesGrow(size, p, q);
    MultiplesGrow(size, q, p);
  }

  lemma MultiplesGrow(size: nat, p: nat, q: nat)
    ensures p > q ==> p * size >= q * size + size
  {
    if p > q {
      ProductGrows(size, p - q - 1, q);
    }
  }

  lemma ProductGrows(size: nat, d: nat, q: nat)
    ensures (q + 1 + d) * size >= q * size + size
  {
    assert (q + 1 + d) * size == q * size + size + d * size;
  }

  lemma MultipleProperties(modulus: nat, size: nat, r: nat)
    requires r < size
    ensures LargestMultiple(modulus, size) % size == 0
    ensures |WithResidue(LargestMultiple(modulus, size), size, r)| == LargestMultiple(modulus, size) / size
    ensures 0 <= modulus - LargestMultiple(modulus, size) < size
  {
    var q := modulus / size;
    assert LargestMultiple(modulus, size) == q * size;
    DivisionUnique(q * size, size, q, 0);
    ResidueCount(q, size, r);
  }

  /**
   Every residue has the same number of accepted candidates, `unbiased_limit / size`, and fewer than
   `size` values are rejected.
   */
  lemma SamplingIsUnbiased(size: nat, r: nat)
    requires r < size
    ensures |WithResidue(UnbiasedLimit(size), size, r)| == UnbiasedLimit(size) / size
    ensures UnbiasedLimit(size) % size == 0 && 0 <= MODULUS - UnbiasedLimit(size) < size
  {
    MultipleProperties(MODULUS, size, r);
  }

  lemma {:induction false} CandidateBelow(b: Bytes)
    requires IsBytes(b)
    ensures FromBigEndian(b) < Pow256(|b|)
  {
    if b != "" {
      CandidateBelow(b[..|b| - 1]);
      assert b[|b| - 1] as int < 256;
    }
  }

  /** Candidates are drawn from the range below the modulus. */
  lemma CandidateInRange(mac: Hmac, seed: Bytes, domain: Bytes, size: nat, counter: nat)
    requires size > 0
    ensures SampleStream(mac, seed, domain, size).candidate(counter) < MODULUS
  {
    CandidateBelow(mac(seed, domain + BigEndian(counter, 8)));
    ModulusIsPower();
  }

  lemma PowerAdds(a: nat, b: nat)
    ensures Pow256(a + b) == Pow256(a) * Pow256(b)
  {
    if a > 0 {
      PowerAdds(a - 1, b);
      assert Pow256(a + b) == 256 * (Pow256(a - 1) * Pow256(b));
    }
  }

  lemma ModulusIsPower()
    ensures Pow256(DIGEST_BYTES) == MODULUS
  {
    assert Pow256(4) == 0x1_0000_0000;
    PowerAdds(4, 4);
    PowerAdds(8, 8);
    PowerAdds(16, 16);
  }
}
