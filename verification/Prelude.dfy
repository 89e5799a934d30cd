/** Optional values, results that stand for exceptions, and facts about sequences and multisets. */
module Prelude {
  datatype Option<+T> = None | Some(value: T) {
    predicate IsFailure() {
      None?
    }

    function PropagateFailure<U>(): Option<U>
      requires None?
    {
      None
    }

    function Extract(): T
      requires Some?
    {
      value
    }
  }

  datatype Result<+T, +E> = Ok(value: T) | Err(error: E)

  /** No element occurs twice. */
  ghost predicate Distinct<T>(s: seq<T>) {
    forall i, j :: 0 <= i < j < |s| ==> s[i] != s[j]
  }

  /** No element is repeated: the list is as long as its set. */
  predicate AllDistinct<T(==)>(s: seq<T>)
    ensures AllDistinct(s) <==> Distinct(s)
  {
    if s == [] then true
    else
      assert Distinct(s) ==> Distinct(s[1..]) by {
        assert forall i | 0 <= i < |s| - 1 :: s[1..][i] == s[i + 1];
      }
      assert s == [s[0]] + s[1..];
      s[0] !in s[1..] && AllDistinct(s[1..])
  }

  function Min(a: int, b: int): int {
    if a < b then a else b
  }

  function ToSet<T>(s: seq<T>): (r: set<T>) {
    set x | x in s
  }

  lemma DistinctCardinality<T>(s: seq<T>)
    requires Distinct(s)
    ensures |ToSet(s)| == |s|
  {
    if s != [] {
      var t := s[..|s| - 1];
      DistinctCardinality(t);
      assert s == t + [s[|s| - 1]];
      assert ToSet(s) == ToSet(t) + {s[|s| - 1]};
    } else {
      assert ToSet(s) == {};
    }
  }

  /** Text before the first mark and text after it are split in one way only. */
  lemma SplitAtMark<T>(mark: T, a: seq<T>, b: seq<T>, c: seq<T>, d: seq<T>)
    requires mark !in a && mark !in c && a + [mark] + b == c + [mark] + d
    ensures a == c && b == d
  {
    var x, y := a + [mark] + b, c + [mark] + d;
    assert x[|a|] == mark && y[|c|] == mark;
    assert forall i :: 0 <= i < |a| ==> x[i] == a[i] && x[i] != mark;
    assert forall i :: 0 <= i < |c| ==> y[i] == c[i] && y[i] != mark;
    assert |a| == |c|;
    assert x[..|a|] == a && y[..|c|] == c && x[|a| + 1..] == b && y[|c| + 1..] == d;
  }

  /** A multiset without repetition has exactly one copy of each element of the sequence. */
  lemma DistinctMultiset<T>(s: seq<T>)
    requires Distinct(s)
    ensures forall x :: x in s ==> multiset(s)[x] == 1
  {
    if s != [] {
      var t := s[..|s| - 1];
      DistinctMultiset(t);
      assert s == t + [s[|s| - 1]];
    }
  }

  lemma RepeatedInMultiset<T>(s: seq<T>, i: nat, j: nat)
    requires i < j < |s| && s[i] == s[j]
    ensures multiset(s)[s[i]] >= 2
  {
    assert s == s[..j] + [s[j]] + s[j + 1..];
    assert s[i] in s[..j];
  }

  /** Distinctness only depends on the multiset of elements. */
  lemma DistinctPermutation<T>(a: seq<T>, b: seq<T>)
    requires multiset(a) == multiset(b) && Distinct(a)
    ensures Distinct(b)
  {
    DistinctMultiset(a);
    forall i, j | 0 <= i < j < |b| ensures b[i] != b[j] {
      assert b[i] in multiset(a);
      if b[i] == b[j] {
        RepeatedInMultiset(b, i, j);
      }
    }
  }

  lemma SameElements<T>(a: seq<T>, b: seq<T>)
    requires multiset(a) == multiset(b)
    ensures |a| == |b|
    ensures forall x :: x in a <==> x in b
  {
    assert |multiset(a)| == |a| && |multiset(b)| == |b|;
    forall x ensures x in a <==> x in b {
      assert x in a <==> x in multiset(a);
      assert x in b <==> x in multiset(b);
    }
  }

  function Map<T, U>(f: T -> U, s: seq<T>): (r: seq<U>)
    ensures |r| == |s| && forall i :: 0 <= i < |s| ==> r[i] == f(s[i])
  {
    seq(|s|, i requires 0 <= i < |s| => f(s[i]))
  }

  lemma SplitAt<T>(s: seq<T>, x: T) returns (i: nat)
    requires x in s
    ensures i < |s| && s == s[..i] + [x] + s[i + 1..]
    ensures multiset(s[..i] + s[i + 1..]) == multiset(s) - multiset{x}
  {
    i :| 0 <= i < |s| && s[i] == x;
    assert s == s[..i] + [x] + s[i + 1..];
  }

  lemma MapConcat<T, U>(f: T -> U, a: seq<T>, b: seq<T>)
    ensures Map(f, a + b) == Map(f, a) + Map(f, b)
  {
  }

  lemma MapWithout<T, U>(f: T -> U, before: seq<T>, x: T, after: seq<T>)
    ensures multiset(Map(f, before + [x] + after)) == multiset{f(x)} + multiset(Map(f, before + after))
  {
    MapConcat(f, before + [x], after);
    MapConcat(f, before, [x]);
    MapConcat(f, before, after);
    assert Map(f, [x]) == [f(x)];
  }

  lemma {:induction false} MapMultiset<T, U>(f: T -> U, a: seq<T>, b: seq<T>)
    requires multiset(a) == multiset(b)
    ensures multiset(Map(f, a)) == multiset(Map(f, b))
  {
    SameElements(a, b);
    if a != [] {
      var x, rest := a[0], a[1..];
      var i := SplitAt(b, x);
      var before, after := b[..i], b[i + 1..];
      assert a == [] + [x] + rest;
      assert multiset(rest) == multiset(before + after);
      MapMultiset(f, rest, before + after);
      MapWithout(f, [], x, rest);
      assert [] + rest == rest;
      MapWithout(f, before, x, after);
    }
  }
}
