/** The keyed inputs of a correctness challenge: no two draws of a seed use the same one. */
module SliceInputs {
  import opened Prelude
  import opened ByteStrings
  import opened JsonValues
  import opened JsonParser
  import opened Merkle
  import opened Sampling
  import opened Correctness

  /** What is authenticated for one candidate of a slice. */
  function SliceInput(t: ProbeTarget, step: int, counter: nat): Bytes {
    SliceDomain(t, step) + BigEndian(counter, 8)
  }

  /** What is authenticated to rank one candidate step. */
  function StepInput(step: nat): Bytes {
    STEP_DOMAIN + BigEndian(step, 8)
  }

  /** The stream of a slice draws its candidates from these inputs. */
  lemma SliceCandidates(mac: Hmac, seed: Bytes, t: ProbeTarget, step: int, counter: nat)
    requires t.elementCount > 0
    ensures ChallengeSlices(mac, seed)(t, step).candidate(counter)
         == FromBigEndian(mac(seed, SliceInput(t, step, counter)))
  {
  }

  lemma KindHasNoNul(kind: ProofKind)
    ensures '\0' !in KindText(kind)
  {
  }

  lemma NameHasNoNul(s: string)
    requires IsTensorName(s)
    ensures '\0' !in s
  {
    assert !IsTensorChar('\0');
  }

  lemma NumberHasNoNul(n: int)
    ensures '\0' !in PrintInt(n)
  {
  }

  lemma Reassociate(t: ProbeTarget, step: int, rest: Bytes)
    ensures SliceDomain(t, step) + rest == SLICE_DOMAIN + SliceContext(t, step, rest)
  {
    var text, kind := PrintInt(step) + ['\0'], KindText(t.kind) + ['\0'];
    assert text + "" == text;
    assert SLICE_DOMAIN + (kind + (t.tensorName + ['\0'] + text)) + rest
        == SLICE_DOMAIN + (kind + (t.tensorName + ['\0'] + (text + rest)));
  }

  lemma CounterFits()
    ensures Pow256(8) == COUNTER_LIMIT
  {
    assert Pow256(4) == 0x1_0000_0000;
    PowerAdds(4, 4);
  }

  /** Kind, tensor name, step and counter are all recovered from an input. */
  lemma SliceInputExact(t: ProbeTarget, step: int, counter: nat, u: ProbeTarget, other: int, otherCounter: nat)
    requires ValidTarget(t) && ValidTarget(u) && counter < COUNTER_LIMIT && otherCounter < COUNTER_LIMIT
    ensures SliceInput(t, step, counter) == SliceInput(u, other, otherCounter) <==>
              t.kind == u.kind && t.tensorName == u.tensorName && step == other && counter == otherCounter
  {
    if SliceInput(t, step, counter) == SliceInput(u, other, otherCounter) {
      var x, y := BigEndian(counter, 8), BigEndian(otherCounter, 8);
      Reassociate(t, step, x);
      Reassociate(u, other, y);
      SameContext(t, step, x, u, other, y);
      CounterFits();
      BigEndianInjective(counter, otherCounter, 8);
    } else if t.kind == u.kind && t.tensorName == u.tensorName {
      assert SliceDomain(t, step) == SliceDomain(u, step);
    }
  }

  lemma SameContext(t: ProbeTarget, step: int, x: Bytes, u: ProbeTarget, other: int, y: Bytes)
    requires ValidTarget(t) && ValidTarget(u)
    requires SLICE_DOMAIN + SliceContext(t, step, x) == SLICE_DOMAIN + SliceContext(u, other, y)
    ensures t.kind == u.kind && t.tensorName == u.tensorName && step == other && x == y
  {
    var a, b := SliceContext(t, step, x), SliceContext(u, other, y);
    assert (SLICE_DOMAIN + a)[|SLICE_DOMAIN|..] == a && (SLICE_DOMAIN + b)[|SLICE_DOMAIN|..] == b;
    KindHasNoNul(t.kind);
    KindHasNoNul(u.kind);
    NameHasNoNul(t.tensorName);
    NameHasNoNul(u.tensorName);
    NumberHasNoNul(step);
    NumberHasNoNul(other);
    var p, q := PrintInt(step) + ['\0'] + x, PrintInt(other) + ['\0'] + y;
    SplitAtMark('\0', KindText(t.kind), t.tensorName + ['\0'] + p, KindText(u.kind), u.tensorName + ['\0'] + q);
    SplitAtMark('\0', t.tensorName, p, u.tensorName, q);
    SplitAtMark('\0', PrintInt(step), x, PrintInt(other), y);
    KindTextInjective(t.kind, u.kind);
    PrintInjective(Int(step), Int(other));
  }

  /** The inputs that rank steps are different from each other and from all inputs that draw slices. */
  lemma StepInputExact(step: nat, other: nat, t: ProbeTarget, sliceStep: int, counter: nat)
    requires step < COUNTER_LIMIT && other < COUNTER_LIMIT
    ensures StepInput(step) == StepInput(other) <==> step == other
    ensures StepInput(step) != SliceInput(t, sliceStep, counter)
  {
    var n := |STEP_DOMAIN|;
    assert n == |SLICE_DOMAIN|;
    assert StepInput(step)[n..] == BigEndian(step, 8) && StepInput(other)[n..] == BigEndian(other, 8);
    CounterFits();
    if StepInput(step) == StepInput(other) {
      BigEndianInjective(step, other, 8);
    }
    assert StepInput(step)[..n] == STEP_DOMAIN;
    Reassociate(t, sliceStep, BigEndian(counter, 8));
    assert SliceInput(t, sliceStep, counter)[..n] == SLICE_DOMAIN;
    assert STEP_DOMAIN[22] != SLICE_DOMAIN[22];
  }
}
