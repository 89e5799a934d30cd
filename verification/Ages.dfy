/** What the permitted age of messages does to replay protection: exactly when no content is accepted twice. */
module Ages {
  import opened Prelude
  import opened ByteStrings
  import opened Ordering
  import opened Protocol
  import opened Wire
  import opened WireTheorems
  import opened Replay
  import opened ReplayRuns
  import opened Identity
  import opened Refusals

  // ---------- a message that is presented twice ----------

  lemma {:induction false} IdleRun(c: Setup, w: World, ops: seq<Operation>, lo: nat, hi: nat)
    requires lo <= hi <= |ops| && forall k :: lo <= k < hi ==> ops[k].Idle?
    ensures After(c, w, ops[..hi]) == After(c, w, ops[..lo])
  {
    if lo < hi {
      IdleRun(c, w, ops, lo, hi - 1);
      assert ops[..hi][..hi - 1] == ops[..hi - 1] && ops[hi - 1].Idle?;
    }
  }

  ghost predicate Plain(r: Request) {
    r.entryKey.Some? && r.sequenceKey.None? && BadArguments(r).None?
  }

  lemma FirstToken(c: Setup, r: Request)
    requires ValidLimits(c.limits) && Plain(r)
    ensures var (error, next) := AcceptToken(c.limits, c.hasPath, true, State(EMPTY, None), r);
            error.None? && next.memory == Snapshot(map[r.entryKey.value := r.expiry], map[])
  {
    assert Purge(EMPTY.entries, r.block) == map[];
  }

  lemma SecondToken(c: Setup, st: State, r: Request, s: Request)
    requires ValidLimits(c.limits) && Plain(r) && Plain(s) && s.entryKey == r.entryKey
    requires st.memory == Snapshot(map[r.entryKey.value := r.expiry], map[])
    ensures AcceptToken(c.limits, c.hasPath, true, st, s).0.None? <==> r.expiry < s.block
  {
    if r.expiry < s.block {
      assert Purge(st.memory.entries, s.block) == map[];
    } else {
      assert r.entryKey.value in Purge(st.memory.entries, s.block);
    }
  }

  /** Two requests for one token, with nothing else before them or between them. */
  lemma TwoTokens(c: Setup, ops: seq<Operation>, i: nat, j: nat)
    requires ValidLimits(c.limits) && i < j < |ops|
    requires forall k :: 0 <= k < j && k != i ==> ops[k].Idle?
    requires ops[i].Token? && ops[i].tokenDisk && Plain(ops[i].request)
    requires ops[j].Token? && ops[j].tokenDisk && Plain(ops[j].request)
    requires ops[i].request.entryKey == ops[j].request.entryKey
    ensures Accepted(c, Ok(State(EMPTY, None)), ops, i)
    ensures Accepted(c, Ok(State(EMPTY, None)), ops, j) <==> ops[i].request.expiry < ops[j].request.block
  {
    var w := Ok(State(EMPTY, None));
    IdleRun(c, w, ops, 0, i);
    assert ops[..0] == [] && After(c, w, ops[..i]) == w;
    FirstToken(c, ops[i].request);
    assert ops[..i + 1][..i] == ops[..i] && ops[..i + 1][i] == ops[i];
    IdleRun(c, w, ops, i + 1, j);
    SecondToken(c, After(c, w, ops[..j]).value, ops[i].request, ops[j].request);
  }

  lemma AgedRequest(h: Sha256, verify: Verifier, e: Event)
    requires e.Present? && (e.message.CapabilityClaim? || e.message.ValidationReceipt?)
    requires OperationOf(h, verify, e).Token?
    ensures var r := OperationOf(h, verify, e).request;
            && r.sequenceKey.None? && r.block == e.block && r.expiry == ObservedBlock(e.message) + e.policy.maxAgeBlocks
            && ReplayToken(h, e.message).Some?
            && r.entryKey == CacheKey(h, ReplayScope(e.message), ReplayToken(h, e.message).value)
            && InRange(r.block) && r.block <= r.expiry && OperationOf(h, verify, e).tokenDisk == e.diskOk
  {
    CheckedRequest(h, verify, e.policy, e.message, e.block);
  }

  /**
   A claim or receipt that is presented twice to a new cache, with a valid signature and fresh both times,
   is accepted the second time exactly when the age that the first policy permitted has passed.
   */
  lemma GrowingAgeReplays(c: Setup, h: Sha256, verify: Verifier, events: seq<Event>, i: nat, j: nat)
    requires ValidLimits(c.limits) && i < j < |events|
    requires events[i].Present? && events[i].diskOk && events[j].Present? && events[j].diskOk
    requires events[i].message == events[j].message
    requires events[i].message.CapabilityClaim? || events[i].message.ValidationReceipt?
    requires var ops := Operations(h, verify, events);
             && (forall k :: 0 <= k < j && k != i ==> ops[k].Idle?) && ops[i].Token? && ops[j].Token?
             && ops[i].request.entryKey.Some? && InRange(ops[i].request.expiry) && InRange(ops[j].request.expiry)
    ensures Authenticated(c, h, verify, State(EMPTY, None), events, i)
    ensures Authenticated(c, h, verify, State(EMPTY, None), events, j)
       <==> ObservedBlock(events[i].message) + events[i].policy.maxAgeBlocks < events[j].block
  {
    AgedRequest(h, verify, events[i]);
    AgedRequest(h, verify, events[j]);
    TwoTokens(c, Operations(h, verify, events), i, j);
  }

  // ---------- claims ----------

  /** A claim that the verifier accepts, observed early enough for every permitted expiry to be in range. */
  ghost predicate IsGoodClaim(verify: Verifier, m: Message) {
    && m.CapabilityClaim? && Constructible(m) && SignatureProblem(verify, m).None?
    && 1 <= m.observedAtBlock <= MAX_INT63 - 100000
  }

  lemma MessageHasKey(h: Sha256, m: Message)
    requires Constructible(m)
    ensures ReplayToken(h, m).Some? && CacheKey(h, ReplayScope(m), ReplayToken(h, m).value).Some?
  {
    ScopesFit(m);
    TokensFit(h, m);
  }

  /** From its block on it is fresh for as long as the policy permits. */
  lemma ClaimRequest(h: Sha256, verify: Verifier, m: Message, block: int, p: Policy, diskOk: bool)
    requires IsGoodClaim(verify, m) && ValidPolicy(p)
    requires m.observedAtBlock <= block <= m.observedAtBlock + p.maxAgeBlocks
    ensures var op := OperationOf(h, verify, Present(m, block, p, diskOk));
            op.Token? && op.request.entryKey.Some? && op.request.expiry == m.observedAtBlock + p.maxAgeBlocks
  {
    MessageHasKey(h, m);
    assert ValidateFreshness(m, block, p) == Ok(m.observedAtBlock + p.maxAgeBlocks);
  }

  /** A presentation that is refused for its signature. */
  lemma UnsignedIsIdle(h: Sha256, verify: Verifier, m: Message, block: int, p: Policy, diskOk: bool)
    ensures OperationOf(h, verify, Present(Resign(m, ""), block, p, diskOk)).Idle?
  {
    ResignedSameSigner(m, "");
  }

  // ---------- for which policies no content is accepted twice ----------

  /** Call by call, the events are under these policies. */
  ghost predicate Under(policies: seq<Policy>, events: seq<Event>) {
    && |events| == |policies|
    && forall k :: 0 <= k < |events| && events[k].Present? ==> events[k].policy == policies[k]
  }

  ghost predicate NoneTwice(c: Setup, h: Sha256, verify: Verifier, events: seq<Event>) {
    forall i, j ::
      (0 <= i < j < |events|
       && Authenticated(c, h, verify, State(EMPTY, None), events, i)
       && Authenticated(c, h, verify, State(EMPTY, None), events, j)) ==>
        !SameContent(events[i].message, events[j].message)
  }

  /** No run under these policies in which blocks do not go back accepts any content twice. */
  ghost predicate NeverTwice(c: Setup, h: Sha256, verify: Verifier, policies: seq<Policy>) {
    forall events, from :: Under(policies, events) && BlocksOrderly(events, from) && Restartable(c, events) ==>
      NoneTwice(c, h, verify, events)
  }

  ghost predicate NeverGrows(policies: seq<Policy>) {
    forall i, j :: 0 <= i < j < |policies| ==> policies[j].maxAgeBlocks <= policies[i].maxAgeBlocks
  }

  lemma ShrinkingAgesAreSafe(c: Setup, h: Sha256, verify: Verifier, policies: seq<Policy>,
                             events: seq<Event>, from: int)
    requires ValidLimits(c.limits) && NeverGrows(policies)
    requires Under(policies, events) && BlocksOrderly(events, from) && Restartable(c, events)
    ensures NoneTwice(c, h, verify, events)
  {
    FreshCacheIsFaithful(c, from);
    forall i, j | 0 <= i < j < |events|
      && Authenticated(c, h, verify, State(EMPTY, None), events, i)
      && Authenticated(c, h, verify, State(EMPTY, None), events, j)
      ensures !SameContent(events[i].message, events[j].message)
    {
      NoContentAcceptedTwice(c, h, verify, State(EMPTY, None), EMPTY, events, from, i, j);
    }
  }

  /** A claim at calls `i` and `j`, as late as it can be, and unsigned copies of it at all others. */
  function RepeatAt(m: Message, policies: seq<Policy>, i: nat, j: nat, k: nat): Event
    requires m.CapabilityClaim? && i < j < |policies| && k < |policies|
  {
    Present(if k == i || k == j then m else Resign(m, ""),
            m.observedAtBlock + if k < j then 0 else policies[i].maxAgeBlocks + 1, policies[k], true)
  }

  function RepeatRun(m: Message, policies: seq<Policy>, i: nat, j: nat): (events: seq<Event>)
    requires m.CapabilityClaim? && i < j < |policies|
    ensures |events| == |policies|
    ensures forall k :: 0 <= k < |events| ==> events[k] == RepeatAt(m, policies, i, j, k)
  {
    seq(|policies|, k requires 0 <= k < |policies| => RepeatAt(m, policies, i, j, k))
  }

  lemma RepeatRunIsOrderly(m: Message, policies: seq<Policy>, i: nat, j: nat)
    requires m.CapabilityClaim? && i < j < |policies| && ValidPolicy(policies[i])
    ensures var events := RepeatRun(m, policies, i, j);
            Under(policies, events) && BlocksOrderly(events, m.observedAtBlock)
    ensures forall k :: 0 <= k < |policies| ==> RepeatRun(m, policies, i, j)[k].Present?
  {
  }

  lemma GrowingAgesRepeat(c: Setup, h: Sha256, verify: Verifier, policies: seq<Policy>, m: Message, i: nat, j: nat)
    requires ValidLimits(c.limits) && IsGoodClaim(verify, m) && i < j < |policies|
    requires ValidPolicy(policies[i]) && ValidPolicy(policies[j])
    requires policies[i].maxAgeBlocks < policies[j].maxAgeBlocks
    ensures var events := RepeatRun(m, policies, i, j);
            && Authenticated(c, h, verify, State(EMPTY, None), events, i)
            && Authenticated(c, h, verify, State(EMPTY, None), events, j)
            && SameContent(events[i].message, events[j].message)
  {
    var events := RepeatRun(m, policies, i, j);
    ClaimRequest(h, verify, m, events[i].block, policies[i], true);
    ClaimRequest(h, verify, m, events[j].block, policies[j], true);
    forall k | 0 <= k < j && k != i ensures Operations(h, verify, events)[k].Idle? {
      UnsignedIsIdle(h, verify, m, m.observedAtBlock, policies[k], true);
    }
    GrowingAgeReplays(c, h, verify, events, i, j);
  }

  /**
   For policies that follow each other call by call, no content is ever accepted twice while blocks do not
   go back exactly when the permitted age never grows. All that is asked of the verifier is that it
   accepts the signature of one claim.
   */
  lemma AgesExact(c: Setup, h: Sha256, verify: Verifier, policies: seq<Policy>, m: Message)
    requires ValidLimits(c.limits) && IsGoodClaim(verify, m)
    requires forall k :: 0 <= k < |policies| ==> ValidPolicy(policies[k])
    ensures NeverTwice(c, h, verify, policies) <==> NeverGrows(policies)
  {
    if NeverGrows(policies) {
      forall events, from | Under(policies, events) && BlocksOrderly(events, from) && Restartable(c, events)
        ensures NoneTwice(c, h, verify, events)
      {
        ShrinkingAgesAreSafe(c, h, verify, policies, events, from);
      }
    } else {
      var i, j :| 0 <= i < j < |policies| && policies[i].maxAgeBlocks < policies[j].maxAgeBlocks;
      var events := RepeatRun(m, policies, i, j);
      RepeatRunIsOrderly(m, policies, i, j);
      GrowingAgesRepeat(c, h, verify, policies, m, i, j);
      assert Restartable(c, events) && !NoneTwice(c, h, verify, events);
    }
  }

  // ---------- a concrete claim ----------

  function SampleClaim(): Message {
    CapabilityClaim("abc", 1, "gpu", 1024, "pcie", SelfReported, [SoftwareVersion("python", "3")], [TierA],
                    0, seq(64, _ => '0'), 1, seq(128, _ => '0'), PROTOCOL_VERSION)
  }

  lemma SampleTexts()
    ensures IsHotkey("abc") && IsShortText("gpu") && IsCode("pcie")
    ensures ValidSoftwareVersion(SoftwareVersion("python", "3"))
  {
  }

  lemma SortOfOne<T>(le: (T, T) -> bool, x: T)
    ensures Sort(le, [x]) == [x]
  {
    assert [x][1..] == [];
  }

  lemma SampleIsConstructible()
    ensures Constructible(SampleClaim())
  {
    var m := SampleClaim();
    SampleTexts();
    assert Distinct(Map(Protocol.NameOf, m.runtimeVersions)) && Distinct(m.supportedEvidenceTiers);
    assert ValidCapabilityClaim(m);
    SortOfOne(SoftwareLe, m.runtimeVersions[0]);
    SortOfOne(TierLe, m.supportedEvidenceTiers[0]);
    assert Normalize(m) == m;
    assert Construct(m) == Some(m);
  }

  /** The claim is accepted at block 1 under an age of 1 and again at block 3 under an age of 2. */
  lemma SampleClaimReplays(c: Setup, h: Sha256)
    requires ValidLimits(c.limits)
    ensures var policies := [Policy(1, 0), Policy(2, 0)];
            var events := RepeatRun(SampleClaim(), policies, 0, 1);
            && Constructible(SampleClaim())
            && events == [Present(SampleClaim(), 1, policies[0], true), Present(SampleClaim(), 3, policies[1], true)]
            && Authenticated(c, h, AnySignature(), State(EMPTY, None), events, 0)
            && Authenticated(c, h, AnySignature(), State(EMPTY, None), events, 1)
  {
    SampleIsConstructible();
    ConstructibleIsSignable(SampleClaim());
    GrowingAgesRepeat(c, h, AnySignature(), [Policy(1, 0), Policy(2, 0)], SampleClaim(), 0, 1);
  }

  function AnySignature(): Verifier {
    (_, _, _) => true
  }
}
