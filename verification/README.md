# GPUForge protocol engines in Dafny

GPUForge lets validators lease training work to untrusted miners. Its protocol engines fix exact rules
for whole runs: which messages are accepted, which commitments bind what, when a supervised training run
counts as completed, which lease may execute, which bytes may be published. This project models those
engines and proves what they guarantee. `dafny verify dfyconfig.toml` checks everything.

| files | subject |
|---|---|
| `Prelude`, `Ordering`, `ByteStrings` | sequences and permutations, stable sorting, byte strings, hexadecimal text, hash functions |
| `JsonValues`, `JsonParser` | the restricted JSON printer of RFC 8259, sections 4 to 7, and a reader that inverts it |
| `Protocol`, `Wire`, `WireTheorems` | the five signed messages, their canonical encoding, signing bytes and digests |
| `Replay`, `ReplayRuns`, `ReplayKeys` | the bounded replay cache, its runs and restarts, what its keys separate |
| `ReplaySequences`, `ReplayAnyOrder` | sequence numbers and tokens in runs whose blocks come in any order |
| `ReplayCapacity`, `ReplayReloads` | for which limits a cache can always be restarted from its own file |
| `Identity`, `Refusals`, `Acceptances`, `Ages` | signatures, freshness, and exactly which messages are accepted over whole runs |
| `Merkle`, `Sampling`, `Correctness`, `SliceInputs` | checkpoint roots, keyed permutations, rejection sampling, correctness challenges |
| `Challenge`, `Evidence` | commit-reveal challenges, evidence bundles and result bindings |
| `Performance`, `PerformanceAnswers`, `PerformanceRelations` | measured work: what is accepted and reported, conservation of time, splitting and delaying intervals |
| `ProgressEvents`, `Runner`, `RunnerTraces`, `RunnerOutcomes`, `RunnerAnswers` | the training supervisor: its loop, valid traces, and the outcome or error of every run |
| `Lease`, `LeaseAnswers`, `LeaseRuns` | the persistent lease store: what each operation answers and stores, and its runs |
| `Artifacts`, `Transfers` | verified streaming, resumable fetches, local storage |

The conventions are the same everywhere.

- Objects that the program updates in place are classes. Each method is proved equal to a specification
  function of its arguments and the old state; the theorems are lemmas about those functions and about
  runs of them. Loops of the program are loops here, with their invariants.
- What a specification function decides is also stated without it: lemmas named `...Exact` and `...Answer`
  say when an operation accepts, what it holds then, and which error it raises otherwise.
- Exceptions are `Result` and `Option` values with one error code per failure.
- SHA-256 and HMAC (RFC 2104) are arbitrary functions with 32-byte results. A theorem that needs SHA-256
  to be collision-free asks for it by name, on the finitely many byte strings that the computations in
  question hash (`CollisionFree`).
- Clocks, block numbers, readers, checkpoint stores, processes and file-system failures are parameters:
  functions of the attempt or of the iteration, about which nothing is assumed unless a lemma says so.
- Python integers are unbounded, and so are the integers here. Fixed widths appear where the program has
  them: 63-bit ranges, 2-byte and 8-byte big-endian fields, the 8-byte sampling counter.

Some results differ from what one might expect of the code. They are stated exactly and proved.

- The replay cache permits limits of up to a million entries but refuses to load a file over 4 MiB, and
  nothing stops it from writing one. Unless the hash collides on the keys of one filling run, a cache
  survives all restarts of all runs exactly when its two limits add up to at most 48209
  (`ReplayReloads.ReloadingExact`); the defaults qualify. Beyond that `ReplayReloads.FullCacheCannotReload`
  gives a run of accepted calls that ends in a file it cannot load.
- A token is refused as already accepted exactly when the same token was accepted under the same scope
  and has not expired (`ReplayKeys.RefusedExactlyWhenAccepted`), for scopes without a NUL. Scopes with one
  can share keys, whatever the hash (`ReplayKeys.NulScopesShareKeys`). The authenticator's scopes have none
  (`Refusals.ScopeExact`).
- Expired tokens are forgotten, which is safe only while blocks do not go backwards
  (`Identity.BackwardClockReplays`). For blocks in any order `ReplayAnyOrder.RefusedInAnyOrder` says exactly
  which purges make a token acceptable again. Sequence numbers are never forgotten: they increase in every
  run, and no evidence is accepted twice (`ReplaySequences.SequencesIncrease`,
  `Refusals.EvidenceAcceptedOnce`).
- While blocks do not go backwards, no content is ever accepted twice exactly when the permitted age never
  grows from call to call (`Ages.AgesExact`). Otherwise only claims and receipts can be, and only beyond the
  age that the first policy permitted (`Refusals.RepeatedContentIsLate`); `Ages.SampleClaimReplays` gives a
  claim.
- Numeric tolerances are compared after decimal rounding, so a value slightly outside the bound can be
  accepted (`Correctness.RoundingAdmits`); `Correctness.ToleranceExact` gives the exact condition.
- `LeaseStore.transition` documents duplicates as idempotent. A duplicate is answered without a change
  exactly when it asked for the expiry, or the first request was on time and the duplicate is on time too
  or the state it reached is terminal (`LeaseRuns.DuplicateTransitionExact`); otherwise it is refused, or it
  expires the lease. `LeaseRuns.RepeatedTransitionFails` gives an input for each.
- `fetch_verified` can fail although every byte has arrived within the permitted attempts, because the
  last attempt must also end its stream cleanly (`Transfers.FullProgressIsNotEnough`); the exact condition
  is `Transfers.HonestFetchExact`.
- Splitting an active interval in two can turn a refused run into an accepted one
  (`PerformanceRelations.SplittingCanAdmit`). A run is accepted exactly when its split is accepted and the
  whole interval was within the interval limit, and within the limit splitting changes nothing
  (`PerformanceRelations.SplittingExact`).

## Model

| member | source | states |
|---|---|---|
| Protocol.ConstructIgnoresOrder | src/gpuforge/protocol.py:386-403 | permuting set-like constructor arguments changes neither whether a message can be constructed nor its value |
| Protocol.ConstructibleIsFixpoint | src/gpuforge/protocol.py:367-407 | a value was returned by a constructor exactly when constructing it again returns it |
| Protocol.ConstructibleIsSorted | src/gpuforge/protocol.py:588-590 | every constructed message holds its set-like fields in sorted order |
| Protocol.EvidenceStepsIncrease | src/gpuforge/protocol.py:585-590 | the checkpoints of constructed evidence have strictly increasing steps |
| Protocol.ReceiptsDecide | src/gpuforge/protocol.py:701-713 | a constructed receipt accepts if and only if it names verified work, a tier, and no reason |
| JsonParser.ParsePrintRoundTrip | src/gpuforge/protocol.py:817-828 | reading a printed value gives it back, for every value of the profile |
| JsonParser.PrintInjective | src/gpuforge/protocol.py:817-828 | different values are printed differently |
| JsonParser.PrintSelfDelimiting | src/gpuforge/protocol.py:817-828 | a printed value followed by other text is split in one way only |
| Wire.ArgumentsRoundTrip | src/gpuforge/protocol.py:296-765 | each decoder recovers the constructor arguments from the payload its encoder writes, for all five messages |
| WireTheorems.ConstructibleIsEncodable | src/gpuforge/protocol.py:817-852 | every constructed message passes the canonical-value check |
| WireTheorems.DecodeRoundTrip | src/gpuforge/protocol.py:779-814 | decoding the canonical bytes of a constructed message returns the message |
| WireTheorems.DecodeExact | src/gpuforge/protocol.py:779-814 | bytes decode to a message if and only if it is constructible and they are its canonical encoding |
| WireTheorems.CanonicalBytesInjective | src/gpuforge/protocol.py:231-236 | two constructed messages with the same canonical bytes are equal |
| WireTheorems.BytesIgnoreOrder | src/gpuforge/protocol.py:231-246 | the order of set-like arguments changes no canonical and no signed byte |
| WireTheorems.UnsignedTextExact | src/gpuforge/protocol.py:238-242 | the encoding without signature is the same exactly when the messages differ at most in their signature |
| WireTheorems.SigningBytesExact | src/gpuforge/protocol.py:244-246 | equal signing bytes if and only if equal messages apart from the signature: type, version and every field are covered |
| WireTheorems.ContentDigestExact | src/gpuforge/protocol.py:248-253 | without a hash collision, equal content digests if and only if equal content |
| WireTheorems.MessageDigestExact | src/gpuforge/protocol.py:255-258 | without a collision equal message digests if and only if equal messages, signature included |
| WireTheorems.SameContentSameDigest | src/gpuforge/protocol.py:248-253 | a changed signature never changes the content digest |
| Replay.ReplayCache.Open | src/gpuforge/replay.py:22-37 | opening gives an empty cache or the content of the state file, or the error for the limits or the file |
| Replay.ReplayCache.AcceptOnce | src/gpuforge/replay.py:39-64 | outcome, memory and file after one token, including the purge and the rollback of a failed write |
| Replay.ReplayCache.AcceptSequenceNumber | src/gpuforge/replay.py:66-81 | outcome, memory and file after one sequence number |
| Replay.ReplayCache.AcceptOnceWithSequence | src/gpuforge/replay.py:83-121 | outcome, memory and file after a token with its sequence number; every refusal restores both maps |
| Replay.ReplayCache.Persist | src/gpuforge/replay.py:148-166 | the file holds the printed state after a success and is untouched after a failure |
| Replay.LoadedIsWellFormed | src/gpuforge/replay.py:187-201 | whatever loads respects the limits, the key format and the value range |
| Replay.LoadUndoesPersist | src/gpuforge/replay.py:128-166 | loading a written state returns it, unless the text is over the load limit |
| Replay.LoadExact | src/gpuforge/replay.py:128-201 | a file loads if and only if it is within the size limit and holds a well-formed state under the three field names and a version equal to one; which error otherwise |
| Replay.RestartExact | src/gpuforge/replay.py:34-37 | a new cache starts with what the file holds, with nothing when there is no file, or not at all |
| ReplayRuns.RefusalChangesNothing | src/gpuforge/replay.py:39-121 | a refused token, with or without a sequence number, changes no sequence number, no unexpired entry and not the file |
| ReplayRuns.NumberRefusalChangesNothing | src/gpuforge/replay.py:66-81 | a refused sequence number changes nothing at all |
| ReplayRuns.AcceptanceExact | src/gpuforge/replay.py:39-121 | a token is accepted if and only if its arguments are valid, it is not active, its sequence number is larger, there is room and the write succeeds |
| ReplayRuns.RefusalExact | src/gpuforge/replay.py:39-121 | each error of a token, with or without a sequence number, if and only if its condition holds and no earlier one does |
| ReplayRuns.NumberAcceptanceExact | src/gpuforge/replay.py:66-81 | a sequence number is accepted if and only if it is in range and larger, or there is room for its scope, and the write succeeds |
| ReplayRuns.CacheIsReference | src/gpuforge/replay.py:39-166 | over any run with non-decreasing blocks the live tokens and all sequences equal those of a cache that never forgets |
| ReplayRuns.ReloadEqualsMemory | src/gpuforge/replay.py:123-166 | after any run reloading the file fails only if it is over the load bound, and otherwise purging the reloaded state equals purging memory at the same block |
| ReplayRuns.AlreadyAcceptedIsTrue | src/gpuforge/replay.py:52-57 | a key is refused as already accepted if and only if the cache that never forgets holds it with an expiry that has not passed |
| ReplayRuns.TokenIsNotReplayed | src/gpuforge/replay.py:39-64 | no token is accepted again before its expiry has passed, across failed writes and restarts |
| ReplaySequences.SequencesIncrease | src/gpuforge/replay.py:66-121 | accepted sequence numbers of a scope strictly increase over every run, whatever the blocks are, across failed writes and restarts |
| ReplaySequences.SequencesNeverShrink | src/gpuforge/replay.py:66-166 | no run ever lowers or forgets a sequence number |
| ReplaySequences.NumberFitsExact | src/gpuforge/replay.py:66-81 | the test against the held number is the test against every number accepted before |
| ReplayAnyOrder.HeldInAnyOrder | src/gpuforge/replay.py:39-166 | after any run, with blocks in any order, memory holds exactly the accepted entries that no lasting purge beyond their expiry has removed |
| ReplayAnyOrder.RefusedInAnyOrder | src/gpuforge/replay.py:39-126 | so a token is refused as already accepted if and only if it was accepted, its expiry has not passed, and no such purge came after it; a purge lasts unless a restart comes before the next accepted call |
| ReplayKeys.KeyExistsExact | src/gpuforge/replay.py:169-174 | scope and token have a key, the hash of exactly their input, unless one of them is empty or longer than 512 bytes |
| ReplayKeys.CacheKeyExact | src/gpuforge/replay.py:169-174 | without a collision, scopes without a NUL have equal keys if and only if scope and token are equal |
| ReplayKeys.NulScopesShareKeys | src/gpuforge/replay.py:169-174 | for every hash two different pairs of scope and token share a key, and the second is refused although nobody presented it |
| ReplayKeys.RefusedExactlyWhenAccepted | src/gpuforge/replay.py:39-64 | over any run, without a collision, a token is refused as already accepted if and only if it was accepted earlier under the same scope and has not expired |
| ReplayCapacity.DefaultLimitsLoadable | src/gpuforge/replay.py:128-133 | with the default limits every state fits the load bound |
| ReplayCapacity.LoadableExact | src/gpuforge/replay.py:128-166 | every state fits the load bound if and only if the limits add up to at most 48209 |
| ReplayCapacity.RestartAlwaysSucceeds | src/gpuforge/replay.py:128-146 | below that threshold a restart from a written file succeeds and returns the state |
| ReplayReloads.RunStaysUp | src/gpuforge/replay.py:128-166 | up to that threshold no restart in any run fails |
| ReplayReloads.ReloadSucceeds | src/gpuforge/replay.py:123-166 | up to that threshold a reload after any run succeeds and equals memory on everything unexpired |
| ReplayReloads.FullCacheCannotReload | src/gpuforge/replay.py:128-166 | beyond it a run of accepted calls with hashed scopes and tokens ends in a file that is refused as too large |
| ReplayReloads.ReloadingExact | src/gpuforge/replay.py:128-166 | without a collision on the keys of that run, all restarts of all runs of calls succeed if and only if the limits add up to at most 48209 |
| Identity.SignedMessageVerifies | src/gpuforge/identity.py:104-123 | a signed message is constructible, keeps its content and passes signature verification |
| Identity.SignatureBindsContent | src/gpuforge/identity.py:114-123 | unless some signature is valid for the signed bytes of both, two messages that pass with the same signature are equal |
| Identity.FreshUntilExpiry | src/gpuforge/identity.py:126-158 | the returned expiry is exactly the last block at which the message is fresh |
| Identity.FreshnessExact | src/gpuforge/identity.py:126-158 | a message is fresh if and only if the block lies between its opening and its closing block, the closing block is returned, and the error says which side was missed |
| Identity.WindowOpens | src/gpuforge/identity.py:137-158 | every constructed message has a fresh block under every policy; a lease is fresh at its start and at its deadline |
| Identity.SignatureExact | src/gpuforge/identity.py:93-123 | a constructed message passes if and only if the verifier accepts its signature, of its signed bytes, under the key of its publisher, miner or validator |
| Identity.MessageAuthenticator.Authenticate | src/gpuforge/identity.py:170-200 | signature, freshness and replay outcome of one message, and the cache afterwards |
| Identity.NoContentAcceptedTwice | src/gpuforge/identity.py:162-200 | in any run with non-decreasing blocks no message content is accepted twice, whatever is signed again, fails or restarts |
| Identity.FreshCacheIsFaithful | src/gpuforge/replay.py:34-36 | a new cache is a valid start for those runs |
| Identity.ReopenedCacheIsFaithful | src/gpuforge/replay.py:36-37 | so is a cache reopened on a file that was written before |
| Identity.BackwardClockReplays | src/gpuforge/replay.py:123-126 | a run in which blocks go backwards and a token is accepted twice |
| Refusals.ScopeExact | src/gpuforge/identity.py:179-195 | replay scopes hold no NUL and are equal if and only if message type and signer are |
| Refusals.MessageRefusedExactlyWhenAccepted | src/gpuforge/identity.py:170-200 | over any run with non-decreasing blocks and any policies, without a collision, a valid fresh message is refused as already accepted if and only if its nonce or content was accepted earlier and has not expired |
| Refusals.EvidenceAcceptedOnce | src/gpuforge/identity.py:185-193 | no evidence content is accepted twice in any run, whatever blocks and policies do |
| Refusals.RepeatedContentIsLate | src/gpuforge/identity.py:126-200 | with non-decreasing blocks and any policies, only a claim or receipt is accepted twice, only beyond the age the first policy permitted, and only within a larger one |
| Acceptances.MessageAcceptedExact | src/gpuforge/identity.py:170-200 | without a collision a message is accepted if and only if its signer signed it, the block lies in its window and the window ends within range, its ticket is not active, there is room, evidence has a larger number than all accepted before for its miner and lease, and the write succeeds |
| Ages.GrowingAgeReplays | src/gpuforge/identity.py:156-158 | a claim or receipt presented twice is accepted the second time if and only if the age that the first policy permitted has passed |
| Ages.AgesExact | src/gpuforge/identity.py:156-200 | for policies that follow each other, no content is accepted twice in any run with non-decreasing blocks if and only if the permitted age never grows |
| Ages.SampleClaimReplays | src/gpuforge/identity.py:156-158 | a concrete constructible claim that is accepted twice under a growing age |
| Merkle.ComputeMerkleRoot | src/gpuforge/correctness.py:365-390 | the level-rewriting loop computes the recursive root of the sorted leaves |
| Merkle.RootRefusedExact | src/gpuforge/correctness.py:365-373 | there is no root if and only if there are no components, too many, or two of one name |
| Merkle.RootIgnoresOrder | src/gpuforge/correctness.py:371-382 | listing the components in another order gives the same root |
| Merkle.TreeHashInjective | src/gpuforge/correctness.py:374-389 | leaf and node separation: without a collision equal tree hashes mean equal trees, of any depth |
| Merkle.RootTreeDeterminesLevel | src/gpuforge/correctness.py:383-389 | the tree built with odd-level padding determines the duplicate-free level it was built from |
| Merkle.RootExact | src/gpuforge/correctness.py:365-390 | without a collision two leaf lists have the same root if and only if they are permutations of each other |
| Sampling.RankedIsSortedPermutation | src/gpuforge/correctness.py:393-402 | a ranking is a permutation of its input in the order of keyed digest and value |
| Sampling.RankedIsUnique | src/gpuforge/correctness.py:393-402 | it is the only such permutation |
| Sampling.RankedIgnoresOrder | src/gpuforge/correctness.py:393-402 | it does not depend on the order of its input |
| Sampling.Draw | src/gpuforge/correctness.py:406-418 | the drawing loop returns the first distinct accepted residues of the stream, sorted, and stops at the shortest prefix that shows them |
| Sampling.SampleIndices | src/gpuforge/correctness.py:405-418 | the same for the keyed stream; it fails exactly when the 8-byte counter runs out first |
| Sampling.SampleProperties | src/gpuforge/correctness.py:405-418 | a sample is unique, strictly increasing, below the size and has exactly the requested length |
| Sampling.SamplingIsUnbiased | src/gpuforge/correctness.py:408-417 | every residue has exactly limit / size accepted candidates and fewer than size candidates are rejected |
| Sampling.CandidateInRange | src/gpuforge/correctness.py:411-414 | every candidate lies below the modulus |
| Correctness.GenerateChallenge | src/gpuforge/correctness.py:151-218 | the nested loops refuse exactly the invalid arguments and return one request per selected step and sorted target |
| Correctness.GeneratedChallengeIsValid | src/gpuforge/correctness.py:191-218 | a generated challenge satisfies every constructor rule and covers every proof kind at every selected step |
| Correctness.SelectedExact | src/gpuforge/correctness.py:192-196 | the selected steps are exactly the first ones in the order of the keyed digests, listed in increasing order |
| Correctness.RequestsAreSamples | src/gpuforge/correctness.py:195-211 | every request is for a selected step and a given target, with distinct indices among its elements, as many as asked for or as there are |
| Correctness.TargetsAreSampled | src/gpuforge/correctness.py:195-211 | every target is sampled at every selected step |
| Correctness.ChallengeIgnoresOrder | src/gpuforge/correctness.py:192-211 | the challenge does not depend on the order of candidates or targets |
| Correctness.Verify | src/gpuforge/correctness.py:307-350 | acceptance if and only if both bundles carry the challenge's digests and step, their roots are equal, each answers exactly the requests, and every compared value is within tolerance; the counts and root reported |
| Correctness.MismatchExact | src/gpuforge/correctness.py:314-333 | each error of a comparison if and only if its condition holds and no earlier one does |
| Correctness.ReferenceRunIsAccepted | src/gpuforge/correctness.py:335-350 | a bundle with the reference values, its probes in any order, is accepted when equal values are tolerated |
| Correctness.ToleranceExact | src/gpuforge/correctness.py:71-77 | for any order-preserving rounding, a value is tolerated if and only if its exact distance is within the bound or rounds to what the bound rounds to, and exactly how that changes when the bound would be rounded up |
| Correctness.AcceptedBetween | src/gpuforge/correctness.py:71-77 | with a value every value between it and the expected one is tolerated |
| Correctness.RoundingAdmits | src/gpuforge/correctness.py:71-77 | a value outside the bound that is tolerated because its distance is rounded to the bound |
| Correctness.PolicyAcceptsReferenceRun | src/gpuforge/correctness.py:335-350 | a reproduced reference run is accepted under every policy of valid tolerances and any such rounding |
| SliceInputs.SliceInputExact | src/gpuforge/correctness.py:197-203 | two inputs of the keyed stream are equal if and only if proof kind, tensor name, step and counter are |
| SliceInputs.StepInputExact | src/gpuforge/correctness.py:192-203 | inputs that rank steps differ from each other and from every input that draws indices |
| SliceInputs.SliceCandidates | src/gpuforge/correctness.py:197-203 | the stream of a target and step draws its candidates from the keyed hash of exactly these inputs |
| Challenge.SelectionExact | src/gpuforge/challenge.py:232-241 | a list is the selection if and only if it is a permutation of 0..n-1 in the order of keyed digest and index |
| Challenge.BuildRevealIsValid | src/gpuforge/challenge.py:219-229 | a reveal orders every shard once and names exactly the requested number of distinct canaries in range |
| Challenge.ChallengeVerifier.VerifyAndConsume | src/gpuforge/challenge.py:160-191 | a reveal is accepted if and only if the lease was accepted, the deadline has not passed, job and nonce are well formed, it opens the commitment, the digest is not consumed and there is room; only its digest is consumed then, and nothing otherwise |
| Challenge.RevealProblemExact | src/gpuforge/challenge.py:160-185 | each error of a reveal if and only if its condition holds; it opens the commitment when ids, digest, keyed shard order and first canaries agree |
| Challenge.DisclosureExact | src/gpuforge/challenge.py:132-149 | a seed is disclosed if and only if the lease was accepted, the deadline has not passed and the commitment is the generator's own; what is disclosed opens it; each error |
| Challenge.OwnRevealIsAccepted | src/gpuforge/challenge.py:99-191 | a generator's reveal for its own commitment is made and accepted before the deadline by any verifier with room |
| Challenge.CommitExact | src/gpuforge/challenge.py:99-130 | a commitment is made if and only if parameters, job and nonce are well formed; it keeps the parameters and commits to them, the lease and the generator's seed |
| Challenge.CommitmentInputInjective | src/gpuforge/challenge.py:215-216 | a context of any length followed by a seed is split in one way |
| Challenge.CommitmentIsBinding | src/gpuforge/challenge.py:160-191 | without a collision two acceptances of one digest agree on job, nonce, deadline, counts, seed, shard order and canaries |
| Challenge.ConsumedExact | src/gpuforge/challenge.py:186-191 | the consumed set is exactly the set of accepted digests and respects its limit |
| Challenge.ConsumedAtMostOnce | src/gpuforge/challenge.py:186-191 | over any run each digest is accepted at most once |
| Evidence.ResultBindingDigest | src/gpuforge/evidence.py:134-141 | the loop hashes the domain and the three references in fixed width |
| Evidence.ResultBindingExact | src/gpuforge/evidence.py:134-141 | without a collision equal result digests if and only if all three references are equal, each in its place |
| Evidence.BundleBytesInjective | src/gpuforge/evidence.py:88-109 | the canonical encoding determines the bundle |
| Evidence.RootExact | src/gpuforge/evidence.py:111-113 | without a collision equal roots if and only if equal bundles |
| Evidence.BindingExact | src/gpuforge/evidence.py:115-131 | once one bundle passes for a lease and evidence, another passes if and only if it is the same bundle |
| Evidence.BindingComplete | src/gpuforge/evidence.py:115-131 | every valid bundle of a lease has a constructible evidence message that it passes for |
| Evidence.VerifyBindingExact | src/gpuforge/evidence.py:115-131 | a bundle passes if and only if it agrees with lease and evidence on every field, named one by one, and the evidence carries its root and result binding |
| Evidence.BlobExact | src/gpuforge/evidence.py:37-42 | without a collision a reference is verified by one payload only |
| Evidence.VerifyBlobExact | src/gpuforge/evidence.py:37-42 | the reference made for some bytes verifies a payload if and only if it has their length and their digest |
| Performance.Scan | src/gpuforge/performance.py:228-274 | the loop finds the first refused interval, or leaves the counters of all intervals |
| Performance.Measure | src/gpuforge/performance.py:211-320 | the result or error of a measurement, with the active time defined by position |
| PerformanceAnswers.AcceptedExact | src/gpuforge/performance.py:211-320 | a run is accepted if and only if it fits the policy, every interval follows the rules by position, steps, times and observation are within their limits and the units fit |
| PerformanceAnswers.ReportExact | src/gpuforge/performance.py:276-327 | the units are active steps times batches of a step times batch size, times one, tokens or flop proxy of a sample; the rate is their quotient rounded down; every other field |
| PerformanceAnswers.RefusedInterval | src/gpuforge/performance.py:238-274 | the first interval that breaks a rule decides the error, by rule |
| PerformanceAnswers.RefusedRun | src/gpuforge/performance.py:211-309 | the error of every other refused run |
| Performance.TimestampsAgreeWithPositions | src/gpuforge/performance.py:286-290 | filtering checkpoints by time stamps selects exactly those before the last active interval |
| Performance.ActiveTimeExact | src/gpuforge/performance.py:286-291 | active time is the sum of active intervals and of the gaps inside the active span |
| Performance.ActiveTimeIsPositive | src/gpuforge/performance.py:291-293 | the check for non-positive active time never fails after an accepted scan |
| Performance.UnitsArePositive | src/gpuforge/performance.py:280-305 | an active interval exists exactly when active steps were counted, and then units are positive |
| Performance.BatchesAreSteps | src/gpuforge/performance.py:259-271 | counted batches are counted steps times the batches of a step |
| Performance.TimeIsConserved | src/gpuforge/performance.py:286-307 | fetch, setup and span equal active, excluded and outer idle time, so active and excluded time fit the observed time |
| PerformanceRelations.SplittingExact | src/gpuforge/performance.py:238-320 | a run is accepted if and only if the run with one active interval split is accepted and that interval was within the limit; within the limit result and error are the same |
| PerformanceRelations.SplittingCanAdmit | src/gpuforge/performance.py:238-244 | a run that is refused for a long interval and accepted when the interval is split in two |
| PerformanceRelations.DelayedActiveTime | src/gpuforge/performance.py:286-291 | a delay adds to the active time exactly when it falls inside the active span |
| PerformanceRelations.DelayingNeverPays | src/gpuforge/performance.py:286-307 | delaying a suffix keeps the accepted units, never raises the rate, and is accepted exactly when the longer times respect their limits |
| ProgressEvents.DecodeEventExact | src/gpuforge/runner.py:165-197 | bytes decode to an event if and only if it is well formed and they are its canonical encoding |
| Runner.PollCancellation | src/gpuforge/runner.py:301-310 | cancellation is requested once, in the first iteration that is late or sees the token |
| RunnerTraces.CheckpointFrameExact | src/gpuforge/runner.py:333-346 | after a valid trace a checkpoint frame is accepted if and only if it obeys the checkpoint rules and no earlier frame had its step |
| Runner.TakeEvent | src/gpuforge/runner.py:348-380 | the reason to refuse an event after the frames before it, or the variables after it |
| Runner.TakeFrame | src/gpuforge/runner.py:326-380 | the same for any frame |
| Runner.Iterate | src/gpuforge/runner.py:300-380 | one iteration of the loop: poll, fetch, grace and frame |
| Runner.Run | src/gpuforge/runner.py:281-417 | outcome or error, frames fetched, requests made, and that every exit has terminated the process or observed its exit code |
| RunnerTraces.TraceExact | src/gpuforge/runner.py:326-380 | the frames accepted one by one are exactly the valid traces |
| RunnerTraces.CadenceExact | src/gpuforge/runner.py:420-444 | a step is on cadence if and only if it is a multiple of the interval or the last step, and not beyond it |
| RunnerOutcomes.FirstTriggerExact | src/gpuforge/runner.py:301-310 | which iteration requests cancellation |
| RunnerOutcomes.CompletedExact | src/gpuforge/runner.py:382-417 | a run is reported completed if and only if its frames are a valid trace ending in completion, never timed out, within the grace, with exit code 0 |
| RunnerOutcomes.CancelledExact | src/gpuforge/runner.py:392-408 | a run is reported cancelled if and only if cancellation was requested and the valid trace ends in cancellation |
| RunnerOutcomes.OutcomeExact | src/gpuforge/runner.py:394-417 | returned checkpoints are exactly the stored ones, strictly increasing and on cadence; event and log counts and the log digest are exact |
| RunnerAnswers.CompletedReport | src/gpuforge/runner.py:409-417 | a completed report carries the digest of the terminal event, exit code 0 and no error |
| RunnerAnswers.CancelledReport | src/gpuforge/runner.py:396-406 | a cancelled report carries no digest, the exit code, and the time-out if and only if the run was late when cancellation was requested |
| RunnerAnswers.RefusedFrameFails | src/gpuforge/runner.py:326-376 | the first refused frame within the grace decides the error |
| RunnerAnswers.OverrunFails | src/gpuforge/runner.py:315-324 | a frame beyond the grace ends the run as late or as ignoring the cancellation |
| RunnerAnswers.ClosedStreamFails | src/gpuforge/runner.py:382-391 | a stream that ends without a terminal event is a failure of the process, or a time-out |
| RunnerAnswers.FinishedRunFails | src/gpuforge/runner.py:382-408 | the error of a finished trace that is neither completed nor cancelled |
| RunnerAnswers.EveryRunEnds | src/gpuforge/runner.py:300-417 | every run ends in one of these ways |
| RunnerAnswers.RefusalCode | src/gpuforge/runner.py:326-376 | the error for the first frame that makes a valid trace invalid |
| RunnerOutcomes.GraceRespected | src/gpuforge/runner.py:315-324 | at most the grace number of frames is taken up after the request |
| RunnerOutcomes.FetchesAreBounded | src/gpuforge/runner.py:300-324 | with a clock that advances each iteration, at most runtime limit plus grace frames are fetched |
| Lease.LeaseStore.Open | src/gpuforge/lease.py:192-207 | opening gives an empty store or the records of the file, or the error |
| Lease.LeaseStore.Offer | src/gpuforge/lease.py:209-231 | reply, records and file after an offer |
| LeaseRuns.KnownLeaseStaysKnown | src/gpuforge/lease.py:233-239 | once memory holds a lease, every later lookup of the run returns a record with the same lease, manifest and deadline |
| Lease.LeaseStore.Transition | src/gpuforge/lease.py:241-277 | reply, records and file after a transition, with the expiry override |
| Lease.LeaseStore.ClaimExecution | src/gpuforge/lease.py:279-302 | reply, records and file after an execution claim |
| Lease.LeaseStore.ClaimEvidenceSubmission | src/gpuforge/lease.py:304-312 | reply, records and file after an evidence claim |
| Lease.LeaseStore.Replace | src/gpuforge/lease.py:314-322 | memory changes only after a complete write |
| Lease.LeaseStore.Persist | src/gpuforge/lease.py:324-338 | the file after a complete write, a failed one, and one that failed after replacing the file |
| LeaseAnswers.OfferAnswer | src/gpuforge/lease.py:209-231 | an offer of a known lease returns its record or the conflict; a new lease is stored as offered while there is room |
| LeaseAnswers.MayMoveExact | src/gpuforge/lease.py:41-76 | the transition table in words: one step at a time before execution, running and checkpointing alternate, a live lease may always end |
| LeaseAnswers.TransitionAnswer | src/gpuforge/lease.py:241-277 | before the deadline a permitted transition is stored with the next revision, a repeated one returns the record, any other changes nothing |
| LeaseAnswers.TransitionRefused | src/gpuforge/lease.py:258-276 | which error refuses a transition |
| LeaseAnswers.LateTransitionAnswer | src/gpuforge/lease.py:253-256 | after the deadline any transition of a live lease stores its expiry |
| LeaseAnswers.ExecutionClaimAnswer | src/gpuforge/lease.py:279-302 | reply and stored record of an execution claim of a known lease, case by case |
| LeaseAnswers.ExecutionClaimExact | src/gpuforge/lease.py:279-302 | after any run a claim is granted if and only if the block is not after the deadline, the lease is ready and unclaimed, its revision can grow, the text fits and the write completes; memory and file then hold the started record |
| LeaseAnswers.EvidenceClaimExact | src/gpuforge/lease.py:304-312 | the same for the evidence claim of a completed, unsubmitted lease |
| LeaseAnswers.UnknownLeaseAnswer | src/gpuforge/lease.py:233-239 | no operation but an offer does anything for an unknown lease, and which error it raises |
| Lease.LoadUndoesPersist | src/gpuforge/lease.py:324-364 | loading a written state returns all records, unless the text is over the size limit |
| Lease.LoadExact | src/gpuforge/lease.py:340-364 | a file loads if and only if it is within the size limit and lists, under two field names and a version equal to one, valid records with different digests, not more than the limit; which error otherwise |
| Lease.RestartExact | src/gpuforge/lease.py:203-207 | a new store starts with the records of the file, with none when there is no file, or not at all |
| LeaseRuns.DecisionIsSound | src/gpuforge/lease.py:209-312 | every operation stores at most one legal step of its own lease, and only a first claim is granted |
| LeaseRuns.StoreIsSound | src/gpuforge/lease.py:189-364 | the store has all properties that the results about runs use, for every permitted record limit |
| LeaseRuns.RunKeepsInv | src/gpuforge/lease.py:320-364 | in every run all restarts succeed and the file is at most one step ahead of memory |
| LeaseRuns.StepIsLegal | src/gpuforge/lease.py:209-364 | any event, crash or restart changes any lease by at most one legal step and drops none |
| LeaseRuns.ClaimGrantedAtMostOnce | src/gpuforge/lease.py:279-312 | at most one execution claim and one evidence claim of a lease is ever granted |
| LeaseRuns.ClaimBehindEveryMark | src/gpuforge/lease.py:295-312 | every marker in memory or in the file has a stored claim behind it |
| LeaseRuns.ExecutingIsClaimed | src/gpuforge/lease.py:109-118 | a running, checkpointing or completed lease has a durable execution claim behind it |
| LeaseRuns.EveryRecordHasHistory | src/gpuforge/lease.py:41-76 | every record was reached from its offer by exactly `revision` legal steps of the transition table, running from ready by claim only |
| LeaseRuns.TerminalIsAbsorbing | src/gpuforge/lease.py:261-262 | terminal states are never left in any run |
| LeaseRuns.OnlyExpiryAfterDeadline | src/gpuforge/lease.py:253-256 | after the deadline the only state change stored is to expired and no execution is granted |
| LeaseRuns.DuplicateTransitionExact | src/gpuforge/lease.py:253-262 | what a stored transition gets when it is repeated at the same or a later block: no change if and only if it asked for the expiry, or was on time and still is or ended terminally; else a refusal or the expiry |
| LeaseRuns.RepeatedTransitionFails | src/gpuforge/lease.py:253-262 | one repeated transition that is refused and one that expires the lease |
| LeaseRuns.FailureChangesNothing | src/gpuforge/lease.py:320-322 | an operation that raises leaves memory as it was |
| Artifacts.StreamSha256 | src/gpuforge/artifacts.py:279-296 | digest and size of a stream that ends cleanly within the limit, or the error |
| Artifacts.Disk.CopyRemaining | src/gpuforge/artifacts.py:374-391 | what is appended to the partial file before the copy ends or fails |
| Artifacts.Disk.Verify | src/gpuforge/artifacts.py:334-344 | the partial file is published exactly when its size and digest are the referenced ones |
| Artifacts.Disk.Attempt | src/gpuforge/artifacts.py:325-344 | both files and the outcome after one attempt |
| Artifacts.Disk.FetchVerified | src/gpuforge/artifacts.py:299-351 | both files and the result after all attempts |
| Artifacts.CopyNeverOversizes | src/gpuforge/artifacts.py:337-339 | the check for an oversized partial file after the copy never fails |
| Transfers.FetchIsSafe | src/gpuforge/artifacts.py:299-351 | against any reader the destination changes only to bytes of the referenced size and digest, and not at all on failure; a call beyond the limits touches nothing |
| Transfers.OnlyTheContentIsPublished | src/gpuforge/artifacts.py:340-344 | without a collision a successful call published the content itself |
| Transfers.HonestFetchExact | src/gpuforge/artifacts.py:323-351 | with an honest reader the partial file stays a prefix and the call succeeds if and only if some attempt ends cleanly with everything delivered |
| Transfers.HonestFailureExact | src/gpuforge/artifacts.py:323-351 | a call that fails with an honest reader reports why its last attempt failed and keeps all that was delivered and written until then |
| Transfers.FullProgressIsNotEnough | src/gpuforge/artifacts.py:331-350 | a fetch that receives every byte and fails |
| Transfers.ReliableFetchSucceeds | src/gpuforge/artifacts.py:323-351 | two attempts with a reliable reader succeed whatever the partial file held; one is enough for a prefix |
| Transfers.LocalArtifactAdapter.Store | src/gpuforge/artifacts.py:165-199 | the stored files after an upload; every file stays under its own digest |
| Transfers.ReadExact | src/gpuforge/artifacts.py:201-229 | a stored artifact of the right size can be read from every offset up to its size, and the stream delivers exactly the rest of the file; the error of every other read |
| Transfers.StoreExact | src/gpuforge/artifacts.py:165-199 | a new artifact is stored if and only if its stream ends cleanly with the referenced content within the limit and the file can be moved; each error if and only if its condition holds |
| Transfers.StoreKnownExact | src/gpuforge/artifacts.py:177-179 | storing an artifact again changes nothing and is accepted if and only if the stored one has the right size; each error |
| Transfers.StoreThenFetch | src/gpuforge/artifacts.py:165-351 | whatever was stored is fetched again in one attempt, resuming any partial copy |

## Left out

- Text beyond printable ASCII and Unicode normalisation: no constructor lets such text into a message.
- Insignificant whitespace, avoidable escapes and floating-point numbers in JSON input: the reader here refuses them; the decoders refuse them as well, because they compare with the canonical encoding. State files edited by hand, to hold such text or a field name twice, are not modelled.
- Object keys in the canonical-value check: they are the fixed field names of the messages.
- Runner.Run: does not model exits by exceptions outside the supervisor's error class, which the JSON library raises for input nested too deeply or for numbers with thousands of digits; decoding an event is a total function here.
- Replay.ReplayCache.Persist: does not model a failure to create the directory of the state file, which the rollback does not cover.
- Correctness.Verify: does not fix the 28-digit rounding of decimal arithmetic; its tolerance is any predicate on a proof kind and two values, and the numeric tolerances are proved for every rounding that keeps order and sign.
- The hotkey adapter and the generation of nonces and identifiers: signers and signature verifiers are any functions, identifiers are arguments.
- The wording of error messages and the order in which the fields of one constructor are examined: all its failures have the same code.
- Sandboxing of paths in the artifact store: symbolic links, permissions, directories, access grants and token providers; refusal of authorization is a possible answer of the reader.
- A lease store without a path keeps nothing across restarts; the results about runs are about stores with a path.
- Writers that raise exceptions of other classes than the store's own; they leave the same memory and file.
- `attestation.py`, `validation.py` and `baseline.py` check fields one after another; `nvidia_attestation.py`, `sandbox.py`, `publisher.py`, `cli.py`, `config.py`, `capability.py` and `redaction.py` run subprocesses, read files and the command line, check schemas and redact text.
