/** What fetching guarantees: against any reader, with honest readers, and after storing locally. */
module Transfers {
  import opened Prelude
  import opened ByteStrings
  import opened Artifacts

  // ---------- against any reader ----------

  lemma AttemptIsSafe(h: Sha256, r: ArtifactReference, limit: int, files: Files, session: Session, io: Io)
    ensures var (next, outcome) := AttemptOnce(h, r, limit, files, session, io);
            if outcome.Published? then
              next.partial.None? && next.destination.Some? && Matches(h, r, next.destination.value)
            else next.destination == files.destination
  {
  }

  lemma {:induction false} AttemptsAreSafe(h: Sha256, r: ArtifactReference, limit: int, w: World, files: Files,
                                           k: nat, n: nat, last: ArtifactError)
    requires k <= n
    ensures var (next, result) := Attempts(h, r, limit, w, files, k, n, last);
            if result.Ok? then next == Files(None, Some(result.value)) && Matches(h, r, result.value)
            else next.destination == files.destination
    decreases n - k
  {
    if k < n {
      var session, io := w.reader(k, |Contents(files.partial)|), w.io(k);
      AttemptIsSafe(h, r, limit, files, session, io);
      var (next, outcome) := AttemptOnce(h, r, limit, files, session, io);
      if outcome.Retry? {
        AttemptsAreSafe(h, r, limit, w, next, k + 1, n, outcome.error);
      }
    }
  }

  /**
   Whatever the reader sends and whatever the partial file held before, the destination changes only
   to bytes of the referenced size and digest, and it is untouched by every failed call. A call beyond
   the limits touches nothing at all.
   */
  lemma FetchIsSafe(h: Sha256, r: ArtifactReference, limit: int, maxAttempts: int, w: World, files: Files)
    ensures var (next, result) := Fetched(h, r, limit, maxAttempts, w, files);
            if result.Ok? then next == Files(None, Some(result.value)) && Matches(h, r, result.value)
            else next.destination == files.destination
    ensures r.size > limit ==> Fetched(h, r, limit, maxAttempts, w, files) == (files, Err(LimitExceeded))
    ensures r.size <= limit && (maxAttempts < 1 || maxAttempts > 5) ==>
              Fetched(h, r, limit, maxAttempts, w, files) == (files, Err(BadRetryLimit))
  {
    if r.size <= limit && 1 <= maxAttempts <= MAX_ATTEMPTS {
      AttemptsAreSafe(h, r, limit, w, files, 0, maxAttempts, NotCompleted);
    }
  }

  /** Unless the hash collides, even a lying reader can only make the call publish the content itself. */
  lemma OnlyTheContentIsPublished(h: Sha256, r: ArtifactReference, limit: int, maxAttempts: int, w: World, files: Files,
                                  content: Bytes)
    requires Matches(h, r, content)
    requires var result := Fetched(h, r, limit, maxAttempts, w, files).1;
             result.Ok? && CollisionFree(h, {content, result.value})
    ensures Fetched(h, r, limit, maxAttempts, w, files) == (Files(None, Some(content)), Ok(content))
  {
    FetchIsSafe(h, r, limit, maxAttempts, w, files);
    var b := Fetched(h, r, limit, maxAttempts, w, files).1.value;
    DigestTextInjective(h(b), h(content));
  }

  // ---------- honest but interrupted readers ----------

  predicate IsPrefix(a: Bytes, b: Bytes) {
    |a| <= |b| && b[..|a|] == a
  }

  /** Every stream delivers bytes of the content from the requested offset on, though perhaps not all. */
  ghost predicate Honest(w: World, content: Bytes) {
    forall k: nat, offset: nat :: offset <= |content| && w.reader(k, offset).Stream? ==>
      IsPrefix(Delivered(w.reader(k, offset).source.chunks), content[offset..])
  }

  /** The size of the partial file after `k` attempts, when each adds what it delivers and has room for. */
  function Progress(w: World, start: nat, k: nat): nat {
    if k == 0 then start
    else
      var before := Progress(w, start, k - 1);
      var session := w.reader(k - 1, before);
      if session.Stream? then before + |Written(w.io(k - 1).room, Delivered(session.source.chunks))| else before
  }

  /** Attempt `k` ends its stream cleanly with everything delivered and written, and the file can be published. */
  predicate Completes(w: World, size: int, start: nat, k: nat) {
    var session := w.reader(k, Progress(w, start, k));
    && session.Stream? && Clean(session.source) && Progress(w, start, k + 1) == size
    && w.io(k).readable && w.io(k).movable
  }

  predicate Authorized(w: World, start: nat, k: nat) {
    !w.reader(k, Progress(w, start, k)).NotAuthorized?
  }

  lemma {:induction false} HonestCopy(chunks: seq<Bytes>, interrupted: bool, total: nat, size: int, limit: int,
                                      room: Option<nat>)
    requires total + |Delivered(chunks)| <= size <= limit
    ensures var (added, problem) := Appended(chunks, interrupted, total, size, limit, room);
            && added == Written(room, Delivered(chunks))
            && problem == if Fits(room, |Delivered(chunks)|) && Clean(Source(chunks, interrupted)) then None
                          else Some(Interrupted)
  {
    if chunks != [] && chunks[0] != "" {
      assert "" in chunks <==> "" in chunks[1..];
      var chunk, rest := chunks[0], Delivered(chunks[1..]);
      if Fits(room, |chunk|) {
        HonestCopy(chunks[1..], interrupted, total + |chunk|, size, limit, Left(room, |chunk|));
        if !Fits(room, |chunk + rest|) {
          assert (chunk + rest)[..room.value] == chunk + rest[..room.value - |chunk|];
        }
      } else {
        assert (chunk + rest)[..room.value] == chunk[..room.value];
      }
    }
  }

  lemma PrefixGrows(content: Bytes, start: Bytes, added: Bytes)
    requires IsPrefix(start, content) && IsPrefix(added, content[|start|..])
    ensures IsPrefix(start + added, content)
    ensures |start + added| == |content| ==> start + added == content
  {
    assert content[..|start| + |added|] == content[..|start|] + content[|start|..][..|added|];
  }

  /** One attempt with an honest reader. */
  lemma HonestAttempt(h: Sha256, r: ArtifactReference, limit: int, w: World, content: Bytes,
                      files: Files, start: nat, k: nat)
    requires Matches(h, r, content) && r.size <= limit && Honest(w, content)
    requires IsPrefix(Contents(files.partial), content) && |Contents(files.partial)| == Progress(w, start, k)
    ensures var (next, outcome) := AttemptOnce(h, r, limit, files, w.reader(k, |Contents(files.partial)|), w.io(k));
            && (outcome.Published? <==> Completes(w, r.size, start, k))
            && (outcome.Published? ==> next == Files(None, Some(content)))
            && (outcome.Stop? <==> !Authorized(w, start, k))
            && (!outcome.Published? ==> IsPrefix(Contents(next.partial), content))
            && (outcome.Retry? ==> |Contents(next.partial)| == Progress(w, start, k + 1))
  {
    var partial := Contents(files.partial);
    var session := w.reader(k, |partial|);
    if session.Stream? {
      var source, room := session.source, w.io(k).room;
      var added := Written(room, Delivered(source.chunks));
      HonestCopy(source.chunks, source.interrupted, |partial|, r.size, limit, room);
      PrefixGrows(content, partial, added);
    }
  }

  /** Some attempt from `k` on completes, and authorization is not refused before it. */
  ghost predicate Succeeds(w: World, size: int, start: nat, k: nat, n: nat) {
    exists m: nat :: k <= m < n && Completes(w, size, start, m) && AuthorizedUntil(w, start, k, m)
  }

  ghost predicate AuthorizedUntil(w: World, start: nat, k: nat, m: nat) {
    forall j: nat :: k <= j < m ==> Authorized(w, start, j)
  }

  lemma SucceedsStep(w: World, size: int, start: nat, k: nat, n: nat)
    requires k < n
    ensures Succeeds(w, size, start, k, n) <==>
              Completes(w, size, start, k) || (Authorized(w, start, k) && Succeeds(w, size, start, k + 1, n))
  {
    if Completes(w, size, start, k) {
      assert AuthorizedUntil(w, start, k, k);
    }
    if Authorized(w, start, k) && Succeeds(w, size, start, k + 1, n) {
      var m: nat :| k + 1 <= m < n && Completes(w, size, start, m) && AuthorizedUntil(w, start, k + 1, m);
      assert AuthorizedUntil(w, start, k, m);
    }
    if Succeeds(w, size, start, k, n) {
      var m: nat :| k <= m < n && Completes(w, size, start, m) && AuthorizedUntil(w, start, k, m);
      if m > k {
        assert Authorized(w, start, k) && AuthorizedUntil(w, start, k + 1, m);
      }
    }
  }

  lemma {:induction false} HonestAttempts(h: Sha256, r: ArtifactReference, limit: int, w: World, content: Bytes,
                                          files: Files,
                                          start: nat, k: nat, n: nat, last: ArtifactError)
    requires Matches(h, r, content) && r.size <= limit && Honest(w, content) && k <= n
    requires IsPrefix(Contents(files.partial), content) && |Contents(files.partial)| == Progress(w, start, k)
    ensures var (next, result) := Attempts(h, r, limit, w, files, k, n, last);
            && (result.Ok? <==> Succeeds(w, r.size, start, k, n))
            && (result.Ok? ==> next == Files(None, Some(content)))
            && (result.Err? ==> IsPrefix(Contents(next.partial), content))
    decreases n - k
  {
    if k < n {
      HonestAttempt(h, r, limit, w, content, files, start, k);
      SucceedsStep(w, r.size, start, k, n);
      var (next, outcome) := AttemptOnce(h, r, limit, files, w.reader(k, |Contents(files.partial)|), w.io(k));
      if outcome.Retry? {
        HonestAttempts(h, r, limit, w, content, next, start, k + 1, n, outcome.error);
      }
    }
  }

  /**
   With an honest reader and a partial file that is a prefix of the content, the call succeeds exactly
   when one of its attempts ends its stream cleanly with the full size delivered and written, before
   any refusal of authorization; then the content is published, and otherwise the partial file is still
   a prefix.
   */
  lemma HonestFetchExact(h: Sha256, r: ArtifactReference, limit: int, maxAttempts: int, w: World,
                         files: Files, content: Bytes)
    requires Matches(h, r, content) && r.size <= limit && 1 <= maxAttempts <= MAX_ATTEMPTS && Honest(w, content)
    requires IsPrefix(Contents(files.partial), content)
    ensures var (next, result) := Fetched(h, r, limit, maxAttempts, w, files);
            var start := |Contents(files.partial)|;
            && (result.Ok? <==> Succeeds(w, r.size, start, 0, maxAttempts))
            && (result.Ok? ==> next == Files(None, Some(content)))
            && (result.Err? ==> IsPrefix(Contents(next.partial), content) && next.destination == files.destination)
  {
    HonestAttempts(h, r, limit, w, content, files, |Contents(files.partial)|, 0, maxAttempts, NotCompleted);
    FetchIsSafe(h, r, limit, maxAttempts, w, files);
  }

  /** Why attempt `k` of an honest reader fails. */
  ghost predicate FailsWith(w: World, size: int, start: nat, k: nat, error: ArtifactError) {
    var io := w.io(k);
    match w.reader(k, Progress(w, start, k))
    case NotAuthorized => error == Denied
    case Refused(reason) => error == reason
    case Stream(source) =>
      if !Clean(source) || !Fits(io.room, |Delivered(source.chunks)|) then error == Interrupted
      else if !io.readable then error == Unavailable
      else if Progress(w, start, k + 1) < size then error == Truncated
      else !io.movable && error == Interrupted
  }

  /** Attempt `m` is the last one of a call that fails: its attempts are used up, or authorization is refused. */
  ghost predicate FailsAt(w: World, size: int, start: nat, n: nat, m: nat) {
    && m < n && !Completes(w, size, start, m)
    && (m == n - 1 || !Authorized(w, start, m))
    && forall j: nat :: j < m ==> Authorized(w, start, j) && !Completes(w, size, start, j)
  }

  lemma {:induction false} HonestFailures(h: Sha256, r: ArtifactReference, limit: int, w: World, content: Bytes,
                                          files: Files,
                                          start: nat, k: nat, n: nat, last: ArtifactError, m: nat)
    requires Matches(h, r, content) && r.size <= limit && Honest(w, content) && k <= m
    requires IsPrefix(Contents(files.partial), content) && |Contents(files.partial)| == Progress(w, start, k)
    requires FailsAt(w, r.size, start, n, m)
    ensures var (next, result) := Attempts(h, r, limit, w, files, k, n, last);
            && result.Err? && FailsWith(w, r.size, start, m, result.error)
            && |Contents(next.partial)| == Progress(w, start, if Authorized(w, start, m) then m + 1 else m)
    decreases m - k
  {
    HonestAttempt(h, r, limit, w, content, files, start, k);
    var (next, outcome) := AttemptOnce(h, r, limit, files, w.reader(k, |Contents(files.partial)|), w.io(k));
    if k < m {
      HonestFailures(h, r, limit, w, content, next, start, k + 1, n, outcome.error, m);
    } else {
      HonestFailure(h, r, limit, w, content, files, start, k);
    }
  }

  /** One failing attempt with an honest reader. */
  lemma HonestFailure(h: Sha256, r: ArtifactReference, limit: int, w: World, content: Bytes,
                      files: Files, start: nat, k: nat)
    requires Matches(h, r, content) && r.size <= limit && Honest(w, content)
    requires IsPrefix(Contents(files.partial), content) && |Contents(files.partial)| == Progress(w, start, k)
    requires !Completes(w, r.size, start, k)
    ensures var (next, outcome) := AttemptOnce(h, r, limit, files, w.reader(k, |Contents(files.partial)|), w.io(k));
            && (outcome.Retry? ==> FailsWith(w, r.size, start, k, outcome.error))
            && (outcome.Stop? ==> next == files && FailsWith(w, r.size, start, k, Denied))
  {
    var partial := Contents(files.partial);
    var session := w.reader(k, |partial|);
    if session.Stream? {
      var source, room := session.source, w.io(k).room;
      HonestCopy(source.chunks, source.interrupted, |partial|, r.size, limit, room);
      PrefixGrows(content, partial, Written(room, Delivered(source.chunks)));
    }
  }

  /**
   A call that fails with an honest reader reports why its last attempt failed and keeps everything
   that was delivered and written until then, so that a later call can resume there.
   */
  lemma HonestFailureExact(h: Sha256, r: ArtifactReference, limit: int, maxAttempts: int, w: World,
                           files: Files, content: Bytes, m: nat)
    requires Matches(h, r, content) && r.size <= limit && 1 <= maxAttempts <= MAX_ATTEMPTS && Honest(w, content)
    requires IsPrefix(Contents(files.partial), content)
    requires FailsAt(w, r.size, |Contents(files.partial)|, maxAttempts, m)
    ensures var (next, result) := Fetched(h, r, limit, maxAttempts, w, files);
            var start := |Contents(files.partial)|;
            && result.Err? && FailsWith(w, r.size, start, m, result.error)
            && |Contents(next.partial)| == Progress(w, start, if Authorized(w, start, m) then m + 1 else m)
  {
    var start := |Contents(files.partial)|;
    HonestFailures(h, r, limit, w, content, files, start, 0, maxAttempts, NotCompleted, m);
  }

  /** A reader that delivers the only byte of the content and is then interrupted. */
  function LateInterruption(): World {
    World((_, offset) => Stream(Source(if offset == 0 then ["x"] else [], true)), _ => Io(None, true, true, true))
  }

  /** It is not enough that every byte arrives: an interruption after the last byte fails the last attempt. */
  lemma FullProgressIsNotEnough(h: Sha256)
    ensures var content, w := "x", LateInterruption();
            var r := ArtifactReference(Image, DigestText(h(content)), 1);
            && Matches(h, r, content) && Honest(w, content)
            && Progress(w, 0, 1) == r.size
            && Fetched(h, r, 1, 1, w, Files(None, None)) == (Files(Some(content), None), Err(Interrupted))
  {
    var content, w := "x", LateInterruption();
    forall k: nat, offset: nat | offset <= |content| && w.reader(k, offset).Stream?
      ensures IsPrefix(Delivered(w.reader(k, offset).source.chunks), content[offset..])
    {
      OneChunk("x");
    }
    OneChunk("x");
    HonestCopy(["x"], true, 0, 1, 1, None);
    var r := ArtifactReference(Image, DigestText(h(content)), 1);
    var first := AttemptOnce(h, r, 1, Files(None, None), w.reader(0, 0), w.io(0));
    assert first == (Files(Some("x"), None), Retry(Interrupted)) by {
      assert "" + "x" == "x";
    }
    assert Attempts(h, r, 1, w, first.0, 1, 1, Interrupted) == (first.0, Err(Interrupted));
    assert Progress(w, 0, 0) == 0;
  }

  lemma OneChunk(b: Bytes)
    ensures Delivered([b]) == b && Delivered([]) == ""
  {
    assert b != "" ==> [b][1..] == [] && b + "" == b;
  }

  // ---------- reliable readers ----------

  ghost predicate Reliable(w: World, content: Bytes) {
    && (forall k: nat, offset: nat :: offset <= |content| ==>
          w.reader(k, offset).Stream? && Clean(w.reader(k, offset).source)
          && Delivered(w.reader(k, offset).source.chunks) == content[offset..])
    && forall k: nat :: w.io(k) == Io(None, true, true, true)
  }

  /** One attempt with a reliable reader publishes, or removes a partial file that was not a prefix. */
  lemma ReliableAttempt(h: Sha256, r: ArtifactReference, limit: int, w: World, content: Bytes, files: Files, k: nat)
    requires Matches(h, r, content) && r.size <= limit && Reliable(w, content)
    ensures var (next, outcome) := AttemptOnce(h, r, limit, files, w.reader(k, |Contents(files.partial)|), w.io(k));
            && (outcome.Published? || (outcome.Retry? && next.partial.None?))
            && (IsPrefix(Contents(files.partial), content) ==> outcome.Published?)
  {
    var partial := Contents(files.partial);
    if |partial| <= r.size {
      var source := w.reader(k, |partial|).source;
      HonestCopy(source.chunks, source.interrupted, |partial|, r.size, limit, None);
      if IsPrefix(partial, content) {
        assert partial + content[|partial|..] == content;
      }
    }
  }

  /**
   Two attempts with a reliable reader always succeed, whatever a previous process left in the
   partial file; one attempt is enough when that is a prefix of the content.
   */
  lemma ReliableFetchSucceeds(h: Sha256, r: ArtifactReference, limit: int, maxAttempts: int, w: World, files: Files,
                              content: Bytes)
    requires Matches(h, r, content) && r.size <= limit && 1 <= maxAttempts <= MAX_ATTEMPTS && Reliable(w, content)
    requires maxAttempts >= 2 || IsPrefix(Contents(files.partial), content)
    ensures Fetched(h, r, limit, maxAttempts, w, files).1.Ok?
  {
    ReliableAttempt(h, r, limit, w, content, files, 0);
    var (next, outcome) := AttemptOnce(h, r, limit, files, w.reader(0, |Contents(files.partial)|), w.io(0));
    if outcome.Retry? {
      ReliableAttempt(h, r, limit, w, content, next, 1);
      assert Attempts(h, r, limit, w, next, 1, maxAttempts, outcome.error).1.Ok?;
    }
  }

  // ---------- local storage ----------

  type Stored = map<(ArtifactKind, string), Bytes>

  /** What `store` does to the stored files; `io.movable` says that the upload can be written and moved. */
  function StoreOutcome(h: Sha256, stored: Stored, maxBytes: int, r: ArtifactReference, source: Source, io: Io)
    : (Stored, Option<ArtifactError>)
  {
    var key := (r.kind, r.digest);
    if r.size > maxBytes then (stored, Some(LimitExceeded))
    else if key in stored then
      if |stored[key]| > 0 && |stored[key]| > maxBytes then (stored, Some(LimitExceeded))
      else if Matches(h, r, stored[key]) then (stored, None)
      else (stored, Some(SizeMismatch))
    else
      match Collected(source.chunks, source.interrupted, 0, maxBytes)
      case Err(e) => (stored, Some(e))
      case Ok(b) =>
        if |b| != r.size then (stored, Some(SizeMismatch))
        else if DigestText(h(b)) != r.digest then (stored, Some(WrongDigest))
        else if !io.movable then (stored, Some(Unavailable))
        else (stored[key := b], None)
  }

  /** What `open_read` delivers. */
  function ReadOutcome(stored: Stored, maxBytes: int, r: ArtifactReference, offset: int): Session {
    var key := (r.kind, r.digest);
    if r.size > maxBytes then Refused(LimitExceeded)
    else if !(0 <= offset <= r.size) then Refused(BadOffset)
    else if key !in stored then Refused(Unavailable)
    else if |stored[key]| != r.size then Refused(Truncated)
    else Stream(FileSource(stored[key][offset..]))
  }

  /** Every stored file is filed under its own digest. */
  ghost predicate ContentAddressed(h: Sha256, stored: Stored) {
    forall key :: key in stored ==> DigestText(h(stored[key])) == key.1
  }

  class LocalArtifactAdapter {
    const h: Sha256
    const maxBytes: int
    var stored: Stored

    ghost predicate Valid()
      reads this
    {
      ContentAddressed(h, stored)
    }

    constructor (h: Sha256, maxBytes: int)
      requires 1 <= maxBytes <= MAX_ARTIFACT_BYTES
      ensures this.h == h && this.maxBytes == maxBytes && stored == map[] && Valid()
    {
      this.h, this.maxBytes, stored := h, maxBytes, map[];
    }

    method Store(r: ArtifactReference, source: Source, io: Io) returns (error: Option<ArtifactError>)
      requires Valid()
      modifies this
      ensures Valid() && (stored, error) == StoreOutcome(h, old(stored), maxBytes, r, source, io)
    {
      if r.size > maxBytes {
        return Some(LimitExceeded);
      }
      var key := (r.kind, r.digest);
      if key in stored {
        FileCollected(stored[key], maxBytes);
        CollectedExact(FileSource(stored[key]).chunks, false, 0, maxBytes);
        var existing, _ := StreamSha256(h, FileSource(stored[key]), maxBytes);
        PiecesDeliver(stored[key], CHUNK_BYTES);
        if existing.Err? {
          return Some(existing.error);
        }
        var (digest, size) := existing.value;
        return if digest != r.digest || size != r.size then Some(SizeMismatch) else None;
      }
      var uploaded, temporary := StreamSha256(h, source, maxBytes);
      if uploaded.Err? {
        return Some(uploaded.error);
      }
      var (digest, size) := uploaded.value;
      if size != r.size {
        return Some(SizeMismatch);
      }
      if digest != r.digest {
        return Some(WrongDigest);
      }
      if !io.movable {
        return Some(Unavailable);
      }
      stored := stored[key := temporary];
      return None;
    }

    method OpenRead(r: ArtifactReference, offset: int) returns (session: Session)
      ensures session == ReadOutcome(stored, maxBytes, r, offset)
    {
      if r.size > maxBytes {
        return Refused(LimitExceeded);
      }
      if !(0 <= offset <= r.size) {
        return Refused(BadOffset);
      }
      var key := (r.kind, r.digest);
      if key !in stored {
        return Refused(Unavailable);
      }
      if |stored[key]| != r.size {
        return Refused(Truncated);
      }
      return Stream(FileSource(stored[key][offset..]));
    }
  }

  /** Both the reference and the bytes are within the storage limit; an empty stream always is. */
  predicate WithinLimit(r: ArtifactReference, b: Bytes, maxBytes: int) {
    r.size <= maxBytes && (b == "" || |b| <= maxBytes)
  }

  /**
   A new artifact is stored exactly when the stream ends cleanly with the referenced content and the
   file can be moved; every refusal has one reason and leaves the stored files alone.
   */
  lemma StoreExact(h: Sha256, stored: Stored, maxBytes: int, r: ArtifactReference, source: Source, io: Io)
    requires (r.kind, r.digest) !in stored && 0 <= r.size
    ensures var b, (after, error) := Delivered(source.chunks), StoreOutcome(h, stored, maxBytes, r, source, io);
            var complete := WithinLimit(r, b, maxBytes) && Clean(source);
            && (error.None? <==> complete && Matches(h, r, b) && io.movable)
            && after == (if error.None? then stored[(r.kind, r.digest) := b] else stored)
            && (error == Some(LimitExceeded) <==> !WithinLimit(r, b, maxBytes))
            && (error == Some(Interrupted) <==> WithinLimit(r, b, maxBytes) && !Clean(source))
            && (error == Some(SizeMismatch) <==> complete && |b| != r.size)
            && (error == Some(WrongDigest) <==> complete && |b| == r.size && DigestText(h(b)) != r.digest)
            && (error == Some(Unavailable) <==> complete && Matches(h, r, b) && !io.movable)
  {
    CollectedExact(source.chunks, source.interrupted, 0, maxBytes);
  }

  /** Storing an artifact again changes nothing, and is accepted exactly when the stored one has the right size. */
  lemma StoreKnownExact(h: Sha256, stored: Stored, maxBytes: int, r: ArtifactReference, source: Source, io: Io)
    requires ContentAddressed(h, stored) && (r.kind, r.digest) in stored && 0 <= r.size
    ensures var known, (after, error) := stored[(r.kind, r.digest)], StoreOutcome(h, stored, maxBytes, r, source, io);
            && after == stored
            && (error.None? <==> WithinLimit(r, known, maxBytes) && |known| == r.size)
            && (error == Some(LimitExceeded) <==> !WithinLimit(r, known, maxBytes))
            && (error == Some(SizeMismatch) <==> WithinLimit(r, known, maxBytes) && |known| != r.size)
  {
  }

  /**
   Reading delivers exactly the rest of the stored file from the offset on, and every offset of a
   stored artifact of the right size can be read.
   */
  lemma ReadExact(stored: Stored, maxBytes: int, r: ArtifactReference, offset: int)
    ensures var session, key := ReadOutcome(stored, maxBytes, r, offset), (r.kind, r.digest);
            && !session.NotAuthorized?
            && (session.Stream? <==>
                  r.size <= maxBytes && key in stored && |stored[key]| == r.size && 0 <= offset <= |stored[key]|)
            && (session.Stream? ==>
                  Clean(session.source) && stored[key] == stored[key][..offset] + Delivered(session.source.chunks))
            && (session == Refused(LimitExceeded) <==> r.size > maxBytes)
            && (session == Refused(BadOffset) <==> r.size <= maxBytes && !(0 <= offset <= r.size))
            && (session == Refused(Unavailable) <==> r.size <= maxBytes && 0 <= offset <= r.size && key !in stored)
  {
    var session, key := ReadOutcome(stored, maxBytes, r, offset), (r.kind, r.digest);
    if session.Stream? {
      PiecesDeliver(stored[key][offset..], CHUNK_BYTES);
      assert stored[key] == stored[key][..offset] + stored[key][offset..];
    }
  }

  /** The adapter as a reader, with a file system that works. */
  function AdapterWorld(stored: Stored, maxBytes: int, r: ArtifactReference): World {
    World((_, offset) => ReadOutcome(stored, maxBytes, r, offset), _ => Io(None, true, true, true))
  }

  /**
   Storing and fetching are inverse: whatever `store` has accepted under a reference is fetched from
   the adapter in one attempt, resuming any partial copy of it.
   */
  lemma StoreThenFetch(h: Sha256, before: Stored, maxBytes: int, r: ArtifactReference, source: Source, io: Io,
                       limit: int, maxAttempts: int, files: Files)
    requires 0 <= r.size <= limit && 1 <= maxAttempts <= MAX_ATTEMPTS
    requires StoreOutcome(h, before, maxBytes, r, source, io).1.None?
    requires var stored := StoreOutcome(h, before, maxBytes, r, source, io).0;
             IsPrefix(Contents(files.partial), stored[(r.kind, r.digest)])
    ensures var stored := StoreOutcome(h, before, maxBytes, r, source, io).0;
            var content := stored[(r.kind, r.digest)];
            && Fetched(h, r, limit, maxAttempts, AdapterWorld(stored, maxBytes, r), files)
               == (Files(None, Some(content)), Ok(content))
            && ((r.kind, r.digest) !in before ==> content == Delivered(source.chunks))
  {
    var stored := StoreOutcome(h, before, maxBytes, r, source, io).0;
    var content := stored[(r.kind, r.digest)];
    CollectedExact(source.chunks, source.interrupted, 0, maxBytes);
    assert Matches(h, r, content);
    var w := AdapterWorld(stored, maxBytes, r);
    forall k: nat, offset: nat | offset <= |content|
      ensures w.reader(k, offset) == Stream(FileSource(content[offset..]))
      ensures Clean(w.reader(k, offset).source) && Delivered(w.reader(k, offset).source.chunks) == content[offset..]
    {
      PiecesDeliver(content[offset..], CHUNK_BYTES);
    }
    assert Reliable(w, content);
    ReliableAttempt(h, r, limit, w, content, files, 0);
    var start := |Contents(files.partial)|;
    assert Progress(w, start, 0) == start;
    HonestAttempt(h, r, limit, w, content, files, start, 0);
  }
}
