/** Content-addressed artifacts: verified streaming, local storage and resumable fetches. */
module Artifacts {
  import opened Prelude
  import opened ByteStrings

  const MAX_ARTIFACT_BYTES := 1099511627776
  const MAX_ATTEMPTS := 5
  const CHUNK_BYTES := 1048576

  datatype ArtifactKind = Image | Script | DatasetShard | Checkpoint

  datatype ArtifactReference = ArtifactReference(kind: ArtifactKind, digest: string, size: int)

  predicate ValidReference(r: ArtifactReference) {
    IsDigest(r.digest) && 0 <= r.size <= MAX_ARTIFACT_BYTES
  }

  datatype ArtifactError =
    | LimitExceeded | BadRetryLimit | NotCompleted | PartialOversized | Truncated | Oversized | WrongDigest
    | Interrupted | Unavailable | BadOffset | SizeMismatch | Denied

  /** The chunks that a stream delivers before it ends, or before it raises. */
  datatype Source = Source(chunks: seq<Bytes>, interrupted: bool)

  /** The bytes up to the first empty chunk, which means the end of the stream. */
  function Delivered(chunks: seq<Bytes>): Bytes {
    if chunks == [] || chunks[0] == "" then "" else chunks[0] + Delivered(chunks[1..])
  }

  /** The stream ends cleanly. */
  predicate Clean(s: Source) {
    !s.interrupted || "" in s.chunks
  }

  /** The bytes are the ones that the reference names. */
  predicate Matches(h: Sha256, r: ArtifactReference, b: Bytes) {
    |b| == r.size && DigestText(h(b)) == r.digest
  }

  // ---------- reading a stream to its end ----------

  /** The bytes of a stream after the first `total` ones, within the limit. */
  function Collected(chunks: seq<Bytes>, interrupted: bool, total: nat, limit: int): Result<Bytes, ArtifactError> {
    if chunks == [] then if interrupted then Err(Interrupted) else Ok("")
    else if chunks[0] == "" then Ok("")
    else if total + |chunks[0]| > limit then Err(LimitExceeded)
    else
      match Collected(chunks[1..], interrupted, total + |chunks[0]|, limit)
      case Err(e) => Err(e)
      case Ok(rest) => Ok(chunks[0] + rest)
  }

  lemma CollectedStep(read: Bytes, chunks: seq<Bytes>, interrupted: bool, limit: int)
    requires chunks != [] && chunks[0] != "" && |read| + |chunks[0]| <= limit
    ensures Prefixed(read + chunks[0], Collected(chunks[1..], interrupted, |read| + |chunks[0]|, limit))
         == Prefixed(read, Collected(chunks, interrupted, |read|, limit))
  {
    var rest := Collected(chunks[1..], interrupted, |read| + |chunks[0]|, limit);
    if rest.Ok? {
      assert read + chunks[0] + rest.value == read + (chunks[0] + rest.value);
    }
  }

  function Prefixed(read: Bytes, r: Result<Bytes, ArtifactError>): Result<Bytes, ArtifactError> {
    match r
    case Err(e) => Err(e)
    case Ok(rest) => Ok(read + rest)
  }

  lemma NothingRead(r: Result<Bytes, ArtifactError>)
    ensures Prefixed("", r) == r
  {
    if r.Ok? {
      assert "" + r.value == r.value;
    }
  }

  /** `stream_sha256`, and `_copy_and_hash` when the copy is wanted as well. */
  method StreamSha256(h: Sha256, source: Source, limit: int)
    returns (r: Result<(string, nat), ArtifactError>, copy: Bytes)
    ensures match Collected(source.chunks, source.interrupted, 0, limit)
            case Err(e) => r == Err(e)
            case Ok(b) => r == Ok((DigestText(h(b)), |b|)) && copy == b
  {
    var size: nat := 0;
    copy := "";
    var rest := source.chunks;
    NothingRead(Collected(rest, source.interrupted, 0, limit));
    while rest != []
      invariant size == |copy|
      invariant Prefixed(copy, Collected(rest, source.interrupted, size, limit))
             == Collected(source.chunks, source.interrupted, 0, limit)
      decreases |rest|
    {
      var chunk := rest[0];
      if chunk == "" {
        assert copy + "" == copy;
        return Ok((DigestText(h(copy)), size)), copy;
      }
      if size + |chunk| > limit {
        return Err(LimitExceeded), copy;
      }
      CollectedStep(copy, rest, source.interrupted, limit);
      size := size + |chunk|;
      copy := copy + chunk;
      rest := rest[1..];
    }
    assert copy + "" == copy;
    return if source.interrupted then Err(Interrupted) else Ok((DigestText(h(copy)), size)), copy;
  }

  lemma {:induction false} CollectedExact(chunks: seq<Bytes>, interrupted: bool, total: nat, limit: int)
    ensures Collected(chunks, interrupted, total, limit) == Ok(Delivered(chunks)) <==>
              Clean(Source(chunks, interrupted)) && (Delivered(chunks) == "" || total + |Delivered(chunks)| <= limit)
    ensures Collected(chunks, interrupted, total, limit).Ok? ==>
              Collected(chunks, interrupted, total, limit) == Ok(Delivered(chunks))
    ensures Collected(chunks, interrupted, total, limit).Err? ==>
              Collected(chunks, interrupted, total, limit) == Err(
                if Delivered(chunks) == "" || total + |Delivered(chunks)| <= limit then Interrupted else LimitExceeded)
  {
    if chunks != [] && chunks[0] != "" {
      CollectedExact(chunks[1..], interrupted, total + |chunks[0]|, limit);
      assert "" in chunks <==> "" in chunks[1..];
    }
  }

  /** Reading a file in pieces of at most `size` bytes. */
  function Pieces(b: Bytes, size: nat): (r: seq<Bytes>)
    requires size > 0
    decreases |b|
  {
    if b == "" then [] else if |b| <= size then [b] else [b[..size]] + Pieces(b[size..], size)
  }

  lemma {:induction false} PiecesDeliver(b: Bytes, size: nat)
    requires size > 0
    ensures Delivered(Pieces(b, size)) == b && "" !in Pieces(b, size)
    decreases |b|
  {
    if |b| > size {
      PiecesDeliver(b[size..], size);
      assert ([b[..size]] + Pieces(b[size..], size))[1..] == Pieces(b[size..], size);
      assert b == b[..size] + b[size..];
    } else if b != "" {
      assert [b][1..] == [];
    }
  }

  /** A file as a stream. */
  function FileSource(b: Bytes): Source {
    Source(Pieces(b, CHUNK_BYTES), false)
  }

  lemma FileCollected(b: Bytes, limit: int)
    ensures Collected(FileSource(b).chunks, false, 0, limit) == Ok(b) <==> b == "" || |b| <= limit
  {
    PiecesDeliver(b, CHUNK_BYTES);
    CollectedExact(FileSource(b).chunks, false, 0, limit);
  }

  // ---------- one attempt ----------

  /** What a reader does when it is asked for the bytes from an offset on. */
  datatype Session = NotAuthorized | Refused(error: ArtifactError) | Stream(source: Source)

  /**
   The file system during an attempt: how many bytes can be written to the partial file before a write
   fails, with `None` for any number, and whether the file can be read back, moved and removed.
   */
  datatype Io = Io(room: Option<nat>, readable: bool, movable: bool, removable: bool)

  predicate Fits(room: Option<nat>, n: nat) {
    room.Some? ==> n <= room.value
  }

  function Left(room: Option<nat>, n: nat): Option<nat>
    requires Fits(room, n)
  {
    if room.None? then None else Some(room.value - n)
  }

  /** What a write puts into the file: all of it, or what there is room for before it fails. */
  function Written(room: Option<nat>, chunk: Bytes): Bytes {
    if Fits(room, |chunk|) then chunk else chunk[..room.value]
  }

  datatype Files = Files(partial: Option<Bytes>, destination: Option<Bytes>)

  datatype Outcome = Published | Retry(error: ArtifactError) | Stop

  function Contents(file: Option<Bytes>): Bytes {
    if file.Some? then file.value else ""
  }

  /** `_copy_remaining` from a total of `total` bytes: what is appended, and why it stops early. */
  function Appended(chunks: seq<Bytes>, interrupted: bool, total: nat, size: int, limit: int, room: Option<nat>)
    : (Bytes, Option<ArtifactError>)
  {
    if chunks == [] then ("", if interrupted then Some(Interrupted) else None)
    else if chunks[0] == "" then ("", None)
    else if total + |chunks[0]| > size || total + |chunks[0]| > limit then ("", Some(Oversized))
    else if !Fits(room, |chunks[0]|) then (Written(room, chunks[0]), Some(Interrupted))
    else
      var (rest, problem) :=
        Appended(chunks[1..], interrupted, total + |chunks[0]|, size, limit, Left(room, |chunks[0]|));
      (chunks[0] + rest, problem)
  }

  /** What one chunk adds to the partial file, and how the copy ends if it ends there. */
  function ChunkOutcome(chunk: Bytes, total: nat, size: int, limit: int, room: Option<nat>)
    : (Bytes, Option<Option<ArtifactError>>)
  {
    if chunk == "" then ("", Some(None))
    else if total + |chunk| > size || total + |chunk| > limit then ("", Some(Some(Oversized)))
    else if !Fits(room, |chunk|) then (Written(room, chunk), Some(Some(Interrupted)))
    else (chunk, None)
  }

  lemma AppendedByChunk(before: Bytes, chunks: seq<Bytes>, interrupted: bool, total: nat, size: int, limit: int,
                        room: Option<nat>)
    requires chunks != []
    ensures var (all, problem) := Appended(chunks, interrupted, total, size, limit, room);
            var (bytes, stop) := ChunkOutcome(chunks[0], total, size, limit, room);
            && (stop.Some? ==> before + all == before + bytes && problem == stop.value)
            && (stop.None? ==>
                  Fits(room, |chunks[0]|) &&
                  var (rest, later) :=
                    Appended(chunks[1..], interrupted, total + |chunks[0]|, size, limit, Left(room, |chunks[0]|));
                  before + all == before + bytes + rest && problem == later)
  {
    var (bytes, stop) := ChunkOutcome(chunks[0], total, size, limit, room);
    if stop.None? {
      var rest :=
        Appended(chunks[1..], interrupted, total + |chunks[0]|, size, limit, Left(room, |chunks[0]|)).0;
      assert before + (chunks[0] + rest) == before + chunks[0] + rest;
    }
  }

  function Removed(files: Files, io: Io): Files {
    if io.removable then files.(partial := None) else files
  }

  /** The check and publication of a completely copied partial file. */
  function Verified(h: Sha256, r: ArtifactReference, files: Files, io: Io): (Files, Outcome) {
    var b := Contents(files.partial);
    if !io.readable then (files, Retry(Unavailable))
    else if |b| < r.size then (files, Retry(Truncated))
    else if |b| > r.size then (Removed(files, io), Retry(Oversized))
    else if DigestText(h(b)) != r.digest then (Removed(files, io), Retry(WrongDigest))
    else if !io.movable then (files, Retry(Interrupted))
    else (Files(None, Some(b)), Published)
  }

  function AttemptOnce(h: Sha256, r: ArtifactReference, limit: int, files: Files, session: Session, io: Io)
    : (Files, Outcome)
  {
    var offset := |Contents(files.partial)|;
    if offset > r.size || offset > limit then (Removed(files, io), Retry(PartialOversized))
    else
      match session
      case NotAuthorized => (files, Stop)
      case Refused(error) => (files, Retry(error))
      case Stream(source) =>
        var (added, problem) := Appended(source.chunks, source.interrupted, offset, r.size, limit, io.room);
        var copied := files.(partial := Some(Contents(files.partial) + added));
        if problem.Some? then (copied, Retry(problem.value)) else Verified(h, r, copied, io)
  }

  // ---------- the whole fetch ----------

  /** The reader's answer and the file system's behaviour in each attempt. */
  datatype World = World(reader: (nat, nat) -> Session, io: nat -> Io)

  /** The attempts from number `k` on, after an attempt that failed with `last`. */
  function Attempts(h: Sha256, r: ArtifactReference, limit: int, w: World, files: Files,
                    k: nat, n: nat, last: ArtifactError)
    : (Files, Result<Bytes, ArtifactError>)
    requires k <= n
    decreases n - k
  {
    if k == n then (files, Err(last))
    else
      var (next, outcome) := AttemptOnce(h, r, limit, files, w.reader(k, |Contents(files.partial)|), w.io(k));
      match outcome
      case Published => (next, Ok(Contents(next.destination)))
      case Stop => (next, Err(Denied))
      case Retry(error) => Attempts(h, r, limit, w, next, k + 1, n, error)
  }

  function Fetched(h: Sha256, r: ArtifactReference, limit: int, maxAttempts: int, w: World, files: Files)
    : (Files, Result<Bytes, ArtifactError>)
  {
    if r.size > limit then (files, Err(LimitExceeded))
    else if !(1 <= maxAttempts <= MAX_ATTEMPTS) then (files, Err(BadRetryLimit))
    else Attempts(h, r, limit, w, files, 0, maxAttempts, NotCompleted)
  }

  /** The partial file and the destination. */
  class Disk {
    var partial: Option<Bytes>
    var destination: Option<Bytes>

    ghost function Snapshot(): Files
      reads this
    {
      Files(partial, destination)
    }

    constructor (partial: Option<Bytes>, destination: Option<Bytes>)
      ensures this.partial == partial && this.destination == destination
    {
      this.partial, this.destination := partial, destination;
    }

    method Unlink(io: Io)
      modifies this`partial
      ensures Snapshot() == Removed(old(Snapshot()), io)
    {
      if io.removable {
        partial := None;
      }
    }

    /** Append a chunk to the partial file, as far as there is room. */
    method Append(chunk: Bytes, room: Option<nat>) returns (ok: bool)
      modifies this`partial
      ensures partial == Some(Contents(old(partial)) + Written(room, chunk)) && (ok <==> Fits(room, |chunk|))
    {
      ok := room.None? || |chunk| <= room.value;
      partial := Some(Contents(partial) + if ok then chunk else chunk[..room.value]);
    }

    /** One iteration of the copy. */
    method CopyChunk(chunk: Bytes, total: nat, expectedSize: int, limit: int, room: Option<nat>)
      returns (stop: Option<Option<ArtifactError>>)
      requires partial.Some?
      modifies this`partial
      ensures var (bytes, expected) := ChunkOutcome(chunk, total, expectedSize, limit, room);
              partial == Some(old(partial).value + bytes) && stop == expected
    {
      if chunk == "" {
        assert partial.value + "" == partial.value;
        return Some(None);
      }
      if total + |chunk| > expectedSize || total + |chunk| > limit {
        assert partial.value + "" == partial.value;
        return Some(Some(Oversized));
      }
      var ok := Append(chunk, room);
      return if ok then None else Some(Some(Interrupted));
    }

    /** `_copy_remaining` */
    method CopyRemaining(source: Source, offset: nat, expectedSize: int, limit: int, io: Io)
      returns (problem: Option<ArtifactError>)
      requires offset == |Contents(partial)|
      modifies this`partial
      ensures var (added, expected) :=
                Appended(source.chunks, source.interrupted, offset, expectedSize, limit, io.room);
              partial == Some(Contents(old(partial)) + added) && problem == expected
    {
      var ok := Append("", None);
      var total: nat, room: Option<nat> := offset, io.room;
      var rest := source.chunks;
      assert Contents(partial) == Contents(old(partial));
      ghost var goal := partial.value + Appended(rest, source.interrupted, total, expectedSize, limit, room).0;
      ghost var end := Appended(rest, source.interrupted, total, expectedSize, limit, room).1;
      while rest != []
        invariant partial.Some?
        invariant partial.value + Appended(rest, source.interrupted, total, expectedSize, limit, room).0 == goal
        invariant Appended(rest, source.interrupted, total, expectedSize, limit, room).1 == end
        decreases |rest|
      {
        AppendedByChunk(partial.value, rest, source.interrupted, total, expectedSize, limit, room);
        var stop := CopyChunk(rest[0], total, expectedSize, limit, room);
        if stop.Some? {
          return stop.value;
        }
        total, room, rest := total + |rest[0]|, Left(room, |rest[0]|), rest[1..];
      }
      assert partial.value + "" == partial.value;
      return if source.interrupted then Some(Interrupted) else None;
    }

    /** The end of an attempt: hash the partial file and publish it if it is the referenced content. */
    method Verify(h: Sha256, r: ArtifactReference, limit: int, io: Io) returns (outcome: Outcome)
      requires partial.Some? && |partial.value| <= limit
      modifies this
      ensures (Snapshot(), outcome) == Verified(h, r, old(Snapshot()), io)
    {
      if !io.readable {
        return Retry(Unavailable);
      }
      FileCollected(partial.value, limit);
      var hashed, _ := StreamSha256(h, FileSource(partial.value), limit);
      var (digest, size) := hashed.value;
      if size < r.size {
        return Retry(Truncated);
      }
      if size > r.size {
        Unlink(io);
        return Retry(Oversized);
      }
      if digest != r.digest {
        Unlink(io);
        return Retry(WrongDigest);
      }
      if !io.movable {
        return Retry(Interrupted);
      }
      partial, destination := None, partial;
      return Published;
    }

    /** The body of the `try` block of `fetch_verified`. */
    method Attempt(h: Sha256, r: ArtifactReference, limit: int, w: World, k: nat) returns (outcome: Outcome)
      requires r.size <= limit
      modifies this
      ensures (Snapshot(), outcome)
           == AttemptOnce(h, r, limit, old(Snapshot()), w.reader(k, |Contents(old(partial))|), w.io(k))
    {
      var offset := |Contents(partial)|;
      if offset > r.size || offset > limit {
        Unlink(w.io(k));
        return Retry(PartialOversized);
      }
      match w.reader(k, offset)
      case NotAuthorized => outcome := Stop;
      case Refused(error) => outcome := Retry(error);
      case Stream(source) =>
        AppendedFits(source.chunks, source.interrupted, offset, r.size, limit, w.io(k).room);
        var problem := CopyRemaining(source, offset, r.size, limit, w.io(k));
        if problem.Some? {
          return Retry(problem.value);
        }
        outcome := Verify(h, r, limit, w.io(k));
    }

    /** `fetch_verified` */
    method FetchVerified(h: Sha256, r: ArtifactReference, limit: int, maxAttempts: int, w: World)
      returns (result: Result<Bytes, ArtifactError>)
      modifies this
      ensures (Snapshot(), result) == Fetched(h, r, limit, maxAttempts, w, old(Snapshot()))
    {
      if r.size > limit {
        return Err(LimitExceeded);
      }
      if !(1 <= maxAttempts <= MAX_ATTEMPTS) {
        return Err(BadRetryLimit);
      }
      var lastError := NotCompleted;
      for k := 0 to maxAttempts
        invariant Attempts(h, r, limit, w, Snapshot(), k, maxAttempts, lastError)
               == Fetched(h, r, limit, maxAttempts, w, old(Snapshot()))
      {
        var outcome := Attempt(h, r, limit, w, k);
        match outcome {
          case Published => return Ok(Contents(destination));
          case Stop => return Err(Denied);
          case Retry(error) => lastError := error;
        }
      }
      return Err(lastError);
    }
  }

  // ---------- what a copy can do ----------

  /** Nothing is ever appended beyond the expected size. */
  lemma {:induction false} AppendedFits(chunks: seq<Bytes>, interrupted: bool, total: nat, size: int, limit: int,
                                        room: Option<nat>)
    ensures var added := Appended(chunks, interrupted, total, size, limit, room).0;
            added != "" ==> total + |added| <= size && total + |added| <= limit
  {
    if chunks != [] && chunks[0] != "" && total + |chunks[0]| <= size && total + |chunks[0]| <= limit
       && Fits(room, |chunks[0]|) {
      AppendedFits(chunks[1..], interrupted, total + |chunks[0]|, size, limit, Left(room, |chunks[0]|));
    }
  }

  /** So the check for an oversized partial file after the copy never fails. */
  lemma CopyNeverOversizes(r: ArtifactReference, limit: int, partial: Bytes, source: Source, io: Io)
    requires |partial| <= r.size
    ensures |partial + Appended(source.chunks, source.interrupted, |partial|, r.size, limit, io.room).0| <= r.size
  {
    AppendedFits(source.chunks, source.interrupted, |partial|, r.size, limit, io.room);
  }
}
