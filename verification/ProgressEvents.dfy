/** The structured progress events of a training process and their wire format. */
module ProgressEvents {
  import opened Prelude
  import opened ByteStrings
  import opened JsonValues
  import opened JsonParser
  import opened Protocol
  import opened Wire

  const MAX_EVENT_BYTES := 16384
  const MAX_ELAPSED_MS := 86400000

  datatype EventKind = Started | Progress | Checkpointed | Completed | Failed | Cancelled

  datatype ProgressEvent = ProgressEvent(
    sequence: int, kind: EventKind, step: int, elapsedMs: int, outputDigest: Option<string>,
    errorCode: Option<string>)

  /** The constructor rules of an event. */
  predicate ValidEvent(e: ProgressEvent) {
    && 0 <= e.sequence <= MAX_INT63 && 0 <= e.step <= MAX_INT63 && 0 <= e.elapsedMs <= MAX_ELAPSED_MS
    && (e.outputDigest.Some? ==> IsDigest(e.outputDigest.value))
    && (e.errorCode.Some? ==> IsCode(e.errorCode.value))
    && (e.outputDigest.Some? <==> e.kind.Checkpointed? || e.kind.Completed?)
    && (e.errorCode.Some? <==> e.kind.Failed?)
    && (e.kind.Started? ==> e.sequence == 0 && e.step == 0)
  }

  function KindText(k: EventKind): string {
    match k
    case Started => "started"
    case Progress => "progress"
    case Checkpointed => "checkpointed"
    case Completed => "completed"
    case Failed => "failed"
    case Cancelled => "cancelled"
  }

  function KindFrom(v: Json): Option<EventKind> {
    var text :- Text(v);
    if text == "started" then Some(Started)
    else if text == "progress" then Some(Progress)
    else if text == "checkpointed" then Some(Checkpointed)
    else if text == "completed" then Some(Completed)
    else if text == "failed" then Some(Failed)
    else if text == "cancelled" then Some(Cancelled)
    else None
  }

  function EventJson(e: ProgressEvent): Json {
    Obj(map[
      "elapsed_ms" := Int(e.elapsedMs),
      "error_code" := OptionalText(e.errorCode),
      "kind" := Str(KindText(e.kind)),
      "output_digest" := OptionalText(e.outputDigest),
      "sequence" := Int(e.sequence),
      "step" := Int(e.step)])
  }

  /** `canonical_bytes`; `None` is the oversized failure. */
  function EncodeEvent(e: ProgressEvent): Option<Bytes> {
    var encoded := Print(EventJson(e));
    if |encoded| > MAX_EVENT_BYTES then None else Some(encoded)
  }

  function EventFrom(v: Json): Option<ProgressEvent> {
    var data :- Mapping(v);
    if data.Keys != {"elapsed_ms", "error_code", "kind", "output_digest", "sequence", "step"} then None
    else
      var sequence :- Integer(data["sequence"]);
      var kind :- KindFrom(data["kind"]);
      var step :- Integer(data["step"]);
      var elapsed :- Integer(data["elapsed_ms"]);
      var digest :- NullableText(data["output_digest"]);
      var code :- NullableText(data["error_code"]);
      var event := ProgressEvent(sequence, kind, step, elapsed, digest, code);
      if ValidEvent(event) then Some(event) else None
  }

  /** `from_bytes`; `None` is the invalid-event failure. */
  function DecodeEvent(value: Bytes): Option<ProgressEvent> {
    if !(1 <= |value| <= MAX_EVENT_BYTES) then None
    else
      var decoded :- Parse(value);
      var event :- EventFrom(decoded);
      if EncodeEvent(event) != Some(value) then None else Some(event)
  }

  // ---------- decoding undoes encoding ----------

  ghost predicate EventFieldsAre(f: map<string, Json>, e: ProgressEvent) {
    && f.Keys == {"elapsed_ms", "error_code", "kind", "output_digest", "sequence", "step"}
    && f["elapsed_ms"] == Int(e.elapsedMs) && f["error_code"] == OptionalText(e.errorCode)
    && f["kind"] == Str(KindText(e.kind)) && f["output_digest"] == OptionalText(e.outputDigest)
    && f["sequence"] == Int(e.sequence) && f["step"] == Int(e.step)
  }

  lemma EventFields(e: ProgressEvent)
    ensures EventFieldsAre(EventJson(e).fields, e)
  {
  }

  lemma KindRoundTrip(k: EventKind)
    ensures KindFrom(Str(KindText(k))) == Some(k)
  {
  }

  lemma EventFromFields(f: map<string, Json>, e: ProgressEvent)
    requires EventFieldsAre(f, e) && ValidEvent(e)
    ensures EventFrom(Obj(f)) == Some(e)
  {
    KindRoundTrip(e.kind);
  }

  lemma EventFromIsValid(v: Json)
    ensures EventFrom(v).Some? ==> ValidEvent(EventFrom(v).value)
  {
  }

  /**
   A frame decodes to an event exactly when the event is well formed and the frame holds its
   canonical encoding; nothing else is ever taken for an event.
   */
  lemma DecodeEventExact(value: Bytes, e: ProgressEvent)
    ensures DecodeEvent(value) == Some(e) <==> ValidEvent(e) && EncodeEvent(e) == Some(value)
  {
    if ValidEvent(e) && EncodeEvent(e) == Some(value) {
      ParsePrintRoundTrip(EventJson(e));
      PrintStart(EventJson(e));
      EventFields(e);
      EventFromFields(EventJson(e).fields, e);
    }
    if DecodeEvent(value) == Some(e) {
      EventFromIsValid(Parse(value).value);
    }
  }
}
