/** What the canonical encoding promises: one encoding per message, one message per encoding. */
module WireTheorems {
  import opened Prelude
  import opened Ordering
  import opened ByteStrings
  import opened JsonValues
  import opened JsonParser
  import opened Protocol
  import opened Wire

  // ---------- every constructible message is canonically encodable ----------

  predicate ValidText(s: string) {
    IsPrintable(s) && |s| <= MAX_TEXT_BYTES
  }

  lemma DigestIsText(s: string)
    requires IsDigest(s)
    ensures ValidText(s)
  {
    forall i | 0 <= i < |s| ensures ' ' <= s[i] <= '~' {
      if i < 7 {
        assert s[..7][i] == SHA_PREFIX[i];
      } else {
        assert s[7..][i - 7] == s[i];
      }
    }
  }

  lemma NamesAreText(s: string)
    ensures IsHotkey(s) || IsIdentifier(s) || IsCode(s) || IsSoftwareName(s) || IsShortText(s) ==> ValidText(s)
    ensures IsNonce(s) || IsSignature(s) ==> ValidText(s)
  {
  }

  lemma JobTexts(m: Message)
    requires m.JobManifest? && ValidJobManifest(m)
    ensures ValidText(m.containerDigest) && ValidText(m.entrypointDigest) && ValidText(m.inputRoot)
    ensures ValidText(m.framework) && ValidText(m.jobId) && ValidText(m.publisherHotkey)
    ensures ValidText(m.signature) && ValidText(m.verificationPolicy.challengeKind)
  {
    DigestIsText(m.containerDigest);
    DigestIsText(m.entrypointDigest);
    DigestIsText(m.inputRoot);
    NamesAreText(m.framework);
    NamesAreText(m.jobId);
    NamesAreText(m.publisherHotkey);
    NamesAreText(m.signature);
    NamesAreText(m.verificationPolicy.challengeKind);
  }

  lemma PoliciesEncodable(m: Message)
    requires m.JobManifest? && ValidJobManifest(m)
    ensures ValidCanonical(ResourcePolicyJson(m.resourcePolicy))
    ensures ValidCanonical(VerificationPolicyJson(m.verificationPolicy))
  {
    JobTexts(m);
  }

  lemma JobEncodable(m: Message)
    requires m.JobManifest? && ValidJobManifest(m)
    ensures ValidCanonical(Obj(JobPayload(m)))
  {
    JobTexts(m);
    PoliciesEncodable(m);
  }

  lemma ClaimTexts(m: Message)
    requires m.CapabilityClaim? && ValidCapabilityClaim(m)
    ensures ValidText(m.gpuInterconnect) && ValidText(m.gpuModel) && ValidText(m.claimMiner)
    ensures ValidText(m.claimNonce) && ValidText(m.signature) && ValidText("self_reported")
  {
    NamesAreText(m.gpuInterconnect);
    NamesAreText(m.gpuModel);
    NamesAreText(m.claimMiner);
    NamesAreText(m.claimNonce);
    NamesAreText(m.signature);
  }

  lemma ClaimListsEncodable(m: Message)
    requires m.CapabilityClaim? && ValidCapabilityClaim(m)
    ensures ValidCanonical(Arr(Map(SoftwareJson, m.runtimeVersions)))
    ensures ValidCanonical(Arr(Map(TierJson, m.supportedEvidenceTiers)))
  {
    forall i | 0 <= i < |m.runtimeVersions| ensures ValidCanonical(SoftwareJson(m.runtimeVersions[i])) {
      assert ValidSoftwareVersion(m.runtimeVersions[i]);
      NamesAreText(m.runtimeVersions[i].name);
      NamesAreText(m.runtimeVersions[i].version);
    }
  }

  lemma ClaimEncodable(m: Message)
    requires m.CapabilityClaim? && ValidCapabilityClaim(m)
    ensures ValidCanonical(Obj(ClaimPayload(m)))
  {
    ClaimTexts(m);
    ClaimListsEncodable(m);
  }

  lemma LeaseEncodable(m: Message)
    requires m.WorkLease? && ValidWorkLease(m)
    ensures ValidCanonical(Obj(LeasePayload(m)))
  {
    DigestIsText(m.manifestDigest);
    DigestIsText(m.challengeCommitment);
    NamesAreText(m.leaseMiner);
    NamesAreText(m.leaseValidator);
    NamesAreText(m.shardId);
    NamesAreText(m.leaseNonce);
    NamesAreText(m.signature);
  }

  lemma EvidenceTexts(m: Message)
    requires m.ExecutionEvidence? && ValidExecutionEvidence(m)
    ensures ValidText(m.challengeResponseDigest) && ValidText(m.imageDigest)
    ensures ValidText(m.leaseDigest) && ValidText(m.resultDigest)
    ensures ValidText(m.evidenceMiner) && ValidText(m.signature)
    ensures ValidCanonical(OptionalText(m.attestationDigest))
    ensures m.bundleRoot.Some? ==> ValidText(m.bundleRoot.value)
  {
    DigestIsText(m.challengeResponseDigest);
    DigestIsText(m.imageDigest);
    DigestIsText(m.leaseDigest);
    DigestIsText(m.resultDigest);
    NamesAreText(m.evidenceMiner);
    NamesAreText(m.signature);
    if m.attestationDigest.Some? { DigestIsText(m.attestationDigest.value); }
    if m.bundleRoot.Some? { DigestIsText(m.bundleRoot.value); }
  }

  lemma CheckpointsEncodable(checkpoints: seq<CheckpointCommitment>)
    requires forall c :: c in checkpoints ==> ValidCheckpoint(c)
    ensures ValidCanonical(Arr(Map(CheckpointJson, checkpoints)))
  {
    forall i | 0 <= i < |checkpoints| ensures ValidCanonical(CheckpointJson(checkpoints[i])) {
      assert ValidCheckpoint(checkpoints[i]);
      DigestIsText(checkpoints[i].digest);
    }
  }

  lemma EvidenceEncodable(m: Message)
    requires m.ExecutionEvidence? && ValidExecutionEvidence(m)
    ensures ValidCanonical(Obj(EvidencePayload(m)))
  {
    EvidenceTexts(m);
    CheckpointsEncodable(m.checkpoints);
  }

  lemma ReceiptEncodable(m: Message)
    requires m.ValidationReceipt? && ValidValidationReceipt(m)
    ensures ValidCanonical(Obj(ReceiptPayload(m)))
  {
    DigestIsText(m.evidenceDigest);
    NamesAreText(m.receiptValidator);
    NamesAreText(m.signature);
    forall i | 0 <= i < |m.reasonCodes| ensures ValidCanonical(TextJson(m.reasonCodes[i])) {
      NamesAreText(m.reasonCodes[i]);
    }
  }

  lemma PayloadEncodable(m: Message)
    requires ValidFields(m)
    ensures ValidCanonical(Obj(Payload(m)))
  {
    if m.JobManifest? {
      JobEncodable(m);
    } else if m.CapabilityClaim? {
      ClaimEncodable(m);
    } else if m.WorkLease? {
      LeaseEncodable(m);
    } else if m.ExecutionEvidence? {
      EvidenceEncodable(m);
    } else {
      ReceiptEncodable(m);
    }
  }

  lemma EnvelopeEncodable(m: Message, payload: map<string, Json>)
    requires m.protocolVersion == PROTOCOL_VERSION && ValidCanonical(Obj(payload))
    ensures ValidCanonical(Envelope(MessageType(m), payload, m.protocolVersion))
  {
    assert ValidText(MessageType(m));
  }

  /** Only the size limit can keep a constructible message from being encoded. */
  lemma ConstructibleIsEncodable(m: Message)
    requires Constructible(m)
    ensures CanonicalBytes(m)
         == if |Print(ToPrimitive(m))| <= MAX_WIRE_BYTES then Some(Print(ToPrimitive(m))) else None
  {
    ConstructibleIsFixpoint(m);
    PayloadEncodable(m);
    EnvelopeEncodable(m, Payload(m));
  }

  /** The text that is signed and digested, without its domain separator. */
  function UnsignedText(m: Message): string {
    Print(UnsignedPrimitive(m))
  }

  /** Every constructible message can be signed. */
  lemma ConstructibleIsSignable(m: Message)
    requires Constructible(m)
    ensures SigningBytes(m) == Some(SIGNATURE_DOMAIN + UnsignedText(m))
    ensures ContentPreimage(m) == Some(CONTENT_DOMAIN + UnsignedText(m))
  {
    ConstructibleIsFixpoint(m);
    PayloadEncodable(m);
    WithoutField(Payload(m), "signature");
    EnvelopeEncodable(m, Payload(m) - {"signature"});
  }

  lemma WithoutField(p: map<string, Json>, k: string)
    requires ValidCanonical(Obj(p))
    ensures ValidCanonical(Obj(p - {k}))
  {
    forall j | j in p - {k} ensures ValidCanonical((p - {k})[j]) {
      assert j in p;
    }
  }

  // ---------- decoding accepts the canonical encodings and nothing else ----------

  lemma EnvelopeFields(messageType: string, payload: map<string, Json>, version: int)
    ensures var root := Envelope(messageType, payload, version).fields;
            && root.Keys == {"message_type", "payload", "protocol_version"}
            && root["message_type"] == Str(messageType)
            && root["payload"] == Obj(payload)
            && root["protocol_version"] == Int(version)
  {
  }

  lemma PrimitiveRoundTrip(m: Message)
    requires Constructible(m)
    ensures FromPrimitive(ToPrimitive(m)) == Some(m)
  {
    ConstructibleIsFixpoint(m);
    ArgumentsRoundTrip(m);
    EnvelopeFields(MessageType(m), Payload(m), m.protocolVersion);
  }

  /** Decoding undoes encoding for every constructible message that fits the wire limit. */
  lemma DecodeRoundTrip(m: Message)
    requires Constructible(m) && CanonicalBytes(m).Some?
    ensures DecodeMessage(CanonicalBytes(m).value) == Some(m)
  {
    ConstructibleIsEncodable(m);
    ParsePrintRoundTrip(ToPrimitive(m));
    PrimitiveRoundTrip(m);
    PrintStart(ToPrimitive(m));
  }

  /**
   `decode_message(data)` returns `m` exactly when `m` is a constructible message and `data` is its
   canonical encoding, so no two texts decode to the same message.
   */
  lemma DecodeExact(data: Bytes, m: Message)
    ensures DecodeMessage(data) == Some(m) <==> Constructible(m) && CanonicalBytes(m) == Some(data)
  {
    if DecodeMessage(data) == Some(m) {
      FromPrimitiveConstructs(Parse(data).value);
    }
    if Constructible(m) && CanonicalBytes(m) == Some(data) {
      DecodeRoundTrip(m);
    }
  }

  lemma FromPrimitiveConstructs(v: Json)
    ensures FromPrimitive(v).Some? ==> Constructible(FromPrimitive(v).value)
  {
    if FromPrimitive(v).Some? {
      var root := v.fields;
      var payload := root["payload"].fields;
      var raw := Arguments(root["message_type"].text, payload, root["protocol_version"].number).value;
      assert Construct(raw) == FromPrimitive(v);
    }
  }

  /** Encoding is injective: two constructible messages with the same encoding are the same. */
  lemma CanonicalBytesInjective(a: Message, b: Message)
    requires Constructible(a) && Constructible(b)
    requires CanonicalBytes(a).Some? && CanonicalBytes(a) == CanonicalBytes(b)
    ensures a == b
  {
    DecodeExact(CanonicalBytes(a).value, a);
    DecodeExact(CanonicalBytes(a).value, b);
  }

  /** Permuting set-like constructor arguments changes no byte of the encoding or of what is signed. */
  lemma BytesIgnoreOrder(a: Message, b: Message)
    requires SameUpToOrder(a, b) && Construct(a).Some?
    ensures Construct(b).Some?
    ensures CanonicalBytes(Construct(a).value) == CanonicalBytes(Construct(b).value)
    ensures SigningBytes(Construct(a).value) == SigningBytes(Construct(b).value)
  {
    ConstructIgnoresOrder(a, b);
  }

  // ---------- signatures cover everything except themselves ----------

  /** The same message under another signature. */
  function Resign(m: Message, s: string): Message {
    m.(signature := s)
  }

  /** Equal apart from the signature. */
  ghost predicate SameContent(a: Message, b: Message) {
    Resign(a, b.signature) == b
  }

  ghost predicate SignatureField(p: map<string, Json>, q: map<string, Json>, m: Message, s: string) {
    "signature" in p && p["signature"] == Str(m.signature) && q == p["signature" := Str(s)]
  }

  lemma JobSignature(m: Message, s: string)
    requires m.JobManifest?
    ensures SignatureField(JobPayload(m), JobPayload(Resign(m, s)), m, s)
  {
  }

  lemma ClaimSignature(m: Message, s: string)
    requires m.CapabilityClaim?
    ensures SignatureField(ClaimPayload(m), ClaimPayload(Resign(m, s)), m, s)
  {
  }

  lemma LeaseSignature(m: Message, s: string)
    requires m.WorkLease?
    ensures SignatureField(LeasePayload(m), LeasePayload(Resign(m, s)), m, s)
  {
  }

  lemma EvidenceSignature(m: Message, s: string)
    requires m.ExecutionEvidence?
    ensures SignatureField(EvidencePayload(m), EvidencePayload(Resign(m, s)), m, s)
  {
  }

  lemma ReceiptSignature(m: Message, s: string)
    requires m.ValidationReceipt?
    ensures SignatureField(ReceiptPayload(m), ReceiptPayload(Resign(m, s)), m, s)
  {
  }

  /** Replacing the signature changes one field of the payload. */
  lemma PayloadSignature(m: Message, s: string)
    ensures SignatureField(Payload(m), Payload(Resign(m, s)), m, s)
  {
    if m.JobManifest? {
      JobSignature(m, s);
    } else if m.CapabilityClaim? {
      ClaimSignature(m, s);
    } else if m.WorkLease? {
      LeaseSignature(m, s);
    } else if m.ExecutionEvidence? {
      EvidenceSignature(m, s);
    } else {
      ReceiptSignature(m, s);
    }
  }

  lemma ResignedIsValid(m: Message, s: string)
    requires ValidFields(m) && IsSignature(s)
    ensures ValidFields(Resign(m, s))
  {
  }

  lemma ResignedIsNormal(m: Message, s: string)
    ensures Normalize(Resign(m, s)) == Resign(Normalize(m), s)
  {
  }

  lemma ResignedIsConstructible(m: Message, s: string)
    requires Constructible(m) && IsSignature(s)
    ensures Constructible(Resign(m, s))
  {
    var raw :| Construct(raw) == Some(m);
    ResignedIsValid(raw, s);
    ResignedIsNormal(raw, s);
    assert Construct(Resign(raw, s)) == Some(Resign(m, s));
  }

  lemma ConstructibleIsSigned(m: Message)
    requires Constructible(m)
    ensures IsSignature(m.signature) && m.protocolVersion == PROTOCOL_VERSION
  {
    ConstructibleIsFixpoint(m);
  }

  /** Adding the signature back to the unsigned fields gives the payload. */
  lemma PayloadFromUnsigned(m: Message)
    ensures Payload(m) == (Payload(m) - {"signature"})["signature" := Str(m.signature)]
  {
    PayloadSignature(m, m.signature);
  }

  lemma UnsignedFields(a: Message, b: Message)
    requires UnsignedPrimitive(a) == UnsignedPrimitive(b)
    ensures MessageType(a) == MessageType(b) && a.protocolVersion == b.protocolVersion
    ensures Payload(a) - {"signature"} == Payload(b) - {"signature"}
  {
    EnvelopeFields(MessageType(a), Payload(a) - {"signature"}, a.protocolVersion);
    EnvelopeFields(MessageType(b), Payload(b) - {"signature"}, b.protocolVersion);
  }

  lemma PayloadDeterminesMessage(a: Message, b: Message)
    requires Constructible(a) && Constructible(b)
    requires MessageType(a) == MessageType(b) && Payload(a) == Payload(b)
    ensures a == b
  {
    ConstructibleIsFixpoint(a);
    ConstructibleIsFixpoint(b);
    ConstructibleIsSigned(a);
    ConstructibleIsSigned(b);
    ArgumentsRoundTrip(a);
    ArgumentsRoundTrip(b);
  }

  /** The unsigned text determines the message up to its signature, and depends on nothing else. */
  lemma UnsignedTextExact(a: Message, b: Message)
    requires Constructible(a) && Constructible(b)
    ensures UnsignedText(a) == UnsignedText(b) <==> SameContent(a, b)
  {
    var c := Resign(a, b.signature);
    if UnsignedText(a) == UnsignedText(b) {
      PrintInjective(UnsignedPrimitive(a), UnsignedPrimitive(b));
      UnsignedFields(a, b);
      ConstructibleIsSigned(b);
      ResignedIsConstructible(a, b.signature);
      ResignedPayload(a, b);
      PayloadDeterminesMessage(c, b);
    }
    if SameContent(a, b) {
      ResignedUnsigned(a, b.signature);
    }
  }

  lemma ResignedPayload(a: Message, b: Message)
    requires Payload(a) - {"signature"} == Payload(b) - {"signature"}
    requires MessageType(a) == MessageType(b)
    ensures Payload(Resign(a, b.signature)) == Payload(b)
    ensures MessageType(Resign(a, b.signature)) == MessageType(b)
  {
    PayloadSignature(a, b.signature);
    PayloadFromUnsigned(a);
    PayloadFromUnsigned(b);
  }

  lemma ResignedUnsigned(a: Message, s: string)
    ensures UnsignedPrimitive(Resign(a, s)) == UnsignedPrimitive(a)
  {
    PayloadSignature(a, s);
    OverwrittenField(Payload(a), Payload(Resign(a, s)), "signature");
    ResignedType(a, s);
  }

  lemma ResignedType(a: Message, s: string)
    ensures MessageType(Resign(a, s)) == MessageType(a) && Resign(a, s).protocolVersion == a.protocolVersion
  {
  }

  lemma OverwrittenField(p: map<string, Json>, q: map<string, Json>, k: string)
    requires k in q && q == p[k := q[k]]
    ensures q - {k} == p - {k}
  {
  }

  lemma CancelPrefix(prefix: string, x: string, y: string)
    ensures prefix + x == prefix + y <==> x == y
  {
    assert (prefix + x)[|prefix|..] == x && (prefix + y)[|prefix|..] == y;
  }

  /**
   Two constructible messages have the same signing bytes exactly when they are equal apart from
   their signatures: message type, version and every other field are covered.
   */
  lemma SigningBytesExact(a: Message, b: Message)
    requires Constructible(a) && Constructible(b)
    ensures SigningBytes(a) == SigningBytes(b) <==> SameContent(a, b)
  {
    ConstructibleIsSignable(a);
    ConstructibleIsSignable(b);
    UnsignedTextExact(a, b);
    CancelPrefix(SIGNATURE_DOMAIN, UnsignedText(a), UnsignedText(b));
  }

  /**
   Equal content digests mean equal content, whatever the signatures are, unless the hash collides
   on the two contents.
   */
  lemma ContentDigestExact(h: Sha256, a: Message, b: Message)
    requires Constructible(a) && Constructible(b)
    requires CollisionFree(h, {CONTENT_DOMAIN + UnsignedText(a), CONTENT_DOMAIN + UnsignedText(b)})
    ensures ContentDigest(h, a).Some? && ContentDigest(h, b).Some?
    ensures ContentDigest(h, a) == ContentDigest(h, b) <==> SameContent(a, b)
  {
    ConstructibleIsSignable(a);
    ConstructibleIsSignable(b);
    UnsignedTextExact(a, b);
    CancelPrefix(CONTENT_DOMAIN, UnsignedText(a), UnsignedText(b));
    var x, y := CONTENT_DOMAIN + UnsignedText(a), CONTENT_DOMAIN + UnsignedText(b);
    if DigestText(h(x)) == DigestText(h(y)) {
      DigestTextInjective(h(x), h(y));
      assert x == y;
    }
  }

  /** Unless the hash collides on the two encodings, equal digests mean equal messages, signature included. */
  lemma MessageDigestExact(h: Sha256, a: Message, b: Message)
    requires Constructible(a) && Constructible(b) && CanonicalBytes(a).Some? && CanonicalBytes(b).Some?
    requires CollisionFree(h, {DIGEST_DOMAIN + CanonicalBytes(a).value, DIGEST_DOMAIN + CanonicalBytes(b).value})
    ensures MessageDigest(h, a).Some? && MessageDigest(h, b).Some?
    ensures MessageDigest(h, a) == MessageDigest(h, b) <==> a == b
  {
    PrefixedDigestExact(h, DIGEST_DOMAIN, CanonicalBytes(a).value, CanonicalBytes(b).value);
    if CanonicalBytes(a) == CanonicalBytes(b) {
      CanonicalBytesInjective(a, b);
    }
  }

  lemma PrefixedDigestExact(h: Sha256, domain: Bytes, x: Bytes, y: Bytes)
    requires CollisionFree(h, {domain + x, domain + y})
    ensures DigestText(h(domain + x)) == DigestText(h(domain + y)) <==> x == y
  {
    if DigestText(h(domain + x)) == DigestText(h(domain + y)) {
      DigestTextInjective(h(domain + x), h(domain + y));
      assert domain + x == domain + y;
      CancelPrefix(domain, x, y);
    }
  }

  /** Messages with the same content have the same digest, so a changed signature is no new content. */
  lemma SameContentSameDigest(h: Sha256, a: Message, b: Message)
    requires SameContent(a, b)
    ensures ContentDigest(h, a) == ContentDigest(h, b)
  {
    ResignedUnsigned(a, b.signature);
  }
}
