/**
  Between payloads and inner records (pkg/protocol/payload.go): validation, hostname and trust
  handling, context fields.  Times are nanoseconds since the epoch.  The pinned keys and the
  signature check are parameters.
*/
module PayloadCodec {
  import opened Bytes
  import opened Values
  import opened Options
  import opened InnerPayload
  import opened ContextFields
  import opened TrustMarkers

  datatype Payload = Payload(
    remoteIP: nat, hostID: int, msgID: int, messageSeq: int, messageSeqMax: int, timestamp: int,
    hostname: seq<byte>, signatureID: byte, signature: seq<byte>,
    customFields: map<seq<byte>, Value>, data: seq<byte>, paddingLen: int)

  const MAX_HOSTNAME := 255
  const MIN_PADDING := 10
  const MAX_PADDING := 60
  const MIN_SECTION_WITH_DATA := 10
  const NANOS_PER_MILLI := 1_000_000

  // ----- Time -----

  function Millis(nanos: int): int { nanos / NANOS_PER_MILLI }
  function Wrap64(i: int): uint64 { i % 0x1_0000_0000_0000_0000 }
  function Unwrap64(u: uint64): int64 { if u < 0x8000_0000_0000_0000 then u else u - 0x1_0000_0000_0000_0000 }

  // ----- Signed identity -----

  // "D3P-ID-SIG"
  const SIGNATURE_CONTEXT: seq<byte> := [0x44, 0x33, 0x50, 0x2D, 0x49, 0x44, 0x2D, 0x53, 0x49, 0x47]

  function SerializeSignature(hostname: seq<byte>, hostID: uint32, timestamp: uint64): seq<byte> {
    SIGNATURE_CONTEXT + (BigEndian(timestamp, 8) + (BigEndian(hostID, 4) + hostname))
  }

  // Different identities never have the same bytes to sign.
  lemma {:induction false} SignedBytesIdentify(h1: seq<byte>, id1: uint32, t1: uint64, h2: seq<byte>, id2: uint32, t2: uint64)
    requires SerializeSignature(h1, id1, t1) == SerializeSignature(h2, id2, t2)
    ensures h1 == h2 && id1 == id2 && t1 == t2
  {
    Widths();
    SplitAt(SIGNATURE_CONTEXT, BigEndian(t1, 8) + (BigEndian(id1, 4) + h1), SIGNATURE_CONTEXT, BigEndian(t2, 8) + (BigEndian(id2, 4) + h2));
    SplitAt(BigEndian(t1, 8), BigEndian(id1, 4) + h1, BigEndian(t2, 8), BigEndian(id2, 4) + h2);
    SplitAt(BigEndian(id1, 4), h1, BigEndian(id2, 4), h2);
    BigEndianRoundTrip(t1, 8); BigEndianRoundTrip(t2, 8); BigEndianRoundTrip(id1, 4); BigEndianRoundTrip(id2, 4);
  }

  lemma {:induction false} SplitAt(a: seq<byte>, b: seq<byte>, c: seq<byte>, d: seq<byte>)
    requires |a| == |c| && a + b == c + d
    ensures a == c && b == d
  {
    assert a == (a + b)[..|a|] && c == (c + d)[..|c|];
    assert b == (a + b)[|a|..] && d == (c + d)[|c|..];
  }

  // ----- Sending side -----

  function Low32(i: int): uint32 { i % 0x1_0000_0000 }
  function Low16(i: int): uint16 { i % 0x1_0000 }

  function CheckHeader(req: Payload): Checked<()> {
    if req.hostID == 0 then Invalid(InvalidPayload)
    else if req.msgID == 0 then Invalid(InvalidPayload)
    else if req.messageSeq > req.messageSeqMax then Invalid(InvalidPayload)
    else Valid(())
  }

  // The signature put on the wire.
  function CheckSignature(req: Payload, sigID: byte): Checked<seq<byte>> {
    if sigID == 0 then Valid([])
    else if req.signature == [] then Invalid(InvalidPayload)
    else if SignatureSuite(sigID).None? then Invalid(InvalidPayload)
    else if sigID != req.signatureID then Invalid(InvalidPayload)
    else if !SignatureOk(sigID, req.signature) then Invalid(InvalidPayload)
    else if |req.signature| > 255 then Invalid(InvalidPayload)
    else Valid(req.signature)
  }

  predicate SectionAccepted(hasFields: bool, total: nat) {
    hasFields ==> MIN_SECTION_WITH_DATA <= total <= MAX_SECTION
  }

  predicate PaddingAccepted(n: int) { MIN_PADDING <= n <= MAX_PADDING }

  function WireHostname(hostname: seq<byte>): seq<byte> { Clean(StripMarkers(hostname), MAX_HOSTNAME) }

  // ConstructPayload
  ghost function ToInner(req: Payload, sigID: byte): Checked<Inner> {
    var _ :- CheckHeader(req);
    var signature :- CheckSignature(req, sigID);
    var fields :- WireFields(req.customFields);
    if !SectionAccepted(req.customFields != map[], |PrintFields(fields)|) then Invalid(InvalidPayload)
    else if !PaddingAccepted(req.paddingLen) then Invalid(InvalidPayload)
    else
      Valid(Inner(Low32(req.hostID), Low32(req.msgID), Low16(req.messageSeq), Low16(req.messageSeqMax),
                  Wrap64(Millis(req.timestamp)), WireHostname(req.hostname), sigID, signature,
                  fields, req.data, req.paddingLen))
  }

  // `updated` is the request afterwards: its hostname has lost its markers, once the header passed.
  method ConstructPayload(req: Payload, sigID: byte) returns (proto: Checked<Inner>, updated: Payload)
    ensures proto == ToInner(req, sigID)
    ensures updated == if CheckHeader(req).Valid? then req.(hostname := StripMarkers(req.hostname)) else req
  {
    updated := req;
    if req.hostID == 0 || req.msgID == 0 || req.messageSeq > req.messageSeqMax {
      return Invalid(InvalidPayload), updated;
    }
    updated := updated.(hostname := RemoveAll(updated.hostname, UNKNOWN));
    updated := updated.(hostname := RemoveAll(updated.hostname, UNVERIFIED));
    var hostname := CleanStringToBytes(updated.hostname, MAX_HOSTNAME);
    var signature := CheckSignature(req, sigID);
    if signature.Invalid? {
      return Invalid(signature.why), updated;
    }
    var fields, total := BuildFields(req.customFields);
    if fields.Invalid? {
      return Invalid(fields.why), updated;
    }
    if req.customFields != map[] && (total < MIN_SECTION_WITH_DATA || total > MAX_SECTION) {
      return Invalid(InvalidPayload), updated;
    }
    if req.paddingLen < MIN_PADDING || req.paddingLen > MAX_PADDING {
      return Invalid(InvalidPayload), updated;
    }
    proto := Valid(Inner(Low32(req.hostID), Low32(req.msgID), Low16(req.messageSeq), Low16(req.messageSeqMax),
                         Wrap64(Millis(req.timestamp)), hostname, sigID, signature.value,
                         fields.value, req.data, req.paddingLen));
  }

  // ----- Receiving side -----

  // The pinned keys, and the signature check (None: the check itself failed).
  datatype Trust = Trust(
    pinned: seq<byte> -> Option<seq<byte>>,
    verify: (seq<byte>, seq<byte>, seq<byte>, byte) -> Option<bool>)

  // The hostname under which a payload is accepted.
  function Verdict(trust: Trust, host: seq<byte>, hostID: uint32, timestamp: uint64, sigID: byte, signature: seq<byte>): Checked<seq<byte>> {
    match trust.pinned(host)
    case None => Valid((if sigID == 0 then UNVERIFIED else UNKNOWN) + host)
    case Some(key) =>
      if sigID == 0 then Invalid(InvalidPayload)
      else
        match trust.verify(key, SerializeSignature(host, hostID, timestamp), signature, sigID)
        case None => Invalid(CryptoFailure)
        case Some(valid) => if valid then Valid(host) else Invalid(InvalidPayload)
  }

  predicate HostnameAccepted(hostname: seq<byte>) { 1 <= |hostname| <= MAX_HOSTNAME && IsPrintable(hostname) }

  // DeconstructPayload
  function FromInner(p: Inner, trust: Trust): Checked<Payload> {
    if p.hostID == 0 || p.msgID == 0 || p.messageSeq > p.messageSeqMax then Invalid(InvalidPayload)
    else if !HostnameAccepted(p.hostname) then Invalid(InvalidPayload)
    else
      var hostname :- Verdict(trust, StripMarkers(p.hostname), p.hostID, p.timestamp, p.signatureID, p.signature);
      var fields :- FromFields(p.fields);
      if p.data == [] then Invalid(InvalidPayload)
      else if !PaddingAccepted(p.paddingLen) then Invalid(InvalidPayload)
      else
        Valid(Payload(0, p.hostID, p.msgID, p.messageSeq, p.messageSeqMax, Unwrap64(p.timestamp) * NANOS_PER_MILLI,
                      hostname, p.signatureID, p.signature, fields, p.data, p.paddingLen))
  }

  method DeconstructPayload(p: Inner, trust: Trust) returns (validated: Checked<Payload>)
    ensures validated == FromInner(p, trust)
  {
    if p.hostID == 0 || p.msgID == 0 || p.messageSeq > p.messageSeqMax || |p.hostname| == 0 || |p.hostname| > MAX_HOSTNAME {
      return Invalid(InvalidPayload);
    }
    var ascii := IsPrintableAscii(p.hostname);
    if !ascii {
      return Invalid(InvalidPayload);
    }
    var host := RemoveAll(RemoveAll(p.hostname, UNKNOWN), UNVERIFIED);
    var hostname := host;
    var key := trust.pinned(host);
    if key.Some? && p.signatureID == 0 {
      return Invalid(InvalidPayload);
    } else if key.None? && p.signatureID == 0 {
      hostname := UNVERIFIED + host;
    } else if key.None? && p.signatureID != 0 {
      hostname := UNKNOWN + host;
    } else {
      var valid := trust.verify(key.value, SerializeSignature(host, p.hostID, p.timestamp), p.signature, p.signatureID);
      if valid.None? {
        return Invalid(CryptoFailure);
      }
      if !valid.value {
        return Invalid(InvalidPayload);
      }
    }
    var fields :- ReadFieldMap(p.fields);
    if |p.data| == 0 || p.paddingLen < MIN_PADDING || p.paddingLen > MAX_PADDING {
      return Invalid(InvalidPayload);
    }
    validated := Valid(Payload(0, p.hostID, p.msgID, p.messageSeq, p.messageSeqMax, Unwrap64(p.timestamp) * NANOS_PER_MILLI,
                               hostname, p.signatureID, p.signature, fields, p.data, p.paddingLen));
  }

  // ----- Main results -----

  // A hostname shown without a trust marker belongs to a pinned key that signed this identity.
  lemma {:induction false} UnmarkedMeansVerified(p: Inner, trust: Trust)
    requires FromInner(p, trust).Valid?
    ensures var shown := FromInner(p, trust).value.hostname;
            || UNVERIFIED <= shown || UNKNOWN <= shown
            || (trust.pinned(shown).Some? && p.signatureID != 0
                && trust.verify(trust.pinned(shown).value, SerializeSignature(shown, p.hostID, p.timestamp), p.signature, p.signatureID) == Some(true))
  {
  }

  // What the sender promises: values that fit their wire fields.
  ghost predicate Sendable(req: Payload) {
    && 0 < req.hostID < 0x1_0000_0000 && 0 < req.msgID < 0x1_0000_0000
    && 0 <= req.messageSeq && req.messageSeqMax < 0x1_0000
    && -0x8000_0000_0000_0000 <= Millis(req.timestamp) < 0x8000_0000_0000_0000
    && CleanFields(req.customFields) && req.data != []
  }

  function Received(req: Payload, hostname: seq<byte>, sigID: byte): Payload {
    Payload(0, req.hostID, req.msgID, req.messageSeq, req.messageSeqMax, Millis(req.timestamp) * NANOS_PER_MILLI,
            hostname, sigID, if sigID == 0 then [] else req.signature, AllArrive(req.customFields), req.data, req.paddingLen)
  }

  lemma {:induction false} WireHostnameIsAccepted(hostname: seq<byte>)
    ensures WireHostname(hostname) != [] ==> HostnameAccepted(WireHostname(hostname))
  {
  }

  // No wire field truncates.
  lemma {:induction false} FitsTheWire(req: Payload)
    requires Sendable(req) && CheckHeader(req).Valid?
    ensures Low32(req.hostID) == req.hostID && Low32(req.msgID) == req.msgID
    ensures Low16(req.messageSeq) == req.messageSeq && Low16(req.messageSeqMax) == req.messageSeqMax
    ensures Unwrap64(Wrap64(Millis(req.timestamp))) == Millis(req.timestamp)
  {
  }

  lemma {:induction false} InnerOf(req: Payload, sigID: byte)
    requires Sendable(req) && ToInner(req, sigID).Valid?
    ensures WireFields(req.customFields).Valid? && PaddingAccepted(req.paddingLen)
    ensures ToInner(req, sigID) ==
      Valid(Inner(req.hostID, req.msgID, req.messageSeq, req.messageSeqMax, Wrap64(Millis(req.timestamp)),
                  WireHostname(req.hostname), sigID, if sigID == 0 then [] else req.signature,
                  WireFields(req.customFields).value, req.data, req.paddingLen))
  {
    FitsTheWire(req);
  }

  // A sent payload is received as sent, to the millisecond, under the hostname that the
  // receiver's pinned keys allow, or refused exactly when they refuse it.
  lemma {:induction false} PayloadRoundTrip(req: Payload, sigID: byte, trust: Trust)
    requires Sendable(req) && ToInner(req, sigID).Valid? && WireHostname(req.hostname) != []
    ensures var p := ToInner(req, sigID).value;
            var verdict := Verdict(trust, StripMarkers(WireHostname(req.hostname)), req.hostID, Wrap64(Millis(req.timestamp)), sigID, p.signature);
            FromInner(p, trust) == if verdict.Valid? then Valid(Received(req, verdict.value, sigID)) else Invalid(verdict.why)
  {
    InnerOf(req, sigID);
    var p := ToInner(req, sigID).value;
    AllFieldsArrive(req.customFields);
    WireHostnameIsAccepted(req.hostname);
    FitsTheWire(req);
    assert FromFields(p.fields) == Valid(AllArrive(req.customFields));
  }

  // Its record is in range for the printer.
  lemma {:induction false} SentIsInRange(req: Payload, sigID: byte)
    requires Sendable(req) && ToInner(req, sigID).Valid? && WireHostname(req.hostname) != [] && |req.data| <= MAX_SECTION
    ensures InRange(ToInner(req, sigID).value)
  {
    AllFieldsArrive(req.customFields);
    SectionLength(ToInner(req, sigID).value.fields);
  }
}
