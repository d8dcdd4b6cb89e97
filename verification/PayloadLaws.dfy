/**
  Exactly which payloads are sent and which records are received (pkg/protocol/payload.go),
  stated without the functions that decide it.
*/
module PayloadLaws {
  import opened Bytes
  import opened Options
  import opened Values
  import opened InnerPayload
  import opened ContextFields
  import opened TrustMarkers
  import opened PayloadCodec

  // ----- Text -----

  lemma {:induction false} KeepPrintableAppends(s: seq<byte>, t: seq<byte>)
    ensures KeepPrintable(s + t) == KeepPrintable(s) + KeepPrintable(t)
  {
    if t == [] {
      assert s + t == s;
    } else {
      assert (s + t)[..|s + t|-1] == s + t[..|t|-1];
      KeepPrintableAppends(s, t[..|t|-1]);
    }
  }

  lemma {:induction false} KeepsSomething(s: seq<byte>)
    ensures KeepPrintable(s) != [] <==> exists b :: b in s && Printable(b)
  {
    if s != [] {
      var init, last := s[..|s|-1], s[|s|-1];
      assert s == init + [last];
      KeepsSomething(init);
    }
  }

  // Cleaning drops what is not printable and keeps the first characters that are.
  lemma {:induction false} CleanKeepsTheFront(printable: seq<byte>, dropped: seq<byte>, rest: seq<byte>)
    requires printable != [] && IsPrintable(printable) && forall b :: b in dropped ==> !Printable(b)
    ensures Clean(dropped + (printable + rest), |printable|) == printable
  {
    KeepsSomething(dropped);
    KeepPrintableId(printable);
    KeepPrintableAppends(dropped, printable + rest);
    KeepPrintableAppends(printable, rest);
    assert [] + (printable + KeepPrintable(rest)) == printable + KeepPrintable(rest);
  }

  lemma {:induction false} NonEmptyWhenCleaned(s: seq<byte>, maxLength: nat)
    requires maxLength >= 1
    ensures Clean(s, maxLength) != [] <==> s == [] || exists b :: b in s && Printable(b)
  {
    KeepsSomething(s);
    if s == [] { KeepPrintableId(EMPTY_FIELD); }
  }

  // ----- Sending -----

  // The key is empty or keeps a printable character; the value is nil, or serialises to at most
  // 255 bytes that are valid UTF-8 if it is a string.
  predicate SendableField(k: seq<byte>, v: Value) {
    && (k == [] || exists b :: b in k && Printable(b))
    && (v.Nil? || (Serialize(v).Some? && |Serialize(v).value.1| <= 255 && (v.Str? ==> ValidUtf8(Serialize(v).value.1))))
  }

  lemma {:induction false} StringsAreTagged(v: Value)
    requires Serialize(v).Some?
    ensures Serialize(v).value.0 == STRING <==> v.Str?
  {
  }

  lemma {:induction false} FieldIsSent(k: seq<byte>, v: Value)
    ensures ToField(k, v).Valid? <==> SendableField(k, v)
  {
    NonEmptyWhenCleaned(k, MAX_KEY);
    PlaceholderIsText();
    if Serialize(v).Some? { StringsAreTagged(v); }
  }

  lemma {:induction false} FieldsAreSent(m: map<seq<byte>, Value>, keys: seq<seq<byte>>)
    requires forall k :: k in keys ==> k in m
    ensures ToFields(m, keys).Valid? <==> forall k :: k in keys ==> SendableField(k, m[k])
  {
    if keys != [] {
      var init, last := keys[..|keys|-1], keys[|keys|-1];
      assert keys == init + [last];
      FieldsAreSent(m, init);
      FieldIsSent(last, m[last]);
    }
  }

  // No signature, or the 64 bytes of the one registered suite, made for it.
  predicate SendableSignature(req: Payload, sigID: byte) {
    sigID == 0 || (sigID == 1 && req.signatureID == 1 && |req.signature| == 64)
  }

  // ConstructPayload accepts exactly these requests.
  lemma {:induction false} ConstructAcceptsExactly(req: Payload, sigID: byte)
    ensures ToInner(req, sigID).Valid? <==>
      && req.hostID != 0 && req.msgID != 0 && req.messageSeq <= req.messageSeqMax
      && SendableSignature(req, sigID)
      && (forall k :: k in req.customFields ==> SendableField(k, req.customFields[k]))
      && (req.customFields != map[] ==>
            WireFields(req.customFields).Valid? && 10 <= |PrintFields(WireFields(req.customFields).value)| <= 65535)
      && 10 <= req.paddingLen <= 60
  {
    ConstructChecks(req, sigID);
    SignatureIsSent(req, sigID);
    AllFieldsAreSent(req.customFields);
  }

  lemma {:induction false} AllFieldsAreSent(m: map<seq<byte>, Value>)
    ensures WireFields(m).Valid? <==> forall k :: k in m ==> SendableField(k, m[k])
  {
    FieldsAreSent(m, SortedKeys(m.Keys));
  }

  lemma {:induction false} ConstructChecks(req: Payload, sigID: byte)
    ensures ToInner(req, sigID).Valid? <==>
      && CheckHeader(req).Valid? && CheckSignature(req, sigID).Valid? && WireFields(req.customFields).Valid?
      && SectionAccepted(req.customFields != map[], |PrintFields(WireFields(req.customFields).value)|) && PaddingAccepted(req.paddingLen)
  {
  }

  lemma {:induction false} SignatureIsSent(req: Payload, sigID: byte)
    ensures CheckSignature(req, sigID).Valid? <==> SendableSignature(req, sigID)
    ensures CheckSignature(req, sigID).Valid? ==> CheckSignature(req, sigID).value == if sigID == 0 then [] else req.signature
  {
  }

  // ----- Receiving -----

  predicate ReceivableField(f: Field) {
    1 <= |f.key| <= 32 && IsPrintable(f.key) && 1 <= |f.value| <= 255 && Deserialize(f.valType, f.value).Some?
  }

  lemma {:induction false} FieldIsReceived(f: Field)
    ensures FromField(f).Valid? <==> ReceivableField(f)
    ensures FromField(f).Valid? ==> FromField(f).value == Deserialize(f.valType, f.value).value
  {
  }

  lemma {:induction false} FieldsAreReceived(fields: seq<Field>)
    ensures FromFields(fields).Valid? <==> forall f :: f in fields ==> ReceivableField(f)
  {
    if fields != [] {
      var init, last := fields[..|fields|-1], fields[|fields|-1];
      assert fields == init + [last];
      FieldsAreReceived(init);
      FieldIsReceived(last);
    }
  }

  // The sender is unknown to the receiver, or its signature verifies under its pinned key.
  predicate Trusted(trust: Trust, host: seq<byte>, p: Inner) {
    || trust.pinned(host).None?
    || (p.signatureID != 0
        && trust.verify(trust.pinned(host).value, SerializeSignature(host, p.hostID, p.timestamp), p.signature, p.signatureID) == Some(true))
  }

  // DeconstructPayload accepts exactly these records.
  lemma {:induction false} DeconstructAcceptsExactly(p: Inner, trust: Trust)
    ensures FromInner(p, trust).Valid? <==>
      && p.hostID != 0 && p.msgID != 0 && p.messageSeq <= p.messageSeqMax
      && 1 <= |p.hostname| <= 255 && IsPrintable(p.hostname)
      && Trusted(trust, StripMarkers(p.hostname), p)
      && (forall f :: f in p.fields ==> ReceivableField(f))
      && p.data != [] && 10 <= p.paddingLen <= 60
  {
    FieldsAreReceived(p.fields);
    VerdictIsTrust(p, trust, StripMarkers(p.hostname));
  }

  lemma {:induction false} VerdictIsTrust(p: Inner, trust: Trust, host: seq<byte>)
    ensures Verdict(trust, host, p.hostID, p.timestamp, p.signatureID, p.signature).Valid? <==> Trusted(trust, host, p)
  {
  }

  // And what it makes of them.
  lemma {:induction false} DeconstructKeepsValues(p: Inner, trust: Trust)
    requires FromInner(p, trust).Valid?
    ensures var f := FromInner(p, trust).value;
            && f.hostID == p.hostID && f.msgID == p.msgID && f.messageSeq == p.messageSeq && f.messageSeqMax == p.messageSeqMax
            && f.timestamp % 1_000_000 == 0 && (f.timestamp / 1_000_000 - p.timestamp) % 0x1_0000_0000_0000_0000 == 0
            && f.signatureID == p.signatureID && f.signature == p.signature && f.data == p.data && f.paddingLen == p.paddingLen
  {
  }

  // Which hostname it shows.
  lemma {:induction false} DeconstructShows(p: Inner, trust: Trust)
    requires FromInner(p, trust).Valid?
    ensures var shown, host := FromInner(p, trust).value.hostname, StripMarkers(p.hostname);
            && (trust.pinned(host).Some? ==> shown == host)
            && (trust.pinned(host).None? && p.signatureID == 0 ==> shown == UNVERIFIED + host)
            && (trust.pinned(host).None? && p.signatureID != 0 ==> shown == UNKNOWN + host)
  {
  }
}
