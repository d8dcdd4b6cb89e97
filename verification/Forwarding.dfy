/**
  Handing a validated fragment to another process (internal/receiver/shard/fiprsend/send.go,
  fiprrecv/receive.go): it is encoded again and decoded under the same pinned keys.
*/
module Forwarding {
  import opened Bytes
  import opened Values
  import opened Options
  import opened InnerPayload
  import opened ContextFields
  import opened TrustMarkers
  import opened PayloadCodec
  import opened Fragmentation

  // Bytes that a field takes in the context section.
  function Weight(key: seq<byte>, v: Value): nat {
    if ToField(key, v).Valid? then 5 + |ToField(key, v).value.key| + |ToField(key, v).value.value| else 0
  }

  function Weights(m: map<seq<byte>, Value>): seq<byte> -> nat { k => if k in m then Weight(k, m[k]) else 0 }

  function TotalWeight(m: map<seq<byte>, Value>, keys: seq<seq<byte>>): nat { Sum(Weights(m), keys) }

  lemma {:induction false} EncodedAs(key: seq<byte>, v: Value, valType: byte, data: seq<byte>)
    requires key != [] && Clean(key, MAX_KEY) == key && !v.Nil? && Serialize(v) == Some((valType, data))
    requires |data| <= MAX_VALUE && (valType == STRING ==> ValidUtf8(data))
    ensures ToField(key, v) == Valid(Field(key, valType, if data == [] then EMPTY_FIELD else data))
  {
    PlaceholderIsText();
  }

  lemma {:induction false} AcceptedBytes(f: Field)
    requires FromField(f).Valid?
    ensures Serialize(FromField(f).value).Some?
    ensures var (t, data) := Serialize(FromField(f).value).value;
            t == f.valType && |data| <= |f.value| && (t == STRING ==> ValidUtf8(data))
  {
    AcceptedIsExact(f.valType, f.value);
    if f.valType == STRING { StripNulKeepsUtf8(f.value); }
  }

  // An accepted field is accepted again, and takes no more room.
  lemma {:induction false} AcceptedAgain(f: Field)
    requires FromField(f).Valid?
    ensures ToField(f.key, FromField(f).value).Valid? && Weight(f.key, FromField(f).value) <= |PrintField(f)|
  {
    AcceptedFieldArrives(f);
    AcceptedBytes(f);
    var v := FromField(f).value;
    var (t, data) := Serialize(v).value;
    EncodedAs(f.key, v, t, data);
  }

  predicate AllAcceptedAgain(m: map<seq<byte>, Value>) { forall k :: k in m ==> ToField(k, m[k]).Valid? }

  lemma {:induction false} FieldsAcceptedAgain(fields: seq<Field>)
    requires FromFields(fields).Valid?
    ensures AllAcceptedAgain(FromFields(fields).value)
  {
    if fields != [] {
      FieldsAcceptedAgain(fields[..|fields|-1]);
      AcceptedAgain(fields[|fields|-1]);
    }
  }

  lemma {:induction false} WeightIsLength(m: map<seq<byte>, Value>, keys: seq<seq<byte>>)
    requires (forall k :: k in keys ==> k in m) && AllAcceptedAgain(m)
    ensures ToFields(m, keys).Valid? && |ToFields(m, keys).value| == |keys|
    ensures |PrintFields(ToFields(m, keys).value)| == TotalWeight(m, keys)
  {
    if keys != [] {
      var init, last := keys[..|keys|-1], keys[|keys|-1];
      assert forall k :: k in init ==> k in keys;
      WeightIsLength(m, init);
      assert last in keys;
      SectionOneMore(ToFields(m, init).value, ToField(last, m[last]).value);
    }
  }

  // Duplicate keys collapse, so the map never needs more room than the section it came from.
  lemma {:induction false} NoHeavierThanSection(fields: seq<Field>, keys: seq<seq<byte>>)
    requires FromFields(fields).Valid? && Distinct(keys) && forall k :: k in keys ==> k in FromFields(fields).value
    ensures TotalWeight(FromFields(fields).value, keys) <= |PrintFields(fields)|
  {
    var m := FromFields(fields).value;
    assert keys == [] || keys[0] in keys;
    if fields != [] {
      var init, f := fields[..|fields|-1], fields[|fields|-1];
      var n := FromFields(init).value;
      AcceptedAgain(f);
      var rest := OtherKeys(n, f.key, FromField(f).value, keys);
      NoHeavierThanSection(init, rest);
    }
  }

  // The keys but one, and their weight before that key was set.
  lemma {:induction false} OtherKeys(n: map<seq<byte>, Value>, key: seq<byte>, v: Value, keys: seq<seq<byte>>) returns (rest: seq<seq<byte>>)
    requires Distinct(keys) && forall k :: k in keys ==> k in n[key := v]
    ensures Distinct(rest) && forall k :: k in rest ==> k in n
    ensures TotalWeight(n[key := v], keys) <= TotalWeight(n, rest) + Weight(key, v)
  {
    var m := n[key := v];
    rest := keys;
    if key in keys {
      var i: nat :| i < |keys| && keys[i] == key;
      WithoutKey(Weights(m), keys, i);
      WithoutAt(keys, i);
      rest := keys[..i] + keys[i+1..];
    }
    forall k | k in rest ensures Weights(m)(k) == Weights(n)(k) && k in n {
      assert k in keys && k != key;
      assert k in m;
    }
    SameWeights(Weights(m), Weights(n), rest);
  }

  ghost function SectionWeight(m: map<seq<byte>, Value>): nat { TotalWeight(m, SortedKeys(m.Keys)) }

  predicate FromTheWire(p: Inner, trust: Trust) { InRange(p) && FromInner(p, trust).Valid? }

  // A validated fragment is encoded again exactly when it has no fields or its section takes at
  // least ten bytes; whatever address it came from.
  lemma {:induction false} ReencodingAccepted(p: Inner, trust: Trust, addr: nat)
    requires FromTheWire(p, trust)
    ensures var f := FromInner(p, trust).value.(remoteIP := addr);
            ToInner(f, f.signatureID).Valid? <==> f.customFields == map[] || SectionWeight(f.customFields) >= MIN_SECTION_WITH_DATA
  {
    var m := FromInner(p, trust).value.customFields;
    assert FromFields(p.fields) == Valid(m);
    var keys := SortedKeys(m.Keys);
    SortedKeysDistinct(m.Keys);
    FieldsAcceptedAgain(p.fields);
    WeightIsLength(m, keys);
    NoHeavierThanSection(p.fields, keys);
  }

  lemma {:induction false} StillSendable(p: Inner, trust: Trust, addr: nat)
    requires FromTheWire(p, trust)
    ensures var f := FromInner(p, trust).value;
            && Sendable(f.(remoteIP := addr)) && Millis(f.timestamp) == Unwrap64(p.timestamp)
            && Wrap64(Millis(f.timestamp)) == p.timestamp && (f.signatureID == 0 ==> f.signature == [])
  {
    AcceptedFieldsArrive(p.fields);
    TimeSurvives(p.timestamp);
    AcceptedParts(p, trust);
  }

  lemma {:induction false} TimeSurvives(u: uint64)
    ensures Millis(Unwrap64(u) * NANOS_PER_MILLI) == Unwrap64(u) && Wrap64(Unwrap64(u)) == u
  {
  }

  lemma {:induction false} AcceptedParts(p: Inner, trust: Trust)
    requires FromTheWire(p, trust)
    ensures var f := FromInner(p, trust).value;
            && f.hostID == p.hostID > 0 && f.msgID == p.msgID > 0 && f.messageSeq == p.messageSeq && f.messageSeqMax == p.messageSeqMax
            && f.timestamp == Unwrap64(p.timestamp) * NANOS_PER_MILLI && FromFields(p.fields) == Valid(f.customFields)
            && f.data == p.data != [] && f.signatureID == p.signatureID && f.signature == p.signature
            && (p.signatureID == 0 ==> p.signature == [])
  {
  }

  // The hostname on the wire is the one that was judged.
  lemma {:induction false} SameHostname(p: Inner, trust: Trust)
    requires FromTheWire(p, trust)
    ensures var s := StripMarkers(p.hostname);
            s != [] && !HidesMarker(p.hostname) ==> WireHostname(FromInner(p, trust).value.hostname) == s && StripMarkers(s) == s
  {
    StripOnceIsEnough(p.hostname);
    var s := StripMarkers(p.hostname);
    StrippedIsPrintable(p.hostname);
    StripPrefixed(s);
    CleanStable(s, MAX_HOSTNAME);
  }

  lemma {:induction false} DecodedAgain(p: Inner, trust: Trust, addr: nat)
    requires FromTheWire(p, trust)
    requires var f := FromInner(p, trust).value; NulFree(f.customFields) && ToInner(f.(remoteIP := addr), f.signatureID).Valid?
    requires StripMarkers(p.hostname) != [] && !HidesMarker(p.hostname)
    ensures var f := FromInner(p, trust).value;
            var q := ToInner(f.(remoteIP := addr), f.signatureID).value;
            InRange(q) && q.paddingLen == f.paddingLen && FromInner(q, trust) == Valid(f)
  {
    var f := FromInner(p, trust).value;
    var g := f.(remoteIP := addr);
    StillSendable(p, trust, addr);
    SameHostname(p, trust);
    InnerOf(g, g.signatureID);
    SentIsInRange(g, g.signatureID);
    PayloadRoundTrip(g, g.signatureID, trust);
    AcceptedFieldsArrive(p.fields);
    var q := ToInner(g, g.signatureID).value;
    assert q.signature == p.signature;
    var s := StripMarkers(p.hostname);
    assert Verdict(trust, s, p.hostID, p.timestamp, p.signatureID, p.signature) == Valid(f.hostname);
  }

  // Cross-process forwarding returns the same fragment; the sender's address alone is not carried.
  lemma {:induction false} ForwardingIsTransparent(payload: seq<byte>, trust: Trust, addr: nat, padding: seq<byte>)
    requires Parse(payload).Ok? && FromInner(Parse(payload).value, trust).Valid?
    requires var f := FromInner(Parse(payload).value, trust).value;
             && NulFree(f.customFields) && |padding| == f.paddingLen
             && (f.customFields == map[] || SectionWeight(f.customFields) >= MIN_SECTION_WITH_DATA)
    requires var hostname := Parse(payload).value.hostname; StripMarkers(hostname) != [] && !HidesMarker(hostname)
    ensures var f := FromInner(Parse(payload).value, trust).value;
            var g := ToInner(f.(remoteIP := addr), f.signatureID);
            && g.Valid? && g.value.paddingLen == |padding|
            && var sent := Print(g.value, padding);
               sent.Ok? && Parse(sent.value) == Ok(g.value) && FromInner(g.value, trust) == Valid(f)
  {
    var p := Parse(payload).value;
    ParsedInRange(payload);
    ReencodingAccepted(p, trust, addr);
    DecodedAgain(p, trust, addr);
    var f := FromInner(p, trust).value;
    var q := ToInner(f.(remoteIP := addr), f.signatureID).value;
    ParsePrinted(q, padding);
    PaddedIsLongEnough(q, padding);
  }

  // One field, key "a" and value true: received, but not encoded again.
  lemma {:induction false} SmallContextIsNotForwarded(p: Inner, trust: Trust)
    requires FromTheWire(p, trust) && p.fields == [Field([0x61], BOOL, [1])]
    ensures var f := FromInner(p, trust).value;
            f.customFields == map[[0x61] := Bool(true)] && ToInner(f, f.signatureID).Invalid?
  {
    var f := p.fields[0];
    assert FromField(f) == Valid(Bool(true));
    FromFieldsOneMore([], f, map[], Bool(true));
    assert [] + [f] == p.fields;
    var m := FromInner(p, trust).value.customFields;
    assert m == map[f.key := Bool(true)];
    var keys := SortedKeys(m.Keys);
    SortedKeysDistinct(m.Keys);
    ListingSize(keys, m.Keys);
    assert keys[0] in m.Keys;
    assert keys == [f.key] && keys[..0] == [];
    AcceptedAgain(f);
    assert SectionWeight(m) == Sum(Weights(m), keys[..0]) + Weight(f.key, Bool(true));
    ReencodingAccepted(p, trust, 0);
  }

  // ----- A failed attempt -----

  // ConstructPayload rewrites the fragment that it was given, so an attempt that fails later
  // leaves it without its trust marker.  The hostname survives exactly when the sender was
  // verified under a pinned key and its name contains no marker.
  lemma {:induction false} FailedForwardKeepsHostname(p: Inner, trust: Trust)
    requires FromTheWire(p, trust)
    ensures var f, s := FromInner(p, trust).value, StripMarkers(p.hostname);
            && CheckHeader(f).Valid? && StripMarkers(f.hostname) == StripMarkers(s)
            && (StripMarkers(f.hostname) == f.hostname <==> trust.pinned(s).Some? && !Marked(s))
  {
    var s := StripMarkers(p.hostname);
    StripPrefixed(s);
    StripFixed(s);
    NoLongerAfterStrip(s);
  }

  lemma {:induction false} NoLongerAfterStrip(s: seq<byte>)
    ensures |StripMarkers(s)| <= |s|
  {
  }

  // Such a fragment no longer compares as equal with the others of its message.
  lemma {:induction false} FailedForwardSplitsMessage(p: Inner, trust: Trust, other: Payload, c: Comparison)
    requires FromTheWire(p, trust) && trust.pinned(StripMarkers(p.hostname)).None?
    requires var f := FromInner(p, trust).value; SameIdentity(f, other) && Decoded(f) && Decoded(other)
    requires Compares(other, FromInner(p, trust).value.(hostname := StripMarkers(FromInner(p, trust).value.hostname)), c)
    ensures c != Same
  {
    FailedForwardKeepsHostname(p, trust);
    var f := FromInner(p, trust).value;
    OtherMessageCompares(other, f.(hostname := StripMarkers(f.hostname)), c);
  }
}
