/**
  How large the packets of Create are (CalculateProtocolOverhead in pkg/protocol/payload.go
  against what is actually written).
*/
module PacketSize {
  import opened Bytes
  import opened Values
  import opened Options
  import opened InnerPayload
  import opened ContextFields
  import opened TrustMarkers
  import opened PayloadCodec
  import opened Fragmentation
  import opened OuterPayload
  import opened Wrapper
  import opened EndToEnd

  function One(b: bool): nat { if b then 1 else 0 }

  // Empty inputs of a field, each of which becomes a one-byte placeholder.
  function EmptyIn(m: map<seq<byte>, Value>): seq<byte> -> nat {
    k => if k in m then One(k == []) + One(SerializedLength(m[k]) == 0) else 0
  }

  // The number of empty inputs: hostname, keys, and values that serialise to nothing.
  ghost function EmptyInputs(msg: Message): nat { One(msg.hostname == []) + Sum(EmptyIn(msg.fields), SortedKeys(msg.fields.Keys)) }

  predicate TidyKey(k: seq<byte>) { k == [] || Clean(k, MAX_KEY) == k }

  // Cleaning would not shorten anything.
  predicate Tidy(msg: Message) {
    (msg.hostname == [] || WireHostname(msg.hostname) == msg.hostname) && forall k :: k in msg.fields ==> TidyKey(k)
  }

  lemma {:induction false} CleanedLength(s: seq<byte>, maxLength: nat)
    requires maxLength >= 1
    ensures |Clean(s, maxLength)| <= |s| + One(s == [])
    ensures s == [] ==> |Clean(s, maxLength)| == 1
  {
    if s == [] { KeepPrintableId(EMPTY_FIELD); }
  }

  lemma {:induction false} FieldLength(k: seq<byte>, v: Value)
    requires ToField(k, v).Valid? && Serialize(v).Some?
    ensures var f := ToField(k, v).value;
            var declared := |k| + SerializedLength(v) + One(k == []) + One(SerializedLength(v) == 0);
            |f.key| + |f.value| <= declared && (TidyKey(k) ==> |f.key| + |f.value| == declared)
  {
    CleanedLength(k, MAX_KEY);
  }

  lemma {:induction false} SectionSize(m: map<seq<byte>, Value>, keys: seq<seq<byte>>)
    requires (forall k :: k in keys ==> k in m) && AllSerialize(m) && ToFields(m, keys).Valid?
    ensures var size, declared := |PrintFields(ToFields(m, keys).value)|, Sum(DeclaredSize(m), keys) + Sum(EmptyIn(m), keys);
            size <= declared && ((forall k :: k in keys ==> TidyKey(k)) ==> size == declared)
  {
    if keys != [] {
      var init, last := keys[..|keys|-1], keys[|keys|-1];
      assert keys == init + [last];
      SectionSize(m, init);
      SectionOneMore(ToFields(m, init).value, ToField(last, m[last]).value);
      FieldLength(last, m[last]);
    }
  }

  lemma {:induction false} HostnameSize(h: seq<byte>)
    ensures |WireHostname(h)| <= |h| + One(h == [])
    ensures h == [] ==> |WireHostname(h)| == 1
  {
    CleanedLength(StripMarkers(h), MAX_HOSTNAME);
  }

  lemma {:induction false} InnerParts(f: Payload, sigID: byte)
    requires ToInner(f, sigID).Valid?
    ensures WireFields(f.customFields).Valid?
    ensures var p := ToInner(f, sigID).value;
            && p.hostname == WireHostname(f.hostname) && p.signature == (if sigID == 0 then [] else f.signature)
            && p.fields == WireFields(f.customFields).value && p.data == f.data && p.paddingLen == f.paddingLen
  {
  }

  // The exact length of a packet.
  lemma {:induction false} PacketLength(f: Payload, i: nat, s: Sender, rand: Random)
    requires Packet(f, i, s, rand).Valid? && CipherLaw(s.cipher)
    ensures SuiteInfo(s.cryptoSuite).Some? && WireFields(f.customFields).Valid?
    ensures |Packet(f, i, s, rand).value| ==
      SuiteTotal(SuiteInfo(s.cryptoSuite).value) + FIXED_INNER + |WireHostname(f.hostname)|
      + (if s.signatureSuite == 0 then 0 else |f.signature|) + |PrintFields(WireFields(f.customFields).value)| + |f.data| + f.paddingLen
  {
    PacketParts(f, i, s, rand);
    InnerParts(f, s.signatureSuite);
    var p := ToInner(f, s.signatureSuite).value;
    PrintedParts(p, Padding(rand, i));
    SealRoundTrip(Print(p, Padding(rand, i)).value, s.cryptoSuite, s.cipher, i);
  }

  // The overhead counts the context section's header and terminator twice, three bytes that
  // pay for up to three placeholders: a packet stays within maxPayloadSize if at most three
  // inputs are empty, and a full packet of tidy inputs exceeds it otherwise.
  lemma {:induction false} PacketSizeBound(msg: Message, s: Sender, rand: Random, frags: seq<Payload>, packets: seq<seq<byte>>, i: nat)
    requires Creates(msg, s, rand, frags, packets) && CipherLaw(s.cipher) && i < |packets|
    ensures |packets[i]| <= s.maxPayloadSize - 3 + EmptyInputs(msg)
    ensures Tidy(msg) && i < |packets| - 1 ==> |packets[i]| == s.maxPayloadSize - 3 + EmptyInputs(msg)
    ensures EmptyInputs(msg) <= 3 ==> |packets[i]| <= s.maxPayloadSize
    ensures Tidy(msg) && i < |packets| - 1 ==> (|packets[i]| <= s.maxPayloadSize <==> EmptyInputs(msg) <= 3)
  {
    var p := Primary(msg, s, rand, Signature(msg, s).value);
    var f := frags[i];
    PacketAt(frags, packets, s, rand, i);
    assert FragmentOf(f, p, i, |frags| - 1, rand.pad) && Fits(f, i < |frags| - 1, RoomFor(p, s));
    PacketLength(f, i, s, rand);
    HostnameSize(msg.hostname);
    assert AllSerialize(msg.fields);
    SectionSize(msg.fields, SortedKeys(msg.fields.Keys));
  }

  lemma {:induction false} ThreeSorted(a: seq<byte>, b: seq<byte>, c: seq<byte>, keys: set<seq<byte>>)
    requires Before(a, b) && Before(b, c) && Before(a, c) && keys == {a, b, c}
    ensures SortedKeys(keys) == [a, b, c]
  {
    OneSortedOrder([a, b, c], SortedKeys(keys));
  }

  lemma {:induction false} SumOfThree(w: seq<byte> -> nat, a: seq<byte>, b: seq<byte>, c: seq<byte>)
    ensures Sum(w, [a, b, c]) == w(a) + w(b) + w(c)
  {
    var one, two, keys := [a], [a, b], [a, b, c];
    assert keys[..|keys|-1] == two && two[..|two|-1] == one && one[..|one|-1] == [];
    assert Sum(w, one) == w(a);
    assert Sum(w, two) == w(a) + w(b);
  }

  // An empty hostname and three empty strings are four empty inputs.
  lemma {:induction false} FourEmptyInputs(msg: Message)
    requires msg.hostname == [] && msg.fields == map[[0x61] := Str([]), [0x62] := Str([]), [0x63] := Str([])]
    ensures EmptyInputs(msg) == 4 && Tidy(msg)
  {
    var a: seq<byte>, b: seq<byte>, c: seq<byte> := [0x61], [0x62], [0x63];
    assert Before(a, b) && Before(b, c) && Before(a, c);
    assert msg.fields.Keys == {a, b, c};
    ThreeSorted(a, b, c, msg.fields.Keys);
    var w := EmptyIn(msg.fields);
    SumOfThree(w, a, b, c);
    EmptyString(msg.fields, a); EmptyString(msg.fields, b); EmptyString(msg.fields, c);
  }

  lemma {:induction false} EmptyString(m: map<seq<byte>, Value>, k: seq<byte>)
    requires k in m && m[k] == Str([]) && k != [] && IsPrintable(k) && |k| <= MAX_KEY
    ensures EmptyIn(m)(k) == 1 && TidyKey(k)
  {
    CleanStable(k, MAX_KEY);
  }

  // With four empty inputs every full packet is one byte too long.
  lemma {:induction false} FourEmptyInputsOverflow(msg: Message, s: Sender, rand: Random, frags: seq<Payload>, packets: seq<seq<byte>>, i: nat)
    requires msg.hostname == [] && msg.fields == map[[0x61] := Str([]), [0x62] := Str([]), [0x63] := Str([])]
    requires Creates(msg, s, rand, frags, packets) && CipherLaw(s.cipher) && i < |packets| - 1
    ensures |packets[i]| == s.maxPayloadSize + 1
  {
    FourEmptyInputs(msg);
    PacketSizeBound(msg, s, rand, frags, packets, i);
  }

  // ----- Such a message, its sender and its packets -----

  const FIELDS: map<seq<byte>, Value> := map[[0x61] := Str([]), [0x62] := Str([]), [0x63] := Str([])]

  // The registry's pass-through suite 0, with the key "public" and the nonce "nonce".
  function SampleCipher(): Cipher {
    Cipher((plain: seq<byte>, id: byte, call: nat) =>
             if id == 0 then Some(Sealed(plain, [0x70, 0x75, 0x62, 0x6C, 0x69, 0x63], [0x6E, 0x6F, 0x6E, 0x63, 0x65])) else None,
           (sealed: Sealed, id: byte) => Some(sealed.ciphertext))
  }

  function SampleSender(): Sender { Sender(1, 73, 0, 0, (bytes: seq<byte>, id: byte) => None, SampleCipher()) }
  function SampleRandom(): Random { Random(1, (i: nat) => MIN_PADDING, (i: nat, j: nat) => 0) }
  function SampleMessage(): Message { Message(0, [], FIELDS, [1, 2]) }
  function SamplePayload(): Payload { Primary(SampleMessage(), SampleSender(), SampleRandom(), []) }

  function SampleFragment(i: nat): Payload {
    SamplePayload().(messageSeq := i, messageSeqMax := 1, paddingLen := MIN_PADDING, data := if i == 0 then [1] else [2])
  }

  lemma {:induction false} SampleCipherIsLawful()
    ensures CipherLaw(SampleCipher())
  {
  }

  lemma {:induction false} SampleKeys()
    ensures SortedKeys(FIELDS.Keys) == [[0x61], [0x62], [0x63]]
  {
    var a: seq<byte>, b: seq<byte>, c: seq<byte> := [0x61], [0x62], [0x63];
    assert Before(a, b) && Before(b, c) && Before(a, c);
    assert FIELDS.Keys == {a, b, c};
    ThreeSorted(a, b, c, FIELDS.Keys);
  }

  lemma {:induction false} EmptyStringField(k: seq<byte>)
    requires k != [] && IsPrintable(k) && |k| <= MAX_KEY
    ensures Serialize(Str([])).Some? && SerializedLength(Str([])) == 0
    ensures ToField(k, Str([])) == Valid(Field(k, STRING, EMPTY_FIELD))
  {
    CleanStable(k, MAX_KEY);
    PlaceholderIsText();
  }

  lemma {:induction false} SampleOverhead()
    ensures HasOverhead(SamplePayload(), 0) && RoomFor(SamplePayload(), SampleSender()) == 11
  {
    SampleKeys();
    SampleSums([0x61], [0x62], [0x63]);
  }

  // Two bytes of data, one in each fragment.
  lemma {:induction false} TwoFragments(p: Payload, x: Payload, y: Payload, pad: nat -> padding)
    requires p.data == [1, 2] && pad(0) == pad(1) == MIN_PADDING
    requires x == p.(messageSeq := 0, messageSeqMax := 1, paddingLen := MIN_PADDING, data := [1])
    requires y == p.(messageSeq := 1, messageSeqMax := 1, paddingLen := MIN_PADDING, data := [2])
    ensures FragmentsOf([x, y], p, MIN_PADDING + 1, pad)
  {
    assert [x, y] == [x] + [y] && [] + [x] == [x];
    ConcatOneMore([], x);
    ConcatOneMore([x], y);
    assert Concat([x, y]) == ([] + [1]) + [2] == [1, 2];
  }

  lemma {:induction false} SampleFragments()
    ensures FragmentsOf([SampleFragment(0), SampleFragment(1)], SamplePayload(), 11, SampleRandom().pad)
  {
    TwoFragments(SamplePayload(), SampleFragment(0), SampleFragment(1), SampleRandom().pad);
  }

  lemma {:induction false} SampleWireFields()
    ensures WireFields(FIELDS).Valid? && |PrintFields(WireFields(FIELDS).value)| == 21
  {
    var a: seq<byte>, b: seq<byte>, c: seq<byte> := [0x61], [0x62], [0x63];
    var keys := SortedKeys(FIELDS.Keys);
    SampleKeys();
    forall k | k in keys ensures k in FIELDS && ToField(k, FIELDS[k]).Valid? && TidyKey(k) {
      SampleKey(k);
    }
    AllFieldsValid(FIELDS, keys);
    SampleSums(a, b, c);
    SectionSize(FIELDS, keys);
  }

  lemma {:induction false} SampleKey(k: seq<byte>)
    requires k == [0x61] || k == [0x62] || k == [0x63]
    ensures k in FIELDS && FIELDS[k] == Str([]) && ToField(k, FIELDS[k]).Valid? && TidyKey(k) && Clean(k, MAX_KEY) == k
  {
    EmptyStringField(k);
    EmptyString(FIELDS, k);
    CleanStable(k, MAX_KEY);
  }

  lemma {:induction false} EmptyStringWeighs(m: map<seq<byte>, Value>, k: seq<byte>)
    requires k in m && m[k] == Str([]) && |k| == 1 && IsPrintable(k)
    ensures DeclaredSize(m)(k) == 6 && EmptyIn(m)(k) == 1 && TidyKey(k) && Serialize(m[k]).Some?
  {
    EmptyStringField(k);
    EmptyString(m, k);
  }

  lemma {:induction false} SampleSums(a: seq<byte>, b: seq<byte>, c: seq<byte>)
    requires a == [0x61] && b == [0x62] && c == [0x63]
    ensures Sum(DeclaredSize(FIELDS), [a, b, c]) == 18 && Sum(EmptyIn(FIELDS), [a, b, c]) == 3
    ensures AllSerialize(FIELDS)
  {
    SampleKey(a); SampleKey(b); SampleKey(c);
    EmptyStringWeighs(FIELDS, a); EmptyStringWeighs(FIELDS, b); EmptyStringWeighs(FIELDS, c);
    SumOfThree(DeclaredSize(FIELDS), a, b, c);
    SumOfThree(EmptyIn(FIELDS), a, b, c);
    SampleSerializes();
  }

  lemma {:induction false} SampleSerializes()
    ensures AllSerialize(FIELDS)
  {
    forall k | k in FIELDS ensures Serialize(FIELDS[k]).Some? { SampleKey(k); }
  }

  lemma {:induction false} SampleInner(i: nat)
    requires i < 2
    ensures ToInner(SampleFragment(i), 0).Valid?
    ensures var p := ToInner(SampleFragment(i), 0).value;
            p.paddingLen == MIN_PADDING && |p.hostname| == 1 && |p.data| == 1 && |PrintFields(p.fields)| == 21
  {
    SampleWireFields();
    HostnameSize([]);
  }

  lemma {:induction false} SamplePacket(i: nat)
    requires i < 2
    ensures Packet(SampleFragment(i), i, SampleSender(), SampleRandom()).Valid?
  {
    SampleInner(i);
    var p := ToInner(SampleFragment(i), 0).value;
    PrintedParts(p, Padding(SampleRandom(), i));
  }

  lemma {:induction false} SamplePackets() returns (frags: seq<Payload>, packets: seq<seq<byte>>)
    ensures frags == [SampleFragment(0), SampleFragment(1)] && PacketsFor(frags, packets, SampleSender(), SampleRandom())
  {
    var s, rand := SampleSender(), SampleRandom();
    frags := [SampleFragment(0), SampleFragment(1)];
    SamplePacket(0);
    SamplePacket(1);
    SpecAt(frags, s, rand, 0);
    SpecAt(frags, s, rand, 1);
    var spec := PacketsOf(frags, s, rand);
    packets := [spec(0).value, spec(1).value];
  }

  lemma {:induction false} SampleFieldsAreClean()
    ensures CleanFields(FIELDS)
  {
    forall k | k in FIELDS ensures Clean(k, MAX_KEY) == k && Acceptable(FIELDS[k]) { SampleKey(k); }
  }

  lemma {:induction false} SampleIsDeliverable()
    ensures Deliverable(SampleMessage(), SampleSender())
  {
    SampleFieldsAreClean();
    assert Millis(0) == 0;
  }

  // Create does produce a packet longer than the limit.
  lemma {:induction false} SomePacketOverflows() returns (frags: seq<Payload>, packets: seq<seq<byte>>)
    ensures Creates(SampleMessage(), SampleSender(), SampleRandom(), frags, packets) && CipherLaw(SampleSender().cipher)
    ensures Deliverable(SampleMessage(), SampleSender()) && |packets| == 2 && |packets[0]| == 74 > SampleSender().maxPayloadSize
  {
    frags, packets := SamplePackets();
    SampleOverhead();
    SampleFragments();
    SampleCipherIsLawful();
    SampleIsDeliverable();
    FourEmptyInputsOverflow(SampleMessage(), SampleSender(), SampleRandom(), frags, packets, 0);
  }
}
