/**
  From a message to packets and back (pkg/protocol/wrapper.go).  Random choices, keys and
  signatures are parameters.
*/
module Wrapper {
  import opened Bytes
  import opened Values
  import opened Options
  import opened InnerPayload
  import opened ContextFields
  import opened PayloadCodec
  import opened Fragmentation
  import opened OuterPayload

  datatype Message = Message(timestamp: int, hostname: seq<byte>, fields: map<seq<byte>, Value>, data: seq<byte>)

  // What the sender's random generator gives: the message ID, and for each fragment the length
  // and the bytes of its padding.
  datatype Random = Random(msgID: uint32, pad: nat -> padding, bytes: (nat, nat) -> byte)

  // sign is None where signing fails.
  datatype Sender = Sender(hostID: int, maxPayloadSize: int, cryptoSuite: byte, signatureSuite: byte,
                           sign: (seq<byte>, byte) -> Option<seq<byte>>, cipher: Cipher)

  // ----- Protocol overhead -----

  function SerializedLength(v: Value): nat { if Serialize(v).Some? then |Serialize(v).value.1| else 0 }

  function DeclaredSize(m: map<seq<byte>, Value>): seq<byte> -> nat { k => if k in m then 5 + |k| + SerializedLength(m[k]) else 0 }

  function SuiteTotal(suite: Suite): nat { 1 + suite.keySize + suite.nonceSize + suite.overhead }

  const FIXED_INNER := 29
  const SECTION_FRAME := 3

  // Packet bytes other than data and padding, as declared in advance.
  ghost function Overhead(p: Payload, suite: Suite): nat {
    SuiteTotal(suite) + FIXED_INNER + |p.hostname| + |p.signature| + Sum(DeclaredSize(p.customFields), SortedKeys(p.customFields.Keys)) + SECTION_FRAME
  }

  predicate AllSerialize(m: map<seq<byte>, Value>) { forall k :: k in m ==> Serialize(m[k]).Some? }

  // What CalculateProtocolOverhead may return: a nil value panics in reflection, another value
  // of an unsupported type is an error, and the first one visited decides.
  ghost predicate OverheadIs(p: Payload, id: byte, r: Checked<nat>) {
    if SuiteInfo(id).None? then r == Invalid(UnknownSuite)
    else if AllSerialize(p.customFields) then r == Valid(Overhead(p, SuiteInfo(id).value))
    else
      || (r == Invalid(Panicked) && exists k :: k in p.customFields && p.customFields[k].Nil?)
      || (r == Invalid(FieldFailure) && exists k :: k in p.customFields && p.customFields[k].Unsupported?)
  }

  method CalculateProtocolOverhead(id: byte, p: Payload) returns (r: Checked<nat>)
    ensures OverheadIs(p, id, r)
  {
    var suite := SuiteInfo(id);
    if suite.None? {
      return Invalid(UnknownSuite);
    }
    var fields := FieldsSize(p.customFields);
    if fields.Invalid? {
      return fields;
    }
    r := Valid(SuiteTotal(suite.value) + FIXED_INNER + |p.hostname| + |p.signature| + fields.value + SECTION_FRAME);
  }

  // The loop over the fields, in map order.
  method FieldsSize(m: map<seq<byte>, Value>) returns (r: Checked<nat>)
    ensures r.Valid? ==> AllSerialize(m) && r.value == Sum(DeclaredSize(m), SortedKeys(m.Keys))
    ensures r.Invalid? ==> !AllSerialize(m)
    ensures r.Invalid? ==> || (r.why == Panicked && exists k :: k in m && m[k].Nil?)
                           || (r.why == FieldFailure && exists k :: k in m && m[k].Unsupported?)
  {
    var size := 0;
    var rest := m.Keys;
    ghost var weight := DeclaredSize(m);
    ghost var left := SortedKeys(m.Keys);
    ghost var total := Sum(weight, left);
    SortedKeysDistinct(m.Keys);
    while rest != {}
      invariant rest <= m.Keys && Enumerates(left, rest) && size + Sum(weight, left) == total
      invariant forall k :: k in m && k !in rest ==> Serialize(m[k]).Some?
    {
      var k :| k in rest;
      var one := FieldSize(k, m[k]);
      if one.Invalid? {
        return one;
      }
      left := Unlisted(weight, left, rest, k);
      size := size + one.value;
      rest := rest - {k};
    }
    ListingSize(left, rest);
    r := Valid(size);
  }

  method FieldSize(k: seq<byte>, v: Value) returns (r: Checked<nat>)
    ensures r.Valid? ==> Serialize(v).Some? && r.value == 5 + |k| + SerializedLength(v)
    ensures r.Invalid? ==> Serialize(v).None? && ((r.why == Panicked && v.Nil?) || (r.why == FieldFailure && v.Unsupported?))
  {
    var serialized := Serialize(v);
    if serialized.None? {
      return Invalid(if v.Nil? then Panicked else FieldFailure);
    }
    r := Valid(5 + |k| + |serialized.value.1|);
  }

  // The listing without k, and what it then weighs.
  lemma {:induction false} Unlisted(weight: seq<byte> -> nat, keys: seq<seq<byte>>, s: set<seq<byte>>, k: seq<byte>) returns (rest: seq<seq<byte>>)
    requires Enumerates(keys, s) && k in s
    ensures Enumerates(rest, s - {k}) && Sum(weight, keys) == Sum(weight, rest) + weight(k)
  {
    var i: nat :| i < |keys| && keys[i] == k;
    WithoutKey(weight, keys, i);
    WithoutAt(keys, i);
    rest := keys[..i] + keys[i+1..];
  }

  // ----- Creating -----

  function Padding(rand: Random, i: nat): (r: seq<byte>)
    ensures |r| == rand.pad(i)
  {
    seq(rand.pad(i), j requires 0 <= j => rand.bytes(i, j))
  }

  ghost function Packet(f: Payload, i: nat, s: Sender, rand: Random): Checked<seq<byte>> {
    var p :- ToInner(f, s.signatureSuite);
    if p.paddingLen != rand.pad(i) then Invalid(InvalidPayload)
    else
      match Print(p, Padding(rand, i))
      case Err(e) => Invalid(ProtocolFailure)
      case Ok(inner) => Seal(inner, s.cryptoSuite, s.cipher, i)
  }

  function Primary(msg: Message, s: Sender, rand: Random, signature: seq<byte>): Payload {
    Payload(0, s.hostID, rand.msgID, 0, 0, msg.timestamp, msg.hostname, s.signatureSuite, signature, msg.fields, msg.data, 0)
  }

  // The signature of a message: none for suite 0.
  function Signature(msg: Message, s: Sender): Option<seq<byte>> {
    if s.signatureSuite == 0 then Some([])
    else s.sign(SerializeSignature(msg.hostname, Low32(s.hostID), Wrap64(Millis(msg.timestamp))), s.signatureSuite)
  }

  predicate HasOverhead(p: Payload, id: byte) { SuiteInfo(id).Some? && AllSerialize(p.customFields) }

  // What a packet has left for data and padding.
  ghost function RoomFor(p: Payload, s: Sender): int
    requires HasOverhead(p, s.cryptoSuite)
  {
    s.maxPayloadSize - Overhead(p, SuiteInfo(s.cryptoSuite).value)
  }

  // One packet for each fragment of p.
  ghost predicate Built(p: Payload, s: Sender, rand: Random, frags: seq<Payload>, packets: seq<seq<byte>>) {
    && HasOverhead(p, s.cryptoSuite)
    && FragmentsOf(frags, p, RoomFor(p, s), rand.pad)
    && PacketsFor(frags, packets, s, rand)
  }

  ghost predicate PacketsFor(frags: seq<Payload>, packets: seq<seq<byte>>, s: Sender, rand: Random) {
    |packets| == |frags| && Matches(PacketsOf(frags, s, rand), packets)
  }

  lemma {:induction false} PacketAt(frags: seq<Payload>, packets: seq<seq<byte>>, s: Sender, rand: Random, i: nat)
    requires PacketsFor(frags, packets, s, rand) && i < |packets|
    ensures Packet(frags[i], i, s, rand) == Valid(packets[i])
  {
    SpecAt(frags, s, rand, i);
    assert PacketsOf(frags, s, rand)(i) == Valid(packets[i]);
  }

  ghost predicate Creates(msg: Message, s: Sender, rand: Random, frags: seq<Payload>, packets: seq<seq<byte>>) {
    Signature(msg, s).Some? && Built(Primary(msg, s, rand, Signature(msg, s).value), s, rand, frags, packets)
  }

  // Some step refuses: signing, the overhead, the room left by it, or the encoding of a fragment.
  ghost predicate CreateFails(msg: Message, s: Sender, rand: Random) {
    Signature(msg, s).None? || PayloadFails(Primary(msg, s, rand, Signature(msg, s).value), s, rand)
  }

  ghost predicate PayloadFails(p: Payload, s: Sender, rand: Random) {
    !HasOverhead(p, s.cryptoSuite) || s.maxPayloadSize <= 0 || FragmentsFail(p, RoomFor(p, s), s, rand)
  }

  ghost predicate FragmentsFail(p: Payload, room: int, s: Sender, rand: Random) {
    || Unfragmentable(p, room, rand.pad)
    || exists frags :: FragmentsOf(frags, p, room, rand.pad) && SomeFails(PacketsOf(frags, s, rand), |frags|)
  }

  ghost predicate SomeFails(spec: int -> Checked<seq<byte>>, n: nat) { exists i :: 0 <= i < n && spec(i).Invalid? }

  method Create(msg: Message, s: Sender, rand: Random) returns (packets: Checked<seq<seq<byte>>>, ghost frags: seq<Payload>)
    ensures packets.Valid? ==> Creates(msg, s, rand, frags, packets.value)
    ensures packets.Invalid? <==> CreateFails(msg, s, rand)
  {
    frags := [];
    var p := Primary(msg, s, rand, []);
    if s.signatureSuite > 0 {
      var signature := s.sign(SerializeSignature(p.hostname, Low32(p.hostID), Wrap64(Millis(p.timestamp))), s.signatureSuite);
      if signature.None? {
        return Invalid(CryptoFailure), [];
      }
      p := p.(signature := signature.value);
    }
    assert p == Primary(msg, s, rand, Signature(msg, s).value);
    packets, frags := CreatePackets(p, s, rand);
  }

  // Create, once the payload is signed.
  method CreatePackets(p: Payload, s: Sender, rand: Random) returns (packets: Checked<seq<seq<byte>>>, ghost frags: seq<Payload>)
    ensures packets.Valid? ==> Built(p, s, rand, frags, packets.value)
    ensures packets.Invalid? <==> PayloadFails(p, s, rand)
  {
    frags := [];
    var overhead := CalculateProtocolOverhead(s.cryptoSuite, p);
    OverheadLeaves(p, s, overhead);
    if overhead.Invalid? {
      return Invalid(overhead.why), [];
    }
    packets, frags := FragmentAndBuild(p, overhead.value, RoomFor(p, s), s, rand);
  }

  lemma {:induction false} OverheadLeaves(p: Payload, s: Sender, r: Checked<nat>)
    requires OverheadIs(p, s.cryptoSuite, r)
    ensures r.Valid? <==> HasOverhead(p, s.cryptoSuite)
    ensures r.Valid? ==> r.value > 0 && s.maxPayloadSize - r.value == RoomFor(p, s)
  {
  }

  method FragmentAndBuild(p: Payload, overhead: nat, ghost room: int, s: Sender, rand: Random) returns (packets: Checked<seq<seq<byte>>>, ghost frags: seq<Payload>)
    requires overhead > 0 && room == s.maxPayloadSize - overhead
    ensures packets.Valid? ==> FragmentsOf(frags, p, room, rand.pad) && PacketsFor(frags, packets.value, s, rand)
    ensures packets.Invalid? <==> s.maxPayloadSize <= 0 || FragmentsFail(p, room, s, rand)
  {
    frags := [];
    var cut := Fragment(p, s.maxPayloadSize, overhead, rand.pad);
    if cut.Invalid? {
      return Invalid(cut.why), [];
    }
    frags := cut.value;
    packets := BuildAll(cut.value, p, room, s, rand);
    if packets.Valid? {
      BuiltDoesNotFail(p, room, s, rand, frags);
    }
  }

  method BuildAll(frags: seq<Payload>, ghost p: Payload, ghost room: int, s: Sender, rand: Random) returns (packets: Checked<seq<seq<byte>>>)
    requires FragmentsOf(frags, p, room, rand.pad)
    ensures packets.Valid? ==> PacketsFor(frags, packets.value, s, rand)
    ensures packets.Invalid? <==> SomeFails(PacketsOf(frags, s, rand), |frags|)
  {
    ghost var spec := PacketsOf(frags, s, rand);
    forall i | 0 <= i < |frags| ensures frags[i].paddingLen == rand.pad(i) && spec(i) == Packet(frags[i], i, s, rand) {
      assert FragmentOf(frags[i], p, i, |frags| - 1, rand.pad);
      SpecAt(frags, s, rand, i);
    }
    packets := BuildPackets(frags, spec, s, rand);
  }

  lemma {:induction false} BuiltDoesNotFail(p: Payload, room: int, s: Sender, rand: Random, frags: seq<Payload>)
    requires FragmentsOf(frags, p, room, rand.pad) && !SomeFails(PacketsOf(frags, s, rand), |frags|)
    ensures !FragmentsFail(p, room, s, rand)
  {
    forall other | FragmentsOf(other, p, room, rand.pad) ensures other == frags { OneFragmentation(other, frags, p, room, rand.pad); }
  }

  // The packets of the fragments, by index.
  ghost function PacketsOf(frags: seq<Payload>, s: Sender, rand: Random): int -> Checked<seq<byte>> {
    i => if 0 <= i < |frags| then Packet(frags[i], i, s, rand) else Invalid(InvalidPayload)
  }

  lemma {:induction false} SpecAt(frags: seq<Payload>, s: Sender, rand: Random, i: nat)
    requires i < |frags|
    ensures PacketsOf(frags, s, rand)(i) == Packet(frags[i], i, s, rand)
  {
  }

  ghost predicate Matches<A>(spec: int -> Checked<A>, built: seq<A>) {
    forall i {:trigger built[i]} :: 0 <= i < |built| ==> spec(i) == Valid(built[i])
  }

  lemma {:induction false} MatchesOneMore<A>(spec: int -> Checked<A>, built: seq<A>, x: A)
    requires Matches(spec, built) && spec(|built|) == Valid(x)
    ensures Matches(spec, built + [x])
  {
  }

  lemma {:induction false} NoneFails(spec: int -> Checked<seq<byte>>, built: seq<seq<byte>>)
    requires Matches(spec, built)
    ensures !SomeFails(spec, |built|)
  {
    forall i | 0 <= i < |built| ensures spec(i).Valid? { assert spec(i) == Valid(built[i]); }
  }

  method BuildPackets(frags: seq<Payload>, ghost spec: int -> Checked<seq<byte>>, s: Sender, rand: Random) returns (packets: Checked<seq<seq<byte>>>)
    requires forall i {:trigger frags[i]} :: 0 <= i < |frags| ==> frags[i].paddingLen == rand.pad(i) && spec(i) == Packet(frags[i], i, s, rand)
    ensures packets.Valid? ==> |packets.value| == |frags| && Matches(spec, packets.value)
    ensures packets.Invalid? <==> SomeFails(spec, |frags|)
  {
    var built: seq<seq<byte>> := [];
    for i := 0 to |frags|
      invariant |built| == i && Matches(spec, built)
    {
      var packet := BuildPacket(frags[i], i, spec(i), s, rand);
      if packet.Invalid? {
        return Invalid(packet.why);
      }
      MatchesOneMore(spec, built, packet.value);
      built := built + [packet.value];
    }
    NoneFails(spec, built);
    packets := Valid(built);
  }

  method BuildPacket(f: Payload, i: nat, ghost spec: Checked<seq<byte>>, s: Sender, rand: Random) returns (packet: Checked<seq<byte>>)
    requires f.paddingLen == rand.pad(i) && spec == Packet(f, i, s, rand)
    ensures packet == spec
  {
    var proto, updated := ConstructPayload(f, s.signatureSuite);
    if proto.Invalid? {
      return Invalid(proto.why);
    }
    var inner := ConstructInnerPayload(proto.value, Padding(rand, i));
    if inner.Err? {
      return Invalid(ProtocolFailure);
    }
    packet := ConstructOuterPayload(inner.value, s.cryptoSuite, s.cipher, i);
  }

  // ----- Extracting -----

  datatype Receiver = Receiver(cipher: Cipher, trust: Trust)

  function Opened(packet: seq<byte>, rcv: Receiver): Checked<Payload> {
    var inner :- Open(packet, rcv.cipher);
    match Parse(inner)
    case Err(e) => Invalid(ProtocolFailure)
    case Ok(p) => FromInner(p, rcv.trust)
  }

  // f on every element, or the first failure.
  function Traverse<A, B>(f: A -> Checked<B>, xs: seq<A>): Checked<seq<B>> {
    if xs == [] then Valid([])
    else
      var init :- Traverse(f, xs[..|xs|-1]);
      var last :- f(xs[|xs|-1]);
      Valid(init + [last])
  }

  function Opener(rcv: Receiver): seq<byte> -> Checked<Payload> { packet => Opened(packet, rcv) }

  function OpenAll(packets: seq<seq<byte>>, rcv: Receiver): Checked<seq<Payload>> { Traverse(Opener(rcv), packets) }

  function ToMessage(p: Payload): Message { Message(p.timestamp, p.hostname, p.customFields, p.data) }

  // No packets give no message and no error.
  ghost predicate Extracts(packets: seq<seq<byte>>, rcv: Receiver, r: Checked<Option<(Message, int)>>) {
    if packets == [] then r == Valid(None)
    else match OpenAll(packets, rcv)
      case Invalid(why) => r == Invalid(why)
      case Valid(frags) => exists d :: Defragments(frags, d) && r == if d.Valid? then Valid(Some((ToMessage(d.value), d.value.hostID))) else Invalid(d.why)
  }

  lemma {:induction false} TraverseStops<A, B>(f: A -> Checked<B>, xs: seq<A>, n: nat)
    requires n <= |xs| && Traverse(f, xs[..n]).Invalid?
    ensures Traverse(f, xs) == Traverse(f, xs[..n])
  {
    assert xs[..|xs|] == xs;
    if n < |xs| {
      var init := xs[..|xs|-1];
      assert init[..n] == xs[..n];
      TraverseStops(f, init, n);
    }
  }

  lemma {:induction false} TraverseOneMore<A, B>(f: A -> Checked<B>, xs: seq<A>, i: nat)
    requires i < |xs| && Traverse(f, xs[..i]).Valid?
    ensures Traverse(f, xs[..i+1]) == if f(xs[i]).Valid? then Valid(Traverse(f, xs[..i]).value + [f(xs[i]).value]) else Invalid(f(xs[i]).why)
  {
    assert xs[..i+1][..i] == xs[..i];
  }

  method OpenPacket(packet: seq<byte>, rcv: Receiver) returns (p: Checked<Payload>)
    ensures p == Opened(packet, rcv)
  {
    var inner := DeconstructOuterPayload(packet, rcv.cipher);
    if inner.Invalid? {
      return Invalid(inner.why);
    }
    var proto := DeconstructInnerPayload(inner.value);
    if proto.Err? {
      return Invalid(ProtocolFailure);
    }
    p := DeconstructPayload(proto.value, rcv.trust);
  }

  lemma {:induction false} OpenedIsNonNegative(packet: seq<byte>, rcv: Receiver)
    requires Opened(packet, rcv).Valid?
    ensures Opened(packet, rcv).value.messageSeq >= 0
  {
  }

  method Extract(packets: seq<seq<byte>>, rcv: Receiver) returns (r: Checked<Option<(Message, int)>>)
    ensures Extracts(packets, rcv, r)
  {
    if |packets| == 0 {
      return Valid(None);
    }
    var frags: seq<Payload> := [];
    for i := 0 to |packets|
      invariant |frags| == i && OpenAll(packets[..i], rcv) == Valid(frags)
      invariant NonNegative(frags)
    {
      TraverseOneMore(Opener(rcv), packets, i);
      var one := OpenPacket(packets[i], rcv);
      if one.Invalid? {
        TraverseStops(Opener(rcv), packets, i + 1);
        return Invalid(one.why);
      }
      OpenedIsNonNegative(packets[i], rcv);
      frags := frags + [one.value];
    }
    assert packets[..|packets|] == packets;
    var d := Defragment(frags);
    if d.Invalid? {
      return Invalid(d.why);
    }
    r := Valid(Some((ToMessage(d.value), d.value.hostID)));
  }
}
