/**
  The protocol from end to end: what the receiver gets from the sender's packets, in any order,
  and how large the packets are.
*/
module EndToEnd {
  import opened Bytes
  import opened Values
  import opened Options
  import opened InnerPayload
  import opened ContextFields
  import opened TrustMarkers
  import opened PayloadCodec
  import opened Fragmentation
  import opened Reassembly
  import opened OuterPayload
  import opened Wrapper

  // ----- One packet -----

  // The verdict of the receiver's pinned keys on a sender.
  function Shown(f: Payload, sigID: byte, trust: Trust): Checked<seq<byte>> {
    Verdict(trust, StripMarkers(WireHostname(f.hostname)), Low32(f.hostID), Wrap64(Millis(f.timestamp)), sigID, if sigID == 0 then [] else f.signature)
  }

  lemma {:induction false} PacketParts(f: Payload, i: nat, s: Sender, rand: Random)
    requires Packet(f, i, s, rand).Valid?
    ensures ToInner(f, s.signatureSuite).Valid?
    ensures var p := ToInner(f, s.signatureSuite).value;
            && p.paddingLen == rand.pad(i) && Print(p, Padding(rand, i)).Ok?
            && Packet(f, i, s, rand) == Seal(Print(p, Padding(rand, i)).value, s.cryptoSuite, s.cipher, i)
  {
  }

  lemma {:induction false} PrintedParts(p: Inner, padding: seq<byte>)
    requires |padding| == p.paddingLen && Print(p, padding).Ok?
    ensures p.hostname != [] && 1 <= |p.data| <= MAX_SECTION
    ensures |Print(p, padding).value| == 29 + |p.hostname| + |p.signature| + |PrintFields(p.fields)| + |p.data| + |padding|
  {
    BodyLength(p);
  }

  lemma {:induction false} PacketOpens(f: Payload, i: nat, s: Sender, rand: Random, rcv: Receiver)
    requires Packet(f, i, s, rand).Valid? && Sendable(f) && CipherLaw(s.cipher) && rcv.cipher == s.cipher
    ensures var shown := Shown(f, s.signatureSuite, rcv.trust);
            Opened(Packet(f, i, s, rand).value, rcv) ==
            if shown.Valid? then Valid(Received(f, shown.value, s.signatureSuite)) else Invalid(shown.why)
  {
    PacketParts(f, i, s, rand);
    var p := ToInner(f, s.signatureSuite).value;
    var inner := Print(p, Padding(rand, i)).value;
    PrintedParts(p, Padding(rand, i));
    InnerOf(f, s.signatureSuite);
    PaddedIsLongEnough(p, Padding(rand, i));
    SealRoundTrip(inner, s.cryptoSuite, s.cipher, i);
    SentIsInRange(f, s.signatureSuite);
    ParsePrinted(p, Padding(rand, i));
    OpenedThrough(Packet(f, i, s, rand).value, inner, p, rcv);
    PayloadRoundTrip(f, s.signatureSuite, rcv.trust);
  }

  lemma {:induction false} OpenedThrough(packet: seq<byte>, inner: seq<byte>, p: Inner, rcv: Receiver)
    requires Open(packet, rcv.cipher) == Valid(inner) && Parse(inner) == Ok(p)
    ensures Opened(packet, rcv) == FromInner(p, rcv.trust)
  {
  }

  // ----- All packets, in any order -----

  function Mapped<A, B>(f: A -> B, xs: seq<A>): (ys: seq<B>)
    ensures |ys| == |xs| && forall i :: 0 <= i < |xs| ==> ys[i] == f(xs[i])
  {
    seq(|xs|, i requires 0 <= i < |xs| => f(xs[i]))
  }

  lemma {:induction false} WithoutOne<A>(xs: seq<A>, j: nat)
    requires j < |xs|
    ensures xs == xs[..j] + [xs[j]] + xs[j+1..] && multiset(xs) == multiset(xs[..j] + xs[j+1..]) + multiset{xs[j]}
  {
    assert xs == xs[..j] + [xs[j]] + xs[j+1..];
  }

  lemma {:induction false} CancelOne<A>(a: multiset<A>, b: multiset<A>, x: A)
    requires a + multiset{x} == b + multiset{x}
    ensures a == b
  {
    assert (a + multiset{x}) - multiset{x} == a && (b + multiset{x}) - multiset{x} == b;
  }

  lemma {:induction false} MappedWithout<A, B>(f: A -> B, xs: seq<A>, j: nat)
    requires j < |xs|
    ensures multiset(Mapped(f, xs)) == multiset(Mapped(f, xs[..j] + xs[j+1..])) + multiset{f(xs[j])}
  {
    WithoutOne(Mapped(f, xs), j);
    assert Mapped(f, xs[..j] + xs[j+1..]) == Mapped(f, xs)[..j] + Mapped(f, xs)[j+1..];
  }

  lemma {:induction false} MappedPermutation<A, B>(f: A -> B, xs: seq<A>, ys: seq<A>)
    requires multiset(xs) == multiset(ys)
    ensures multiset(Mapped(f, xs)) == multiset(Mapped(f, ys))
    decreases |xs|
  {
    SameMembers(xs, ys);
    if xs != [] {
      var x := xs[0];
      assert x in ys;
      var j: nat :| j < |ys| && ys[j] == x;
      WithoutOne(xs, 0);
      WithoutOne(ys, j);
      CancelOne(multiset(xs[..0] + xs[1..]), multiset(ys[..j] + ys[j+1..]), x);
      MappedPermutation(f, xs[..0] + xs[1..], ys[..j] + ys[j+1..]);
      MappedWithout(f, xs, 0);
      MappedWithout(f, ys, j);
    }
  }

  lemma {:induction false} InitAndLast<A>(xs: seq<A>)
    requires xs != []
    ensures xs[|xs|-1] in xs && forall x :: x in xs[..|xs|-1] ==> x in xs
  {
  }

  lemma {:induction false} AllSucceed<A, B>(f: A -> Checked<B>, g: A -> B, xs: seq<A>)
    requires forall x :: x in xs ==> f(x) == Valid(g(x))
    ensures Traverse(f, xs) == Valid(Mapped(g, xs))
  {
    if xs != [] {
      InitAndLast(xs);
      AllSucceed(f, g, xs[..|xs|-1]);
      assert Mapped(g, xs) == Mapped(g, xs[..|xs|-1]) + [g(xs[|xs|-1])];
    }
  }

  lemma {:induction false} AllFail<A, B>(f: A -> Checked<B>, xs: seq<A>, why: Failure)
    requires xs != [] && forall x :: x in xs ==> f(x) == Invalid(why)
    ensures Traverse(f, xs) == Invalid(why)
  {
    InitAndLast(xs);
    if |xs| > 1 { AllFail(f, xs[..|xs|-1], why); }
  }

  // What is asked of a message: fields and numbers that fit the wire.
  ghost predicate Deliverable(msg: Message, s: Sender) {
    && 0 < s.hostID < 0x1_0000_0000 && -0x8000_0000_0000_0000 <= Millis(msg.timestamp) < 0x8000_0000_0000_0000
    && CleanFields(msg.fields) && msg.data != []
  }

  lemma {:induction false} FragmentIsSendable(msg: Message, s: Sender, rand: Random, frags: seq<Payload>, packets: seq<seq<byte>>, i: nat)
    requires Creates(msg, s, rand, frags, packets) && Deliverable(msg, s) && |packets| <= 65536 && i < |packets|
    ensures Sendable(frags[i]) && Packet(frags[i], i, s, rand) == Valid(packets[i])
    ensures FragmentOf(frags[i], Primary(msg, s, rand, Signature(msg, s).value), i, |frags| - 1, rand.pad)
  {
    PacketAt(frags, packets, s, rand, i);
    PacketParts(frags[i], i, s, rand);
    HeaderPassed(frags[i], s.signatureSuite);
  }

  lemma {:induction false} HeaderPassed(f: Payload, sigID: byte)
    requires ToInner(f, sigID).Valid?
    ensures CheckHeader(f).Valid?
  {
  }

  lemma {:induction false} ArrivedIsDecoded(v: Value)
    requires Acceptable(v)
    ensures DecodedValue(Arrives(v))
  {
  }

  lemma {:induction false} ReceivedIsDecoded(f: Payload, hostname: seq<byte>, sigID: byte)
    requires CleanFields(f.customFields)
    ensures Decoded(Received(f, hostname, sigID))
  {
    forall k | k in f.customFields ensures DecodedValue(Arrives(f.customFields[k])) { ArrivedIsDecoded(f.customFields[k]); }
  }

  function Verdicts(msg: Message, s: Sender, rand: Random, trust: Trust): Checked<seq<byte>>
    requires Signature(msg, s).Some?
  {
    Shown(Primary(msg, s, rand, Signature(msg, s).value), s.signatureSuite, trust)
  }

  lemma {:induction false} EveryPacketOpens(msg: Message, s: Sender, rand: Random, frags: seq<Payload>, packets: seq<seq<byte>>, rcv: Receiver, i: nat)
    requires Creates(msg, s, rand, frags, packets) && Deliverable(msg, s) && |packets| <= 65536 && i < |packets|
    requires CipherLaw(s.cipher) && rcv.cipher == s.cipher
    ensures var shown := Verdicts(msg, s, rand, rcv.trust);
            Opened(packets[i], rcv) == if shown.Valid? then Valid(Received(frags[i], shown.value, s.signatureSuite)) else Invalid(shown.why)
  {
    FragmentIsSendable(msg, s, rand, frags, packets, i);
    PacketOpens(frags[i], i, s, rand, rcv);
  }

  // The received fragments, in the order they were cut, are one complete message.
  lemma {:induction false} ReceivedInSequence(p: Payload, room: int, pad: nat -> padding, frags: seq<Payload>, xs: seq<Payload>, hostname: seq<byte>, sigID: byte)
    requires FragmentsOf(frags, p, room, pad) && CleanFields(p.customFields) && |xs| == |frags|
    requires forall i {:trigger xs[i]} :: 0 <= i < |xs| ==> xs[i] == Received(frags[i], hostname, sigID)
    ensures InSequence(xs) && OneIdentity(xs) && Concat(xs) == p.data
  {
    forall i | 0 <= i < |xs|
      ensures xs[i].messageSeq == i && xs[i].messageSeqMax == |xs| - 1 && Decoded(xs[i]) && SameIdentity(xs[0], xs[i])
    {
      assert FragmentOf(frags[i], p, i, |frags| - 1, pad) && FragmentOf(frags[0], p, 0, |frags| - 1, pad);
      ReceivedIsDecoded(frags[i], hostname, sigID);
    }
    SameConcat(xs, frags);
  }

  lemma {:induction false} SameConcat(xs: seq<Payload>, ys: seq<Payload>)
    requires |xs| == |ys| && forall i {:trigger xs[i]} :: 0 <= i < |xs| ==> xs[i].data == ys[i].data
    ensures Concat(xs) == Concat(ys)
  {
    if xs != [] {
      assert xs[|xs|-1].data == ys[|ys|-1].data;
      SameConcat(xs[..|xs|-1], ys[..|ys|-1]);
    }
  }

  lemma {:induction false} FragmentsExist(frags: seq<Payload>)
    requires Concat(frags) != []
    ensures frags != []
  {
  }

  function Delivered(msg: Message, hostname: seq<byte>): Message {
    Message(Millis(msg.timestamp) * NANOS_PER_MILLI, hostname, AllArrive(msg.fields), msg.data)
  }

  ghost predicate Sent(msg: Message, s: Sender, rand: Random, frags: seq<Payload>, packets: seq<seq<byte>>, arrived: seq<seq<byte>>, rcv: Receiver) {
    && Creates(msg, s, rand, frags, packets) && Deliverable(msg, s) && |packets| <= 65536
    && CipherLaw(s.cipher) && rcv.cipher == s.cipher && multiset(arrived) == multiset(packets)
  }

  lemma {:induction false} SomethingArrives(msg: Message, s: Sender, rand: Random, frags: seq<Payload>, packets: seq<seq<byte>>, arrived: seq<seq<byte>>, rcv: Receiver)
    requires Sent(msg, s, rand, frags, packets, arrived, rcv)
    ensures arrived != [] && |arrived| == |packets| && forall x :: x in arrived <==> x in packets
  {
    FragmentsExist(frags);
    SameMembers(arrived, packets);
  }

  lemma {:induction false} RefusedExtract(msg: Message, s: Sender, rand: Random, frags: seq<Payload>, packets: seq<seq<byte>>, arrived: seq<seq<byte>>, rcv: Receiver)
    requires Sent(msg, s, rand, frags, packets, arrived, rcv) && Verdicts(msg, s, rand, rcv.trust).Invalid?
    ensures OpenAll(arrived, rcv) == Invalid(Verdicts(msg, s, rand, rcv.trust).why)
  {
    SomethingArrives(msg, s, rand, frags, packets, arrived, rcv);
    var why := Verdicts(msg, s, rand, rcv.trust).why;
    forall x | x in arrived ensures Opener(rcv)(x) == Invalid(why) {
      assert x in packets;
      var i: nat :| i < |packets| && packets[i] == x;
      EveryPacketOpens(msg, s, rand, frags, packets, rcv, i);
    }
    AllFail(Opener(rcv), arrived, why);
  }

  // Elements that f takes to zs one by one are taken to a permutation of zs in any order.
  lemma {:induction false} TraversePermuted<A, B>(f: A -> Checked<B>, xs: seq<A>, zs: seq<B>, ys: seq<A>)
    requires |xs| == |zs| && multiset(xs) == multiset(ys) && xs != []
    requires forall i {:trigger xs[i]} :: 0 <= i < |xs| ==> f(xs[i]) == Valid(zs[i])
    ensures Traverse(f, ys).Valid? && multiset(Traverse(f, ys).value) == multiset(zs)
  {
    var g := x => if f(x).Valid? then f(x).value else zs[0];
    SameMembers(xs, ys);
    AllSucceed(f, g, ys);
    MappedPermutation(g, ys, xs);
    assert Mapped(g, xs) == zs;
  }

  function ReceivedAll(frags: seq<Payload>, hostname: seq<byte>, sigID: byte): (xs: seq<Payload>)
    ensures |xs| == |frags| && forall i {:trigger xs[i]} :: 0 <= i < |xs| ==> xs[i] == Received(frags[i], hostname, sigID)
  {
    seq(|frags|, i requires 0 <= i < |frags| => Received(frags[i], hostname, sigID))
  }

  lemma {:induction false} AllPacketsOpen(msg: Message, s: Sender, rand: Random, frags: seq<Payload>, packets: seq<seq<byte>>, rcv: Receiver)
    requires Creates(msg, s, rand, frags, packets) && Deliverable(msg, s) && |packets| <= 65536
    requires CipherLaw(s.cipher) && rcv.cipher == s.cipher && Verdicts(msg, s, rand, rcv.trust).Valid?
    ensures forall i {:trigger packets[i]} :: 0 <= i < |packets| ==>
      Opener(rcv)(packets[i]) == Valid(Received(frags[i], Verdicts(msg, s, rand, rcv.trust).value, s.signatureSuite))
  {
    forall i | 0 <= i < |packets|
      ensures Opener(rcv)(packets[i]) == Valid(Received(frags[i], Verdicts(msg, s, rand, rcv.trust).value, s.signatureSuite))
    {
      EveryPacketOpens(msg, s, rand, frags, packets, rcv, i);
    }
  }

  // In the order they were cut, and as they arrived.
  lemma {:induction false} AcceptedExtract(msg: Message, s: Sender, rand: Random, frags: seq<Payload>, packets: seq<seq<byte>>, arrived: seq<seq<byte>>, rcv: Receiver)
      returns (xs: seq<Payload>)
    requires Sent(msg, s, rand, frags, packets, arrived, rcv) && Verdicts(msg, s, rand, rcv.trust).Valid?
    ensures |xs| == |frags| > 0 && InSequence(xs) && OneIdentity(xs) && Concat(xs) == msg.data
    ensures xs[0] == Received(frags[0], Verdicts(msg, s, rand, rcv.trust).value, s.signatureSuite)
    ensures OpenAll(arrived, rcv).Valid? && multiset(OpenAll(arrived, rcv).value) == multiset(xs)
  {
    FragmentsExist(frags);
    var shown := Verdicts(msg, s, rand, rcv.trust).value;
    xs := ReceivedAll(frags, shown, s.signatureSuite);
    AllPacketsOpen(msg, s, rand, frags, packets, rcv);
    TraversePermuted(Opener(rcv), packets, xs, arrived);
    CutInSequence(msg, s, rand, frags, packets, xs, shown);
  }

  lemma {:induction false} CutInSequence(msg: Message, s: Sender, rand: Random, frags: seq<Payload>, packets: seq<seq<byte>>, xs: seq<Payload>, hostname: seq<byte>)
    requires Creates(msg, s, rand, frags, packets) && CleanFields(msg.fields) && xs == ReceivedAll(frags, hostname, s.signatureSuite)
    ensures InSequence(xs) && OneIdentity(xs) && Concat(xs) == msg.data
  {
    var p := Primary(msg, s, rand, Signature(msg, s).value);
    ReceivedInSequence(p, RoomFor(p, s), rand.pad, frags, xs, hostname, s.signatureSuite);
  }

  predicate NoByteSlice(m: map<seq<byte>, Value>) { forall k :: k in m ==> !m[k].Blob? }

  // Packets in any order give back the message: data, host, time to the millisecond, fields in
  // canonical form, and the hostname as the pinned keys allow it, or their refusal.  Several
  // packets with a byte-slice field make the receiver panic instead.
  lemma {:induction false} EndToEndDelivery(msg: Message, s: Sender, rand: Random, frags: seq<Payload>, packets: seq<seq<byte>>, arrived: seq<seq<byte>>, rcv: Receiver, r: Checked<Option<(Message, int)>>)
    requires Sent(msg, s, rand, frags, packets, arrived, rcv) && Extracts(arrived, rcv, r)
    ensures var shown := Verdicts(msg, s, rand, rcv.trust);
            r == if shown.Invalid? then Invalid(shown.why)
                 else if |packets| == 1 || NoByteSlice(msg.fields) then Valid(Some((Delivered(msg, shown.value), s.hostID)))
                 else Invalid(Panicked)
  {
    SomethingArrives(msg, s, rand, frags, packets, arrived, rcv);
    var shown := Verdicts(msg, s, rand, rcv.trust);
    if shown.Valid? {
      var xs := AcceptedExtract(msg, s, rand, frags, packets, arrived, rcv);
      var d :| Defragments(OpenAll(arrived, rcv).value, d) && r == if d.Valid? then Valid(Some((ToMessage(d.value), d.value.hostID))) else Invalid(d.why);
      PermutationReassembles(xs, OpenAll(arrived, rcv).value, d);
      FirstFragment(msg, s, rand, frags, packets, shown.value, xs[0]);
      ArrivedByteSlices(msg.fields);
    } else {
      RefusedExtract(msg, s, rand, frags, packets, arrived, rcv);
    }
  }

  lemma {:induction false} ArrivedByteSlices(m: map<seq<byte>, Value>)
    ensures NoByteSlice(AllArrive(m)) <==> NoByteSlice(m)
  {
    forall k | k in m ensures Arrives(m[k]).Blob? <==> m[k].Blob? { }
    assert forall k :: k in AllArrive(m) ==> AllArrive(m)[k] == Arrives(m[k]);
    if NoByteSlice(AllArrive(m)) {
      forall k | k in m ensures !m[k].Blob? { assert k in AllArrive(m); }
    }
  }

  lemma {:induction false} FirstFragment(msg: Message, s: Sender, rand: Random, frags: seq<Payload>, packets: seq<seq<byte>>, hostname: seq<byte>, x: Payload)
    requires Creates(msg, s, rand, frags, packets) && frags != [] && x == Received(frags[0], hostname, s.signatureSuite)
    ensures ToMessage(Whole(x, msg.data)) == Delivered(msg, hostname) && Whole(x, msg.data).hostID == s.hostID
  {
    assert FragmentOf(frags[0], Primary(msg, s, rand, Signature(msg, s).value), 0, |frags| - 1, rand.pad);
  }

  // A signed message from a pinned sender arrives under its plain hostname.
  lemma {:induction false} SignedArrivesUnmarked(msg: Message, s: Sender, rand: Random, trust: Trust, key: seq<byte>)
    requires Signature(msg, s).Some? && s.signatureSuite != 0 && 0 < s.hostID < 0x1_0000_0000
    requires !Marked(msg.hostname) && Clean(msg.hostname, MAX_HOSTNAME) == msg.hostname
    requires trust.pinned(msg.hostname) == Some(key)
    requires forall bytes :: s.sign(bytes, s.signatureSuite).Some? ==> trust.verify(key, bytes, s.sign(bytes, s.signatureSuite).value, s.signatureSuite) == Some(true)
    ensures Verdicts(msg, s, rand, trust) == Valid(msg.hostname)
  {
    StripFixed(msg.hostname);
    var bytes := SerializeSignature(msg.hostname, Low32(s.hostID), Wrap64(Millis(msg.timestamp)));
    assert s.sign(bytes, s.signatureSuite) == Signature(msg, s);
  }

  // ----- What the receiver shows -----

  lemma {:induction false} CleanNameArrives(hostname: seq<byte>)
    requires !Marked(hostname) && Clean(hostname, MAX_HOSTNAME) == hostname
    ensures StripMarkers(WireHostname(hostname)) == hostname
  {
    StripFixed(hostname);
  }

  // The signed identity of a message, and its signature.
  function Identity(msg: Message, s: Sender): seq<byte>
    requires 0 <= s.hostID < 0x1_0000_0000
  {
    SerializeSignature(msg.hostname, s.hostID, Wrap64(Millis(msg.timestamp)))
  }

  lemma {:induction false} VerdictCases(trust: Trust, host: seq<byte>, hostID: uint32, timestamp: uint64, sigID: byte, signature: seq<byte>)
    ensures var pinned, shown := trust.pinned(host), Verdict(trust, host, hostID, timestamp, sigID, signature);
            && (pinned.None? ==> shown == Valid((if sigID == 0 then UNVERIFIED else UNKNOWN) + host))
            && (pinned.Some? && sigID == 0 ==> shown == Invalid(InvalidPayload))
            && (pinned.Some? && sigID != 0 ==>
                  var verified := trust.verify(pinned.value, SerializeSignature(host, hostID, timestamp), signature, sigID);
                  && (verified == Some(true) ==> shown == Valid(host))
                  && (verified == Some(false) ==> shown == Invalid(InvalidPayload))
                  && (verified == None ==> shown == Invalid(CryptoFailure)))
  {
  }

  lemma {:induction false} ShownIs(f: Payload, sigID: byte, trust: Trust, host: seq<byte>, hostID: uint32)
    requires StripMarkers(WireHostname(f.hostname)) == host && Low32(f.hostID) == hostID
    ensures Shown(f, sigID, trust) == Verdict(trust, host, hostID, Wrap64(Millis(f.timestamp)), sigID, if sigID == 0 then [] else f.signature)
  {
  }

  lemma {:induction false} LowOfSmall(i: int)
    requires 0 <= i < 0x1_0000_0000
    ensures Low32(i) == i
  {
  }

  lemma {:induction false} VerdictOnCleanName(msg: Message, s: Sender, rand: Random, trust: Trust)
    requires Signature(msg, s).Some? && 0 <= s.hostID < 0x1_0000_0000
    requires !Marked(msg.hostname) && Clean(msg.hostname, MAX_HOSTNAME) == msg.hostname
    ensures Verdicts(msg, s, rand, trust)
         == Verdict(trust, msg.hostname, s.hostID, Wrap64(Millis(msg.timestamp)), s.signatureSuite, if s.signatureSuite == 0 then [] else Signature(msg, s).value)
  {
    CleanNameArrives(msg.hostname);
    LowOfSmall(s.hostID);
    var p := Primary(msg, s, rand, Signature(msg, s).value);
    ShownIs(p, s.signatureSuite, trust, msg.hostname, s.hostID);
  }

  // Under a clean and unmarked hostname, a receiver without a pinned key shows an unsigned
  // message as unverified and a signed one as of unknown origin; with a pinned key it refuses
  // what is unsigned or does not verify, and shows what verifies under the plain hostname.
  lemma {:induction false} ShownByTrust(msg: Message, s: Sender, rand: Random, frags: seq<Payload>, packets: seq<seq<byte>>, arrived: seq<seq<byte>>, rcv: Receiver, r: Checked<Option<(Message, int)>>)
    requires Sent(msg, s, rand, frags, packets, arrived, rcv) && Extracts(arrived, rcv, r)
    requires !Marked(msg.hostname) && Clean(msg.hostname, MAX_HOSTNAME) == msg.hostname
    requires |packets| == 1 || NoByteSlice(msg.fields)
    ensures var host, pinned := msg.hostname, rcv.trust.pinned(msg.hostname);
            && (pinned.None? && s.signatureSuite == 0 ==> r == Valid(Some((Delivered(msg, UNVERIFIED + host), s.hostID))))
            && (pinned.None? && s.signatureSuite != 0 ==> r == Valid(Some((Delivered(msg, UNKNOWN + host), s.hostID))))
            && (pinned.Some? && s.signatureSuite == 0 ==> r == Invalid(InvalidPayload))
            && (pinned.Some? && s.signatureSuite != 0 ==>
                  var verified := rcv.trust.verify(pinned.value, Identity(msg, s), Signature(msg, s).value, s.signatureSuite);
                  && (verified == Some(true) ==> r == Valid(Some((Delivered(msg, host), s.hostID))))
                  && (verified == Some(false) ==> r == Invalid(InvalidPayload))
                  && (verified == None ==> r == Invalid(CryptoFailure)))
  {
    VerdictOnCleanName(msg, s, rand, rcv.trust);
    VerdictCases(rcv.trust, msg.hostname, s.hostID, Wrap64(Millis(msg.timestamp)), s.signatureSuite, if s.signatureSuite == 0 then [] else Signature(msg, s).value);
    EndToEndDelivery(msg, s, rand, frags, packets, arrived, rcv, r);
  }

  // The two markers, byte by byte: "[UNKNOWN]" and "[UNVERIFIED]".
  lemma {:induction false} MarkersDiffer()
    ensures |UNKNOWN| == 9 && |UNVERIFIED| == 12
    ensures UNKNOWN[..3] == UNVERIFIED[..3] && UNKNOWN[3] == 0x4B && UNVERIFIED[3] == 0x56
  {
  }
}
