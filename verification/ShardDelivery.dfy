/**
  From the sender to the assembler: packets of one message, opened by a processor
  (internal/receiver/processor/worker.go) and pushed to a shard in any order.
*/
module ShardDelivery {
  import opened Bytes
  import opened Options
  import opened ContextFields
  import opened PayloadCodec
  import opened Fragmentation
  import opened Reassembly
  import opened OuterPayload
  import opened Wrapper
  import opened EndToEnd
  import opened ShardSteps
  import opened ShardAssembly

  // The processor opens a packet and notes where it came from.
  ghost predicate OpensTo(packet: seq<byte>, rcv: Receiver, addr: nat, f: Payload) {
    Opened(packet, rcv).Valid? && f == Opened(packet, rcv).value.(remoteIP := addr)
  }

  // Under key only packets of one message are pushed, any of them any number of times.
  ghost predicate PushesOnly(events: seq<Event>, key: Key, packets: seq<seq<byte>>, rcv: Receiver, addr: nat) {
    forall j {:trigger events[j]} :: 0 <= j < |events| && events[j].Push? && events[j].key == key ==>
      exists i :: 0 <= i < |packets| && OpensTo(packets[i], rcv, addr, events[j].fragment)
  }

  function Addressed(xs: seq<Payload>, addr: nat): (r: seq<Payload>)
    ensures |r| == |xs| && forall i {:trigger r[i]} :: 0 <= i < |r| ==> r[i] == xs[i].(remoteIP := addr)
  {
    seq(|xs|, i requires 0 <= i < |xs| => xs[i].(remoteIP := addr))
  }

  lemma {:induction false} AddressedMessage(xs: seq<Payload>, addr: nat)
    requires xs != [] && InSequence(xs) && OneIdentity(xs)
    ensures var ys := Addressed(xs, addr); InSequence(ys) && OneIdentity(ys) && Concat(ys) == Concat(xs)
  {
    var ys := Addressed(xs, addr);
    forall i | 0 <= i < |ys| ensures Decoded(ys[i]) && SameIdentity(ys[0], ys[i]) {
      assert Decoded(xs[i]) && SameIdentity(xs[0], xs[i]);
    }
    SameConcat(ys, xs);
  }

  lemma {:induction false} OnlyItsFragments(events: seq<Event>, key: Key, packets: seq<seq<byte>>, rcv: Receiver, addr: nat, xs: seq<Payload>)
    requires PushesOnly(events, key, packets, rcv, addr) && |xs| == |packets|
    requires forall i {:trigger packets[i]} :: 0 <= i < |packets| ==> Opener(rcv)(packets[i]) == Valid(xs[i])
    ensures OnlyMessage(events, key, Addressed(xs, addr))
  {
    var ys := Addressed(xs, addr);
    forall j | 0 <= j < |events| && events[j].Push? && events[j].key == key ensures events[j].fragment in ys {
      var i :| 0 <= i < |packets| && OpensTo(packets[i], rcv, addr, events[j].fragment);
      assert Opener(rcv)(packets[i]) == Valid(xs[i]);
      assert ys[i] == events[j].fragment;
    }
  }

  // The drained bucket d of a run, once complete, gives the sent message back: its data, host,
  // time to the millisecond, fields and shown hostname, under the address it came from.  Order
  // and duplicates do not matter; several fragments with a byte-slice field are lost.
  lemma {:induction false} CompleteBucketDelivers(msg: Message, s: Sender, rand: Random, frags: seq<Payload>, packets: seq<seq<byte>>, rcv: Receiver, addr: nat,
                                                  states: seq<State>, events: seq<Event>, n: nat, d: nat, ps: seq<Payload>, r: Checked<Payload>)
    requires Creates(msg, s, rand, frags, packets) && Deliverable(msg, s) && |packets| <= 65536
    requires CipherLaw(s.cipher) && rcv.cipher == s.cipher && Verdicts(msg, s, rand, rcv.trust).Valid?
    requires Run(states, events) && n < |states| && d < |states[n].drained|
    requires PushesOnly(events, states[n].drained[d].0, packets, rcv, addr)
    requires var b := states[n].drained[d].1; |b.fragments| == b.maxSeq + 1 && Lists(ps, b.fragments)
    requires Defragments(ps, r)
    ensures if |packets| == 1 || NoByteSlice(msg.fields)
            then r.Valid? && ToMessage(r.value) == Delivered(msg, Verdicts(msg, s, rand, rcv.trust).value)
                 && r.value.hostID == s.hostID && r.value.remoteIP == addr
            else r == Invalid(Panicked)
  {
    FragmentsExist(frags);
    var shown := Verdicts(msg, s, rand, rcv.trust).value;
    var xs := ReceivedAll(frags, shown, s.signatureSuite);
    AllPacketsOpen(msg, s, rand, frags, packets, rcv);
    CutInSequence(msg, s, rand, frags, packets, xs, shown);
    AddressedMessage(xs, addr);
    OnlyItsFragments(events, states[n].drained[d].0, packets, rcv, addr, xs);
    var ys := Addressed(xs, addr);
    CompleteBucketGivesMessage(states, events, n, d, ys, ps, r);
    FirstFragment(msg, s, rand, frags, packets, shown, xs[0]);
    ArrivedByteSlices(msg.fields);
    assert ys[0] == xs[0].(remoteIP := addr);
    SameFields(msg, s, rand, frags, packets, shown, xs[0]);
  }

  lemma {:induction false} SameFields(msg: Message, s: Sender, rand: Random, frags: seq<Payload>, packets: seq<seq<byte>>, hostname: seq<byte>, x: Payload)
    requires Creates(msg, s, rand, frags, packets) && frags != [] && x == Received(frags[0], hostname, s.signatureSuite)
    ensures x.customFields == AllArrive(msg.fields)
  {
    assert FragmentOf(frags[0], Primary(msg, s, rand, Signature(msg, s).value), 0, |frags| - 1, rand.pad);
  }
}
