/**
  The decisions of the client's script against any server, honest or not
  (internal/receiver/shard/fiprsend/send.go, pkg/fipr/public.go).
*/
module FiprClientLaws {
  import opened Bytes
  import opened Options
  import opened FiprFrame
  import opened FiprSession
  import opened FiprPair

  // The client has written the acknowledgement of frame b, and the call it made returns b.
  ghost predicate Returns(c: Client, b: Body) { Sends(c) && c.ctrl.after == Finish(b) }

  // What the shard status tells: a missing byte, a shut down shard, or whether it is draining.
  lemma {:induction false} StatusIsRemembered(cc: ClientCfg, c: Client, b: Body)
    requires Returns(c, b) && c.stage == 3
    ensures var c' := ClientSent(cc, c);
            && (b.payload == [] ==> c'.Halted? && c'.result == ClientError(Panicked))
            && (b.payload != [] && b.payload[0] == 0x22 ==> c'.Halted? && c'.result == ClientError(ShardShutdown))
            && (b.payload != [] && b.payload[0] != 0x22 && c'.Active? ==> c'.stage == 4 && (c'.memo <==> b.payload[0] == 0x11))
  {
  }

  // What the client remembers changes in no other way.
  lemma {:induction false} StatusStays(cc: ClientCfg, c: Client, r: ReadResult)
    requires c.Active? && c.stage <= 7
    ensures Sends(c) && c.stage >= 4 && ClientSent(cc, c).Active? ==> ClientSent(cc, c).memo == c.memo && ClientSent(cc, c).stage >= c.stage
    ensures Waits(c) && c.stage >= 4 && ClientGot(cc, c, r).Active? ==> ClientGot(cc, c, r).memo == c.memo && ClientGot(cc, c, r).stage >= c.stage
  {
  }

  // It routes locally exactly when a draining shard does not have the message, and otherwise
  // goes on to its fragment.
  lemma {:induction false} ReroutesExactly(cc: ClientCfg, c: Client, b: Body)
    requires Returns(c, b) && c.stage == 5
    ensures var c' := ClientSent(cc, c);
            && (c'.Halted? && c'.result == Reroute <==> b.payload != [] && b.payload[0] != 0x10 && c.memo)
            && (b.payload != [] && (b.payload[0] == 0x10 || !c.memo) && c'.Active? ==> c'.stage == 6)
            && (b.payload != [] && (b.payload[0] == 0x10 || !c.memo) && cc.fragment.None? ==> c'.Halted? && c'.result == NotEncodable)
  {
  }

  // In no other state does it re-route, and it reports delivery only for an accepted verdict.
  lemma {:induction false} ResultsAreEarned(cc: ClientCfg, c: Client, r: ReadResult)
    requires c.Active? && c.stage <= 7
    ensures Sends(c) && c.stage != 5 && ClientSent(cc, c).Halted? ==> ClientSent(cc, c).result != Reroute
    ensures Waits(c) && c.ctrl.caller.Script? && ClientGot(cc, c, r).Halted? && ClientGot(cc, c, r).result == Delivered ==>
              c.stage == 7 && r.Got? && Decode(c.ctrl.s, r.wire).1.Ok? && Decode(c.ctrl.s, r.wire).1.value.op in c.ctrl.ops
  {
  }
}
