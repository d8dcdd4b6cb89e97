/**
  The two functions that drive a session: RouteFragment of
  internal/receiver/shard/fiprsend/send.go and handleConnection of
  internal/receiver/shard/fiprrecv/receive.go, over the session object of module FiprClass.
  The ghost result `party` walks the script automaton of module FiprPair call by call; each
  function returns exactly in that automaton's halted state.
*/
module FiprScripts {
  import opened Bytes
  import opened FiprFrame
  import opened FiprSession
  import opened Options
  import opened FiprClass
  import opened FiprPair

  // A send made by the client's script: it must be the one the script automaton is at.
  method ClientSend(session: SessionObj, ghost cc: ClientCfg, ghost stage: nat, ghost draining: bool, ghost party: Client,
                    op: byte, payload: seq<byte>) returns (r: Outcome<()>, ghost next: Client)
    requires RequiresAck(op) && party == ClientFrom(stage, draining, StartSend(session.View(), op, payload))
    modifies session
    ensures Returned(session.ctrl, session.View(), r) && next == ClientStep(cc, stage, draining, session.ctrl)
  {
    session.ctrl := StartSend(session.View(), op, payload);
    var sentSeq := session.Send(op, payload);
    r := if sentSeq.Ok? then Ok(()) else Fail(sentSeq.e);
    next := ClientStep(cc, stage, draining, session.ctrl);
  }

  method ClientAwait(session: SessionObj, ghost cc: ClientCfg, ghost stage: nat, ghost draining: bool, ghost party: Client,
                     op: byte) returns (r: Outcome<Body>, ghost next: Client)
    requires party == ClientFrom(stage, draining, StartAwait(session.View(), {op}))
    modifies session
    ensures session.ctrl == Resume(session.View(), Script, r) && next == ClientStep(cc, stage, draining, session.ctrl)
  {
    session.ctrl := StartAwait(session.View(), {op});
    r := session.AwaitFrame({op});
    next := ClientStep(cc, stage, draining, session.ctrl);
  }

  method ServerSend(session: SessionObj, ghost sc: ServerCfg, ghost stage: nat, ghost memo: seq<byte>, ghost party: Server,
                    op: byte, payload: seq<byte>) returns (r: Outcome<()>, ghost next: Server)
    requires party == ServerFrom(stage, memo, StartSend(session.View(), op, payload))
    modifies session
    ensures Returned(session.ctrl, session.View(), r) && next == ServerStep(sc, stage, memo, session.ctrl)
    ensures !RequiresAck(op) ==> session.View().obo == old(session.View().obo)
  {
    session.ctrl := StartSend(session.View(), op, payload);
    var sentSeq := session.Send(op, payload);
    r := if sentSeq.Ok? then Ok(()) else Fail(sentSeq.e);
    next := ServerStep(sc, stage, memo, session.ctrl);
  }

  method ServerAwait(session: SessionObj, ghost sc: ServerCfg, ghost stage: nat, ghost memo: seq<byte>, ghost party: Server,
                     op: byte) returns (r: Outcome<Body>, ghost next: Server)
    requires party == ServerFrom(stage, memo, StartAwait(session.View(), {op}))
    modifies session
    ensures session.ctrl == Resume(session.View(), Script, r) && next == ServerStep(sc, stage, memo, session.ctrl)
  {
    session.ctrl := StartAwait(session.View(), {op});
    r := session.AwaitFrame({op});
    next := ServerStep(sc, stage, memo, session.ctrl);
  }

  // The client calls of pkg/fipr/public.go, each from one stage of the script to the next.

  ghost predicate ClientWent<T>(next: Client, session: SessionObj, r: Outcome<T>, onward: Client)
    reads session
  {
    next == if r.Ok? then onward else Halted(session.View(), ClientError(r.e))
  }

  method SendStart(session: SessionObj, cc: ClientCfg, ghost party: Client) returns (r: Outcome<()>, ghost next: Client)
    requires party == ClientAt(cc, 0, false, session.View())
    modifies session
    ensures ClientWent(next, session, r, ClientAt(cc, 1, false, session.View()))
  {
    if cc.messageID == [] {
      return Fail(HasNoPayload), party;
    }
    r, next := ClientSend(session, cc, 0, false, party, OP_START, cc.messageID);
    if r.Ok? {
      session.phase := Started;
    }
  }

  method SendOnBehalfOf(session: SessionObj, cc: ClientCfg, ghost party: Client) returns (r: Outcome<()>, ghost next: Client)
    requires party == ClientAt(cc, 1, false, session.View())
    modifies session
    ensures ClientWent(next, session, r, ClientAt(cc, 2, false, session.View()))
  {
    r, next := ClientSend(session, cc, 1, false, party, OP_OBO, cc.sender);
  }

  // The server's answer: is it draining?
  method SendShardCheck(session: SessionObj, cc: ClientCfg, ghost party: Client) returns (r: Outcome<bool>, ghost next: Client)
    requires party == ClientAt(cc, 2, false, session.View())
    modifies session
    ensures ClientWent(next, session, r, ClientAt(cc, 4, r.Ok? && r.value, session.View()))
  {
    var sent, status;
    sent, next := ClientSend(session, cc, 2, false, party, OP_SHARD_CHECK, []);
    if sent.Fail? {
      return Fail(sent.e), next;
    }
    status, next := ClientAwait(session, cc, 3, false, next, OP_SHARD_STATUS);
    if status.Fail? {
      return Fail(status.e), next;
    }
    if status.value.payload == [] {
      return Fail(Panicked), next;
    }
    if status.value.payload[0] == SHARD_SHUTDOWN {
      return Fail(ShardShutdown), next;
    }
    r := Ok(status.value.payload[0] == SHARD_DRAINING);
  }

  // The server's answer: does the message exist there?
  method SendMessageCheck(session: SessionObj, cc: ClientCfg, draining: bool, ghost party: Client)
    returns (r: Outcome<bool>, ghost next: Client)
    requires party == ClientAt(cc, 4, draining, session.View())
    modifies session
    ensures ClientWent(next, session, r,
              if r.Ok? && !r.value && draining then Halted(session.View(), Reroute) else ClientAt(cc, 6, draining, session.View()))
  {
    var sent, status;
    sent, next := ClientSend(session, cc, 4, draining, party, OP_MSG_CHECK, []);
    if sent.Fail? {
      return Fail(sent.e), next;
    }
    status, next := ClientAwait(session, cc, 5, draining, next, OP_MSG_STATUS);
    if status.Fail? {
      return Fail(status.e), next;
    }
    if status.value.payload == [] {
      return Fail(Panicked), next;
    }
    r := Ok(status.value.payload[0] == MSG_EXISTING);
  }

  method SendFragment(session: SessionObj, cc: ClientCfg, draining: bool, ghost party: Client)
    returns (r: Outcome<()>, ghost next: Client)
    requires cc.fragment.Some? && party == ClientAt(cc, 6, draining, session.View())
    modifies session
    ensures ClientWent(next, session, r, Halted(session.View(), Delivered))
  {
    var sent, verdict;
    sent, next := ClientSend(session, cc, 6, draining, party, OP_FRG_ROUTE, cc.fragment.value);
    if sent.Fail? {
      return Fail(sent.e), next;
    }
    verdict, next := ClientAwait(session, cc, 7, draining, next, OP_ACCEPTED);
    if verdict.Fail? {
      return Fail(if verdict.e == InvalidOpcode(false) then RemoteRejected else verdict.e), next;
    }
    r := Ok(());
  }

  method RouteFragment(session: SessionObj, cc: ClientCfg) returns (result: ClientResult, ghost party: Client)
    requires session.View() == New(cc.mac)
    modifies session
    ensures party == Halted(session.View(), result)
  {
    var r, draining, known;
    party := ClientInit(cc);
    r, party := SendStart(session, cc, party);
    if r.Fail? {
      return ClientError(r.e), party;
    }
    r, party := SendOnBehalfOf(session, cc, party);
    if r.Fail? {
      return ClientError(r.e), party;
    }
    draining, party := SendShardCheck(session, cc, party);
    if draining.Fail? {
      return ClientError(draining.e), party;
    }
    known, party := SendMessageCheck(session, cc, draining.value, party);
    if known.Fail? {
      return ClientError(known.e), party;
    }
    if !known.value && draining.value {
      return Reroute, party;
    }
    if cc.fragment.None? {
      return NotEncodable, party;
    }
    r, party := SendFragment(session, cc, draining.value, party);
    result := if r.Ok? then Delivered else ClientError(r.e);
  }

  method HandleConnection(session: SessionObj, sc: ServerCfg) returns (result: ServerResult, ghost party: Server)
    requires session.View() == New(sc.mac)
    modifies session
    ensures party == Halted(session.View(), result)
  {
    party := ServerInit(sc);
    // WaitStart
    var got;
    got, party := ServerAwait(session, sc, 0, [], party, OP_START);
    if got.Fail? {
      return ServerError(got.e), party;
    }
    if got.value.payload == [] {
      return ServerError(HasNoPayload), party;
    }
    session.messageID := got.value.payload;
    session.phase := Started;
    // WaitOnBehalfOf
    got, party := ServerAwait(session, sc, 1, [], party, OP_OBO);
    if got.Fail? {
      return ServerError(got.e), party;
    }
    session.obo := got.value.payload;
    if !sc.validSender(session.obo) {
      return BadSender, party;
    }
    result, party := AnswerChecks(session, sc, party);
  }

  // The middle of handleConnection: answers the shard check and the message check.
  method AnswerChecks(session: SessionObj, sc: ServerCfg, ghost before: Server) returns (result: ServerResult, ghost party: Server)
    requires before == ServerAt(sc, 2, [], session.View())
    modifies session
    ensures party == Halted(session.View(), result)
  {
    var got, sent;
    got, party := ServerAwait(session, sc, 2, [], before, OP_SHARD_CHECK);
    if got.Fail? {
      return ServerError(got.e), party;
    }
    sent, party := ServerSend(session, sc, 3, [], party, OP_SHARD_STATUS, [if sc.running then SHARD_DRAINING else SHARD_SHUTDOWN]);
    if sent.Fail? {
      return ServerError(sent.e), party;
    }
    if !sc.running {
      return NotRunning, party;
    }
    got, party := ServerAwait(session, sc, 4, [], party, OP_MSG_CHECK);
    if got.Fail? {
      return ServerError(got.e), party;
    }
    sent, party := ServerSend(session, sc, 5, [], party, OP_MSG_STATUS, [if sc.knows(session.messageID) then MSG_EXISTING else MSG_NEW]);
    if sent.Fail? {
      return ServerError(sent.e), party;
    }
    result, party := ReceiveFragment(session, sc, party);
  }

  // The end of handleConnection: takes the fragment and answers with the outcome of local routing.
  method ReceiveFragment(session: SessionObj, sc: ServerCfg, ghost before: Server) returns (result: ServerResult, ghost party: Server)
    requires before == ServerAt(sc, 6, [], session.View())
    modifies session
    ensures party == Halted(session.View(), result)
  {
    var got, sent;
    got, party := ServerAwait(session, sc, 6, [], before, OP_FRG_ROUTE);
    if got.Fail? {
      return ServerError(got.e), party;
    }
    var fragment := got.value.payload;
    var accepted := sc.routes(session.obo, fragment);
    sent, party := ServerSend(session, sc, 7, fragment, party, if accepted then OP_ACCEPTED else OP_REJECTED, []);
    if sent.Fail? {
      return ServerError(sent.e), party;
    }
    session.CloseSession();
    result := if accepted then Routed(fragment) else Refused(fragment);
  }
}
