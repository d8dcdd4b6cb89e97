/**
  Whole runs of the server's script against any client, honest or not
  (internal/receiver/shard/fiprrecv/receive.go, pkg/fipr/public.go).
*/
module FiprServerLaws {
  import opened Bytes
  import opened Options
  import opened FiprFrame
  import opened FiprSession
  import opened FiprPair

  // The server reached by writing and reading exactly tr; None if it cannot do tr.
  ghost function After(sc: ServerCfg, tr: seq<Io>): Option<Server> {
    if tr == [] then Some(ServerInit(sc))
    else
      var before := After(sc, tr[..|tr|-1]);
      var last := tr[|tr|-1];
      if before.None? then None
      else if Sends(before.value) && last == Out(OutFrame(before.value.ctrl)) then Some(ServerSent(sc, before.value))
      else if Waits(before.value) && last.In? then Some(ServerGot(sc, before.value, last.r))
      else None
  }

  // The calls of each stage, as their controls tell.
  ghost predicate InCall(stage: nat, c: Ctrl) {
    match c
    case Reading(_, Script, ops, _, _) => stage in {0, 1, 2, 4, 6} && ops == Awaited(stage)
    case Reading(_, AwaitAck(_, _), ops, _, _) => stage in {3, 5} && ops == {OP_ACK, OP_RESEND}
    case Sending(_, _, _, WaitForAck) => stage in {3, 5}
    case Sending(_, _, _, NextRound(_, _)) => stage in {3, 5}
    case Sending(_, _, _, AwaitAgain(Script, ops, _, _)) => stage in {0, 1, 2, 4, 6} && ops == Awaited(stage)
    case Sending(_, _, _, AwaitAgain(AwaitAck(_, _), ops, _, _)) => stage in {3, 5} && ops == {OP_ACK, OP_RESEND}
    case Sending(_, _, _, Finish(b)) => stage == 7 || (stage in {0, 1, 2, 4, 6} && b.op in Awaited(stage) && (b.op in {OP_START, OP_OBO, OP_FRG_ROUTE} ==> b.payload != []))
    case _ => false
  }

  function Awaited(stage: nat): set<byte> {
    match stage
    case 0 => {OP_START}
    case 1 => {OP_OBO}
    case 2 => {OP_SHARD_CHECK}
    case 4 => {OP_MSG_CHECK}
    case _ => {OP_FRG_ROUTE}
  }

  // What reaching a stage has taken.
  ghost predicate Earned(sc: ServerCfg, stage: nat, memo: seq<byte>, s: Session) {
    && (stage >= 1 ==> s.messageID != [])
    && (stage >= 2 ==> sc.validSender(s.obo) && s.obo != [])
    && (stage >= 4 ==> sc.running)
    && (stage >= 7 ==> memo != [])
  }

  ghost predicate Lawful(sc: ServerCfg, p: Server) {
    match p
    case Active(stage, memo, c) => stage <= 7 && InCall(stage, c) && Earned(sc, stage, memo, c.s)
    case Halted(s, result) =>
      && (result.Routed? ==> Earned(sc, 7, result.fragment, s) && sc.routes(s.obo, result.fragment))
      && (result.Refused? ==> Earned(sc, 7, result.fragment, s) && !sc.routes(s.obo, result.fragment))
      && (result.NotRunning? ==> !sc.running)
      && (result.BadSender? ==> !sc.validSender(s.obo))
  }

  // A call that returns brings what its stage waited for.
  ghost predicate Brings(stage: nat, b: Body) {
    stage in {0, 1, 2, 4, 6} ==> b.op in Awaited(stage) && (b.op in {OP_START, OP_OBO, OP_FRG_ROUTE} ==> b.payload != [])
  }

  ghost predicate SameParties(s: Session, t: Session) { t.messageID == s.messageID && t.obo == s.obo }

  ghost predicate GoesOn(stage: nat, c: Ctrl, c': Ctrl) {
    SameParties(c.s, c'.s) && (c'.Failed? || InCall(stage, c') || (c'.Done? && Brings(stage, c'.reply)))
  }

  lemma {:induction false} SendGoesOn(stage: nat, c: Ctrl)
    requires c.Sending? && InCall(stage, c)
    ensures GoesOn(stage, c, OnSend(c))
  {
  }

  lemma {:induction false} DecodedFits(s: Session, wire: seq<byte>)
    ensures SameParties(s, Decode(s, wire).0)
    ensures var d := Decode(s, wire).1; d.Ok? && d.value.op in {OP_START, OP_OBO, OP_FRG_ROUTE} ==> d.value.payload != []
  {
  }

  lemma {:induction false} ReadGoesOn(stage: nat, c: Ctrl, r: ReadResult)
    requires c.Reading? && InCall(stage, c)
    ensures GoesOn(stage, c, OnRead(c, r))
  {
    if r.Got? { DecodedFits(c.s, r.wire); }
  }

  lemma {:induction false} StageBegins(sc: ServerCfg, stage: nat, memo: seq<byte>, s: Session)
    requires stage <= 7 && Earned(sc, stage, memo, s)
    ensures Lawful(sc, ServerAt(sc, stage, memo, s))
  {
  }

  lemma {:induction false} StageEnds(sc: ServerCfg, stage: nat, memo: seq<byte>, s: Session, b: Body)
    requires stage <= 7 && Earned(sc, stage, memo, s) && Brings(stage, b)
    ensures Lawful(sc, ServerNext(sc, stage, memo, s, b))
  {
    match stage
    case 0 => StageBegins(sc, 1, memo, s.(messageID := b.payload, phase := Started));
    case 1 => if sc.validSender(b.payload) { StageBegins(sc, 2, memo, s.(obo := b.payload)); }
    case 3 => if sc.running { StageBegins(sc, 4, memo, s); }
    case 6 => StageBegins(sc, 7, b.payload, s);
    case 7 =>
    case _ => StageBegins(sc, stage + 1, memo, s);
  }

  lemma {:induction false} CallGoesOn(sc: ServerCfg, p: Server, c': Ctrl)
    requires Lawful(sc, p) && p.Active? && GoesOn(p.stage, p.ctrl, c')
    ensures Lawful(sc, ServerStep(sc, p.stage, p.memo, c'))
  {
    if c'.Done? { StageEnds(sc, p.stage, p.memo, c'.s, c'.reply); }
  }

  lemma {:induction false} LastMove(sc: ServerCfg, tr: seq<Io>)
    requires tr != [] && After(sc, tr).Some?
    ensures After(sc, tr[..|tr|-1]).Some?
    ensures var before, last := After(sc, tr[..|tr|-1]).value, tr[|tr|-1];
            || (Sends(before) && last == Out(OutFrame(before.ctrl)) && After(sc, tr).value == ServerSent(sc, before))
            || (Waits(before) && last.In? && After(sc, tr).value == ServerGot(sc, before, last.r))
  {
  }

  // Whatever the client writes, the server never skips a stage.
  lemma {:induction false} AlwaysLawful(sc: ServerCfg, tr: seq<Io>)
    requires After(sc, tr).Some?
    ensures Lawful(sc, After(sc, tr).value)
  {
    if tr == [] {
      StageBegins(sc, 0, [], New(sc.mac));
    } else {
      LastMove(sc, tr);
      var before := After(sc, tr[..|tr|-1]).value;
      AlwaysLawful(sc, tr[..|tr|-1]);
      if Sends(before) {
        SendGoesOn(before.stage, before.ctrl);
        CallGoesOn(sc, before, OnSend(before.ctrl));
      } else {
        ReadGoesOn(before.stage, before.ctrl, tr[|tr|-1].r);
        CallGoesOn(sc, before, OnRead(before.ctrl, tr[|tr|-1].r));
      }
    }
  }

  // Against any client: a fragment reaches the local router only from a running server, under a
  // valid original sender, for a named message, and is reported routed exactly when that router
  // took it.
  lemma {:induction false} RoutedIsEarned(sc: ServerCfg, tr: seq<Io>)
    requires After(sc, tr).Some? && After(sc, tr).value.Halted?
    requires var result := After(sc, tr).value.result; result.Routed? || result.Refused?
    ensures var Halted(s, result) := After(sc, tr).value;
            && sc.running && sc.validSender(s.obo) && s.obo != [] && s.messageID != [] && result.fragment != []
            && (result.Routed? <==> sc.routes(s.obo, result.fragment))
  {
    AlwaysLawful(sc, tr);
  }

  // A server without a local routing view ends its session before any message check, and one
  // with a bad sender before any shard check.
  lemma {:induction false} StopsEarly(sc: ServerCfg, tr: seq<Io>)
    requires After(sc, tr).Some?
    ensures var p := After(sc, tr).value;
            && (p.Active? && !sc.running ==> p.stage <= 3)
            && (p.Active? && (forall who :: !sc.validSender(who)) ==> p.stage <= 1)
            && (p.Halted? && p.result.NotRunning? ==> !sc.running)
            && (p.Halted? && p.result.BadSender? ==> !sc.validSender(p.s.obo))
  {
    AlwaysLawful(sc, tr);
  }
}
