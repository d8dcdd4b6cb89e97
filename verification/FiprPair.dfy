/**
  Two honest FIPR sessions running the matching scripts of
  internal/receiver/shard/fiprsend/send.go (client) and
  internal/receiver/shard/fiprrecv/receive.go (server) over reliable in-order channels.

  `Path` is the conversation with every frame delivered as soon as it is written.  The main
  argument shows that every interleaving of the two ends, with frames waiting in the
  channels, stays on that one path: each end's sequence counter is the number of path steps
  it has taken, and the frames in flight are the steps by which one end is ahead.
*/
module FiprPair {
  import opened Bytes
  import opened FiprFrame
  import opened FiprSession
  import opened Options
  import HD = HalfDuplex

  // ----- Scripts -----

  datatype ClientCfg = ClientCfg(
    mac: Mac,
    messageID: seq<byte>,
    sender: seq<byte>,               // original sender address, as text
    fragment: Option<seq<byte>>)     // serialised fragment; None: it does not pass re-validation

  datatype ServerCfg = ServerCfg(
    mac: Mac,
    running: bool,                   // a local routing view exists
    knows: seq<byte> -> bool,        // BucketExistsAnywhere
    validSender: seq<byte> -> bool,  // netip.ParseAddr accepts
    routes: (seq<byte>, seq<byte>) -> bool)  // fragment decodes and the local router takes it

  datatype ClientResult = Delivered | Reroute | NotEncodable | ClientError(e: Err)
  datatype ServerResult = Routed(fragment: seq<byte>) | Refused(fragment: seq<byte>) | NotRunning | BadSender | ServerError(e: Err)

  // An end is suspended in the call of its current stage, or its function has returned.
  // memo: the client's draining flag / the server's received fragment.
  datatype Party<M, R> = Active(stage: nat, memo: M, ctrl: Ctrl) | Halted(s: Session, result: R)
  type Client = Party<bool, ClientResult>
  type Server = Party<seq<byte>, ServerResult>

  function ClientFrom(stage: nat, draining: bool, c: Ctrl): Client {
    match c
    case Failed(s, e) => Halted(s, ClientError(if stage == 7 && e == InvalidOpcode(false) then RemoteRejected else e))
    case _ => Active(stage, draining, c)
  }

  function ClientAt(cc: ClientCfg, stage: nat, draining: bool, s: Session): Client {
    match stage
    case 0 => if cc.messageID == [] then Halted(s, ClientError(HasNoPayload))
              else ClientFrom(0, draining, StartSend(s, OP_START, cc.messageID))
    case 1 => ClientFrom(1, draining, StartSend(s, OP_OBO, cc.sender))
    case 2 => ClientFrom(2, draining, StartSend(s, OP_SHARD_CHECK, []))
    case 3 => ClientFrom(3, draining, StartAwait(s, {OP_SHARD_STATUS}))
    case 4 => ClientFrom(4, draining, StartSend(s, OP_MSG_CHECK, []))
    case 5 => ClientFrom(5, draining, StartAwait(s, {OP_MSG_STATUS}))
    case 6 => if cc.fragment.None? then Halted(s, NotEncodable)
              else ClientFrom(6, draining, StartSend(s, OP_FRG_ROUTE, cc.fragment.value))
    case _ => ClientFrom(7, draining, StartAwait(s, {OP_ACCEPTED}))
  }

  // The call of this stage returned frame b.
  function ClientNext(cc: ClientCfg, stage: nat, draining: bool, s: Session, b: Body): Client {
    match stage
    case 0 => ClientAt(cc, 1, draining, s.(phase := Started))
    case 3 =>
      if b.payload == [] then Halted(s, ClientError(Panicked))
      else if b.payload[0] == SHARD_SHUTDOWN then Halted(s, ClientError(ShardShutdown))
      else ClientAt(cc, 4, b.payload[0] == SHARD_DRAINING, s)
    case 5 =>
      if b.payload == [] then Halted(s, ClientError(Panicked))
      else if b.payload[0] != MSG_EXISTING && draining then Halted(s, Reroute)
      else ClientAt(cc, 6, draining, s)
    case 7 => Halted(s, Delivered)
    case _ => ClientAt(cc, stage + 1, draining, s)
  }

  function ClientStep(cc: ClientCfg, stage: nat, draining: bool, c: Ctrl): Client {
    match c
    case Done(s, b) => ClientNext(cc, stage, draining, s, b)
    case _ => ClientFrom(stage, draining, c)
  }

  function ServerFrom(stage: nat, memo: seq<byte>, c: Ctrl): Server {
    match c
    case Failed(s, e) => Halted(s, ServerError(e))
    case _ => Active(stage, memo, c)
  }

  function ServerAt(sc: ServerCfg, stage: nat, memo: seq<byte>, s: Session): Server {
    match stage
    case 0 => ServerFrom(0, memo, StartAwait(s, {OP_START}))
    case 1 => ServerFrom(1, memo, StartAwait(s, {OP_OBO}))
    case 2 => ServerFrom(2, memo, StartAwait(s, {OP_SHARD_CHECK}))
    case 3 => ServerFrom(3, memo, StartSend(s, OP_SHARD_STATUS, [if sc.running then SHARD_DRAINING else SHARD_SHUTDOWN]))
    case 4 => ServerFrom(4, memo, StartAwait(s, {OP_MSG_CHECK}))
    case 5 => ServerFrom(5, memo, StartSend(s, OP_MSG_STATUS, [if sc.knows(s.messageID) then MSG_EXISTING else MSG_NEW]))
    case 6 => ServerFrom(6, memo, StartAwait(s, {OP_FRG_ROUTE}))
    case _ => ServerFrom(7, memo, StartSend(s, if sc.routes(s.obo, memo) then OP_ACCEPTED else OP_REJECTED, []))
  }

  function ServerNext(sc: ServerCfg, stage: nat, memo: seq<byte>, s: Session, b: Body): Server {
    match stage
    case 0 => if b.payload == [] then Halted(s, ServerError(HasNoPayload))
              else ServerAt(sc, 1, memo, s.(messageID := b.payload, phase := Started))
    case 1 => var s' := s.(obo := b.payload);
              if sc.validSender(s'.obo) then ServerAt(sc, 2, memo, s') else Halted(s', BadSender)
    case 3 => if sc.running then ServerAt(sc, 4, memo, s) else Halted(s, NotRunning)
    case 6 => ServerAt(sc, 7, b.payload, s)
    case 7 => Halted(Close(s), if sc.routes(s.obo, memo) then Routed(memo) else Refused(memo))
    case _ => ServerAt(sc, stage + 1, memo, s)
  }

  function ServerStep(sc: ServerCfg, stage: nat, memo: seq<byte>, c: Ctrl): Server {
    match c
    case Done(s, b) => ServerNext(sc, stage, memo, s, b)
    case _ => ServerFrom(stage, memo, c)
  }

  predicate Sends<M, R>(p: Party<M, R>) { p.Active? && p.ctrl.Sending? }
  predicate Waits<M, R>(p: Party<M, R>) { p.Active? && p.ctrl.Reading? }

  function ClientSent(cc: ClientCfg, c: Client): Client
    requires Sends(c)
  { ClientStep(cc, c.stage, c.memo, OnSend(c.ctrl)) }

  function ClientGot(cc: ClientCfg, c: Client, r: ReadResult): Client
    requires Waits(c)
  { ClientStep(cc, c.stage, c.memo, OnRead(c.ctrl, r)) }

  function ServerSent(sc: ServerCfg, s: Server): Server
    requires Sends(s)
  { ServerStep(sc, s.stage, s.memo, OnSend(s.ctrl)) }

  function ServerGot(sc: ServerCfg, s: Server, r: ReadResult): Server
    requires Waits(s)
  { ServerStep(sc, s.stage, s.memo, OnRead(s.ctrl, r)) }

  function ClientInit(cc: ClientCfg): Client { ClientAt(cc, 0, false, New(cc.mac)) }
  function ServerInit(sc: ServerCfg): Server { ServerAt(sc, 0, [], New(sc.mac)) }

  // ----- The conversation, frame by frame -----

  datatype Duo = Duo(c: Client, s: Server)

  function SyncStep(cc: ClientCfg, sc: ServerCfg, d: Duo): Duo {
    if Sends(d.c) && Waits(d.s) then Duo(ClientSent(cc, d.c), ServerGot(sc, d.s, Got(OutFrame(d.c.ctrl))))
    else if Waits(d.c) && Sends(d.s) then Duo(ClientGot(cc, d.c, Got(OutFrame(d.s.ctrl))), ServerSent(sc, d.s))
    else if d.s.Halted? && Sends(d.c) then Duo(ClientSent(cc, d.c), d.s)
    else if d.s.Halted? && Waits(d.c) then Duo(ClientGot(cc, d.c, Closed), d.s)
    else if d.c.Halted? && Sends(d.s) then Duo(d.c, ServerSent(sc, d.s))
    else if d.c.Halted? && Waits(d.s) then Duo(d.c, ServerGot(sc, d.s, Closed))
    else d
  }

  function Iterate<T>(f: T -> T, x: T, k: nat): T { if k == 0 then x else f(Iterate(f, x, k - 1)) }

  lemma {:induction false} IterateKeeps<T>(f: T -> T, x: T, inv: (nat, T) -> bool, k: nat)
    requires inv(0, x) && forall i: nat, y {:trigger inv(i, y)} :: inv(i, y) ==> inv(i + 1, f(y))
    ensures inv(k, Iterate(f, x, k))
  {
    if k > 0 { IterateKeeps(f, x, inv, k - 1); }
  }

  function Path(cc: ClientCfg, sc: ServerCfg, k: nat): Duo {
    Iterate(d => SyncStep(cc, sc, d), Duo(ClientInit(cc), ServerInit(sc)), k)
  }

  // ----- What holds along the path -----

  ghost predicate Setting(cc: ClientCfg, sc: ServerCfg) {
    && GoodMac(cc.mac) && sc.mac == cc.mac
    && |cc.messageID| < 0xFFFF_0000 && |cc.sender| < 0xFFFF_0000
    && (cc.fragment.Some? ==> |cc.fragment.value| < 0xFFFF_0000)
  }

  predicate Fits(p: seq<byte>) { MIN_DATA_LENGTH + |p| <= MAX_DATA_LENGTH }

  predicate StartOk(cc: ClientCfg) { cc.messageID != [] && Fits(cc.messageID) }
  predicate SenderOk(cc: ClientCfg, sc: ServerCfg) { cc.sender != [] && Fits(cc.sender) && sc.validSender(cc.sender) }
  predicate FragmentOk(cc: ClientCfg) { cc.fragment.Some? && cc.fragment.value != [] && Fits(cc.fragment.value) }

  // The server finds the message and the fragment reaches it.
  predicate Reaches(cc: ClientCfg, sc: ServerCfg) {
    StartOk(cc) && SenderOk(cc, sc) && sc.running && sc.knows(cc.messageID) && FragmentOk(cc)
  }
  // The server answers that it does not have the message.
  predicate Unknown(cc: ClientCfg, sc: ServerCfg) {
    StartOk(cc) && SenderOk(cc, sc) && sc.running && !sc.knows(cc.messageID)
  }

  predicate ClientSpeaks(stage: nat) { stage == 0 || stage == 1 || stage == 2 || stage == 4 || stage == 6 }

  function StageOp(stage: nat): byte {
    match stage
    case 0 => OP_START case 1 => OP_OBO case 2 => OP_SHARD_CHECK case 3 => OP_SHARD_STATUS
    case 4 => OP_MSG_CHECK case 5 => OP_MSG_STATUS case _ => OP_FRG_ROUTE
  }

  function StagePayload(cc: ClientCfg, sc: ServerCfg, stage: nat): seq<byte> {
    match stage
    case 0 => cc.messageID
    case 1 => cc.sender
    case 3 => [if sc.running then SHARD_DRAINING else SHARD_SHUTDOWN]
    case 5 => [if sc.knows(cc.messageID) then MSG_EXISTING else MSG_NEW]
    case 6 => if cc.fragment.Some? then cc.fragment.value else []
    case _ => []
  }

  // The receiver's validation asks for the frame again.
  predicate Unusable(cc: ClientCfg, sc: ServerCfg, stage: nat) {
    (stage == 1 || stage == 6) && StagePayload(cc, sc, stage) == []
  }

  // What the client's progress to a stage proves about the configuration and the server's memory.
  ghost predicate Learned(cc: ClientCfg, sc: ServerCfg, stage: nat, d: Duo)
    requires d.c.Active? && d.s.Active?
  {
    && (stage >= 1 ==> StartOk(cc) && d.s.ctrl.s.messageID == cc.messageID)
    && (stage >= 2 ==> SenderOk(cc, sc) && d.s.ctrl.s.obo == cc.sender)
    && (stage >= 4 ==> sc.running && d.c.memo)
    && (stage >= 6 ==> sc.knows(cc.messageID) && cc.fragment.Some?)
    && (stage >= 7 ==> FragmentOk(cc) && d.s.memo == cc.fragment.value)
    && d.c.ctrl.s.phase == d.s.ctrl.s.phase == (if stage == 0 then Init else Started)
    && (stage == 0 ==> cc.messageID != [])
  }

  // The sender x is in a stage's send and the receiver y in the matching await: about to
  // transmit for the (r+1)-st time, or about to be answered.
  ghost predicate Exchange(cc: ClientCfg, sc: ServerCfg, stage: nat, k: nat, x: Ctrl, y: Ctrl) {
    var op, payload := StageOp(stage), StagePayload(cc, sc, stage);
    match x
    case Sending(_, xo, xp, after) =>
      && xo == op && xp == payload && y.Reading? && y.caller.Script? && y.ops == {op}
      && (match after
          case WaitForAck => k == 2 * stage && y.tries == 0
          case NextRound(expected, round) => expected < k && round < 2 && k == 2 * stage + 2 * (round + 1) && y.tries == round + 1 && Unusable(cc, sc, stage)
          case _ => false)
    case Reading(s, AwaitAck(expected, round), ops, tries, _) =>
      && k >= 1 && expected == k - 1 && ops == {OP_ACK, OP_RESEND} && tries == 0 && k == 2 * stage + 2 * round + 1 && round < 3
      && y.Sending? && y.payload == BigEndian(k - 1, 2)
      && expected in s.sent && s.sent[expected] == Body(expected, op, payload)
      && (match y.after
          case Finish(b) => y.op == OP_ACK && b == Body(k - 1, op, payload) && Fits(payload) && !Unusable(cc, sc, stage) && round == 0
          case AwaitAgain(caller, aops, atries, _) =>
            y.op == OP_RESEND && caller.Script? && aops == {op} && atries == round && Unusable(cc, sc, stage)
          case _ => false)
    case _ => false
  }

  ghost predicate BothActive(cc: ClientCfg, sc: ServerCfg, k: nat, d: Duo)
    requires d.c.Active? && d.s.Active?
  {
    var x, y, stage := d.c.ctrl, d.s.ctrl, d.c.stage;
    && (x.Sending? || x.Reading?) && (y.Sending? || y.Reading?)
    && d.s.stage == stage <= 7 && Learned(cc, sc, stage, d)
    && x.s.counter == y.s.counter == k && x.s.mac == y.s.mac == cc.mac
    && if stage == 7 then
         && k == 14 && x.Reading? && x.caller.Script? && x.ops == {OP_ACCEPTED} && y.Sending? && y.payload == []
         && y.op == (if sc.routes(cc.sender, cc.fragment.value) then OP_ACCEPTED else OP_REJECTED)
         && y.after.Finish?
       else if ClientSpeaks(stage) then Exchange(cc, sc, stage, k, x, y)
       else Exchange(cc, sc, stage, k, y, x)
  }

  // What the server has been told: every message ID and sender that the client could send.
  ghost predicate Remembers(cc: ClientCfg, s: Session) {
    && (StartOk(cc) ==> s.messageID == cc.messageID)
    && (StartOk(cc) && cc.sender != [] && Fits(cc.sender) ==> s.obo == cc.sender)
  }

  // The server has returned early; the client still has at most two writes before it reads the end of the stream.
  ghost predicate ServerGone(cc: ClientCfg, sc: ServerCfg, k: nat, d: Duo)
    requires d.c.Active? && d.s.Halted?
  {
    && !Reaches(cc, sc) && !Unknown(cc, sc) && Remembers(cc, d.s.s)
    && !d.s.result.Routed? && !d.s.result.Refused?
    && (d.c.ctrl.Sending? || d.c.ctrl.Reading?)
    && d.c.ctrl.s.counter == k && d.c.stage <= 7 && d.c.ctrl.s.mac == cc.mac
    && (d.c.stage >= 6 ==> sc.knows(cc.messageID))
    && (d.c.ctrl.Sending? ==>
          ClientSpeaks(d.c.stage) && d.c.ctrl.op == StageOp(d.c.stage) && |d.c.ctrl.payload| < 0xFFFF_0000)
    && match d.c.ctrl
       case Sending(_, _, _, NextRound(_, round)) => k <= 20 && round == 2
       case Sending(_, _, _, WaitForAck) => k <= 21
       case Reading(_, _, _, _, _) => k <= 22
       case _ => false
  }

  ghost predicate ClientGone(cc: ClientCfg, sc: ServerCfg, k: nat, d: Duo)
    requires d.c.Halted? && d.s.Active?
  {
    && d.s.ctrl.Reading? && d.s.ctrl.caller.Script? && d.s.ctrl.s.counter == k && k <= 22 && d.s.stage < 7
    && !Reaches(cc, sc) && !d.c.result.Delivered? && (d.c.result.Reroute? <==> Unknown(cc, sc)) && Remembers(cc, d.s.ctrl.s)
  }

  // How a completed session ends.
  ghost predicate Final(cc: ClientCfg, sc: ServerCfg, d: Duo)
    requires d.c.Halted? && d.s.Halted?
  {
    && (d.c.result.Reroute? <==> Unknown(cc, sc)) && Remembers(cc, d.s.s)
    && (Reaches(cc, sc) <==> d.s.result.Routed? || d.s.result.Refused?)
    && (Reaches(cc, sc) ==>
          var f := cc.fragment.value;
          && d.s.s.messageID == cc.messageID && d.s.s.obo == cc.sender
          && d.s.result == (if sc.routes(cc.sender, f) then Routed(f) else Refused(f))
          && d.c.result == (if sc.routes(cc.sender, f) then Delivered else ClientError(RemoteRejected)))
    && (!Reaches(cc, sc) ==> !d.c.result.Delivered?)
  }

  ghost predicate PathOk(cc: ClientCfg, sc: ServerCfg, k: nat, d: Duo) {
    if d.c.Active? && d.s.Active? then BothActive(cc, sc, k, d)
    else if d.c.Active? then ServerGone(cc, sc, k, d)
    else if d.s.Active? then ClientGone(cc, sc, k, d)
    else Final(cc, sc, d)
  }

  // ----- One exchange -----

  // Same identity and phase: what an exchange may change is the counter and the resend books.
  ghost predicate SameEnd(s: Session, s': Session) {
    s'.mac == s.mac && s'.phase == s.phase && s'.messageID == s.messageID && s'.obo == s.obo
  }

  ghost predicate Talking(cc: ClientCfg, stage: nat, k: nat, x: Ctrl, y: Ctrl) {
    && GoodMac(cc.mac) && stage <= 6 && k <= 30
    && (x.Sending? || x.Reading?) && (y.Sending? || y.Reading?)
    && x.s.counter == y.s.counter == k && x.s.mac == y.s.mac == cc.mac
    && x.s.phase == y.s.phase == (if stage == 0 then Init else Started)
    && (stage == 0 ==> cc.messageID != [])
  }

  // What the listener does with a stage's frame.
  function Heard(cc: ClientCfg, sc: ServerCfg, stage: nat, k: nat, y: Ctrl): Ctrl
    requires y.Reading?
  {
    var op, payload := StageOp(stage), StagePayload(cc, sc, stage);
    var y1 := y.s.(counter := k + 1);
    if !Fits(payload) then Failed(Close(y.s), FrameTooLarge)
    else if Unusable(cc, sc, stage) then Sending(y1, OP_RESEND, BigEndian(k, 2), AwaitAgain(Script, {op}, y.tries, y.prev))
    else Sending(y1.(consecResends := 0), OP_ACK, BigEndian(k, 2), Finish(Body(k, op, payload)))
  }

  lemma {:induction false} StageDecodes(cc: ClientCfg, sc: ServerCfg, stage: nat, k: nat, x: Session, y: Session)
    requires Setting(cc, sc) && stage <= 6 && k <= 30 && x.counter == y.counter == k && x.mac == y.mac == cc.mac
    requires !y.phase.Shut? && (stage == 0 ==> cc.messageID != [] && k == 0 && y.phase.Init?)
    ensures var payload := StagePayload(cc, sc, stage);
            var wire := Encode(x, StageOp(stage), payload).1;
            && |wire| >= MIN_DATA_LENGTH && wire[4..6] == BigEndian(k, 2)
            && Decode(y, wire) == if !Fits(payload) then (y, Fail(FrameTooLarge))
                                  else (y.(counter := k + 1), if Unusable(cc, sc, stage) then Fail(HasNoPayload) else Ok(Body(k, StageOp(stage), payload)))
  {
    DecodeEncoded(x, y, StageOp(stage), StagePayload(cc, sc, stage));
    WireLayout(x.mac, Body(k, StageOp(stage), StagePayload(cc, sc, stage)));
    StageValidation(cc, sc, stage, k, y);
  }

  lemma {:induction false} HearStage(cc: ClientCfg, sc: ServerCfg, stage: nat, k: nat, x: Session, y: Ctrl)
    requires Setting(cc, sc) && stage <= 6 && k <= 30 && x.counter == k && x.mac == cc.mac
    requires y.Reading? && y.caller.Script? && y.ops == {StageOp(stage)} && y.s.counter == k && y.s.mac == cc.mac
    requires !y.s.phase.Shut? && (stage == 0 ==> cc.messageID != [] && k == 0 && y.s.phase.Init?)
    ensures OnRead(y, Got(Encode(x, StageOp(stage), StagePayload(cc, sc, stage)).1)) == Heard(cc, sc, stage, k, y)
  {
    StageDecodes(cc, sc, stage, k, x, y.s);
    assert RequiresAck(StageOp(stage));
  }

  // The speaker waits for the ack of what it has just written.
  lemma {:induction false} Spoke(cc: ClientCfg, sc: ServerCfg, stage: nat, k: nat, x: Ctrl, y: Ctrl)
    requires Talking(cc, stage, k, x, y) && Exchange(cc, sc, stage, k, x, y) && x.Sending?
    ensures var x' := OnSend(x);
            && x'.Reading? && SameEnd(x.s, x'.s) && x'.s.counter == k + 1 && x'.ops == {OP_ACK, OP_RESEND} && x'.tries == 0
            && x'.caller == AwaitAck(k, y.tries) && y.tries < 3 && k == 2 * stage + 2 * y.tries
            && k in x'.s.sent && x'.s.sent[k] == Body(k, StageOp(stage), StagePayload(cc, sc, stage))
            && (y.tries > 0 ==> Unusable(cc, sc, stage))
  {
  }

  lemma {:induction false} Transmit(cc: ClientCfg, sc: ServerCfg, stage: nat, k: nat, x: Ctrl, y: Ctrl)
    requires Setting(cc, sc) && Talking(cc, stage, k, x, y) && Exchange(cc, sc, stage, k, x, y) && x.Sending?
    ensures var x', y' := OnSend(x), OnRead(y, Got(OutFrame(x)));
            && x'.Reading? && SameEnd(x.s, x'.s) && x'.s.counter == k + 1
            && if Fits(StagePayload(cc, sc, stage)) then
                 && y'.Sending? && SameEnd(y.s, y'.s) && y'.s.counter == k + 1
                 && Exchange(cc, sc, stage, k + 1, x', y')
               else y' == Failed(Close(y.s), FrameTooLarge)
  {
    Spoke(cc, sc, stage, k, x, y);
    HearStage(cc, sc, stage, k, x.s, y);
  }

  // What validation says of a stage's frame.
  lemma {:induction false} StageValidation(cc: ClientCfg, sc: ServerCfg, stage: nat, k: nat, s: Session)
    requires stage <= 6 && (stage == 0 ==> cc.messageID != [] && k == 0 && s.phase.Init?) && !s.phase.Shut?
    ensures Validate(s, Body(k, StageOp(stage), StagePayload(cc, sc, stage)))
         == (s, if Unusable(cc, sc, stage) then Fail(HasNoPayload) else Ok(()))
  {
  }

  // An ack or resend request is read back as written.
  lemma {:induction false} ReplyDecodes(x: Session, y: Session, op: byte, about: nat)
    requires GoodMac(x.mac) && x.mac == y.mac && x.counter == y.counter <= 30 && !x.phase.Shut?
    requires (op == OP_ACK || op == OP_RESEND) && about <= 30
    ensures var p := BigEndian(about, 2);
            && FromBigEndian(p[..2]) == about
            && Decode(x, Encode(y, op, p).1) == (x.(counter := x.counter + 1), Ok(Body(x.counter, op, p)))
  {
    U16(about);
    var p := BigEndian(about, 2);
    assert p[..2] == p;
    DecodeEncoded(y, x, op, p);
    assert Validate(x, Body(x.counter, op, p)) == (x, Ok(()));
  }

  lemma {:induction false} ReadsReply(x: Ctrl, wire: seq<byte>, s: Session, b: Body)
    requires x.Reading? && Decode(x.s, wire) == (s, Ok(b)) && b.op in x.ops && !RequiresAck(b.op)
    ensures OnRead(x, Got(wire)) == AwaitReturned(s.(consecResends := 0), x.caller, b)
  {
  }

  // The speaker reads the ack and is done.
  lemma {:induction false} ReadAck(cc: ClientCfg, sc: ServerCfg, stage: nat, k: nat, x: Ctrl, y: Ctrl)
    requires Setting(cc, sc) && Talking(cc, stage, k, x, y) && Exchange(cc, sc, stage, k, x, y)
    requires x.Reading? && y.after.Finish?
    ensures var s1 := x.s.(counter := k + 1, consecResends := 0, sent := x.s.sent - {k - 1});
            OnRead(x, Got(OutFrame(y))) == Done(s1, Body(k, OP_ACK, BigEndian(k - 1, 2)))
  {
    ReplyDecodes(x.s, y.s, OP_ACK, k - 1);
    ReadsReply(x, OutFrame(y), x.s.(counter := k + 1), Body(k, OP_ACK, BigEndian(k - 1, 2)));
  }

  // The listener has written it and has the frame.
  lemma {:induction false} SentAck(cc: ClientCfg, sc: ServerCfg, stage: nat, k: nat, x: Ctrl, y: Ctrl)
    requires Talking(cc, stage, k, x, y) && Exchange(cc, sc, stage, k, x, y) && x.Reading? && y.after.Finish?
    ensures var y' := OnSend(y);
            && SameEnd(y.s, y'.s) && y'.s.counter == k + 1
            && y' == Done(y'.s, Body(k - 1, StageOp(stage), StagePayload(cc, sc, stage)))
            && Fits(StagePayload(cc, sc, stage)) && !Unusable(cc, sc, stage)
  {
  }

  lemma {:induction false} AnswerAck(cc: ClientCfg, sc: ServerCfg, stage: nat, k: nat, x: Ctrl, y: Ctrl)
    requires Setting(cc, sc) && Talking(cc, stage, k, x, y) && Exchange(cc, sc, stage, k, x, y)
    requires x.Reading? && y.after.Finish?
    ensures var x', y' := OnRead(x, Got(OutFrame(y))), OnSend(y); Acked(cc, sc, stage, k, x.s, y.s, x', y')
  {
    ReadAck(cc, sc, stage, k, x, y);
    SentAck(cc, sc, stage, k, x, y);
  }

  // The stage's frame has been delivered and acknowledged.
  ghost predicate Acked(cc: ClientCfg, sc: ServerCfg, stage: nat, k: nat, x: Session, y: Session, x': Ctrl, y': Ctrl) {
    && x'.Done? && SameEnd(x, x'.s) && x'.s.counter == k + 1
    && y'.Done? && SameEnd(y, y'.s) && y'.s.counter == k + 1
    && k >= 1 && y'.reply == Body(k - 1, StageOp(stage), StagePayload(cc, sc, stage))
    && Fits(StagePayload(cc, sc, stage)) && !Unusable(cc, sc, stage)
  }

  // The speaker reads the request and is about to transmit again.
  lemma {:induction false} ReadResend(cc: ClientCfg, sc: ServerCfg, stage: nat, k: nat, x: Ctrl, y: Ctrl)
    requires Setting(cc, sc) && Talking(cc, stage, k, x, y) && Exchange(cc, sc, stage, k, x, y)
    requires x.Reading? && y.after.AwaitAgain?
    ensures OnRead(x, Got(OutFrame(y)))
         == Sending(x.s.(counter := k + 1, consecResends := 1), StageOp(stage), StagePayload(cc, sc, stage), NextRound(k - 1, x.caller.round))
  {
    ReplyDecodes(x.s, y.s, OP_RESEND, k - 1);
    var b := Body(k, OP_RESEND, BigEndian(k - 1, 2));
    var s1 := x.s.(counter := k + 1, consecResends := 0);
    ReadsReply(x, OutFrame(y), x.s.(counter := k + 1), b);
    assert AwaitReturned(s1, x.caller, b) == Retransmit(s1, k - 1, k - 1, x.caller.round);
  }

  // The listener has written the request and waits again, unless this was its last.
  lemma {:induction false} SentResend(cc: ClientCfg, sc: ServerCfg, stage: nat, k: nat, x: Ctrl, y: Ctrl)
    requires Setting(cc, sc) && Talking(cc, stage, k, x, y) && Exchange(cc, sc, stage, k, x, y)
    requires x.Reading? && y.after.AwaitAgain?
    ensures var y' := OnSend(y);
            && y'.s.counter == k + 1
            && if x.caller.round < 2
               then y'.Reading? && SameEnd(y.s, y'.s) && y'.caller.Script? && y'.ops == {StageOp(stage)} && y'.tries == x.caller.round + 1
               else y'.Failed?
  {
  }

  lemma {:induction false} AnswerResend(cc: ClientCfg, sc: ServerCfg, stage: nat, k: nat, x: Ctrl, y: Ctrl)
    requires Setting(cc, sc) && Talking(cc, stage, k, x, y) && Exchange(cc, sc, stage, k, x, y)
    requires x.Reading? && y.after.AwaitAgain?
    ensures var x', y' := OnRead(x, Got(OutFrame(y))), OnSend(y);
            && x'.Sending? && SameEnd(x.s, x'.s) && x'.s.counter == k + 1 && y'.s.counter == k + 1
            && x'.after == NextRound(k - 1, x.caller.round) && Unusable(cc, sc, stage)
            && x'.op == StageOp(stage) && x'.payload == StagePayload(cc, sc, stage)
            && if x.caller.round < 2
               then y'.Reading? && SameEnd(y.s, y'.s) && Exchange(cc, sc, stage, k + 1, x', y')
               else y'.Failed?
  {
    ReadResend(cc, sc, stage, k, x, y);
    SentResend(cc, sc, stage, k, x, y);
  }

  // ----- Every step of the path -----

  lemma {:induction false} ClientWrites(cc: ClientCfg, sc: ServerCfg, d: Duo)
    requires Sends(d.c) && Waits(d.s)
    ensures SyncStep(cc, sc, d) == Duo(ClientStep(cc, d.c.stage, d.c.memo, OnSend(d.c.ctrl)),
                                       ServerStep(sc, d.s.stage, d.s.memo, OnRead(d.s.ctrl, Got(OutFrame(d.c.ctrl)))))
  {
  }

  lemma {:induction false} ServerWrites(cc: ClientCfg, sc: ServerCfg, d: Duo)
    requires Waits(d.c) && Sends(d.s)
    ensures SyncStep(cc, sc, d) == Duo(ClientStep(cc, d.c.stage, d.c.memo, OnRead(d.c.ctrl, Got(OutFrame(d.s.ctrl)))),
                                       ServerStep(sc, d.s.stage, d.s.memo, OnSend(d.s.ctrl)))
  {
  }

  // A frame was transmitted: x' and y' are the speaker and the listener afterwards.
  ghost predicate Transmitted(cc: ClientCfg, sc: ServerCfg, stage: nat, k: nat, x: Session, y: Session, x': Ctrl, y': Ctrl) {
    && x'.Reading? && SameEnd(x, x'.s) && x'.s.counter == k + 1
    && if Fits(StagePayload(cc, sc, stage)) then
         y'.Sending? && SameEnd(y, y'.s) && y'.s.counter == k + 1 && Exchange(cc, sc, stage, k + 1, x', y')
       else y' == Failed(Close(y), FrameTooLarge)
  }

  lemma {:induction false} AfterClientTransmits(cc: ClientCfg, sc: ServerCfg, k: nat, d: Duo, x': Ctrl, y': Ctrl)
    requires Setting(cc, sc) && d.c.Active? && d.s.Active? && BothActive(cc, sc, k, d) && d.c.stage < 7
    requires ClientSpeaks(d.c.stage) && d.c.ctrl.Sending? && Transmitted(cc, sc, d.c.stage, k, d.c.ctrl.s, d.s.ctrl.s, x', y')
    ensures PathOk(cc, sc, k + 1, Duo(ClientStep(cc, d.c.stage, d.c.memo, x'), ServerStep(sc, d.s.stage, d.s.memo, y')))
  {
  }

  lemma {:induction false} AfterServerTransmits(cc: ClientCfg, sc: ServerCfg, k: nat, d: Duo, x': Ctrl, y': Ctrl)
    requires Setting(cc, sc) && d.c.Active? && d.s.Active? && BothActive(cc, sc, k, d) && d.c.stage < 7
    requires !ClientSpeaks(d.c.stage) && d.s.ctrl.Sending? && Transmitted(cc, sc, d.c.stage, k, d.s.ctrl.s, d.c.ctrl.s, x', y')
    ensures PathOk(cc, sc, k + 1, Duo(ClientStep(cc, d.c.stage, d.c.memo, y'), ServerStep(sc, d.s.stage, d.s.memo, x')))
  {
  }

  lemma {:induction false} StepTransmit(cc: ClientCfg, sc: ServerCfg, k: nat, d: Duo)
    requires Setting(cc, sc) && d.c.Active? && d.s.Active? && BothActive(cc, sc, k, d) && d.c.stage < 7
    requires if ClientSpeaks(d.c.stage) then d.c.ctrl.Sending? else d.s.ctrl.Sending?
    ensures PathOk(cc, sc, k + 1, SyncStep(cc, sc, d))
  {
    var stage := d.c.stage;
    if ClientSpeaks(stage) {
      Transmit(cc, sc, stage, k, d.c.ctrl, d.s.ctrl);
      ClientWrites(cc, sc, d);
      AfterClientTransmits(cc, sc, k, d, OnSend(d.c.ctrl), OnRead(d.s.ctrl, Got(OutFrame(d.c.ctrl))));
    } else {
      Transmit(cc, sc, stage, k, d.s.ctrl, d.c.ctrl);
      ServerWrites(cc, sc, d);
      AfterServerTransmits(cc, sc, k, d, OnSend(d.s.ctrl), OnRead(d.c.ctrl, Got(OutFrame(d.s.ctrl))));
    }
  }

  lemma {:induction false} StepResend(cc: ClientCfg, sc: ServerCfg, k: nat, d: Duo)
    requires Setting(cc, sc) && d.c.Active? && d.s.Active? && BothActive(cc, sc, k, d) && d.c.stage < 7
    requires ClientSpeaks(d.c.stage) && d.c.ctrl.Reading? && d.s.ctrl.after.AwaitAgain?
    ensures PathOk(cc, sc, k + 1, SyncStep(cc, sc, d))
  {
    AnswerResend(cc, sc, d.c.stage, k, d.c.ctrl, d.s.ctrl);
  }

  // Both ends enter a stage together.
  lemma {:induction false} Enter(cc: ClientCfg, sc: ServerCfg, stage: nat, draining: bool, memo: seq<byte>, x: Session, y: Session)
    requires Setting(cc, sc) && 1 <= stage <= 7
    requires x.counter == y.counter == 2 * stage && x.mac == y.mac == cc.mac && x.phase.Started? && y.phase.Started?
    requires StartOk(cc) && y.messageID == cc.messageID
    requires stage >= 2 ==> SenderOk(cc, sc) && y.obo == cc.sender
    requires stage >= 4 ==> sc.running && draining
    requires stage >= 6 ==> sc.knows(cc.messageID) && cc.fragment.Some?
    requires stage >= 7 ==> FragmentOk(cc) && memo == cc.fragment.value
    ensures PathOk(cc, sc, 2 * stage, Duo(ClientAt(cc, stage, draining, x), ServerAt(sc, stage, memo, y)))
  {
    var d := Duo(ClientAt(cc, stage, draining, x), ServerAt(sc, stage, memo, y));
    assert d.c.Active? && d.s.Active? && Learned(cc, sc, stage, d);
  }

  lemma {:induction false} AfterClientAcked(cc: ClientCfg, sc: ServerCfg, k: nat, d: Duo, x: Ctrl, y: Ctrl)
    requires Setting(cc, sc) && d.c.Active? && d.s.Active? && BothActive(cc, sc, k, d) && d.c.stage < 7
    requires ClientSpeaks(d.c.stage) && d.c.ctrl.Reading? && k == 2 * d.c.stage + 1
    requires Acked(cc, sc, d.c.stage, k, d.c.ctrl.s, d.s.ctrl.s, x, y)
    ensures PathOk(cc, sc, k + 1, Duo(ClientStep(cc, d.c.stage, d.c.memo, x), ServerStep(sc, d.s.stage, d.s.memo, y)))
  {
    var stage := d.c.stage;
    match stage
    case 0 => Enter(cc, sc, 1, d.c.memo, d.s.memo, x.s.(phase := Started), y.s.(messageID := cc.messageID, phase := Started));
    case 1 => if sc.validSender(cc.sender) { Enter(cc, sc, 2, d.c.memo, d.s.memo, x.s, y.s.(obo := cc.sender)); }
    case 6 => Enter(cc, sc, 7, d.c.memo, cc.fragment.value, x.s, y.s);
    case _ => Enter(cc, sc, stage + 1, d.c.memo, d.s.memo, x.s, y.s);
  }

  lemma {:induction false} StepClientAcked(cc: ClientCfg, sc: ServerCfg, k: nat, d: Duo)
    requires Setting(cc, sc) && d.c.Active? && d.s.Active? && BothActive(cc, sc, k, d) && d.c.stage < 7
    requires ClientSpeaks(d.c.stage) && d.c.ctrl.Reading? && d.s.ctrl.after.Finish?
    ensures PathOk(cc, sc, k + 1, SyncStep(cc, sc, d))
  {
    AnswerAck(cc, sc, d.c.stage, k, d.c.ctrl, d.s.ctrl);
    ServerWrites(cc, sc, d);
    AfterClientAcked(cc, sc, k, d, OnRead(d.c.ctrl, Got(OutFrame(d.s.ctrl))), OnSend(d.s.ctrl));
  }

  lemma {:induction false} AfterServerAcked(cc: ClientCfg, sc: ServerCfg, k: nat, d: Duo, x: Ctrl, y: Ctrl)
    requires Setting(cc, sc) && d.c.Active? && d.s.Active? && BothActive(cc, sc, k, d) && d.c.stage < 7
    requires !ClientSpeaks(d.c.stage) && d.s.ctrl.Reading? && k == 2 * d.c.stage + 1
    requires Acked(cc, sc, d.c.stage, k, d.s.ctrl.s, d.c.ctrl.s, y, x)
    ensures PathOk(cc, sc, k + 1, Duo(ClientStep(cc, d.c.stage, d.c.memo, x), ServerStep(sc, d.s.stage, d.s.memo, y)))
  {
    var stage := d.c.stage;
    if stage == 3 && sc.running {
      Enter(cc, sc, 4, true, d.s.memo, x.s, y.s);
    } else if stage == 5 && sc.knows(cc.messageID) && cc.fragment.Some? {
      Enter(cc, sc, 6, d.c.memo, d.s.memo, x.s, y.s);
    }
  }

  lemma {:induction false} StepServerAcked(cc: ClientCfg, sc: ServerCfg, k: nat, d: Duo)
    requires Setting(cc, sc) && d.c.Active? && d.s.Active? && BothActive(cc, sc, k, d) && d.c.stage < 7
    requires !ClientSpeaks(d.c.stage) && d.s.ctrl.Reading?
    ensures PathOk(cc, sc, k + 1, SyncStep(cc, sc, d))
  {
    AnswerAck(cc, sc, d.c.stage, k, d.s.ctrl, d.c.ctrl);
    ClientWrites(cc, sc, d);
    AfterServerAcked(cc, sc, k, d, OnSend(d.c.ctrl), OnRead(d.s.ctrl, Got(OutFrame(d.c.ctrl))));
  }

  lemma {:induction false} VerdictDecodes(x: Session, y: Session, op: byte)
    requires GoodMac(x.mac) && x.mac == y.mac && x.counter == y.counter == 14 && x.phase.Started?
    requires op == OP_ACCEPTED || op == OP_REJECTED
    ensures Decode(x, Encode(y, op, []).1)
         == if op == OP_ACCEPTED then (Close(x).(counter := 15), Ok(Body(14, op, []))) else (x, Fail(RemoteRejected))
  {
    DecodeEncoded(y, x, op, []);
  }

  lemma {:induction false} ReadsFailure(x: Ctrl, wire: seq<byte>, s: Session, e: Err)
    requires x.Reading? && Decode(x.s, wire) == (s, Fail(e)) && !Retryable(e)
    ensures OnRead(x, Got(wire)) == AwaitFailed(Close(s), x.caller, e)
  {
  }

  // The client reads the server's verdict.
  lemma {:induction false} ReadVerdict(x: Ctrl, y: Session, op: byte)
    requires x.Reading? && x.caller.Script? && x.ops == {OP_ACCEPTED} && GoodMac(x.s.mac) && x.s.mac == y.mac
    requires x.s.counter == y.counter == 14 && x.s.phase.Started? && (op == OP_ACCEPTED || op == OP_REJECTED)
    ensures var x' := OnRead(x, Got(Encode(y, op, []).1));
            if op == OP_ACCEPTED then x'.Done? else x'.Failed? && x'.e == RemoteRejected
  {
    var wire := Encode(y, op, []).1;
    VerdictDecodes(x.s, y, op);
    if op == OP_ACCEPTED { ReadsReply(x, wire, Close(x.s).(counter := 15), Body(14, op, [])); }
    else { ReadsFailure(x, wire, x.s, RemoteRejected); }
  }

  lemma {:induction false} StepVerdict(cc: ClientCfg, sc: ServerCfg, k: nat, d: Duo)
    requires Setting(cc, sc) && d.c.Active? && d.s.Active? && BothActive(cc, sc, k, d) && d.c.stage == 7
    ensures PathOk(cc, sc, k + 1, SyncStep(cc, sc, d))
  {
    ReadVerdict(d.c.ctrl, d.s.ctrl.s, d.s.ctrl.op);
    var x, y := OnRead(d.c.ctrl, Got(OutFrame(d.s.ctrl))), OnSend(d.s.ctrl);
    assert SyncStep(cc, sc, d) == Duo(ClientStep(cc, 7, d.c.memo, x), ServerStep(sc, 7, d.s.memo, y));
  }

  lemma {:induction false} StepWithoutServer(cc: ClientCfg, sc: ServerCfg, k: nat, d: Duo)
    requires Setting(cc, sc) && d.c.Active? && d.s.Halted? && ServerGone(cc, sc, k, d)
    ensures PathOk(cc, sc, k + 1, SyncStep(cc, sc, d))
  {
  }

  lemma {:induction false} StepWithoutClient(cc: ClientCfg, sc: ServerCfg, k: nat, d: Duo)
    requires Setting(cc, sc) && d.c.Halted? && d.s.Active? && ClientGone(cc, sc, k, d)
    ensures PathOk(cc, sc, k + 1, SyncStep(cc, sc, d))
  {
  }

  lemma {:induction false} StepOk(cc: ClientCfg, sc: ServerCfg, k: nat, d: Duo)
    requires Setting(cc, sc) && PathOk(cc, sc, k, d)
    ensures PathOk(cc, sc, k + 1, SyncStep(cc, sc, d))
  {
    if d.c.Active? && d.s.Active? {
      var speaker := if ClientSpeaks(d.c.stage) then d.c.ctrl else d.s.ctrl;
      if d.c.stage == 7 { StepVerdict(cc, sc, k, d); }
      else if speaker.Sending? { StepTransmit(cc, sc, k, d); }
      else if !ClientSpeaks(d.c.stage) { StepServerAcked(cc, sc, k, d); }
      else if d.s.ctrl.after.Finish? { StepClientAcked(cc, sc, k, d); }
      else { StepResend(cc, sc, k, d); }
    } else if d.c.Active? {
      StepWithoutServer(cc, sc, k, d);
    } else if d.s.Active? {
      StepWithoutClient(cc, sc, k, d);
    }
  }

  lemma {:induction false} PathStarts(cc: ClientCfg, sc: ServerCfg)
    requires Setting(cc, sc)
    ensures PathOk(cc, sc, 0, Duo(ClientInit(cc), ServerInit(sc)))
  {
  }

  lemma {:induction false} AlongThePath(cc: ClientCfg, sc: ServerCfg, k: nat)
    requires Setting(cc, sc)
    ensures PathOk(cc, sc, k, Path(cc, sc, k))
  {
    var inv := (i: nat, d: Duo) => PathOk(cc, sc, i, d);
    PathStarts(cc, sc);
    forall i: nat, d: Duo | inv(i, d) ensures inv(i + 1, SyncStep(cc, sc, d)) { StepOk(cc, sc, i, d); }
    IterateKeeps(d => SyncStep(cc, sc, d), Duo(ClientInit(cc), ServerInit(sc)), inv, k);
  }

  // ----- Every interleaving -----

  function Mode<M, R>(p: Party<M, R>): HD.Mode {
    if Sends(p) then HD.Writes else if Waits(p) then HD.Waits else HD.Over
  }

  // The two ends and their conversation, as the two halves of a half-duplex system.
  function Ends(cc: ClientCfg, sc: ServerCfg): HD.System<Client, Server, seq<byte>> {
    HD.System(
      (c: Client) => Mode(c),
      (c: Client) => if Sends(c) then OutFrame(c.ctrl) else [],
      (c: Client) => if Sends(c) then ClientSent(cc, c) else c,
      (c: Client, w: seq<byte>) => if Waits(c) then ClientGot(cc, c, Got(w)) else c,
      (c: Client) => if Waits(c) then ClientGot(cc, c, Closed) else c,
      (s: Server) => Mode(s),
      (s: Server) => if Sends(s) then OutFrame(s.ctrl) else [],
      (s: Server) => if Sends(s) then ServerSent(sc, s) else s,
      (s: Server, w: seq<byte>) => if Waits(s) then ServerGot(sc, s, Got(w)) else s,
      (s: Server) => if Waits(s) then ServerGot(sc, s, Closed) else s,
      (k: nat) => Path(cc, sc, k).c,
      (k: nat) => Path(cc, sc, k).s)
  }

  type Net = HD.Net<Client, Server, seq<byte>>

  ghost predicate Run(cc: ClientCfg, sc: ServerCfg, run: seq<Net>) { HD.Run(Ends(cc, sc), run) }

  // An end that has not returned is about to write or waiting, and its counter is its step count.
  lemma {:induction false} PathFacts(cc: ClientCfg, sc: ServerCfg, k: nat)
    requires Setting(cc, sc)
    ensures var d := Path(cc, sc, k);
            && (d.c.Active? ==> (Sends(d.c) || Waits(d.c)) && d.c.ctrl.s.counter == k <= 22)
            && (d.s.Active? ==> (Sends(d.s) || Waits(d.s)) && d.s.ctrl.s.counter == k <= 22)
            && !(Sends(d.c) && Sends(d.s)) && !(Waits(d.c) && Waits(d.s))
  {
    AlongThePath(cc, sc, k);
  }

  // One pair of states and its successor.
  lemma {:induction false} SyncLaw(cc: ClientCfg, sc: ServerCfg, d: Duo)
    requires !(Sends(d.c) && Sends(d.s)) && !(Waits(d.c) && Waits(d.s))
    requires d.c.Active? ==> Sends(d.c) || Waits(d.c)
    requires d.s.Active? ==> Sends(d.s) || Waits(d.s)
    ensures var d' := SyncStep(cc, sc, d); Ends(cc, sc).Law(d.c, d.s, d'.c, d'.s)
  {
  }

  lemma {:induction false} OneStepOn(cc: ClientCfg, sc: ServerCfg, k: nat)
    ensures Path(cc, sc, k + 1) == SyncStep(cc, sc, Path(cc, sc, k))
  {
  }

  lemma {:induction false} EndsFollowPath(cc: ClientCfg, sc: ServerCfg, k: nat)
    ensures Ends(cc, sc).pc(k) == Path(cc, sc, k).c && Ends(cc, sc).ps(k) == Path(cc, sc, k).s
  {
  }

  lemma {:induction false} StepLaw(cc: ClientCfg, sc: ServerCfg, k: nat)
    requires Setting(cc, sc)
    ensures Ends(cc, sc).StepLaw(k)
  {
    PathFacts(cc, sc, k);
    EndsFollowPath(cc, sc, k);
    EndsFollowPath(cc, sc, k + 1);
    OneStepOn(cc, sc, k);
    LawBetween(cc, sc, Ends(cc, sc), k, Path(cc, sc, k), Path(cc, sc, k + 1));
  }

  lemma {:induction false} LawBetween(cc: ClientCfg, sc: ServerCfg, sys: HD.System<Client, Server, seq<byte>>, k: nat, d: Duo, d': Duo)
    requires sys == Ends(cc, sc) && d' == SyncStep(cc, sc, d)
    requires sys.pc(k) == d.c && sys.ps(k) == d.s && sys.pc(k + 1) == d'.c && sys.ps(k + 1) == d'.s
    requires !(Sends(d.c) && Sends(d.s)) && !(Waits(d.c) && Waits(d.s))
    requires (d.c.Active? ==> Sends(d.c) || Waits(d.c)) && (d.s.Active? ==> Sends(d.s) || Waits(d.s))
    ensures sys.StepLaw(k)
  {
    SyncLaw(cc, sc, d);
    SameLaw(sys, k, d, d');
  }

  lemma {:induction false} SameLaw(sys: HD.System<Client, Server, seq<byte>>, k: nat, d: Duo, d': Duo)
    requires sys.Law(d.c, d.s, d'.c, d'.s) && sys.pc(k) == d.c && sys.ps(k) == d.s && sys.pc(k + 1) == d'.c && sys.ps(k + 1) == d'.s
    ensures sys.StepLaw(k)
  {
  }

  lemma {:induction false} EndsAreLawful(cc: ClientCfg, sc: ServerCfg)
    requires Setting(cc, sc)
    ensures Ends(cc, sc).Lawful()
  {
    forall k: nat ensures Ends(cc, sc).StepLaw(k) { StepLaw(cc, sc, k); }
  }

  // PathFacts in the terms of the half-duplex system.
  lemma {:induction false} StepFacts(cc: ClientCfg, sc: ServerCfg, k: nat)
    requires Setting(cc, sc)
    ensures var sys := Ends(cc, sc);
            var c, s := sys.pc(k), sys.ps(k);
            && Duo(c, s) == Path(cc, sc, k)
            && sys.cMode(c) == Mode(c) && sys.sMode(s) == Mode(s)
            && (Mode(c).Over? <==> c.Halted?) && (Mode(s).Over? <==> s.Halted?)
            && (c.Active? ==> c.ctrl.s.counter == k <= 22) && (s.Active? ==> s.ctrl.s.counter == k <= 22)
  {
    PathFacts(cc, sc, k);
  }

  // The frame written in step k carries sequence number k.
  ghost predicate Numbered(sys: HD.System<Client, Server, seq<byte>>, k: nat) {
    && (sys.cMode(sys.pc(k)).Writes? ==> |sys.cOut(sys.pc(k))| >= MIN_DATA_LENGTH && WireSeq(sys.cOut(sys.pc(k))) == k)
    && (sys.sMode(sys.ps(k)).Writes? ==> |sys.sOut(sys.ps(k))| >= MIN_DATA_LENGTH && WireSeq(sys.sOut(sys.ps(k))) == k)
  }

  lemma {:induction false} FramesAreNumbered(cc: ClientCfg, sc: ServerCfg, k: nat)
    requires Setting(cc, sc)
    ensures Numbered(Ends(cc, sc), k)
  {
    AlongThePath(cc, sc, k);
    var d := Path(cc, sc, k);
    if Sends(d.c) { WireLayout(cc.mac, Body(k, d.c.ctrl.op, d.c.ctrl.payload)); }
    if Sends(d.s) { WireLayout(cc.mac, Body(k, d.s.ctrl.op, d.s.ctrl.payload)); }
  }

  lemma {:induction false} NumbersInFlight(sys: HD.System<Client, Server, seq<byte>>, n: Net, a: nat, b: nat)
    requires HD.Lockstep(sys, n, a, b) && !sys.cMode(n.c).Over? && !sys.sMode(n.s).Over?
    requires forall k: nat :: Numbered(sys, k)
    ensures |n.cs| - |n.sc| == a - b && (n.cs == [] || n.sc == [])
    ensures forall i: nat :: i < |n.cs| ==> |n.cs[i]| >= MIN_DATA_LENGTH && WireSeq(n.cs[i]) == b + i
    ensures forall i: nat :: i < |n.sc| ==> |n.sc[i]| >= MIN_DATA_LENGTH && WireSeq(n.sc[i]) == a + i
  {
    HD.InFlight(sys, n, a, b);
    forall i: nat | i < |n.cs| ensures |n.cs[i]| >= MIN_DATA_LENGTH && WireSeq(n.cs[i]) == b + i {
      assert Numbered(sys, b + i);
    }
    forall i: nat | i < |n.sc| ensures |n.sc[i]| >= MIN_DATA_LENGTH && WireSeq(n.sc[i]) == a + i {
      assert Numbered(sys, a + i);
    }
  }

  // In any run, the last state is the client's a-th and the server's b-th state of the path,
  // after a + b moves.
  lemma {:induction false} OnThePath(cc: ClientCfg, sc: ServerCfg, run: seq<Net>) returns (a: nat, b: nat)
    requires Setting(cc, sc) && Run(cc, sc, run)
    ensures HD.Lockstep(Ends(cc, sc), run[|run|-1], a, b) && a + b == |run| - 1 && a <= 23 && b <= 23
  {
    EndsAreLawful(cc, sc);
    var sys := Ends(cc, sc);
    forall k: nat | k >= 23 ensures sys.cMode(sys.pc(k)).Over? && sys.sMode(sys.ps(k)).Over? {
      StepFacts(cc, sc, k);
    }
    a, b := HD.RunsAreShort(sys, run, 23);
  }

  // ----- Main results, over every run -----

  // While neither end has returned: the counters differ by the frames in flight, frames travel
  // in one direction at a time, their sequence numbers are consecutive from the receiver's
  // counter, and the counters stay far from the limit.
  lemma {:induction false} CountersMatchFramesInFlight(cc: ClientCfg, sc: ServerCfg, run: seq<Net>)
    requires Setting(cc, sc) && Run(cc, sc, run)
    requires var n := run[|run|-1]; n.c.Active? && n.s.Active?
    ensures var n := run[|run|-1];
            var x, y := n.c.ctrl.s, n.s.ctrl.s;
            && x.counter - y.counter == |n.cs| - |n.sc|
            && (n.cs == [] || n.sc == [])
            && (forall i: nat :: i < |n.cs| ==> |n.cs[i]| >= MIN_DATA_LENGTH && WireSeq(n.cs[i]) == y.counter + i)
            && (forall i: nat :: i < |n.sc| ==> |n.sc[i]| >= MIN_DATA_LENGTH && WireSeq(n.sc[i]) == x.counter + i)
            && x.counter < MAX_SEQUENCE && y.counter < MAX_SEQUENCE
  {
    var n := run[|run|-1];
    var a, b := OnThePath(cc, sc, run);
    StepFacts(cc, sc, a);
    StepFacts(cc, sc, b);
    forall k: nat ensures Numbered(Ends(cc, sc), k) { FramesAreNumbered(cc, sc, k); }
    NumbersInFlight(Ends(cc, sc), n, a, b);
  }

  // No end ever rejects a frame for its sequence number, whether or not the other has returned.
  lemma {:induction false} NoBadSequence(cc: ClientCfg, sc: ServerCfg, run: seq<Net>)
    requires Setting(cc, sc) && Run(cc, sc, run)
    ensures var n := run[|run|-1];
            && (n.c.Active? && n.sc != [] ==> Decode(n.c.ctrl.s, n.sc[0]).1 != Fail(BadSequence))
            && (n.s.Active? && n.cs != [] ==> Decode(n.s.ctrl.s, n.cs[0]).1 != Fail(BadSequence))
  {
    var n := run[|run|-1];
    var a, b := OnThePath(cc, sc, run);
    StepFacts(cc, sc, a);
    StepFacts(cc, sc, b);
    FramesAreNumbered(cc, sc, a);
    FramesAreNumbered(cc, sc, b);
    NextInFlight(Ends(cc, sc), n, a, b);
    if n.c.Active? && n.sc != [] { RightSequence(n.c.ctrl.s, n.sc[0]); }
    if n.s.Active? && n.cs != [] { RightSequence(n.s.ctrl.s, n.cs[0]); }
  }

  // The next frame for a live end is the one written in the step that end is at.
  lemma {:induction false} NextInFlight(sys: HD.System<Client, Server, seq<byte>>, n: Net, a: nat, b: nat)
    requires HD.Lockstep(sys, n, a, b) && Numbered(sys, a) && Numbered(sys, b)
    ensures !sys.cMode(n.c).Over? && n.sc != [] ==> |n.sc[0]| >= MIN_DATA_LENGTH && WireSeq(n.sc[0]) == a
    ensures !sys.sMode(n.s).Over? && n.cs != [] ==> |n.cs[0]| >= MIN_DATA_LENGTH && WireSeq(n.cs[0]) == b
  {
  }

  lemma {:induction false} RightSequence(s: Session, wire: seq<byte>)
    requires |wire| >= MIN_DATA_LENGTH && WireSeq(wire) == s.counter
    ensures Decode(s, wire).1 != Fail(BadSequence)
  {
  }

  // A session never deadlocks, and is over after at most 46 moves.
  lemma {:induction false} EverySessionEnds(cc: ClientCfg, sc: ServerCfg, run: seq<Net>)
    requires Setting(cc, sc) && Run(cc, sc, run)
    ensures |run| <= 47
    ensures var n := run[|run|-1];
            n.c.Active? || n.s.Active? ==> exists n': Net :: HD.Moves(Ends(cc, sc), n, n')
  {
    var n := run[|run|-1];
    EndsAreLawful(cc, sc);
    var a, b := OnThePath(cc, sc, run);
    StepFacts(cc, sc, a);
    StepFacts(cc, sc, b);
    if n.c.Active? || n.s.Active? {
      var n' := HD.SomeoneMoves(Ends(cc, sc), n, a, b);
    }
  }

  // The two ends before their first frame are a run.
  lemma {:induction false} SessionStarts(cc: ClientCfg, sc: ServerCfg) returns (run: seq<Net>)
    ensures Run(cc, sc, run) && |run| == 1
  {
    var sys := Ends(cc, sc);
    run := [HD.Net(sys.pc(0), sys.ps(0), [], [])];
  }

  lemma {:induction false} OneMoreStep(cc: ClientCfg, sc: ServerCfg, run: seq<Net>) returns (longer: seq<Net>)
    requires Setting(cc, sc) && Run(cc, sc, run) && (run[|run|-1].c.Active? || run[|run|-1].s.Active?)
    ensures Run(cc, sc, longer) && run <= longer && |longer| == |run| + 1 <= 47
  {
    EverySessionEnds(cc, sc, run);
    var n': Net :| HD.Moves(Ends(cc, sc), run[|run|-1], n');
    HD.OneMoreMove(Ends(cc, sc), run, n');
    longer := run + [n'];
    EverySessionEnds(cc, sc, longer);
  }

  // Every run can be continued until both ends have returned.
  lemma {:induction false} EveryRunCompletes(cc: ClientCfg, sc: ServerCfg, run: seq<Net>) returns (full: seq<Net>)
    requires Setting(cc, sc) && Run(cc, sc, run)
    ensures Run(cc, sc, full) && run <= full && full[|full|-1].c.Halted? && full[|full|-1].s.Halted?
    decreases 47 - |run|
  {
    full := run;
    if run[|run|-1].c.Active? || run[|run|-1].s.Active? {
      var longer := OneMoreStep(cc, sc, run);
      full := EveryRunCompletes(cc, sc, longer);
    }
  }

  // In every completed session: the client reports delivery exactly when the server's local
  // routing took the fragment, which was then the client's own fragment under the client's
  // message ID and original sender; it re-routes locally exactly when the server did not have
  // the message.  The server has learned the message ID and the sender whatever the outcome.
  lemma {:induction false} SessionAgreement(cc: ClientCfg, sc: ServerCfg, run: seq<Net>)
    requires Setting(cc, sc) && Run(cc, sc, run)
    requires var n := run[|run|-1]; n.c.Halted? && n.s.Halted?
    ensures var n := run[|run|-1];
            && (n.c.result.Delivered? <==> n.s.result.Routed?)
            && (StartOk(cc) ==> n.s.s.messageID == cc.messageID)
            && (StartOk(cc) && cc.sender != [] && Fits(cc.sender) ==> n.s.s.obo == cc.sender)
            && (n.s.result.Routed? || n.s.result.Refused? ==>
                  && cc.fragment == Some(n.s.result.fragment)
                  && n.s.s.messageID == cc.messageID && n.s.s.obo == cc.sender
                  && sc.knows(cc.messageID))
            && (n.c.result.Delivered? <==> Reaches(cc, sc) && sc.routes(cc.sender, cc.fragment.value))
            && (n.s.result.Refused? ==> n.c.result == ClientError(RemoteRejected))
            && (n.c.result.Reroute? <==> Unknown(cc, sc))
  {
    var n := run[|run|-1];
    var a, b := OnThePath(cc, sc, run);
    var m := if a <= b then b else a;
    EndsAreLawful(cc, sc);
    HD.StaysOver(Ends(cc, sc), a, m);
    HD.StaysOver(Ends(cc, sc), b, m);
    StepFacts(cc, sc, a);
    StepFacts(cc, sc, b);
    StepFacts(cc, sc, m);
    AlongThePath(cc, sc, m);
    assert Final(cc, sc, Duo(n.c, n.s));
  }

  // The client writes a fragment only after the server's bucket check found the message.
  lemma {:induction false} FragmentOnlyIfKnown(cc: ClientCfg, sc: ServerCfg, run: seq<Net>)
    requires Setting(cc, sc) && Run(cc, sc, run)
    requires var n := run[|run|-1]; Sends(n.c) && n.c.ctrl.op == OP_FRG_ROUTE
    ensures sc.knows(cc.messageID)
  {
    var a, b := OnThePath(cc, sc, run);
    StepFacts(cc, sc, a);
    AlongThePath(cc, sc, a);
  }
}
