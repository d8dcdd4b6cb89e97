/**
  One FIPR session end as an input/output automaton (pkg/fipr/handlers.go, encoding.go,
  validation.go, helpers.go).  A session call runs until it has to write a frame or read
  one; `Sending` and `Reading` are those two suspension points, and the local computation
  between them is folded into the step.  Writes succeed; a read delivers a frame, a bad
  length field, or the end of the stream.
*/
module FiprSession {
  import opened Bytes
  import opened FiprFrame
  import opened Options

  const MAX_RESENDS := 3

  datatype Phase = Init | Started | Shut

  datatype Err =
    | TransportClosed | InvalidFrameLen | FrameTooShort | FrameTooLarge | BadSequence | InvalidHmac
    | SessionClosed | LateStart | OutOfOrderStart | HasNoPayload | HasPayload | WrongLength
    | RemoteRejected | InvalidOpcode(wrapped: bool) | ReceivedNoAck | TooManyResends | InvalidResend
    | ShardShutdown | Panicked

  datatype Session = Session(
    mac: Mac,
    phase: Phase,
    counter: nat,                  // the source's seq
    sent: map<nat, Body>,
    consecResends: nat,
    messageID: seq<byte>,
    obo: seq<byte>)

  function New(mac: Mac): Session { Session(mac, Init, 0, map[], 0, [], []) }

  function Close(s: Session): Session { s.(phase := Shut) }

  predicate RequiresAck(op: byte) {
    op != OP_ACK && op != OP_RESEND && op != OP_ACCEPTED && op != OP_REJECTED
  }

  predicate Retryable(e: Err) { e.HasNoPayload? || e.HasPayload? || e.WrongLength? }

  datatype Outcome<T> = Ok(value: T) | Fail(e: Err)

  // ----- Encoding and decoding -----

  // encodeFrame refuses a closed session and the last sequence number (which closes it).
  function CanEncode(s: Session): Outcome<()> {
    if s.phase.Shut? then Fail(SessionClosed)
    else if s.counter == MAX_SEQUENCE then Fail(BadSequence)
    else Ok(())
  }

  function Encode(s: Session, op: byte, payload: seq<byte>): (Session, seq<byte>) {
    var b := Body(s.counter, op, payload);
    (s.(counter := s.counter + 1, sent := s.sent[s.counter := b]), Wire(s.mac, b))
  }

  function Validate(s: Session, b: Body): (Session, Outcome<()>) {
    var n := |b.payload|;
    if s.phase.Shut? then (s, Fail(SessionClosed))
    else if b.op == OP_START then
      var late := !s.phase.Init?;
      var s' := if late || b.sequence != 0 then Close(s) else s;
      (s', if n == 0 then Fail(HasNoPayload)
           else if late then Fail(LateStart)
           else if b.sequence != 0 then Fail(OutOfOrderStart)
           else Ok(()))
    else if b.op == OP_OBO || b.op == OP_FRG_ROUTE then
      (s, if n == 0 then Fail(HasNoPayload) else Ok(()))
    else if b.op == OP_SHARD_CHECK || b.op == OP_MSG_CHECK then
      (s, if n > 0 then Fail(HasPayload) else Ok(()))
    else if b.op == OP_SHARD_STATUS || b.op == OP_MSG_STATUS then
      (s, if n == 0 then Fail(HasNoPayload) else if n > 1 then Fail(WrongLength) else Ok(()))
    else if b.op == OP_RESEND || b.op == OP_ACK then
      (s, if n != 2 then Fail(WrongLength) else Ok(()))
    else if b.op == OP_ACCEPTED then (Close(s), Ok(()))
    else if b.op == OP_REJECTED then (s, Fail(RemoteRejected))
    else (Close(s), Fail(InvalidOpcode(true)))
  }

  function Decode(s: Session, wire: seq<byte>): (Session, Outcome<Body>) {
    if |wire| < MIN_DATA_LENGTH then (s, Fail(FrameTooShort))
    else if |wire| > MAX_DATA_LENGTH then (s, Fail(FrameTooLarge))
    else
      var bodyLen := DeclaredLen(wire);
      if bodyLen < MIN_FRAME_LEN then (s, Fail(InvalidFrameLen))
      else if WireSeq(wire) != s.counter then (s, Fail(BadSequence))
      else
        var payloadEnd := 7 + bodyLen - MIN_FRAME_LEN;
        if payloadEnd > |wire| then (s, Fail(Panicked))
        else if wire[payloadEnd..] != s.mac(wire[..payloadEnd]) then (Close(s), Fail(InvalidHmac))
        else
          var b := Body(WireSeq(wire), wire[6], wire[7..payloadEnd]);
          var (s', v) := Validate(s, b);
          match v
          case Ok(_) => (s'.(counter := s'.counter + 1), Ok(b))
          case Fail(e) => (if Retryable(e) then s'.(counter := s'.counter + 1) else s', Fail(e))
  }

  // A frame that readFrame returned never makes the payload slice run past its end.
  lemma {:induction false} FramedDecodeDoesNotPanic(s: Session, wire: seq<byte>)
    requires WellFormed(wire)
    ensures Decode(s, wire).1 != Fail(Panicked)
  {
  }

  // What one end encodes, the other end with the same secret and counter decodes, unless the
  // frame is too long or its validation objects.
  lemma {:induction false} DecodeEncoded(s: Session, r: Session, op: byte, payload: seq<byte>)
    requires GoodMac(s.mac) && r.mac == s.mac && r.counter == s.counter < MAX_SEQUENCE
    requires |payload| < 0x1_0000_0000 - MIN_FRAME_LEN
    ensures var b := Body(s.counter, op, payload);
            var (r', v) := Validate(r, b);
            var (r'', d) := Decode(r, Encode(s, op, payload).1);
            if MIN_DATA_LENGTH + |payload| > MAX_DATA_LENGTH then (r'', d) == (r, Fail(FrameTooLarge))
            else match v
              case Ok(_) => (r'', d) == (r'.(counter := r.counter + 1), Ok(b))
              case Fail(e) => d == Fail(e) && r'' == if Retryable(e) then r'.(counter := r.counter + 1) else r'
  {
    WireLayout(s.mac, Body(s.counter, op, payload));
  }

  // ----- The automaton -----

  // Who called await: the script, or awaitAck in its round `round`, expecting an ack for `expected`.
  datatype Caller = Script | AwaitAck(expected: nat, round: nat)

  // What follows a written frame.
  datatype After =
    | WaitForAck                                       // send of an opcode that requires an ack
    | Finish(reply: Body)                              // send without ack, or await after its sendAck
    | AwaitAgain(caller: Caller, ops: set<byte>, tries: nat, prev: nat)  // await after its resend request
    | NextRound(expected: nat, round: nat)             // awaitAck after a retransmission

  datatype Ctrl =
    | Sending(s: Session, op: byte, payload: seq<byte>, after: After)
    | Reading(s: Session, caller: Caller, ops: set<byte>, tries: nat, prev: nat)
    | Done(s: Session, reply: Body)
    | Failed(s: Session, e: Err)

  function BeginSend(s: Session, op: byte, payload: seq<byte>, after: After): Ctrl {
    match CanEncode(s)
    case Fail(e) => Failed(if e.BadSequence? then Close(s) else s, e)
    case Ok(_) => Sending(s, op, payload, after)
  }

  function StartSend(s: Session, op: byte, payload: seq<byte>): Ctrl {
    BeginSend(s, op, payload, if RequiresAck(op) then WaitForAck else Finish(Body(s.counter, op, payload)))
  }

  function StartAwait(s: Session, ops: set<byte>): Ctrl { Reading(s, Script, ops, 0, 0) }

  function AckRound(s: Session, expected: nat, round: nat): Ctrl {
    if round < MAX_RESENDS then Reading(s, AwaitAck(expected, round), {OP_ACK, OP_RESEND}, 0, 0)
    else Done(s, Body(0, OP_ACK, []))
  }

  // await gave up with error e; awaitAck closes the session and renames the unexpected opcode.
  function AwaitFailed(s: Session, caller: Caller, e: Err): Ctrl {
    match caller
    case Script => Failed(s, e)
    case AwaitAck(_, _) => Failed(Close(s), if e == InvalidOpcode(false) then ReceivedNoAck else e)
  }

  // A send made by await itself (an ack or a resend request).
  function AwaitSend(s: Session, caller: Caller, op: byte, payload: seq<byte>, after: After): Ctrl {
    match CanEncode(s)
    case Fail(e) => AwaitFailed(if e.BadSequence? then Close(s) else s, caller, e)
    case Ok(_) => Sending(s, op, payload, after)
  }

  // await returned frame b to its caller.
  function AwaitReturned(s: Session, caller: Caller, b: Body): Ctrl {
    match caller
    case Script => Done(s, b)
    case AwaitAck(expected, round) =>
      if |b.payload| < 2 then Failed(s, Panicked)
      else if b.op == OP_RESEND then Retransmit(s, FromBigEndian(b.payload[..2]), expected, round)
      else if FromBigEndian(b.payload[..2]) == expected
      then Done(s.(sent := s.sent - {expected}, consecResends := 0), b)
      else Failed(Close(s), BadSequence)
  }

  // resend
  function Retransmit(s: Session, wanted: nat, expected: nat, round: nat): Ctrl {
    if s.consecResends > MAX_RESENDS then Failed(Close(s), TooManyResends)
    else if wanted !in s.sent then Failed(Close(s), InvalidResend)
    else
      var old_ := s.sent[wanted];
      BeginSend(s.(consecResends := s.consecResends + 1), old_.op, old_.payload, NextRound(expected, round))
  }

  // The frame that a Sending control writes, and the control after the write.
  function OutFrame(c: Ctrl): seq<byte>
    requires c.Sending?
  {
    Encode(c.s, c.op, c.payload).1
  }

  function OnSend(c: Ctrl): Ctrl
    requires c.Sending?
  {
    var (s, _) := Encode(c.s, c.op, c.payload);
    match c.after
    case WaitForAck => AckRound(s, c.s.counter, 0)
    case Finish(reply) => Done(s, reply)
    case NextRound(expected, round) => AckRound(s.(sent := s.sent - {expected}), c.s.counter, round + 1)
    case AwaitAgain(caller, ops, tries, prev) =>
      var s' := s.(consecResends := s.consecResends + 1,
                   sent := if prev > 0 then s.sent - {prev} else s.sent);
      if tries + 1 < MAX_RESENDS then Reading(s', caller, ops, tries + 1, c.s.counter)
      else AwaitFailed(Close(s'), caller, TooManyResends)
  }

  function OnRead(c: Ctrl, r: ReadResult): Ctrl
    requires c.Reading?
  {
    match r
    case Closed => AwaitFailed(Close(c.s), c.caller, TransportClosed)
    case InvalidLength => AwaitFailed(c.s, c.caller, InvalidFrameLen)
    case Got(wire) =>
      var (s, d) := Decode(c.s, wire);
      match d
      case Fail(e) =>
        if Retryable(e) then AwaitSend(s, c.caller, OP_RESEND, wire[4..6], AwaitAgain(c.caller, c.ops, c.tries, c.prev))
        else AwaitFailed(Close(s), c.caller, e)
      case Ok(b) =>
        var s' := s.(consecResends := 0);
        if b.op !in c.ops then AwaitFailed(Close(s'), c.caller, InvalidOpcode(false))
        else if RequiresAck(b.op) then AwaitSend(s', c.caller, OP_ACK, BigEndian(b.sequence, 2), Finish(b))
        else AwaitReturned(s', c.caller, b)
  }

  // ----- One call against an arbitrary peer -----

  datatype Io = Out(wire: seq<byte>) | In(r: ReadResult)

  // The control reached from c when its writes and reads were exactly tr; None if c cannot do tr.
  ghost function Exec(c: Ctrl, tr: seq<Io>): Option<Ctrl> {
    if tr == [] then Some(c)
    else
      var before := Exec(c, tr[..|tr|-1]);
      var last := tr[|tr|-1];
      if before.None? then None
      else if before.value.Sending? && last == Out(OutFrame(before.value)) then Some(OnSend(before.value))
      else if before.value.Reading? && last.In? then Some(OnRead(before.value, last.r))
      else None
  }

  ghost function Reads(tr: seq<Io>): nat {
    if tr == [] then 0 else Reads(tr[..|tr|-1]) + (if tr[|tr|-1].In? then 1 else 0)
  }

  // The call wrote its own frame, or retransmitted one, as the last event of tr.
  ghost predicate Transmits(c: Ctrl) { c.Sending? && (c.after.WaitForAck? || c.after.NextRound?) }

  ghost function Retransmissions(c: Ctrl, tr: seq<Io>): nat {
    if tr == [] then 0
    else
      var before := Exec(c, tr[..|tr|-1]);
      Retransmissions(c, tr[..|tr|-1]) +
      if before.Some? && before.value.Sending? && before.value.after.NextRound? then 1 else 0
  }

  // Sequence number of the last transmission, if any.
  ghost function LastTransmitted(c: Ctrl, tr: seq<Io>): int {
    if tr == [] then -1
    else
      var before := Exec(c, tr[..|tr|-1]);
      if before.Some? && Transmits(before.value) then before.value.s.counter
      else LastTransmitted(c, tr[..|tr|-1])
  }

  // How far a send has come, read off its control.
  ghost predicate SendProgress(c: Ctrl, nReads: nat, retransmissions: nat, last: int) {
    match c
    case Reading(_, AwaitAck(expected, i), ops, j, _) =>
      ops == {OP_ACK, OP_RESEND} && j < 3 && i < 3 && retransmissions == i && nReads <= 3 * i + j && last == expected
    case Sending(_, _, _, WaitForAck) => retransmissions == 0 && nReads == 0
    case Sending(_, _, _, NextRound(expected, i)) => i < 3 && retransmissions == i && nReads <= 3 * i + 3
    case Sending(_, _, _, AwaitAgain(AwaitAck(expected, i), ops, j, _)) =>
      ops == {OP_ACK, OP_RESEND} && j < 3 && i < 3 && retransmissions == i && nReads <= 3 * i + j + 1 && last == expected
    case Done(_, b) =>
      && nReads <= 9 && retransmissions <= 3
      && (retransmissions == 3 || (b.op == OP_ACK && |b.payload| == 2 && FromBigEndian(b.payload) == last))
    case Failed(_, _) => nReads <= 9 && retransmissions <= 3
    case _ => false
  }

  lemma {:induction false} ReadProgress(c: Ctrl, r: ReadResult, nReads: nat, retransmissions: nat, last: int)
    requires c.Reading? && SendProgress(c, nReads, retransmissions, last)
    ensures SendProgress(OnRead(c, r), nReads + 1, retransmissions, last)
  {
    if r.Got? {
      var (s, d) := Decode(c.s, r.wire);
      if d.Ok? { assert |d.value.payload| == 2 ==> d.value.payload[..2] == d.value.payload; }
    }
  }

  // Against any peer, one send of an opcode that requires an ack reads at most nine frames and
  // retransmits at most three times; when it reports success, either the last transmitted
  // sequence number was acknowledged or exactly three resend requests were answered.
  lemma {:induction false} SendIsBounded(s: Session, op: byte, payload: seq<byte>, tr: seq<Io>)
    requires RequiresAck(op)
    ensures var c := StartSend(s, op, payload);
            Exec(c, tr).Some? ==>
              SendProgress(Exec(c, tr).value, Reads(tr), Retransmissions(c, tr), LastTransmitted(c, tr))
  {
    var c := StartSend(s, op, payload);
    if tr != [] {
      var init := tr[..|tr|-1];
      SendIsBounded(s, op, payload, init);
      var before := Exec(c, init);
      if Exec(c, tr).Some? && before.value.Reading? {
        ReadProgress(before.value, tr[|tr|-1].r, Reads(init), Retransmissions(c, init), LastTransmitted(c, init));
      }
    }
  }

  lemma {:induction false} SendBound(s: Session, op: byte, payload: seq<byte>, tr: seq<Io>)
    requires RequiresAck(op) && Exec(StartSend(s, op, payload), tr).Some?
    ensures Reads(tr) <= 9 && Retransmissions(StartSend(s, op, payload), tr) <= 3
    ensures var end := Exec(StartSend(s, op, payload), tr).value;
            end.Done? ==>
              || (end.reply.op == OP_ACK && |end.reply.payload| == 2
                  && FromBigEndian(end.reply.payload) == LastTransmitted(StartSend(s, op, payload), tr))
              || Retransmissions(StartSend(s, op, payload), tr) == 3
  {
    SendIsBounded(s, op, payload, tr);
  }
}
