/**
  The session object of pkg/fipr with its methods (handlers.go, encoding.go, framing.go,
  validation.go), proved to follow the automaton of module FiprSession.  The ghost field
  `ctrl` is the automaton's control: a frame may be written only when the control is about to
  send exactly that frame, a read may be made only when it is about to read, and each call
  ends in the control that stands for its outcome.
*/
module FiprClass {
  import opened Bytes
  import opened FiprFrame
  import opened FiprSession
  import opened Options

  // await's return to its caller.
  function Resume(s: Session, caller: Caller, r: Outcome<Body>): Ctrl {
    match r
    case Ok(b) => AwaitReturned(s, caller, b)
    case Fail(e) => AwaitFailed(s, caller, e)
  }

  // The control end stands for a call that left the session as v with this outcome.
  ghost predicate Returned<T>(end: Ctrl, v: Session, r: Outcome<T>) {
    match end
    case Done(s, _) => r.Ok? && s == v
    case Failed(s, e) => r == Fail(e) && s == v
    case _ => false
  }

  class SessionObj {
    const mac: Mac
    var phase: Phase
    var counter: nat
    var sent: map<nat, Body>
    var consecResends: nat
    var messageID: seq<byte>
    var obo: seq<byte>
    var transportBuffer: seq<byte>
    var incoming: seq<seq<byte>>  // what the connection's reads will deliver before it closes
    var framesRead: nat
    ghost var ctrl: Ctrl

    ghost function View(): Session
      reads this
    {
      Session(mac, phase, counter, sent, consecResends, messageID, obo)
    }

    // The automaton is about to write this frame.
    ghost predicate AboutToSend(op: byte, payload: seq<byte>)
      reads this
    {
      CanEncode(View()).Ok? ==> ctrl.Sending? && ctrl.s == View() && ctrl.op == op && ctrl.payload == payload
    }

    constructor (mac: Mac, incoming: seq<seq<byte>>)
      ensures View() == New(mac) && this.incoming == incoming && transportBuffer == [] && framesRead == 0
    {
      this.mac := mac;
      phase, counter, sent, consecResends, messageID, obo := Init, 0, map[], 0, [], [];
      transportBuffer, this.incoming, framesRead := [], incoming, 0;
      ctrl := Failed(New(mac), SessionClosed);
    }

    method CloseSession()
      modifies this`phase
      ensures View() == Close(old(View()))
    {
      phase := Shut;
    }

    // encodeFrame
    method EncodeFrame(op: byte, payload: seq<byte>) returns (r: Outcome<seq<byte>>)
      modifies this`phase, this`counter, this`sent
      ensures match CanEncode(old(View()))
              case Fail(e) => r == Fail(e) && View() == (if e.BadSequence? then Close(old(View())) else old(View()))
              case Ok(_) => r.Ok? && (View(), r.value) == Encode(old(View()), op, payload)
    {
      if phase.Shut? {
        return Fail(SessionClosed);
      }
      if counter == MAX_SEQUENCE {
        phase := Shut;
        return Fail(BadSequence);
      }
      var b := Body(counter, op, payload);
      r := Ok(Wire(mac, b));
      sent := sent[counter := b];
      counter := counter + 1;
    }

    // writeFrame: only the frame that the automaton writes next.
    method WriteFrame(wire: seq<byte>)
      requires ctrl.Sending? && wire == OutFrame(ctrl)
      modifies this`ctrl
      ensures ctrl == OnSend(old(ctrl))
    {
      ctrl := OnSend(ctrl);
    }

    // readFrame: only when the automaton waits.
    method NextFrame() returns (r: ReadResult)
      requires ctrl.Reading?
      modifies this`phase, this`transportBuffer, this`incoming, this`framesRead, this`ctrl
      ensures (r, transportBuffer, incoming) == ReadFrame(old(transportBuffer), old(incoming))
      ensures ctrl == OnRead(old(ctrl), r) && framesRead == old(framesRead) + 1
      ensures View() == if r.Closed? then Close(old(View())) else old(View())
    {
      while true
        invariant ReadFrame(transportBuffer, incoming) == ReadFrame(old(transportBuffer), old(incoming))
        invariant ctrl == old(ctrl) && phase == old(phase) && framesRead == old(framesRead)
        decreases |incoming|
      {
        match TryParseFrame(transportBuffer)
        case BadLength =>
          r := InvalidLength;
          break;
        case Frame(n, wire) =>
          r := Got(wire);
          transportBuffer := transportBuffer[n..];
          break;
        case Incomplete =>
          if incoming == [] {
            r := ReadResult.Closed;
            phase := Shut;
            break;
          }
          transportBuffer, incoming := transportBuffer + incoming[0], incoming[1..];
      }
      framesRead := framesRead + 1;
      ctrl := OnRead(ctrl, r);
    }

    method DecodeFrame(wire: seq<byte>) returns (r: Outcome<Body>)
      modifies this`phase, this`counter
      ensures (View(), r) == Decode(old(View()), wire)
    {
      if |wire| < MIN_DATA_LENGTH { return Fail(FrameTooShort); }
      if |wire| > MAX_DATA_LENGTH { return Fail(FrameTooLarge); }
      var bodyLen := DeclaredLen(wire);
      if bodyLen < MIN_FRAME_LEN { return Fail(InvalidFrameLen); }
      if WireSeq(wire) != counter { return Fail(BadSequence); }
      var payloadEnd := 7 + bodyLen - MIN_FRAME_LEN;
      if payloadEnd > |wire| { return Fail(Panicked); }
      if wire[payloadEnd..] != mac(wire[..payloadEnd]) {
        phase := Shut;
        return Fail(InvalidHmac);
      }
      var b := Body(WireSeq(wire), wire[6], wire[7..payloadEnd]);
      var v := ValidateFrame(b);
      if v.Ok? || Retryable(v.e) { counter := counter + 1; }
      r := if v.Ok? then Ok(b) else Fail(v.e);
    }

    method ValidateFrame(b: Body) returns (v: Outcome<()>)
      modifies this`phase
      ensures (View(), v) == Validate(old(View()), b)
    {
      v := Ok(());
      var n := |b.payload|;
      if phase.Shut? { return Fail(SessionClosed); }
      if b.op == OP_START {
        if !phase.Init? { phase := Shut; v := Fail(LateStart); }
        else if b.sequence != 0 { phase := Shut; v := Fail(OutOfOrderStart); }
        if n == 0 { v := Fail(HasNoPayload); }
      } else if b.op == OP_OBO || b.op == OP_FRG_ROUTE {
        if n == 0 { v := Fail(HasNoPayload); }
      } else if b.op == OP_SHARD_CHECK || b.op == OP_MSG_CHECK {
        if n > 0 { v := Fail(HasPayload); }
      } else if b.op == OP_SHARD_STATUS || b.op == OP_MSG_STATUS {
        if n == 0 { v := Fail(HasNoPayload); }
        if n > 1 { v := Fail(WrongLength); }
      } else if b.op == OP_RESEND || b.op == OP_ACK {
        if n != 2 { v := Fail(WrongLength); }
      } else if b.op == OP_ACCEPTED {
        phase := Shut;
      } else if b.op == OP_REJECTED {
        v := Fail(RemoteRejected);
      } else {
        phase := Shut;
        v := Fail(InvalidOpcode(true));
      }
    }
  
    // Recursion: send -> awaitAck -> await -> send of an ack or resend request, which waits for nothing.
    method Send(op: byte, payload: seq<byte>) returns (r: Outcome<nat>)
      requires AboutToSend(op, payload)
      requires RequiresAck(op) && ctrl.Sending? ==> ctrl.after.WaitForAck?
      modifies this
      ensures CanEncode(old(View())).Fail? ==>
                var e := CanEncode(old(View())).e;
                r == Fail(e) && ctrl == old(ctrl) && View() == (if e.BadSequence? then Close(old(View())) else old(View()))
      ensures CanEncode(old(View())).Ok? && !RequiresAck(op) ==>
                r == Ok(old(counter)) && ctrl == OnSend(old(ctrl)) && View() == Encode(old(View()), op, payload).0
      ensures CanEncode(old(View())).Ok? && RequiresAck(op) ==> Returned(ctrl, View(), r)
      ensures framesRead <= old(framesRead) + (if RequiresAck(op) then 9 else 0)
      decreases if RequiresAck(op) then 3 else 0
    {
      var reqSeq := counter;
      var wire := EncodeFrame(op, payload);
      if wire.Fail? {
        return Fail(wire.e);
      }
      WriteFrame(wire.value);
      r := Ok(reqSeq);
      if RequiresAck(op) {
        var err := AwaitAckOf(reqSeq);
        if err.Fail? { r := Fail(err.e); }
      }
    }

    method AwaitAckOf(expectedSeq: nat) returns (r: Outcome<()>)
      requires ctrl == AckRound(View(), expectedSeq, 0)
      modifies this
      ensures Returned(ctrl, View(), r) && framesRead <= old(framesRead) + 9
      decreases 2, 1
    {
      var expected, round: nat := expectedSeq, 0;
      while round < MAX_RESENDS
        invariant round <= MAX_RESENDS && framesRead <= old(framesRead) + 3 * round
        invariant ctrl == AckRound(View(), expected, round)
      {
        var again;
        r, again := AckRoundOnce(expected, round);
        if r.Fail? || again.None? {
          return;
        }
        expected, round := again.value, round + 1;
      }
      r := Ok(());
    }

    // One round of awaitAck: Some(seq) if a resend request was answered under sequence seq.
    method AckRoundOnce(expected: nat, ghost round: nat) returns (r: Outcome<()>, again: Option<nat>)
      requires round < MAX_RESENDS && ctrl == AckRound(View(), expected, round)
      modifies this
      ensures if r.Ok? && again.Some? then ctrl == AckRound(View(), again.value, round + 1) else Returned(ctrl, View(), r)
      ensures framesRead <= old(framesRead) + 3
      decreases 2, 0
    {
      again := None;
      var response := AwaitFrame({OP_ACK, OP_RESEND});
      if response.Fail? {
        CloseSession();
        r := Fail(if response.e == InvalidOpcode(false) then ReceivedNoAck else response.e);
        return;
      }
      var b := response.value;
      if |b.payload| < 2 {
        r := Fail(Panicked);
        return;
      }
      var about := FromBigEndian(b.payload[..2]);
      if b.op == OP_RESEND {
        var resent := ResendFrame(about);
        if resent.Fail? {
          r := Fail(resent.e);
          return;
        }
        sent := sent - {expected};
        r, again := Ok(()), Some(resent.value);
      } else if about != expected {
        CloseSession();
        r := Fail(BadSequence);
      } else {
        sent := sent - {expected};
        consecResends := 0;
        r := Ok(());
      }
    }

    method ResendFrame(wanted: nat) returns (r: Outcome<nat>)
      requires exists expected, round :: ctrl == Retransmit(View(), wanted, expected, round)
      modifies this`phase, this`counter, this`sent, this`consecResends, this`ctrl
      ensures old(ctrl).Sending? ==> r == Ok(old(counter)) && ctrl == OnSend(old(ctrl))
                                     && View() == Encode(old(ctrl).s, old(ctrl).op, old(ctrl).payload).0
      ensures !old(ctrl).Sending? ==> r.Fail? && ctrl == old(ctrl) && Returned(ctrl, View(), r)
    {
      if consecResends > MAX_RESENDS {
        CloseSession();
        return Fail(TooManyResends);
      }
      if wanted !in sent {
        CloseSession();
        return Fail(InvalidResend);
      }
      var frame := sent[wanted];
      consecResends := consecResends + 1;
      var sentSeq := counter;
      var wire := EncodeFrame(frame.op, frame.payload);
      if wire.Fail? {
        return Fail(wire.e);
      }
      WriteFrame(wire.value);
      r := Ok(sentSeq);
    }

    method AwaitFrame(ops: set<byte>) returns (r: Outcome<Body>)
      requires ctrl.Reading? && ctrl == Reading(View(), ctrl.caller, ops, 0, 0)
      requires ctrl.caller.AwaitAck? ==> ops == {OP_ACK, OP_RESEND}
      modifies this
      ensures ctrl == Resume(View(), old(ctrl).caller, r)
      ensures framesRead <= old(framesRead) + 3
      decreases 1, 1
    {
      ghost var caller := ctrl.caller;
      var tries, prev: nat := 0, 0;
      while tries < MAX_RESENDS
        invariant tries <= MAX_RESENDS && framesRead <= old(framesRead) + tries
        invariant ctrl == if tries < MAX_RESENDS then Reading(View(), caller, ops, tries, prev)
                          else AwaitFailed(Close(View()), caller, TooManyResends)
      {
        var got := NextFrame();
        if got.Closed? {
          return Fail(TransportClosed);
        }
        if got.InvalidLength? {
          return Fail(InvalidFrameLen);
        }
        var d := DecodeFrame(got.wire);
        if d.Fail? && Retryable(d.e) {
          var again := AskAgain(got.wire[4..6], ops, tries, prev, caller);
          if again.Fail? {
            return Fail(again.e);
          }
          prev := again.value;
          tries := tries + 1;
        } else if d.Fail? {
          CloseSession();
          return Fail(d.e);
        } else {
          r := Accept(d.value, ops, caller);
          return;
        }
      }
      CloseSession();
      r := Fail(TooManyResends);
    }

    // The branch of await that asks for a frame again; the result is the request's sequence.
    method AskAgain(about: seq<byte>, ops: set<byte>, tries: nat, prev: nat, ghost caller: Caller) returns (r: Outcome<nat>)
      requires tries < MAX_RESENDS && (caller.AwaitAck? ==> ops == {OP_ACK, OP_RESEND})
      requires ctrl == AwaitSend(View(), caller, OP_RESEND, about, AwaitAgain(caller, ops, tries, prev))
      modifies this
      ensures r.Fail? ==> ctrl == Resume(View(), caller, Fail(r.e))
      ensures r.Ok? ==> ctrl == if tries + 1 < MAX_RESENDS then Reading(View(), caller, ops, tries + 1, r.value)
                                else AwaitFailed(Close(View()), caller, TooManyResends)
      ensures framesRead <= old(framesRead)
      decreases 1, 0
    {
      r := Send(OP_RESEND, about);
      if r.Ok? {
        consecResends := consecResends + 1;
        if prev > 0 { sent := sent - {prev}; }
      }
    }

    // The end of await: a frame was decoded.
    method Accept(b: Body, ops: set<byte>, ghost caller: Caller) returns (r: Outcome<Body>)
      requires caller.AwaitAck? ==> ops == {OP_ACK, OP_RESEND}
      requires var s := View().(consecResends := 0);
               ctrl == if b.op !in ops then AwaitFailed(Close(s), caller, InvalidOpcode(false))
                       else if RequiresAck(b.op) then AwaitSend(s, caller, OP_ACK, BigEndian(b.sequence, 2), Finish(b))
                       else AwaitReturned(s, caller, b)
      modifies this
      ensures ctrl == Resume(View(), caller, r) && framesRead <= old(framesRead)
      decreases 1, 0
    {
      consecResends := 0;
      if b.op !in ops {
        CloseSession();
        return Fail(InvalidOpcode(false));
      }
      if RequiresAck(b.op) {
        var acked := Send(OP_ACK, BigEndian(b.sequence, 2));
        if acked.Fail? {
          return Fail(acked.e);
        }
      }
      r := Ok(b);
    }
  }
}
