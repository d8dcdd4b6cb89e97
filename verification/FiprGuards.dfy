/**
  What a FIPR session accepts from any peer, honest or not (pkg/fipr/encoding.go,
  validation.go, framing.go), and what it retransmits.
*/
module FiprGuards {
  import opened Bytes
  import opened Options
  import opened FiprFrame
  import opened FiprSession

  // ----- Accepted frames -----

  // The converse of decoding what was encoded: an accepted frame is, byte for byte, the frame
  // that carries it under the session's secret and at the session's counter.
  lemma {:induction false} AcceptedIsAuthentic(s: Session, wire: seq<byte>, b: Body)
    requires Decode(s, wire).1 == Ok(b)
    ensures wire == Wire(s.mac, b) && b.sequence == s.counter && MIN_DATA_LENGTH <= |wire| <= MAX_DATA_LENGTH
  {
    var n := DeclaredLen(wire);
    var end := 7 + n - MIN_FRAME_LEN;
    FromBigEndianRoundTrip(wire[..4]);
    FromBigEndianRoundTrip(wire[4..6]);
    assert BigEndian(n, 4) == wire[..4] && BigEndian(WireSeq(wire), 2) == wire[4..6];
    assert n == MIN_FRAME_LEN + |wire[7..end]|;
    FiveSlices(wire, end);
  }

  lemma {:induction false} FiveSlices(w: seq<byte>, end: nat)
    requires 7 <= end <= |w|
    ensures w[..end] == w[..4] + w[4..6] + [w[6]] + w[7..end] && w == w[..end] + w[end..]
  {
  }

  // The frame a session expects next, but for its last sixteen bytes.
  ghost predicate Expected(s: Session, wire: seq<byte>) {
    WellFormed(wire) && |wire| <= MAX_DATA_LENGTH && WireSeq(wire) == s.counter
  }

  // A frame with another MAC closes the session, whatever it says, and is not counted.
  lemma {:induction false} ForgedIsRefused(s: Session, wire: seq<byte>)
    requires Expected(s, wire) && wire[|wire| - HMAC_SIZE..] != s.mac(wire[..|wire| - HMAC_SIZE])
    ensures Decode(s, wire) == (Close(s), Fail(InvalidHmac))
    ensures Decode(s, wire).0.phase.Shut? && Decode(s, wire).0.counter == s.counter
  {
  }

  // A frame with another sequence is refused and changes nothing.
  lemma {:induction false} OtherSequenceIsRefused(s: Session, wire: seq<byte>)
    requires WellFormed(wire) && |wire| <= MAX_DATA_LENGTH && WireSeq(wire) != s.counter
    ensures Decode(s, wire) == (s, Fail(BadSequence))
  {
  }

  // What the opcode of an accepted frame says of the session and of the payload.
  ghost predicate Fitting(s: Session, b: Body) {
    && !s.phase.Shut?
    && (b.op == OP_START ==> s.phase.Init? && b.sequence == 0 && b.payload != [])
    && (b.op == OP_OBO || b.op == OP_FRG_ROUTE ==> b.payload != [])
    && (b.op == OP_SHARD_CHECK || b.op == OP_MSG_CHECK ==> b.payload == [])
    && (b.op == OP_SHARD_STATUS || b.op == OP_MSG_STATUS ==> |b.payload| == 1)
    && (b.op == OP_ACK || b.op == OP_RESEND ==> |b.payload| == 2)
    && b.op in {OP_START, OP_OBO, OP_FRG_ROUTE, OP_SHARD_CHECK, OP_MSG_CHECK, OP_SHARD_STATUS, OP_MSG_STATUS, OP_ACK, OP_RESEND, OP_ACCEPTED}
  }

  // A session accepts exactly the authentic frame at its counter that fits its phase and opcode.
  lemma {:induction false} AcceptsExactly(s: Session, wire: seq<byte>, b: Body)
    requires GoodMac(s.mac) && s.counter <= MAX_SEQUENCE
    ensures Decode(s, wire).1 == Ok(b) <==>
      wire == Wire(s.mac, b) && |wire| <= MAX_DATA_LENGTH && b.sequence == s.counter && Fitting(s, b)
  {
    if Decode(s, wire).1 == Ok(b) {
      AcceptedIsAuthentic(s, wire, b);
    }
    if wire == Wire(s.mac, b) && |wire| <= MAX_DATA_LENGTH && b.sequence == s.counter {
      assert |wire| == 7 + |b.payload| + HMAC_SIZE;
      WireLayout(s.mac, b);
    }
  }

  // An unknown opcode, a second or late start, and a rejection end the session or its call;
  // a payload that does not fit is counted, so that it can be asked for again.
  lemma {:induction false} RefusedFrames(s: Session, b: Body)
    requires GoodMac(s.mac) && b.sequence == s.counter < MAX_SEQUENCE && |b.payload| <= MAX_DATA_LENGTH - MIN_DATA_LENGTH && !s.phase.Shut?
    ensures var (s', d) := Decode(s, Wire(s.mac, b));
            && (d.Fail? ==> (s'.counter == s.counter + 1 <==> Retryable(d.e)) && (!Retryable(d.e) ==> s'.counter == s.counter))
            && (b.op == OP_REJECTED ==> s' == s && d == Fail(RemoteRejected))
            && (b.op == OP_ACCEPTED ==> s'.phase.Shut? && d == Ok(b))
            && (b.op == OP_START && s.phase.Started? ==> s'.phase.Shut? && d.Fail?)
            && (d.Fail? && d.e.InvalidOpcode? ==> s'.phase.Shut? && !Fitting(s, b))
  {
    WireLayout(s.mac, b);
  }

  // A closed session neither writes nor accepts.
  lemma {:induction false} ClosedIsSilent(s: Session, wire: seq<byte>, op: byte, payload: seq<byte>)
    requires s.phase.Shut?
    ensures StartSend(s, op, payload) == Failed(s, SessionClosed)
    ensures Decode(s, wire).1.Fail? && Decode(s, wire).0 == s
  {
  }

  // Within a send, await is only called for its ack.
  ghost predicate AwaitsAck(c: Ctrl) {
    match c
    case Reading(_, AwaitAck(_, _), ops, _, _) => ops == {OP_ACK, OP_RESEND}
    case Sending(_, _, _, AwaitAgain(AwaitAck(_, _), ops, _, _)) => ops == {OP_ACK, OP_RESEND}
    case _ => true
  }

  // A send that cannot begin finds its session closed, or closes it at the last sequence number.
  lemma {:induction false} RefusedSendShuts(s: Session, op: byte, payload: seq<byte>)
    ensures var c := StartSend(s, op, payload);
            && AwaitsAck(c) && (c.Failed? <==> s.phase.Shut? || s.counter == MAX_SEQUENCE)
            && (c.Failed? ==> c.s == s.(phase := Shut))
  {
  }

  lemma {:induction false} WriteFailsShut(c: Ctrl)
    requires c.Sending? && AwaitsAck(c)
    ensures AwaitsAck(OnSend(c)) && (OnSend(c).Failed? ==> OnSend(c).s.phase.Shut?)
  {
  }

  lemma {:induction false} ReadFailsShut(c: Ctrl, r: ReadResult)
    requires c.Reading? && AwaitsAck(c)
    ensures AwaitsAck(OnRead(c, r))
    ensures OnRead(c, r).Failed? ==> (OnRead(c, r).s.phase.Shut? <==> !(r.InvalidLength? && c.caller.Script? && !c.s.phase.Shut?))
  {
  }

  // Against any peer, every failure shuts the session, but for a script's own read that meets a
  // bad length field.
  lemma {:induction false} FailureShuts(c: Ctrl, tr: seq<Io>)
    requires AwaitsAck(c) && !c.Failed? && Exec(c, tr).Some?
    ensures var c' := Exec(c, tr).value;
            AwaitsAck(c') && (c'.Failed? && !c'.s.phase.Shut? ==> tr[|tr|-1] == In(InvalidLength))
  {
    if tr != [] {
      LastIo(c, tr);
      FailureShuts(c, tr[..|tr|-1]);
      var before := Exec(c, tr[..|tr|-1]).value;
      if before.Sending? { WriteFailsShut(before); } else { ReadFailsShut(before, tr[|tr|-1].r); }
    }
  }

  // ----- The stream under it -----

  // readFrame returns only whole frames with a true length field, and takes them and nothing
  // else from the stream.
  lemma {:induction false} ReadsOnlyFrames(buf: seq<byte>, chunks: seq<seq<byte>>)
    ensures var (r, buf', chunks') := ReadFrame(buf, chunks);
            && (r.Got? ==> WellFormed(r.wire))
            && buf + Concat(chunks) == (if r.Got? then r.wire else []) + (buf' + Concat(chunks'))
            && (r.Closed? ==> chunks' == [])
    decreases |chunks|
  {
    match TryParseFrame(buf)
    case BadLength => assert [] + (buf + Concat(chunks)) == buf + Concat(chunks);
    case Frame(n, wire) =>
      assert buf == wire + buf[n..];
      assert (wire + buf[n..]) + Concat(chunks) == wire + (buf[n..] + Concat(chunks));
    case Incomplete =>
      if chunks == [] {
        assert [] + (buf + Concat(chunks)) == buf + Concat(chunks);
      } else {
        assert (buf + chunks[0]) + Concat(chunks[1..]) == buf + Concat(chunks);
        ReadsOnlyFrames(buf + chunks[0], chunks[1..]);
      }
  }

  // A length field below the minimum is reported however the stream is cut.
  lemma {:induction false} BadLengthIsReported(buf: seq<byte>, chunks: seq<seq<byte>>)
    requires var all := buf + Concat(chunks); |all| >= 4 && FromBigEndian(all[..4]) < MIN_FRAME_LEN
    ensures ReadFrame(buf, chunks).0 == InvalidLength
    decreases |chunks|
  {
    if |buf| >= 4 {
      assert (buf + Concat(chunks))[..4] == buf[..4];
    } else {
      assert chunks != [] by { assert |Concat(chunks)| > 0; }
      assert (buf + chunks[0]) + Concat(chunks[1..]) == buf + Concat(chunks);
      BadLengthIsReported(buf + chunks[0], chunks[1..]);
    }
  }

  // ----- Retransmissions -----

  // The frame kept under sequence k was kept before the call, or written during it.
  ghost predicate Known(s0: Session, tr: seq<Io>, k: nat, b: Body) {
    || (k in s0.sent && s0.sent[k] == b)
    || (b.sequence == k && exists i :: 0 <= i < |tr| && tr[i] == Out(Wire(s0.mac, b)))
  }

  ghost predicate HonestBooks(s0: Session, s: Session, tr: seq<Io>) {
    s.mac == s0.mac && forall k {:trigger s.sent[k]} :: k in s.sent ==> Known(s0, tr, k, s.sent[k])
  }

  lemma {:induction false} KnownLater(s0: Session, tr: seq<Io>, io: Io, k: nat, b: Body)
    requires Known(s0, tr, k, b)
    ensures Known(s0, tr + [io], k, b)
  {
    if exists i :: 0 <= i < |tr| && tr[i] == Out(Wire(s0.mac, b)) {
      var i :| 0 <= i < |tr| && tr[i] == Out(Wire(s0.mac, b));
      assert (tr + [io])[i] == Out(Wire(s0.mac, b));
    }
  }

  // Writing learns the frame written, and may forget others.
  lemma {:induction false} WriteLearnsOne(c: Ctrl)
    requires c.Sending?
    ensures var s' := OnSend(c).s;
            s'.mac == c.s.mac && forall k :: k in s'.sent ==>
              if k == c.s.counter then s'.sent[k] == Body(k, c.op, c.payload) else k in c.s.sent && s'.sent[k] == c.s.sent[k]
  {
  }

  lemma {:induction false} WriteKeepsBooks(s0: Session, c: Ctrl, tr: seq<Io>, s': Session, wire: seq<byte>)
    requires HonestBooks(s0, c.s, tr) && c.Sending? && s'.mac == c.s.mac && wire == Wire(s0.mac, Body(c.s.counter, c.op, c.payload))
    requires forall k :: k in s'.sent ==>
               if k == c.s.counter then s'.sent[k] == Body(k, c.op, c.payload) else k in c.s.sent && s'.sent[k] == c.s.sent[k]
    ensures HonestBooks(s0, s', tr + [Out(wire)])
  {
    var io := Out(wire);
    assert (tr + [io])[|tr|] == io;
    forall k | k in s'.sent ensures Known(s0, tr + [io], k, s'.sent[k]) {
      if k != c.s.counter { KnownLater(s0, tr, io, k, c.s.sent[k]); }
    }
  }

  lemma {:induction false} DecodeKeepsBooks(s: Session, wire: seq<byte>)
    ensures Decode(s, wire).0.sent == s.sent && Decode(s, wire).0.mac == s.mac
  {
  }

  // Reading forgets frames, and learns none.
  lemma {:induction false} ReadForgetsOnly(c: Ctrl, r: ReadResult)
    requires c.Reading?
    ensures var s' := OnRead(c, r).s; s'.mac == c.s.mac && forall k :: k in s'.sent ==> k in c.s.sent && s'.sent[k] == c.s.sent[k]
  {
    if r.Got? { DecodeKeepsBooks(c.s, r.wire); }
  }

  lemma {:induction false} ReadKeepsBooks(s0: Session, c: Ctrl, r: ReadResult, tr: seq<Io>)
    requires c.Reading? && HonestBooks(s0, c.s, tr)
    ensures HonestBooks(s0, OnRead(c, r).s, tr + [In(r)])
  {
    ReadForgetsOnly(c, r);
    var s' := OnRead(c, r).s;
    forall k | k in s'.sent ensures Known(s0, tr + [In(r)], k, s'.sent[k]) {
      assert s'.sent[k] == c.s.sent[k];
      KnownLater(s0, tr, In(r), k, c.s.sent[k]);
    }
  }

  lemma {:induction false} LastIo(c: Ctrl, tr: seq<Io>)
    requires tr != [] && Exec(c, tr).Some?
    ensures Exec(c, tr[..|tr|-1]).Some?
    ensures var before, last := Exec(c, tr[..|tr|-1]).value, tr[|tr|-1];
            || (before.Sending? && last == Out(OutFrame(before)) && Exec(c, tr).value == OnSend(before))
            || (before.Reading? && last.In? && Exec(c, tr).value == OnRead(before, last.r))
  {
  }

  lemma {:induction false} Rejoin<T>(xs: seq<T>)
    requires xs != []
    ensures xs == xs[..|xs|-1] + [xs[|xs|-1]]
  {
  }

  lemma {:induction false} StepKeepsBooks(s0: Session, c: Ctrl, tr: seq<Io>, io: Io, c': Ctrl)
    requires HonestBooks(s0, c.s, tr)
    requires || (c.Sending? && io == Out(OutFrame(c)) && c' == OnSend(c)) || (c.Reading? && io.In? && c' == OnRead(c, io.r))
    ensures HonestBooks(s0, c'.s, tr + [io])
  {
    if c.Sending? {
      WriteLearnsOne(c);
      WriteKeepsBooks(s0, c, tr, c'.s, OutFrame(c));
    } else {
      ReadKeepsBooks(s0, c, io.r, tr);
    }
  }

  lemma {:induction false} BooksStayHonest(s: Session, c: Ctrl, tr: seq<Io>)
    requires HonestBooks(s, c.s, []) && Exec(c, tr).Some?
    ensures HonestBooks(s, Exec(c, tr).value.s, tr)
  {
    if tr != [] {
      LastIo(c, tr);
      Rejoin(tr);
      BooksStayHonest(s, c, tr[..|tr|-1]);
      StepKeepsBooks(s, Exec(c, tr[..|tr|-1]).value, tr[..|tr|-1], tr[|tr|-1], Exec(c, tr).value);
    }
  }

  // The control is about to retransmit on behalf of the request that it has just read.
  lemma {:induction false} ReadIntoRetransmission(c: Ctrl, r: ReadResult)
    requires c.Reading? && OnRead(c, r).Sending? && OnRead(c, r).after.NextRound?
    ensures r.Got? && Decode(c.s, r.wire).1.Ok?
    ensures var b, c' := Decode(c.s, r.wire).1.value, OnRead(c, r);
            && b.op == OP_RESEND && |b.payload| >= 2
            && var wanted := FromBigEndian(b.payload[..2]);
            && wanted in c.s.sent && c.s.sent[wanted].op == c'.op && c.s.sent[wanted].payload == c'.payload
  {
  }

  lemma {:induction false} AfterWriteNoRetransmission(c: Ctrl)
    requires c.Sending?
    ensures !(OnSend(c).Sending?)
  {
  }

  // Against any peer: what a send retransmits is what was first written under the sequence
  // that the peer has just asked for.
  lemma {:induction false} RetransmitsWhatWasWritten(s: Session, op: byte, payload: seq<byte>, tr: seq<Io>)
    returns (wanted: nat, first: Body, request: Body)
    requires Exec(StartSend(s, op, payload), tr).Some?
    requires var c := Exec(StartSend(s, op, payload), tr).value; c.Sending? && c.after.NextRound?
    ensures var c := Exec(StartSend(s, op, payload), tr).value;
            && first.op == c.op && first.payload == c.payload && Known(s, tr[..|tr|-1], wanted, first)
    ensures tr != [] && tr[|tr|-1].In? && tr[|tr|-1].r.Got?
    ensures tr[|tr|-1].r.wire == Wire(s.mac, request)
    ensures request.op == OP_RESEND && |request.payload| >= 2 && FromBigEndian(request.payload[..2]) == wanted
  {
    var start := StartSend(s, op, payload);
    assert tr != [];
    var init, last := tr[..|tr|-1], tr[|tr|-1];
    var before := Exec(start, init).value;
    assert HonestBooks(s, start.s, []);
    BooksStayHonest(s, start, init);
    if before.Sending? { AfterWriteNoRetransmission(before); }
    ReadIntoRetransmission(before, last.r);
    request := Decode(before.s, last.r.wire).1.value;
    AcceptedIsAuthentic(before.s, last.r.wire, request);
    wanted := FromBigEndian(request.payload[..2]);
    first := before.s.sent[wanted];
  }

  // The limit on retransmissions never stops one: the request for it has just reset the count.
  // A call gives up for too many resends only after its third own request.
  lemma {:induction false} TooManyResendsOnlyAfterThree(c: Ctrl, r: ReadResult)
    ensures c.Reading? && OnRead(c, r).Failed? ==> OnRead(c, r).e != TooManyResends
    ensures c.Sending? && OnSend(c).Failed? && OnSend(c).e == TooManyResends ==> c.after.AwaitAgain? && c.after.tries >= 2
  {
    if c.Reading? && r.Got? { ReasonOfDecode(c.s, r.wire); }
  }

  lemma {:induction false} ReasonOfDecode(s: Session, wire: seq<byte>)
    ensures Decode(s, wire).1 != Fail(TooManyResends)
  {
  }
}
