/**
  FIPR wire frames: the byte layout of pkg/fipr/encoding.go and the stream reassembly of
  pkg/fipr/framing.go.  A frame is
    length (4) | sequence (2) | opcode (1) | payload | HMAC (16)
  where the length counts everything after itself.
*/
module FiprFrame {
  import opened Bytes

  const HMAC_SIZE := 16
  const MIN_FRAME_LEN := 19   // sequence + opcode + HMAC
  const MIN_DATA_LENGTH := 23
  const MAX_DATA_LENGTH := 65535
  const MAX_SEQUENCE := 65535

  const OP_START: byte := 0x00
  const OP_OBO: byte := 0x05
  const OP_ACK: byte := 0x10
  const OP_RESEND: byte := 0x11
  const OP_ACCEPTED: byte := 0x12
  const OP_REJECTED: byte := 0x13
  const OP_SHARD_CHECK: byte := 0x20
  const OP_SHARD_STATUS: byte := 0x21
  const OP_MSG_CHECK: byte := 0x22
  const OP_MSG_STATUS: byte := 0x23
  const OP_FRG_ROUTE: byte := 0x24

  const SHARD_DRAINING: byte := 0x11
  const SHARD_SHUTDOWN: byte := 0x22
  const MSG_NEW: byte := 0x00
  const MSG_EXISTING: byte := 0x10

  // HMAC-SHA256 under the shared secret, truncated to 16 bytes.
  type Mac = seq<byte> -> seq<byte>

  ghost predicate GoodMac(mac: Mac) { forall data :: |mac(data)| == HMAC_SIZE }

  datatype Body = Body(sequence: nat, op: byte, payload: seq<byte>)

  // The authenticated part of a frame.
  function Signed(b: Body): (w: seq<byte>)
    ensures |w| == 7 + |b.payload|
  {
    BigEndian(MIN_FRAME_LEN + |b.payload|, 4) + BigEndian(b.sequence, 2) + [b.op] + b.payload
  }

  function Wire(mac: Mac, b: Body): seq<byte> { Signed(b) + mac(Signed(b)) }

  // The whole length of a frame, and the slices decodeFrame takes.
  function DeclaredLen(wire: seq<byte>): nat
    requires |wire| >= 4
  {
    FromBigEndian(wire[..4])
  }

  function WireSeq(wire: seq<byte>): nat
    requires |wire| >= 6
  {
    FromBigEndian(wire[4..6])
  }

  lemma {:induction false} WireLayout(mac: Mac, b: Body)
    requires GoodMac(mac) && b.sequence <= MAX_SEQUENCE && MIN_FRAME_LEN + |b.payload| < 0x1_0000_0000
    ensures var w := Wire(mac, b);
            && |w| == MIN_DATA_LENGTH + |b.payload|
            && DeclaredLen(w) == |w| - 4
            && WireSeq(w) == b.sequence && w[4..6] == BigEndian(b.sequence, 2)
            && w[6] == b.op
            && w[7..7 + |b.payload|] == b.payload
            && w[..7 + |b.payload|] == Signed(b)
            && w[7 + |b.payload|..] == mac(Signed(b))
  {
    Widths();
    BigEndianRoundTrip(MIN_FRAME_LEN + |b.payload|, 4);
    BigEndianRoundTrip(b.sequence, 2);
    var w := Wire(mac, b);
    assert w[..4] == BigEndian(MIN_FRAME_LEN + |b.payload|, 4);
    assert w[4..6] == BigEndian(b.sequence, 2);
  }

  // ----- Stream reassembly -----

  datatype Parsed = Incomplete | BadLength | Frame(consumed: nat, wire: seq<byte>)

  function TryParseFrame(buf: seq<byte>): (r: Parsed)
    ensures r.Frame? ==> r.consumed <= |buf| && r.wire == buf[..r.consumed] && r.consumed >= MIN_DATA_LENGTH
    ensures r.Frame? ==> DeclaredLen(r.wire) == |r.wire| - 4
  {
    if |buf| < 4 then Incomplete
    else
      var frameLen := FromBigEndian(buf[..4]);
      if frameLen < MIN_FRAME_LEN then BadLength
      else if |buf| < 4 + frameLen then Incomplete
      else
        assert buf[..4 + frameLen][..4] == buf[..4];
        Frame(4 + frameLen, buf[..4 + frameLen])
  }

  // A frame as some writer produced it: at least the minimum, with a true length field.
  ghost predicate WellFormed(wire: seq<byte>) {
    |wire| >= MIN_DATA_LENGTH && DeclaredLen(wire) == |wire| - 4
  }

  lemma {:induction false} ParseWhole(wire: seq<byte>, rest: seq<byte>)
    requires WellFormed(wire)
    ensures TryParseFrame(wire + rest) == Frame(|wire|, wire)
  {
    assert (wire + rest)[..4] == wire[..4];
    assert (wire + rest)[..|wire|] == wire;
  }

  // A strict prefix of a well-formed frame is only ever incomplete.
  lemma {:induction false} ParsePrefix(wire: seq<byte>, buf: seq<byte>)
    requires WellFormed(wire) && buf < wire
    ensures TryParseFrame(buf) == Incomplete
  {
    if |buf| >= 4 { assert buf[..4] == wire[..4]; }
  }

  function Concat(chunks: seq<seq<byte>>): seq<byte> {
    if chunks == [] then [] else chunks[0] + Concat(chunks[1..])
  }

  datatype ReadResult = Got(wire: seq<byte>) | InvalidLength | Closed

  // readFrame over a connection whose next reads deliver `chunks` and then end of file:
  // the result, the bytes left in transportBuffer and the reads left.
  function ReadFrame(buf: seq<byte>, chunks: seq<seq<byte>>): (r: (ReadResult, seq<byte>, seq<seq<byte>>))
    decreases |chunks|
  {
    match TryParseFrame(buf)
    case BadLength => (InvalidLength, buf, chunks)
    case Frame(n, wire) => (Got(wire), buf[n..], chunks)
    case Incomplete =>
      if chunks == [] then (Closed, buf, chunks)
      else ReadFrame(buf + chunks[0], chunks[1..])
  }

  // However the stream was cut into reads, the next readFrame returns the next frame and
  // leaves exactly the bytes of the frames after it.
  lemma {:induction false} NextFrame(wire: seq<byte>, rest: seq<byte>, buf: seq<byte>, chunks: seq<seq<byte>>)
    requires WellFormed(wire) && buf + Concat(chunks) == wire + rest
    ensures var (r, buf', chunks') := ReadFrame(buf, chunks);
            r == Got(wire) && buf' + Concat(chunks') == rest
    decreases |chunks|
  {
    if |buf| < |wire| {
      assert buf == (wire + rest)[..|buf|] == wire[..|buf|];
      ParsePrefix(wire, buf);
      assert |chunks| > 0 by { assert |Concat(chunks)| > 0; }
      assert (buf + chunks[0]) + Concat(chunks[1..]) == buf + Concat(chunks);
      NextFrame(wire, rest, buf + chunks[0], chunks[1..]);
    } else {
      assert wire == (buf + Concat(chunks))[..|wire|] == buf[..|wire|];
      assert buf == wire + buf[|wire|..];
      ParseWhole(wire, buf[|wire|..]);
      assert rest == (buf + Concat(chunks))[|wire|..] == buf[|wire|..] + Concat(chunks);
    }
  }

  // n successive readFrame calls.
  function ReadFrames(n: nat, buf: seq<byte>, chunks: seq<seq<byte>>): (r: (seq<ReadResult>, seq<byte>, seq<seq<byte>>))
  {
    if n == 0 then ([], buf, chunks)
    else
      var (r, buf', chunks') := ReadFrame(buf, chunks);
      var (rs, buf'', chunks'') := ReadFrames(n - 1, buf', chunks');
      ([r] + rs, buf'', chunks'')
  }

  // Every split of a concatenation of well-formed frames is read back as those frames, in
  // order; after n calls the buffer and the unread bytes are the frames not yet returned,
  // and once all are returned the next call reports the close.
  lemma {:induction false} StreamReassembly(frames: seq<seq<byte>>, n: nat, buf: seq<byte>, chunks: seq<seq<byte>>)
    requires forall f :: f in frames ==> WellFormed(f)
    requires buf + Concat(chunks) == Concat(frames) && n <= |frames|
    ensures var (rs, buf', chunks') := ReadFrames(n, buf, chunks);
            && |rs| == n && (forall i :: 0 <= i < n ==> rs[i] == Got(frames[i]))
            && buf' + Concat(chunks') == Concat(frames[n..])
            && (n == |frames| ==> ReadFrame(buf', chunks').0 == Closed)
    decreases n
  {
    if n == 0 {
      assert frames[0..] == frames;
      if frames == [] { ReadNothing(buf, chunks); }
    } else {
      NextFrame(frames[0], Concat(frames[1..]), buf, chunks);
      var (r, buf', chunks') := ReadFrame(buf, chunks);
      StreamReassembly(frames[1..], n - 1, buf', chunks');
      assert frames[1..][n-1..] == frames[n..];
    }
  }

  lemma {:induction false} ReadNothing(buf: seq<byte>, chunks: seq<seq<byte>>)
    requires buf + Concat(chunks) == []
    ensures ReadFrame(buf, chunks).0 == Closed
    decreases |chunks|
  {
    if chunks != [] { ReadNothing(buf + chunks[0], chunks[1..]); }
  }
}
