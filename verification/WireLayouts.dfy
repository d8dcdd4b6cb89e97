/**
  Where things stand on the wire: which byte is which in a value, in the bytes to sign, in an
  inner payload (pkg/protocol/inner.go) and in a packet (pkg/protocol/outer.go).
*/
module WireLayouts {
  import opened Bytes
  import opened Options
  import opened Values
  import opened InnerPayload
  import opened ContextFields
  import opened PayloadCodec
  import opened OuterPayload

  lemma {:induction false} MostSignificantFirst(v: nat)
    requires v < 0x1_0000
    ensures BigEndian(v, 2) == [v / 256, v % 256]
  {
    assert BigEndian(v / 256, 1) == BigEndian(v / 256 / 256, 0) + [v / 256 % 256];
  }

  lemma {:induction false} FourBytes(a: byte, b: byte, c: byte, d: byte)
    ensures BigEndian(0x100_0000 * a + 0x1_0000 * b + 0x100 * c + d, 4) == [a, b, c, d]
  {
    var v := 0x100_0000 * a + 0x1_0000 * b + 0x100 * c + d;
    assert v / 256 == 0x1_0000 * a + 0x100 * b + c && v % 256 == d;
    assert v / 256 / 256 == 0x100 * a + b && v / 256 % 256 == c;
    MostSignificantFirst(v / 256 / 256);
    assert BigEndian(v / 256, 3) == BigEndian(v / 256 / 256, 2) + [c];
  }

  // Type bytes and contents of serialised values.
  lemma {:induction false} ValueBytes()
    ensures Serialize(Int8(-1)) == Some((1, [0xFF])) && Serialize(Int16(-2)) == Some((2, [0xFF, 0xFE]))
    ensures Serialize(Int32(0x0102_0304)) == Some((3, [1, 2, 3, 4]))
    ensures Serialize(Float32(0x3F80_0000)) == Some((5, [0x3F, 0x80, 0, 0]))
    ensures Serialize(Bool(true)) == Some((7, [1])) && Serialize(Bool(false)) == Some((7, [0]))
  {
    Widths();
    MostSignificantFirst(0xFFFE);
    FourBytes(1, 2, 3, 4); FourBytes(0x3F, 0x80, 0, 0);
    assert BigEndian(0xFF, 1) == [0xFF];
  }

  // Strings travel without NULs, byte slices behind their length.
  lemma {:induction false} TextAndBlobBytes(s: seq<byte>, b: byte, c: byte)
    requires 0 !in s
    ensures Serialize(Str(s + [0])) == Some((8, s)) && Serialize(Blob([b, c])) == Some((9, [0, 0, 0, 2] + [b, c]))
  {
    StripNulId(s);
    assert (s + [0])[..|s|] == s;
    assert s + [] == s;
    FourBytes(0, 0, 0, 2);
  }

  // Both 64-bit integers travel under type 4, and 64-bit floats under type 6.
  lemma {:induction false} WideValues(i: int64, bits: uint64)
    ensures Serialize(Int(i)) == Serialize(Int64(i)) && Serialize(Int64(i)).Some? && Serialize(Int64(i)).value.0 == 4
    ensures Serialize(Float64(bits)).Some? && Serialize(Float64(bits)).value.0 == 6
  {
  }

  // The bytes to sign: "D3P-ID-SIG", eight bytes of time, four of host ID, the hostname.
  lemma {:induction false} SignedBytesLayout(hostname: seq<byte>, hostID: uint32, timestamp: uint64)
    ensures var s := SerializeSignature(hostname, hostID, timestamp);
            && |s| == 22 + |hostname| && s[..10] == [0x44, 0x33, 0x50, 0x2D, 0x49, 0x44, 0x2D, 0x53, 0x49, 0x47]
            && FromBigEndian(s[10..18]) == timestamp && FromBigEndian(s[18..22]) == hostID && s[22..] == hostname
  {
    Widths();
    BigEndianRoundTrip(timestamp, 8);
    BigEndianRoundTrip(hostID, 4);
    ThreeSlices(SIGNATURE_CONTEXT, BigEndian(timestamp, 8), BigEndian(hostID, 4), hostname);
  }

  lemma {:induction false} ThreeSlices(a: seq<byte>, b: seq<byte>, c: seq<byte>, d: seq<byte>)
    requires |a| == 10 && |b| == 8 && |c| == 4
    ensures var s := a + (b + (c + d)); |s| == 22 + |d| && s[..10] == a && s[10..18] == b && s[18..22] == c && s[22..] == d
  {
  }

  // The fixed part of an inner payload, and the hostname and signature behind it.
  lemma {:induction false} HeaderLayout(r: Inner)
    requires |r.hostname| <= 255 && |r.signature| <= 255
    ensures var b, n := PrintBody(r), |r.hostname|;
            && |b| >= 24 + n + |r.signature|
            && FromBigEndian(b[0..4]) == r.hostID && FromBigEndian(b[4..8]) == r.msgID
            && FromBigEndian(b[8..10]) == r.messageSeq && FromBigEndian(b[10..12]) == r.messageSeqMax
            && FromBigEndian(b[12..20]) == r.timestamp
            && b[20] == n && b[21..21 + n] == r.hostname && b[21 + n] == 0
            && b[22 + n] == r.signatureID && b[23 + n] == |r.signature| && b[24 + n..24 + n + |r.signature|] == r.signature
  {
    Widths();
    BigEndianRoundTrip(r.hostID, 4); BigEndianRoundTrip(r.msgID, 4); BigEndianRoundTrip(r.messageSeq, 2);
    BigEndianRoundTrip(r.messageSeqMax, 2); BigEndianRoundTrip(r.timestamp, 8);
    var rest := PrintSection(r.fields) + PrintData(r.data);
    var sig := PrintSignature(r.signatureID, r.signature) + rest;
    var name := Delimited(r.hostname) + sig;
    HeaderSlices(r, name);
    NameSlices(r.hostname, sig);
    SignatureSlices(r.signatureID, r.signature, rest);
    Shift(PrintHeader(r), name);
    ShiftName(PrintHeader(r) + name, name, sig, |r.hostname|, |r.signature|);
  }

  lemma {:induction false} SixSlices<T>(h: seq<T>, m: seq<T>, q: seq<T>, x: seq<T>, t: seq<T>, rest: seq<T>)
    requires |h| == |m| == 4 && |q| == |x| == 2 && |t| == 8
    ensures var b := (h + m + q + x + t) + rest;
            b[0..4] == h && b[4..8] == m && b[8..10] == q && b[10..12] == x && b[12..20] == t
  {
  }

  lemma {:induction false} HeaderSlices(r: Inner, rest: seq<byte>)
    ensures var b := PrintHeader(r) + rest;
            && |PrintHeader(r)| == 20
            && b[0..4] == BigEndian(r.hostID, 4) && b[4..8] == BigEndian(r.msgID, 4) && b[8..10] == BigEndian(r.messageSeq, 2)
            && b[10..12] == BigEndian(r.messageSeqMax, 2) && b[12..20] == BigEndian(r.timestamp, 8)
  {
    SixSlices(BigEndian(r.hostID, 4), BigEndian(r.msgID, 4), BigEndian(r.messageSeq, 2), BigEndian(r.messageSeqMax, 2), BigEndian(r.timestamp, 8), rest);
  }

  lemma {:induction false} NameSlices(s: seq<byte>, rest: seq<byte>)
    requires |s| <= 255
    ensures var b := Delimited(s) + rest; |b| == |s| + 2 + |rest| && b[0] == |s| && b[1..1 + |s|] == s && b[1 + |s|] == 0 && b[2 + |s|..] == rest
  {
  }

  lemma {:induction false} SignatureSlices(id: byte, s: seq<byte>, rest: seq<byte>)
    requires |s| <= 255
    ensures var b := PrintSignature(id, s) + rest; |b| == 2 + |s| + |rest| && b[0] == id && b[1] == |s| && b[2..2 + |s|] == s
  {
  }

  lemma {:induction false} Shift(header: seq<byte>, rest: seq<byte>)
    ensures (header + rest)[|header|..] == rest
  {
  }

  lemma {:induction false} SliceOfTail<T>(s: seq<T>, k: nat, i: nat, j: nat)
    requires k <= |s| && i <= j <= |s| - k
    ensures s[k..][i..j] == s[k + i..k + j]
  {
  }

  lemma {:induction false} ShiftName(b: seq<byte>, name: seq<byte>, sig: seq<byte>, n: nat, m: nat)
    requires |b| >= 20 && b[20..] == name && |name| >= 2 + n && name[2 + n..] == sig && |sig| >= 2 + m
    ensures |b| >= 24 + n + m
    ensures b[20] == name[0] && b[21..21 + n] == name[1..1 + n] && b[21 + n] == name[1 + n]
    ensures b[22 + n] == sig[0] && b[23 + n] == sig[1] && b[24 + n..24 + n + m] == sig[2..2 + m]
  {
    assert b[21 + n] == name[1 + n] && name[2 + n] == sig[0] && name[3 + n] == sig[1];
    SliceOfTail(b, 20, 1, 1 + n);
    SliceOfTail(b, 20, 4 + n, 4 + n + m);
    SliceOfTail(name, 2 + n, 2, 2 + m);
  }

  // A packet: the suite's identifier, then its key, its nonce and the ciphertext.
  lemma {:induction false} PacketLayout(inner: seq<byte>, id: byte, c: Cipher, call: nat)
    requires Seal(inner, id, c, call).Valid?
    ensures var blob, suite, sealed := Seal(inner, id, c, call).value, SuiteInfo(id).value, c.encrypt(inner, id, call).value;
            && |blob| >= 1 + suite.keySize + suite.nonceSize
            && blob[0] == id && blob[1..1 + suite.keySize] == sealed.key
            && blob[1 + suite.keySize..1 + suite.keySize + suite.nonceSize] == sealed.nonce
            && blob[1 + suite.keySize + suite.nonceSize..] == sealed.ciphertext
  {
  }

  // The registered suites.
  lemma {:induction false} RegisteredSuites(id: byte)
    ensures SuiteInfo(id) == None <==> id > 1
    ensures SuiteInfo(0) == Some(Suite(6, 5, 0)) && SuiteInfo(1) == Some(Suite(32, 12, 16))
  {
  }
}
