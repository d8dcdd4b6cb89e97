/**
  The D3P inner payload (pkg/protocol/inner.go): printing a record to bytes and parsing bytes
  back.  Parsing works section by section on the unread suffix of the payload.
*/
module InnerPayload {
  import opened Bytes
  import opened Values
  import opened Options

  type uint16 = i: int | 0 <= i < 0x1_0000

  datatype Field = Field(key: seq<byte>, valType: byte, value: seq<byte>)

  datatype Inner = Inner(
    hostID: uint32, msgID: uint32, messageSeq: uint16, messageSeqMax: uint16, timestamp: uint64,
    hostname: seq<byte>, signatureID: byte, signature: seq<byte>,
    fields: seq<Field>, data: seq<byte>, paddingLen: nat)

  datatype Error = ProtocolViolation | Serialization | UnknownSignatureSuite | BadTerminator

  datatype Result<+T> = Ok(value: T) | Err(error: Error) {
    predicate IsFailure() { Err? }
    function PropagateFailure<U>(): Result<U> requires Err? { Err(error) }
    function Extract(): T requires Ok? { value }
  }

  const MIN_INNER_LEN := 41
  const MAX_SECTION := 65535
  const EMPTY_MARKER := 1

  // Registered signature suites: the length range of their signatures.
  function SignatureSuite(id: byte): Option<(nat, nat)> {
    if id == 0 then Some((0, 0)) else if id == 1 then Some((64, 64)) else None
  }

  // ----- Printing -----

  function LenByte(s: seq<byte>): byte { |s| % 256 }

  // Length byte, text, terminator.
  function Delimited(s: seq<byte>): seq<byte> { [LenByte(s)] + s + [0] }

  function PrintField(f: Field): seq<byte> { Delimited(f.key) + ([f.valType] + Delimited(f.value)) }

  function PrintFields(fields: seq<Field>): seq<byte> {
    if fields == [] then [] else PrintFields(fields[..|fields|-1]) + PrintField(fields[|fields|-1])
  }

  function PrintHeader(r: Inner): seq<byte> {
    BigEndian(r.hostID, 4) + BigEndian(r.msgID, 4) + BigEndian(r.messageSeq, 2) + BigEndian(r.messageSeqMax, 2)
    + BigEndian(r.timestamp, 8)
  }

  function PrintSignature(id: byte, signature: seq<byte>): seq<byte> { [id] + [LenByte(signature)] + signature }

  function PrintSection(fields: seq<Field>): seq<byte> {
    var section := PrintFields(fields);
    (if section == [] then BigEndian(EMPTY_MARKER, 2) else BigEndian(|section|, 2) + section) + [0]
  }

  function PrintData(data: seq<byte>): seq<byte> { BigEndian(|data|, 2) + data }

  // Everything before the padding.
  function PrintBody(r: Inner): seq<byte> {
    PrintHeader(r) + (Delimited(r.hostname) + (PrintSignature(r.signatureID, r.signature)
    + (PrintSection(r.fields) + PrintData(r.data))))
  }

  // The checks of ConstructInnerPayload, in its order.
  function PrintCheck(r: Inner): Result<()> {
    if r.hostname == [] then Err(ProtocolViolation)
    else if |PrintFields(r.fields)| > MAX_SECTION then Err(ProtocolViolation)
    else if r.data == [] then Err(ProtocolViolation)
    else if |r.data| > MAX_SECTION then Err(ProtocolViolation)
    else Ok(())
  }

  // ConstructInnerPayload; the padding bytes are random.
  function Print(r: Inner, padding: seq<byte>): Result<seq<byte>>
    requires |padding| == r.paddingLen
  {
    match PrintCheck(r)
    case Err(e) => Err(e)
    case Ok(_) => Ok(PrintBody(r) + padding)
  }

  // ----- Parsing -----

  function Take(b: seq<byte>, n: nat): Result<(seq<byte>, seq<byte>)> {
    if |b| < n then Err(Serialization) else Ok((b[..n], b[n..]))
  }

  function TakeByte(b: seq<byte>): Result<(byte, seq<byte>)> {
    if b == [] then Err(Serialization) else Ok((b[0], b[1..]))
  }

  function Terminator(b: seq<byte>): Result<seq<byte>> {
    if b == [] || b[0] != 0 then Err(BadTerminator) else Ok(b[1..])
  }

  function ParseDelimited(b: seq<byte>): (r: Result<(seq<byte>, seq<byte>)>)
    ensures r.Ok? ==> |r.value.1| + 2 <= |b|
  {
    var (n, b) :- TakeByte(b);
    var (s, b) :- Take(b, n);
    var b :- Terminator(b);
    Ok((s, b))
  }

  function ParseField(b: seq<byte>): (r: Result<(Field, seq<byte>)>)
    ensures r.Ok? ==> |r.value.1| + 5 <= |b|
  {
    var (key, b) :- ParseDelimited(b);
    var (valType, b) :- TakeByte(b);
    var (value, b) :- ParseDelimited(b);
    Ok((Field(key, valType, value), b))
  }

  function ParseFields(b: seq<byte>): Result<seq<Field>>
    decreases |b|
  {
    if b == [] then Ok([])
    else
      var (f, b) :- ParseField(b);
      var rest :- ParseFields(b);
      Ok([f] + rest)
  }

  datatype Header = Header(hostID: uint32, msgID: uint32, messageSeq: uint16, messageSeqMax: uint16, timestamp: uint64)

  function ParseHeader(b: seq<byte>): Result<(Header, seq<byte>)> {
    Widths();
    var (h, b) :- Take(b, 4);
    var (m, b) :- Take(b, 4);
    var (s, b) :- Take(b, 2);
    var (x, b) :- Take(b, 2);
    var (t, b) :- Take(b, 8);
    FromBigEndianRoundTrip(h); FromBigEndianRoundTrip(m); FromBigEndianRoundTrip(s);
    FromBigEndianRoundTrip(x); FromBigEndianRoundTrip(t);
    Ok((Header(FromBigEndian(h), FromBigEndian(m), FromBigEndian(s), FromBigEndian(x), FromBigEndian(t)), b))
  }

  function ParseHostname(b: seq<byte>): Result<(seq<byte>, seq<byte>)> {
    if b != [] && b[0] == 0 then Err(ProtocolViolation) else ParseDelimited(b)
  }

  function ParseSignature(b: seq<byte>): Result<((byte, seq<byte>), seq<byte>)> {
    var (id, b) :- TakeByte(b);
    if SignatureSuite(id).None? then Err(UnknownSignatureSuite)
    else
      var (min, max) := SignatureSuite(id).value;
      var (n, b) :- TakeByte(b);
      if (id == 0 && n > 0) || (id > 0 && n == 0) then Err(ProtocolViolation)
      else if n > 0 && !(min <= n <= max) then Err(ProtocolViolation)
      else
        var (signature, b) :- Take(b, n);
        Ok(((id, signature), b))
  }

  function ParseSection(b: seq<byte>): Result<(seq<Field>, seq<byte>)> {
    var (lenBytes, b) :- Take(b, 2);
    var n := FromBigEndian(lenBytes);
    if n == 0 then Err(ProtocolViolation)
    else if n == EMPTY_MARKER then
      var b :- Terminator(b);
      Ok(([], b))
    else
      var (section, b) :- Take(b, n);
      var fields :- ParseFields(section);
      var b :- Terminator(b);
      Ok((fields, b))
  }

  function ParseData(b: seq<byte>): Result<(seq<byte>, seq<byte>)> {
    var (lenBytes, b) :- Take(b, 2);
    var n := FromBigEndian(lenBytes);
    if n == 0 then Err(ProtocolViolation)
    else if n > |b| then Err(ProtocolViolation)
    else Ok((b[..n], b[n..]))
  }

  // DeconstructInnerPayload
  function Parse(b: seq<byte>): Result<Inner> {
    if |b| < MIN_INNER_LEN then Err(ProtocolViolation)
    else
      var (h, b) :- ParseHeader(b);
      var (hostname, b) :- ParseHostname(b);
      var ((id, signature), b) :- ParseSignature(b);
      var (fields, b) :- ParseSection(b);
      var (data, b) :- ParseData(b);
      Ok(Inner(h.hostID, h.msgID, h.messageSeq, h.messageSeqMax, h.timestamp, hostname, id, signature, fields, data, |b|))
  }

  // ----- Section by section -----

  predicate FieldOk(f: Field) { |f.key| <= 255 && |f.value| <= 255 }
  predicate FieldsOk(fields: seq<Field>) { forall f :: f in fields ==> FieldOk(f) }

  predicate SignatureOk(id: byte, signature: seq<byte>) {
    SignatureSuite(id).Some? && SignatureSuite(id).value.0 <= |signature| <= SignatureSuite(id).value.1
  }

  // Records whose printed form says what they are.
  predicate InRange(r: Inner) {
    && 1 <= |r.hostname| <= 255 && SignatureOk(r.signatureID, r.signature)
    && FieldsOk(r.fields) && |PrintFields(r.fields)| <= MAX_SECTION && 1 <= |r.data| <= MAX_SECTION
  }

  lemma {:induction false} Cons(x: byte, rest: seq<byte>)
    ensures ([x] + rest)[0] == x && ([x] + rest)[1..] == rest && |[x] + rest| == 1 + |rest|
  {
  }

  lemma {:induction false} Uncons(b: seq<byte>)
    requires b != []
    ensures b == [b[0]] + b[1..]
  {
  }

  lemma {:induction false} DelimitedParts(s: seq<byte>, rest: seq<byte>)
    ensures Delimited(s) + rest == [LenByte(s)] + (s + ([0] + rest))
  {
    Assoc([LenByte(s)] + s, [0], rest);
    Assoc([LenByte(s)], s, [0] + rest);
  }

  lemma {:induction false} DelimitedThere(s: seq<byte>, rest: seq<byte>)
    requires |s| <= 255
    ensures ParseDelimited(Delimited(s) + rest) == Ok((s, rest))
  {
    DelimitedParts(s, rest);
    Cons(LenByte(s), s + ([0] + rest));
    TakeThere(s, [0] + rest);
    Cons(0, rest);
  }

  lemma {:induction false} DelimitedBack(b: seq<byte>)
    requires ParseDelimited(b).Ok?
    ensures var (s, rest) := ParseDelimited(b).value; |s| <= 255 && |s| == b[0] && b == Delimited(s) + rest
  {
    var n, b1 := b[0], b[1..];
    Uncons(b);
    TakeBack(b1, n);
    var (s, b2) := Take(b1, n).value;
    Uncons(b2);
    DelimitedParts(s, b2[1..]);
  }

  lemma {:induction false} FieldParts(f: Field, rest: seq<byte>)
    ensures PrintField(f) + rest == Delimited(f.key) + ([f.valType] + (Delimited(f.value) + rest))
  {
    Assoc(Delimited(f.key), [f.valType] + Delimited(f.value), rest);
    Assoc([f.valType], Delimited(f.value), rest);
  }

  lemma {:induction false} FieldThere(f: Field, rest: seq<byte>)
    requires FieldOk(f)
    ensures ParseField(PrintField(f) + rest) == Ok((f, rest))
  {
    var b2 := Delimited(f.value) + rest;
    FieldParts(f, rest);
    DelimitedThere(f.key, [f.valType] + b2);
    Cons(f.valType, b2);
    DelimitedThere(f.value, rest);
  }

  lemma {:induction false} FieldBack(b: seq<byte>)
    requires ParseField(b).Ok?
    ensures var (f, rest) := ParseField(b).value; FieldOk(f) && b == PrintField(f) + rest
  {
    DelimitedBack(b);
    var (key, b1) := ParseDelimited(b).value;
    Uncons(b1);
    DelimitedBack(b1[1..]);
    var (f, rest) := ParseField(b).value;
    FieldParts(f, rest);
  }

  lemma {:induction false} Assoc(a: seq<byte>, b: seq<byte>, c: seq<byte>)
    ensures (a + b) + c == a + (b + c)
  {
  }

  // Prepending a field; printing appends, parsing peels from the front.
  lemma {:induction false} PrintFieldsCons(f: Field, fields: seq<Field>)
    ensures PrintFields([f] + fields) == PrintField(f) + PrintFields(fields)
  {
    if fields == [] {
      assert [f] + fields == [f];
      assert PrintFields([f]) == PrintFields([]) + PrintField(f);
    } else {
      var init, last := fields[..|fields|-1], fields[|fields|-1];
      PrintFieldsCons(f, init);
      var all := [f] + fields;
      assert all[..|all|-1] == [f] + init && all[|all|-1] == last;
      assert PrintFields(all) == PrintFields([f] + init) + PrintField(last);
      assert PrintFields(fields) == PrintFields(init) + PrintField(last);
      Assoc(PrintField(f), PrintFields(init), PrintField(last));
    }
  }

  lemma {:induction false} FieldsThere(fields: seq<Field>)
    requires FieldsOk(fields)
    ensures ParseFields(PrintFields(fields)) == Ok(fields)
  {
    if fields != [] {
      assert fields == [fields[0]] + fields[1..];
      PrintFieldsCons(fields[0], fields[1..]);
      FieldThere(fields[0], PrintFields(fields[1..]));
      FieldsThere(fields[1..]);
    }
  }

  lemma {:induction false} FieldsBack(b: seq<byte>)
    requires ParseFields(b).Ok?
    ensures FieldsOk(ParseFields(b).value) && PrintFields(ParseFields(b).value) == b
    decreases |b|
  {
    if b != [] {
      FieldBack(b);
      var (f, rest) := ParseField(b).value;
      FieldsBack(rest);
      PrintFieldsCons(f, ParseFields(rest).value);
    }
  }

  lemma {:induction false} HeaderThere(r: Inner, rest: seq<byte>)
    ensures ParseHeader(PrintHeader(r) + rest)
         == Ok((Header(r.hostID, r.msgID, r.messageSeq, r.messageSeqMax, r.timestamp), rest))
  {
    Widths();
    BigEndianRoundTrip(r.hostID, 4); BigEndianRoundTrip(r.msgID, 4); BigEndianRoundTrip(r.messageSeq, 2);
    BigEndianRoundTrip(r.messageSeqMax, 2); BigEndianRoundTrip(r.timestamp, 8);
    var h, m, q, x, t := BigEndian(r.hostID, 4), BigEndian(r.msgID, 4), BigEndian(r.messageSeq, 2), BigEndian(r.messageSeqMax, 2), BigEndian(r.timestamp, 8);
    FiveParts(h, m, q, x, t, rest);
    TakeThere(h, m + (q + (x + (t + rest))));
    TakeThere(m, q + (x + (t + rest)));
    TakeThere(q, x + (t + rest));
    TakeThere(x, t + rest);
    TakeThere(t, rest);
  }

  lemma {:induction false} HeaderBack(b: seq<byte>, r: Inner)
    requires ParseHeader(b).Ok?
    requires ParseHeader(b).value.0 == Header(r.hostID, r.msgID, r.messageSeq, r.messageSeqMax, r.timestamp)
    ensures b == PrintHeader(r) + ParseHeader(b).value.1
  {
    TakeBack(b, 4);
    var (h, b1) := Take(b, 4).value;
    TakeBack(b1, 4);
    var (m, b2) := Take(b1, 4).value;
    TakeBack(b2, 2);
    var (q, b3) := Take(b2, 2).value;
    TakeBack(b3, 2);
    var (x, b4) := Take(b3, 2).value;
    TakeBack(b4, 8);
    var (t, rest) := Take(b4, 8).value;
    FromBigEndianRoundTrip(h); FromBigEndianRoundTrip(m); FromBigEndianRoundTrip(q);
    FromBigEndianRoundTrip(x); FromBigEndianRoundTrip(t);
    FiveParts(h, m, q, x, t, rest);
  }

  lemma {:induction false} FiveParts(a: seq<byte>, b: seq<byte>, c: seq<byte>, d: seq<byte>, e: seq<byte>, rest: seq<byte>)
    ensures a + (b + (c + (d + (e + rest)))) == (a + b + c + d + e) + rest
  {
  }

  lemma {:induction false} HostnameThere(hostname: seq<byte>, rest: seq<byte>)
    requires 1 <= |hostname| <= 255
    ensures ParseHostname(Delimited(hostname) + rest) == Ok((hostname, rest))
  {
    DelimitedThere(hostname, rest);
  }

  lemma {:induction false} HostnameBack(b: seq<byte>)
    requires ParseHostname(b).Ok?
    ensures var (hostname, rest) := ParseHostname(b).value;
            1 <= |hostname| <= 255 && b == Delimited(hostname) + rest
  {
    DelimitedBack(b);
  }

  lemma {:induction false} SignatureParts(id: byte, signature: seq<byte>, rest: seq<byte>)
    ensures PrintSignature(id, signature) + rest == [id] + ([LenByte(signature)] + (signature + rest))
  {
    Assoc([id] + [LenByte(signature)], signature, rest);
    Assoc([id], [LenByte(signature)], signature + rest);
  }

  lemma {:induction false} SignatureThere(id: byte, signature: seq<byte>, rest: seq<byte>)
    requires SignatureOk(id, signature)
    ensures ParseSignature(PrintSignature(id, signature) + rest) == Ok(((id, signature), rest))
  {
    var n := LenByte(signature);
    SignatureParts(id, signature, rest);
    Cons(id, [n] + (signature + rest));
    Cons(n, signature + rest);
    TakeThere(signature, rest);
  }

  lemma {:induction false} SignatureBack(b: seq<byte>)
    requires ParseSignature(b).Ok?
    ensures var ((id, signature), rest) := ParseSignature(b).value;
            SignatureOk(id, signature) && b == PrintSignature(id, signature) + rest
  {
    Uncons(b);
    var b1 := b[1..];
    Uncons(b1);
    TakeBack(b1[1..], b1[0]);
    var ((id, signature), rest) := ParseSignature(b).value;
    SignatureParts(id, signature, rest);
  }

  // A non-empty section is at least five bytes, so the marker 1 stands for nothing else.
  lemma {:induction false} SectionLength(fields: seq<Field>)
    ensures fields == [] <==> PrintFields(fields) == []
    ensures fields != [] ==> |PrintFields(fields)| >= 5
  {
    if fields != [] { SectionLength(fields[..|fields|-1]); }
  }

  lemma {:induction false} EmptySectionThere(rest: seq<byte>)
    ensures ParseSection(PrintSection([]) + rest) == Ok(([], rest))
  {
    U16(EMPTY_MARKER);
    Assoc(BigEndian(EMPTY_MARKER, 2), [0], rest);
    TakeThere(BigEndian(EMPTY_MARKER, 2), [0] + rest);
    Cons(0, rest);
  }

  lemma {:induction false} SectionParts(fields: seq<Field>, rest: seq<byte>)
    requires PrintFields(fields) != []
    ensures var section := PrintFields(fields); PrintSection(fields) + rest == BigEndian(|section|, 2) + (section + ([0] + rest))
  {
    var section := PrintFields(fields);
    Assoc(BigEndian(|section|, 2) + section, [0], rest);
    Assoc(BigEndian(|section|, 2), section, [0] + rest);
  }

  lemma {:induction false} SectionThere(fields: seq<Field>, rest: seq<byte>)
    requires FieldsOk(fields) && |PrintFields(fields)| <= MAX_SECTION
    ensures ParseSection(PrintSection(fields) + rest) == Ok((fields, rest))
  {
    SectionLength(fields);
    if fields == [] {
      EmptySectionThere(rest);
    } else {
      var section := PrintFields(fields);
      FieldsThere(fields);
      U16(|section|);
      SectionParts(fields, rest);
      TakeThere(BigEndian(|section|, 2), section + ([0] + rest));
      TakeThere(section, [0] + rest);
      Cons(0, rest);
    }
  }

  lemma {:induction false} TakeThere(x: seq<byte>, rest: seq<byte>)
    ensures Take(x + rest, |x|) == Ok((x, rest))
  {
  }

  lemma {:induction false} TakeBack(b: seq<byte>, n: nat)
    requires Take(b, n).Ok?
    ensures b == Take(b, n).value.0 + Take(b, n).value.1 && |Take(b, n).value.0| == n
  {
  }

  lemma {:induction false} SectionBack(b: seq<byte>)
    requires ParseSection(b).Ok?
    ensures var (fields, rest) := ParseSection(b).value;
            FieldsOk(fields) && |PrintFields(fields)| <= MAX_SECTION && b == PrintSection(fields) + rest
  {
    TakeBack(b, 2);
    var (lenBytes, b1) := Take(b, 2).value;
    var n := FromBigEndian(lenBytes);
    U16Back(lenBytes);
    if n == EMPTY_MARKER {
      Uncons(b1);
      Assoc(lenBytes, [0], b1[1..]);
    } else {
      TakeBack(b1, n);
      var (section, b2) := Take(b1, n).value;
      FieldsBack(section);
      Uncons(b2);
      SectionParts(ParseSection(b).value.0, b2[1..]);
    }
  }

  lemma {:induction false} DataThere(data: seq<byte>, rest: seq<byte>)
    requires 1 <= |data| <= MAX_SECTION
    ensures ParseData(PrintData(data) + rest) == Ok((data, rest))
  {
    U16(|data|);
    assert PrintData(data) + rest == BigEndian(|data|, 2) + (data + rest);
    TakeThere(BigEndian(|data|, 2), data + rest);
  }

  lemma {:induction false} DataBack(b: seq<byte>)
    requires ParseData(b).Ok?
    ensures var (data, rest) := ParseData(b).value;
            1 <= |data| <= MAX_SECTION && b == PrintData(data) + rest
  {
    TakeBack(b, 2);
    var (lenBytes, b1) := Take(b, 2).value;
    U16Back(lenBytes);
    var n := FromBigEndian(lenBytes);
    TakeBack(b1, n);
    var (data, rest) := ParseData(b).value;
    Assoc(lenBytes, data, rest);
  }

  // ----- Main results -----

  lemma {:induction false} BodyLength(r: Inner)
    ensures |PrintBody(r)| == 29 + |r.hostname| + |r.signature| + |PrintFields(r.fields)| + |r.data|
  {
  }

  lemma {:induction false} BodyThenPadding(r: Inner, padding: seq<byte>)
    ensures PrintBody(r) + padding
         == PrintHeader(r) + (Delimited(r.hostname) + (PrintSignature(r.signatureID, r.signature)
            + (PrintSection(r.fields) + (PrintData(r.data) + padding))))
  {
    var d := PrintData(r.data);
    var c := PrintSection(r.fields) + d;
    var s := PrintSignature(r.signatureID, r.signature) + c;
    var h := Delimited(r.hostname) + s;
    Assoc(PrintSection(r.fields), d, padding);
    Assoc(PrintSignature(r.signatureID, r.signature), c, padding);
    Assoc(Delimited(r.hostname), s, padding);
    Assoc(PrintHeader(r), h, padding);
  }

  // A printed record parses back to itself exactly when its lengths are in range, its signature
  // fits its registered suite, and the payload reaches the minimum length.
  lemma {:induction false} ParsePrinted(r: Inner, padding: seq<byte>)
    requires |padding| == r.paddingLen && Print(r, padding).Ok?
    ensures Parse(Print(r, padding).value) == Ok(r) <==> InRange(r) && |Print(r, padding).value| >= MIN_INNER_LEN
  {
    var b := Print(r, padding).value;
    if Parse(b) == Ok(r) { ParsedInRange(b); }
    if InRange(r) && |b| >= MIN_INNER_LEN {
      var b5 := PrintData(r.data) + padding;
      var b4 := PrintSection(r.fields) + b5;
      var b3 := PrintSignature(r.signatureID, r.signature) + b4;
      var b2 := Delimited(r.hostname) + b3;
      BodyThenPadding(r, padding);
      HeaderThere(r, b2);
      HostnameThere(r.hostname, b3);
      SignatureThere(r.signatureID, r.signature, b4);
      SectionThere(r.fields, b5);
      DataThere(r.data, padding);
    }
  }

  // Ten bytes of padding are always enough.
  lemma {:induction false} PaddedIsLongEnough(r: Inner, padding: seq<byte>)
    requires |padding| == r.paddingLen >= 10 && Print(r, padding).Ok?
    ensures |Print(r, padding).value| >= MIN_INNER_LEN
  {
    BodyLength(r);
  }

  // Re-printing an accepted payload, with its own padding, reproduces it byte for byte.
  lemma {:induction false} PrintParsed(b: seq<byte>)
    requires Parse(b).Ok?
    ensures var r := Parse(b).value;
            && r.paddingLen <= |b| && InRange(r)
            && Print(r, b[|b| - r.paddingLen..]) == Ok(b)
            && b[..|b| - r.paddingLen] == PrintBody(r)
  {
    var r := Parse(b).value;
    var (_, b2) := ParseHeader(b).value;
    HeaderBack(b, r);
    var (_, b3) := ParseHostname(b2).value;
    HostnameBack(b2);
    var (_, b4) := ParseSignature(b3).value;
    SignatureBack(b3);
    var (_, b5) := ParseSection(b4).value;
    SectionBack(b4);
    var (_, padding) := ParseData(b5).value;
    DataBack(b5);
    BodyThenPadding(r, padding);
    assert b[|b| - r.paddingLen..] == padding;
  }

  lemma {:induction false} ParsedInRange(b: seq<byte>)
    requires Parse(b).Ok?
    ensures InRange(Parse(b).value) && |b| >= MIN_INNER_LEN
  {
    PrintParsed(b);
  }

  // ----- The operations as the source performs them -----

  lemma {:induction false} PrintOneMore(fields: seq<Field>, i: nat)
    requires i < |fields|
    ensures PrintFields(fields[..i+1]) == PrintFields(fields[..i]) + PrintField(fields[i])
  {
    assert fields[..i+1][..i] == fields[..i];
  }

  // Appends field after field to a buffer.
  method ConstructInnerPayload(r: Inner, padding: seq<byte>) returns (payload: Result<seq<byte>>)
    requires |padding| == r.paddingLen
    ensures payload == Print(r, padding)
  {
    var buf := BigEndian(r.hostID, 4) + BigEndian(r.msgID, 4) + BigEndian(r.messageSeq, 2) + BigEndian(r.messageSeqMax, 2);
    buf := buf + BigEndian(r.timestamp, 8);
    if |r.hostname| < 1 {
      return Err(ProtocolViolation);
    }
    ghost var header := buf;
    buf := buf + ([LenByte(r.hostname)] + r.hostname + [0]);
    buf := buf + ([r.signatureID] + [LenByte(r.signature)] + r.signature);
    var section := [];
    for i := 0 to |r.fields|
      invariant section == PrintFields(r.fields[..i])
    {
      var f := r.fields[i];
      PrintOneMore(r.fields, i);
      section := section + (([LenByte(f.key)] + f.key + [0]) + ([f.valType] + ([LenByte(f.value)] + f.value + [0])));
    }
    assert r.fields[..|r.fields|] == r.fields;
    if |section| > MAX_SECTION {
      return Err(ProtocolViolation);
    }
    buf := buf + ((if |section| > 0 then BigEndian(|section|, 2) + section else BigEndian(EMPTY_MARKER, 2)) + [0]);
    if |r.data| == 0 || |r.data| > MAX_SECTION {
      return Err(ProtocolViolation);
    }
    buf := buf + (BigEndian(|r.data|, 2) + r.data);
    FlattenBody(r, header, buf);
    payload := Ok(buf + padding);
  }

  lemma {:induction false} FlattenBody(r: Inner, header: seq<byte>, buf: seq<byte>)
    requires header == PrintHeader(r)
    requires buf == (((header + Delimited(r.hostname)) + PrintSignature(r.signatureID, r.signature)) + PrintSection(r.fields)) + PrintData(r.data)
    ensures buf == PrintBody(r)
  {
    var h, s, c, d := Delimited(r.hostname), PrintSignature(r.signatureID, r.signature), PrintSection(r.fields), PrintData(r.data);
    Assoc((header + h) + s, c, d);
    Assoc(header + h, s, c + d);
    Assoc(header, h, s + (c + d));
  }

  // The loop over the context section's reader.
  method ReadFields(section: seq<byte>) returns (fields: Result<seq<Field>>)
    ensures fields == ParseFields(section)
  {
    var read: seq<Field> := [];
    var rest := section;
    ghost var all := ParseFields(section);
    if all.Ok? { assert read + all.value == all.value; }
    while rest != []
      invariant ParseFields(section) == match ParseFields(rest)
                                        case Ok(more) => Ok(read + more)
                                        case Err(e) => Err(e)
      decreases |rest|
    {
      var one := ParseField(rest);
      if one.Err? {
        return Err(one.error);
      }
      var (f, after) := one.value;
      ghost var more := ParseFields(after);
      if more.Ok? { assert read + ([f] + more.value) == read + [f] + more.value; }
      read, rest := read + [f], after;
    }
    assert read + [] == read;
    fields := Ok(read);
  }

  method DeconstructInnerPayload(payload: seq<byte>) returns (r: Result<Inner>)
    ensures r == Parse(payload)
  {
    if |payload| < MIN_INNER_LEN {
      return Err(ProtocolViolation);
    }
    var p1 :- ParseHeader(payload);
    var (h, b) := p1;
    var p2 :- ParseHostname(b);
    var (hostname, b2) := p2;
    var p3 :- ParseSignature(b2);
    var ((id, signature), b3) := p3;
    var p4 :- Take(b3, 2);
    var (lenBytes, b4) := p4;
    var n := FromBigEndian(lenBytes);
    if n == 0 {
      return Err(ProtocolViolation);
    }
    var fields: seq<Field> := [];
    if n != EMPTY_MARKER {
      var p5 :- Take(b4, n);
      var (section, b5) := p5;
      fields :- ReadFields(section);
      b4 := b5;
    }
    var b6 :- Terminator(b4);
    var p6 :- ParseData(b6);
    var (data, padding) := p6;
    r := Ok(Inner(h.hostID, h.msgID, h.messageSeq, h.messageSeqMax, h.timestamp, hostname, id, signature, fields, data, |padding|));
  }
}
