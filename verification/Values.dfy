/**
  Typed context values of D3P (pkg/protocol/context.go) and its text cleaning
  (pkg/protocol/text.go).  Go strings are byte sequences; floats are their IEEE bit patterns.
*/
module Values {
  import opened Bytes
  import opened Options

  type int8 = i: int | -0x80 <= i < 0x80
  type int16 = i: int | -0x8000 <= i < 0x8000
  type int32 = i: int | -0x8000_0000 <= i < 0x8000_0000
  type int64 = i: int | -0x8000_0000_0000_0000 <= i < 0x8000_0000_0000_0000
  type uint32 = i: int | 0 <= i < 0x1_0000_0000
  type uint64 = i: int | 0 <= i < 0x1_0000_0000_0000_0000

  datatype Value =
    | Int8(i8: int8) | Int16(i16: int16) | Int32(i32: int32) | Int64(i64: int64) | Int(i: int64)
    | Float32(bits32: uint32) | Float64(bits64: uint64)
    | Bool(b: bool) | Str(s: seq<byte>) | Blob(blob: seq<byte>)
    | Nil | Unsupported

  const INT8: byte := 1
  const INT16: byte := 2
  const INT32: byte := 3
  const INT64: byte := 4
  const FLOAT32: byte := 5
  const FLOAT64: byte := 6
  const BOOL: byte := 7
  const STRING: byte := 8
  const BLOB: byte := 9

  // Two's complement in `width` bytes.
  function Signed(i: int, width: nat): seq<byte>
    requires 0 <= i + Pow256(width)
  {
    BigEndian(if i < 0 then i + Pow256(width) else i, width)
  }

  function FromSigned(s: seq<byte>): int {
    var u := FromBigEndian(s);
    if 2 * u >= Pow256(|s|) then u - Pow256(|s|) else u
  }

  lemma {:induction false} SignedRoundTrip(i: int, width: nat)
    requires width > 0 && 0 <= 2 * i + Pow256(width) < 2 * Pow256(width)
    ensures FromSigned(Signed(i, width)) == i
  {
    BigEndianRoundTrip(if i < 0 then i + Pow256(width) else i, width);
  }

  lemma {:induction false} FromSignedRoundTrip(s: seq<byte>)
    ensures 0 <= 2 * FromSigned(s) + Pow256(|s|) < 2 * Pow256(|s|)
    ensures Signed(FromSigned(s), |s|) == s
  {
    FromBigEndianRoundTrip(s);
    var u, p, i := FromBigEndian(s), Pow256(|s|), FromSigned(s);
    assert u < p && (if i < 0 then i + p else i) == u;
  }

  function StripNul(s: seq<byte>): (r: seq<byte>)
    ensures |r| <= |s| && 0 !in r
  {
    if s == [] then [] else StripNul(s[..|s|-1]) + (if s[|s|-1] == 0 then [] else [s[|s|-1]])
  }

  lemma {:induction false} StripNulId(s: seq<byte>)
    ensures StripNul(s) == s <==> 0 !in s
  {
    if s != [] {
      var t := s[..|s|-1];
      StripNulId(t);
      assert s == t + [s[|s|-1]];
    }
  }

  // ----- UTF-8 -----

  predicate Cont(b: byte) { 0x80 <= b < 0xC0 }

  // Length of the encoded rune s starts with, 0 if none (utf8.Valid).
  function RuneLen(s: seq<byte>): nat {
    if s == [] then 0
    else
      var b := s[0];
      if b < 0x80 then 1
      else if 0xC2 <= b < 0xE0 then if |s| >= 2 && Cont(s[1]) then 2 else 0
      else if 0xE0 <= b < 0xF0 then
        if |s| >= 3 && Cont(s[1]) && Cont(s[2])
           && (b == 0xE0 ==> s[1] >= 0xA0) && (b == 0xED ==> s[1] < 0xA0) then 3 else 0
      else if 0xF0 <= b < 0xF5 then
        if |s| >= 4 && Cont(s[1]) && Cont(s[2]) && Cont(s[3])
           && (b == 0xF0 ==> s[1] >= 0x90) && (b == 0xF4 ==> s[1] < 0x90) then 4 else 0
      else 0
  }

  predicate ValidUtf8(s: seq<byte>) {
    s == [] || (RuneLen(s) > 0 && ValidUtf8(s[RuneLen(s)..]))
  }

  lemma {:induction false} StripNulConcat(s: seq<byte>, t: seq<byte>)
    ensures StripNul(s + t) == StripNul(s) + StripNul(t)
  {
    if t == [] {
      assert s + t == s;
    } else {
      assert (s + t)[..|s + t|-1] == s + t[..|t|-1];
      StripNulConcat(s, t[..|t|-1]);
    }
  }

  lemma {:induction false} RuneAlone(s: seq<byte>, t: seq<byte>)
    requires RuneLen(s) > 0
    ensures RuneLen(s) <= |s| && RuneLen(s[..RuneLen(s)] + t) == RuneLen(s)
    ensures s[0] != 0 ==> 0 !in s[..RuneLen(s)]
    ensures s[0] == 0 ==> s[..RuneLen(s)] == [0]
  {
  }

  // Stripping NULs keeps a string valid: NUL is a rune of its own.
  lemma {:induction false} StripNulKeepsUtf8(s: seq<byte>)
    requires ValidUtf8(s)
    ensures ValidUtf8(StripNul(s))
  {
    if s != [] {
      var n := RuneLen(s);
      RuneAlone(s, StripNul(s[n..]));
      var rune, rest := s[..n], s[n..];
      assert s == rune + rest;
      StripNulConcat(rune, rest);
      StripNulKeepsUtf8(rest);
      if s[0] != 0 {
        StripNulId(rune);
        RuneThenValid(rune, StripNul(rest));
      } else {
        assert StripNul([0]) == [];
        assert StripNul(s) == StripNul(rest);
      }
    }
  }

  lemma {:induction false} RuneThenValid(rune: seq<byte>, rest: seq<byte>)
    requires rune != [] && RuneLen(rune + rest) == |rune| && ValidUtf8(rest)
    ensures ValidUtf8(rune + rest)
  {
    assert (rune + rest)[|rune|..] == rest;
  }

  // ----- Serialisation -----

  function Serialize(v: Value): Option<(byte, seq<byte>)> {
    match v
    case Int8(i) => Some((INT8, Signed1(i)))
    case Int16(i) => Some((INT16, Signed2(i)))
    case Int32(i) => Some((INT32, Signed4(i)))
    case Int64(i) => Some((INT64, Signed8(i)))
    case Int(i) => Some((INT64, Signed8(i)))
    case Float32(bits) => Some((FLOAT32, BigEndian(bits, 4)))
    case Float64(bits) => Some((FLOAT64, BigEndian(bits, 8)))
    case Bool(b) => Some((BOOL, [if b then 1 else 0]))
    case Str(s) => Some((STRING, StripNul(s)))
    case Blob(b) => Some((BLOB, BigEndian(|b|, 4) + b))
    case Nil => None
    case Unsupported => None
  }

  function Signed1(i: int8): seq<byte> { Widths(); Signed(i, 1) }
  function Signed2(i: int16): seq<byte> { Widths(); Signed(i, 2) }
  function Signed4(i: int32): seq<byte> { Widths(); Signed(i, 4) }
  function Signed8(i: int64): seq<byte> { Widths(); Signed(i, 8) }

  predicate Finite32(bits: uint32) { bits / 0x80_0000 % 0x100 != 0xFF }
  predicate Finite64(bits: uint64) { bits / 0x10_0000_0000_0000 % 0x800 != 0x7FF }

  function Positive32(bits: uint32): uint32 { if bits == 0x8000_0000 then 0 else bits }
  function Positive64(bits: uint64): uint64 { if bits == 0x8000_0000_0000_0000 then 0 else bits }

  function FromSigned1(data: seq<byte>): int8 requires |data| == 1 { Widths(); FromSignedRoundTrip(data); FromSigned(data) }
  function FromSigned2(data: seq<byte>): int16 requires |data| == 2 { Widths(); FromSignedRoundTrip(data); FromSigned(data) }
  function FromSigned4(data: seq<byte>): int32 requires |data| == 4 { Widths(); FromSignedRoundTrip(data); FromSigned(data) }
  function FromSigned8(data: seq<byte>): int64 requires |data| == 8 { Widths(); FromSignedRoundTrip(data); FromSigned(data) }
  function FromBits4(data: seq<byte>): uint32 requires |data| == 4 { Widths(); FromBigEndianRoundTrip(data); FromBigEndian(data) }
  function FromBits8(data: seq<byte>): uint64 requires |data| == 8 { Widths(); FromBigEndianRoundTrip(data); FromBigEndian(data) }

  function Deserialize(valType: byte, data: seq<byte>): Option<Value> {
    if valType == BLOB then
      if |data| >= 4 && FromBigEndian(data[..4]) == |data| - 4 then Some(Blob(data[4..])) else None
    else if valType == INT8 then if |data| == 1 then Some(Int8(FromSigned1(data))) else None
    else if valType == INT16 then if |data| == 2 then Some(Int16(FromSigned2(data))) else None
    else if valType == INT32 then if |data| == 4 then Some(Int32(FromSigned4(data))) else None
    else if valType == INT64 then if |data| == 8 then Some(Int64(FromSigned8(data))) else None
    else if valType == FLOAT32 then
      if |data| == 4 && Finite32(FromBits4(data)) then Some(Float32(Positive32(FromBits4(data)))) else None
    else if valType == FLOAT64 then
      if |data| == 8 && Finite64(FromBits8(data)) then Some(Float64(Positive64(FromBits8(data)))) else None
    else if valType == BOOL then
      if |data| == 1 && data[0] <= 1 then Some(Bool(data[0] == 1)) else None
    else if valType == STRING then
      if ValidUtf8(data) then Some(Str(data)) else None
    else None
  }

  // The form in which a value comes back.
  function Canonical(v: Value): Value {
    match v
    case Int(i) => Int64(i)
    case Float32(bits) => Float32(Positive32(bits))
    case Float64(bits) => Float64(Positive64(bits))
    case Str(s) => Str(StripNul(s))
    case _ => v
  }

  // Values whose serialised form is accepted.
  predicate Decodable(v: Value) {
    match v
    case Float32(bits) => Finite32(bits)
    case Float64(bits) => Finite64(bits)
    case Str(s) => ValidUtf8(StripNul(s))
    case Blob(b) => |b| < 0x1_0000_0000
    case Nil => false
    case Unsupported => false
    case _ => true
  }

  // Every supported value comes back in canonical form, exactly when it is decodable.
  lemma {:induction false} ValueRoundTrip(v: Value)
    requires !v.Nil? && !v.Unsupported?
    ensures var (t, data) := Serialize(v).value;
            Deserialize(t, data) == if Decodable(v) then Some(Canonical(v)) else None
  {
    Widths();
    match v
    case Int8(i) => SignedRoundTrip(i, 1);
    case Int16(i) => SignedRoundTrip(i, 2);
    case Int32(i) => SignedRoundTrip(i, 4);
    case Int64(i) => SignedRoundTrip(i, 8);
    case Int(i) => SignedRoundTrip(i, 8);
    case Float32(bits) => BigEndianRoundTrip(bits, 4);
    case Float64(bits) => BigEndianRoundTrip(bits, 8);
    case Blob(b) => BlobRoundTrip(b);
    case _ =>
  }

  // A longer slice announces only the low bits of its length.
  lemma {:induction false} BlobRoundTrip(b: seq<byte>)
    ensures Deserialize(BLOB, BigEndian(|b|, 4) + b) == if |b| < 0x1_0000_0000 then Some(Blob(b)) else None
  {
    Widths();
    var data := BigEndian(|b|, 4) + b;
    assert data[..4] == BigEndian(|b|, 4) && data[4..] == b;
    if |b| < 0x1_0000_0000 { BigEndianRoundTrip(|b|, 4); }
    else { FromBigEndianRoundTrip(data[..4]); }
  }

  // No accepted encoding has bytes to spare: it is the serialisation of the value it decodes
  // to, except that a negative zero is normalised and a string loses its NULs on the way back.
  lemma {:induction false} AcceptedIsExact(valType: byte, data: seq<byte>)
    requires Deserialize(valType, data).Some?
    ensures var v := Deserialize(valType, data).value;
            && Decodable(v) && !v.Int? && (v.Str? <==> valType == STRING) && (v.Str? ==> v.s == data)
            && (!v.Str? ==> Canonical(v) == v)
            && Serialize(v) == Some((valType, if v.Str? then StripNul(data)
                                              else if v == Float32(0) then [0, 0, 0, 0]
                                              else if v == Float64(0) then [0, 0, 0, 0, 0, 0, 0, 0]
                                              else data))
  {
    if valType == STRING { StripNulKeepsUtf8(data); }
    else if valType == FLOAT32 { Float32IsExact(data); }
    else if valType == FLOAT64 { Float64IsExact(data); }
    else if valType == BLOB { BlobIsExact(data); }
    else {
      Widths();
      FromSignedRoundTrip(data);
    }
  }

  lemma {:induction false} Float32IsExact(data: seq<byte>)
    requires Deserialize(FLOAT32, data).Some?
    ensures var v := Deserialize(FLOAT32, data).value;
            && Decodable(v) && v.Float32? && Canonical(v) == v
            && Serialize(v) == Some((FLOAT32, if v == Float32(0) then [0, 0, 0, 0] else data))
  {
    FromBigEndianRoundTrip(data);
    ZeroBytes();
  }

  lemma {:induction false} Float64IsExact(data: seq<byte>)
    requires Deserialize(FLOAT64, data).Some?
    ensures var v := Deserialize(FLOAT64, data).value;
            && Decodable(v) && v.Float64? && Canonical(v) == v
            && Serialize(v) == Some((FLOAT64, if v == Float64(0) then [0, 0, 0, 0, 0, 0, 0, 0] else data))
  {
    FromBigEndianRoundTrip(data);
    ZeroBytes();
  }

  lemma {:induction false} BlobIsExact(data: seq<byte>)
    requires Deserialize(BLOB, data).Some?
    ensures var v := Deserialize(BLOB, data).value; Decodable(v) && v.Blob? && Serialize(v) == Some((BLOB, data))
  {
    Widths();
    FromBigEndianRoundTrip(data[..4]);
    assert data == data[..4] + data[4..];
  }

  lemma {:induction false} ZeroBytes()
    ensures BigEndian(0, 4) == [0, 0, 0, 0] && BigEndian(0, 8) == [0, 0, 0, 0, 0, 0, 0, 0]
  {
    assert BigEndian(0, 1) == [0] && BigEndian(0, 2) == [0, 0] && BigEndian(0, 3) == [0, 0, 0];
    assert BigEndian(0, 5) == [0, 0, 0, 0, 0] && BigEndian(0, 6) == [0, 0, 0, 0, 0, 0];
    assert BigEndian(0, 7) == [0, 0, 0, 0, 0, 0, 0];
  }

  // ----- Text cleaning -----

  predicate Printable(b: byte) { 0x20 <= b <= 0x7E }

  function KeepPrintable(s: seq<byte>): (r: seq<byte>)
    ensures |r| <= |s| && forall b :: b in r ==> Printable(b)
  {
    if s == [] then [] else KeepPrintable(s[..|s|-1]) + (if Printable(s[|s|-1]) then [s[|s|-1]] else [])
  }

  const EMPTY_FIELD: seq<byte> := [0x2D]  // "-"

  function Clean(input: seq<byte>, maxLength: nat): (r: seq<byte>)
    ensures |r| <= maxLength && (forall b :: b in r ==> Printable(b))
    ensures input != [] ==> |r| <= |input|
    ensures input == [] ==> |r| <= 1
  {
    var kept := KeepPrintable(if input == [] then EMPTY_FIELD else input);
    if |kept| > maxLength then kept[..maxLength] else kept
  }

  predicate IsPrintable(s: seq<byte>) { forall b :: b in s ==> Printable(b) }

  lemma {:induction false} KeepPrintableId(s: seq<byte>)
    requires IsPrintable(s)
    ensures KeepPrintable(s) == s
  {
    if s != [] {
      assert forall b :: b in s[..|s|-1] ==> b in s;
      KeepPrintableId(s[..|s|-1]);
    }
  }

  // Cleaning is idempotent, and leaves exactly the short printable texts alone.
  lemma {:induction false} CleanStable(s: seq<byte>, maxLength: nat)
    requires maxLength >= 1
    ensures Clean(s, maxLength) == s <==> s != [] && IsPrintable(s) && |s| <= maxLength
    ensures Clean(s, maxLength) != [] ==> Clean(Clean(s, maxLength), maxLength) == Clean(s, maxLength)
  {
    if s != [] && IsPrintable(s) { KeepPrintableId(s); }
    if s == [] { KeepPrintableId(EMPTY_FIELD); }
    KeepPrintableId(Clean(s, maxLength));
  }

  // cleanStringToBytes.  Ranging over the runes of a string keeps exactly the bytes 0x20-0x7E:
  // every byte of a longer rune, and every invalid byte, lies outside that range.
  method CleanStringToBytes(input: seq<byte>, maxLength: nat) returns (cleaned: seq<byte>)
    ensures cleaned == Clean(input, maxLength)
  {
    var text := if input == [] then EMPTY_FIELD else input;
    cleaned := [];
    for i := 0 to |text|
      invariant cleaned == KeepPrintable(text[..i])
    {
      assert text[..i+1][..i] == text[..i];
      if Printable(text[i]) { cleaned := cleaned + [text[i]]; }
    }
    assert text[..|text|] == text;
    if |cleaned| > maxLength { cleaned := cleaned[..maxLength]; }
  }

  lemma {:induction false} StripNulOneMore(s: seq<byte>, i: nat)
    requires i < |s|
    ensures StripNul(s[..i+1]) == if s[i] == 0 then StripNul(s[..i]) else StripNul(s[..i]) + [s[i]]
  {
    assert s[..i+1][..i] == s[..i];
  }

  // cleanBytes: compacts the slice in place; the result is its first n bytes.
  method CleanBytes(data: array<byte>) returns (n: nat)
    modifies data
    ensures n <= data.Length && data[..n] == StripNul(old(data[..]))
  {
    n := 0;
    ghost var was := data[..];
    for i := 0 to data.Length
      invariant n <= i && data[..n] == StripNul(was[..i])
      invariant forall j :: i <= j < data.Length ==> data[j] == was[j]
    {
      StripNulOneMore(was, i);
      if data[i] != 0 {
        ghost var kept := data[..n];
        data[n] := data[i];
        assert data[..n+1] == kept + [was[i]];
        n := n + 1;
      }
    }
    assert was[..data.Length] == was;
  }

  method IsPrintableAscii(data: seq<byte>) returns (ascii: bool)
    ensures ascii <==> IsPrintable(data)
  {
    for i := 0 to |data|
      invariant forall j :: 0 <= j < i ==> Printable(data[j])
    {
      if !Printable(data[i]) { return false; }
    }
    ascii := true;
  }
}
