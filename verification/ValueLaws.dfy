/**
  Which encodings of values are accepted, in terms of IEEE 754 and of Unicode, and what a
  timestamp loses (pkg/protocol/context.go, pkg/protocol/payload.go).
*/
module ValueLaws {
  import opened Bytes
  import opened Options
  import opened Values
  import opened PayloadCodec

  // ----- Floats -----

  // Infinities and NaNs have all exponent bits set.
  predicate NotFinite32(bits: nat) { 0x7F80_0000 <= bits < 0x8000_0000 || 0xFF80_0000 <= bits }
  predicate NotFinite64(bits: nat) {
    0x7FF0_0000_0000_0000 <= bits < 0x8000_0000_0000_0000 || 0xFFF0_0000_0000_0000 <= bits
  }

  // They are refused, negative zero becomes zero, and every other pattern is kept.
  lemma {:induction false} FloatsExactly(data: seq<byte>)
    ensures |data| == 4 && NotFinite32(FromBits4(data)) ==> Deserialize(5, data) == None
    ensures |data| == 4 && !NotFinite32(FromBits4(data)) ==>
              Deserialize(5, data) == Some(Float32(if FromBits4(data) == 0x8000_0000 then 0 else FromBits4(data)))
    ensures |data| == 8 && NotFinite64(FromBits8(data)) ==> Deserialize(6, data) == None
    ensures |data| == 8 && !NotFinite64(FromBits8(data)) ==>
              Deserialize(6, data) == Some(Float64(if FromBits8(data) == 0x8000_0000_0000_0000 then 0 else FromBits8(data)))
    ensures |data| != 4 ==> Deserialize(5, data) == None
    ensures |data| != 8 ==> Deserialize(6, data) == None
  {
  }

  // ----- UTF-8 -----

  // Unicode scalar values.
  predicate Scalar(c: int) { 0 <= c < 0xD800 || 0xE000 <= c <= 0x10_FFFF }

  // Their encoding, section 3 of RFC 3629.
  function EncodeRune(c: nat): (s: seq<byte>)
    requires Scalar(c)
    ensures s != []
  {
    if c < 0x80 then [c]
    else if c < 0x800 then [0xC0 + c / 0x40, 0x80 + c % 0x40]
    else if c < 0x1_0000 then [0xE0 + c / 0x1000, 0x80 + c / 0x40 % 0x40, 0x80 + c % 0x40]
    else [0xF0 + c / 0x4_0000, 0x80 + c / 0x1000 % 0x40, 0x80 + c / 0x40 % 0x40, 0x80 + c % 0x40]
  }

  lemma {:induction false} RuneOfTwo(a: byte, b: byte) returns (c: nat)
    requires 0xC2 <= a < 0xE0 && Cont(b)
    ensures Scalar(c) && EncodeRune(c) == [a, b]
  {
    c := (a - 0xC0) * 0x40 + (b - 0x80);
  }

  lemma {:induction false} RuneOfThree(a: byte, b: byte, d: byte) returns (c: nat)
    requires 0xE0 <= a < 0xF0 && Cont(b) && Cont(d) && (a == 0xE0 ==> b >= 0xA0) && (a == 0xED ==> b < 0xA0)
    ensures Scalar(c) && EncodeRune(c) == [a, b, d]
  {
    c := (a - 0xE0) * 0x1000 + (b - 0x80) * 0x40 + (d - 0x80);
    assert c / 0x40 == (a - 0xE0) * 0x40 + (b - 0x80);
  }

  lemma {:induction false} RuneOfFour(a: byte, b: byte, d: byte, e: byte) returns (c: nat)
    requires 0xF0 <= a < 0xF5 && Cont(b) && Cont(d) && Cont(e) && (a == 0xF0 ==> b >= 0x90) && (a == 0xF4 ==> b < 0x90)
    ensures Scalar(c) && EncodeRune(c) == [a, b, d, e]
  {
    c := (a - 0xF0) * 0x4_0000 + (b - 0x80) * 0x1000 + (d - 0x80) * 0x40 + (e - 0x80);
    assert c / 0x40 == (a - 0xF0) * 0x1000 + (b - 0x80) * 0x40 + (d - 0x80);
    assert c / 0x1000 == (a - 0xF0) * 0x40 + (b - 0x80);
  }

  // A text starts with a rune exactly when it starts with the encoding of a scalar value.
  lemma {:induction false} RuneIsScalar(s: seq<byte>) returns (c: nat)
    requires RuneLen(s) > 0
    ensures Scalar(c) && RuneLen(s) <= |s| && EncodeRune(c) == s[..RuneLen(s)]
  {
    var n := RuneLen(s);
    if n == 1 { c := s[0]; }
    else if n == 2 { c := RuneOfTwo(s[0], s[1]); }
    else if n == 3 { c := RuneOfThree(s[0], s[1], s[2]); }
    else { c := RuneOfFour(s[0], s[1], s[2], s[3]); }
  }

  lemma {:induction false} ScalarIsRune(c: nat, rest: seq<byte>)
    requires Scalar(c)
    ensures RuneLen(EncodeRune(c) + rest) == |EncodeRune(c)|
  {
    var s := EncodeRune(c) + rest;
    assert forall i :: 0 <= i < |EncodeRune(c)| ==> s[i] == EncodeRune(c)[i];
  }

  predicate Scalars(cs: seq<nat>) { forall i :: 0 <= i < |cs| ==> Scalar(cs[i]) }

  function EncodeText(cs: seq<nat>): seq<byte>
    requires Scalars(cs)
  {
    if cs == [] then [] else EncodeRune(cs[0]) + EncodeText(cs[1..])
  }

  lemma {:induction false} ValidIsEncoded(s: seq<byte>) returns (cs: seq<nat>)
    requires ValidUtf8(s)
    ensures Scalars(cs) && EncodeText(cs) == s
    decreases |s|
  {
    if s == [] {
      cs := [];
    } else {
      var n := RuneLen(s);
      var c := RuneIsScalar(s);
      var rest := ValidIsEncoded(s[n..]);
      cs := [c] + rest;
      assert cs[1..] == rest && s == s[..n] + s[n..];
    }
  }

  lemma {:induction false} EncodedIsValid(cs: seq<nat>)
    requires Scalars(cs)
    ensures ValidUtf8(EncodeText(cs))
  {
    if cs != [] {
      var rest := EncodeText(cs[1..]);
      EncodedIsValid(cs[1..]);
      ScalarIsRune(cs[0], rest);
      RuneThenValid(EncodeRune(cs[0]), rest);
    }
  }

  // A string value is accepted exactly when it encodes some Unicode text.
  lemma {:induction false} TextExactly(s: seq<byte>)
    ensures Deserialize(8, s).Some? <==> exists cs :: Scalars(cs) && EncodeText(cs) == s
    ensures Deserialize(8, s).Some? ==> Deserialize(8, s).value == Str(s)
  {
    if ValidUtf8(s) { var cs := ValidIsEncoded(s); }
    forall cs | Scalars(cs) && EncodeText(cs) == s ensures ValidUtf8(s) { EncodedIsValid(cs); }
  }

  // ----- Times -----

  // Less than a millisecond is lost, towards the past.
  lemma {:induction false} MillisecondsAreKept(nanos: int)
    ensures Millis(nanos) * 1_000_000 <= nanos < Millis(nanos) * 1_000_000 + 1_000_000
    ensures -0x8000_0000_0000_0000 <= Millis(nanos) < 0x8000_0000_0000_0000 ==> Unwrap64(Wrap64(Millis(nanos))) == Millis(nanos)
  {
  }
}
