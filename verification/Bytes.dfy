/** Bytes and the big-endian integers of encoding/binary. */
module Bytes {

  type byte = b: int | 0 <= b < 256

  function Pow256(w: nat): (p: nat)
    ensures p >= 1
  {
    if w == 0 then 1 else 256 * Pow256(w - 1)
  }

  // The low `width` bytes of v, most significant first.
  function BigEndian(v: nat, width: nat): (s: seq<byte>)
    ensures |s| == width
    decreases width
  {
    if width == 0 then [] else BigEndian(v / 256, width - 1) + [v % 256]
  }

  function FromBigEndian(s: seq<byte>): nat {
    if s == [] then 0 else 256 * FromBigEndian(s[..|s|-1]) + s[|s|-1]
  }

  lemma {:induction false} BigEndianRoundTrip(v: nat, width: nat)
    requires v < Pow256(width)
    ensures FromBigEndian(BigEndian(v, width)) == v
    decreases width
  {
    if width > 0 {
      BigEndianRoundTrip(v / 256, width - 1);
      var s := BigEndian(v, width);
      assert s[..|s|-1] == BigEndian(v / 256, width - 1);
    }
  }

  lemma {:induction false} FromBigEndianRoundTrip(s: seq<byte>)
    ensures FromBigEndian(s) < Pow256(|s|)
    ensures BigEndian(FromBigEndian(s), |s|) == s
  {
    if s != [] {
      FromBigEndianRoundTrip(s[..|s|-1]);
      var v := FromBigEndian(s);
      assert v / 256 == FromBigEndian(s[..|s|-1]) && v % 256 == s[|s|-1];
      assert s == s[..|s|-1] + [s[|s|-1]];
    }
  }

  lemma {:induction false} Widths()
    ensures Pow256(1) == 0x100 && Pow256(2) == 0x1_0000 && Pow256(4) == 0x1_0000_0000
    ensures Pow256(8) == 0x1_0000_0000_0000_0000
  {
    assert Pow256(3) == 0x100_0000;
    assert Pow256(5) == 0x100_0000_0000 && Pow256(6) == 0x1_0000_0000_0000;
    assert Pow256(7) == 0x100_0000_0000_0000;
  }

  lemma {:induction false} U16(n: nat)
    requires n < 0x1_0000
    ensures FromBigEndian(BigEndian(n, 2)) == n
  {
    Widths();
    BigEndianRoundTrip(n, 2);
  }

  lemma {:induction false} U16Back(s: seq<byte>)
    requires |s| == 2
    ensures FromBigEndian(s) < 0x1_0000 && BigEndian(FromBigEndian(s), 2) == s
  {
    Widths();
    FromBigEndianRoundTrip(s);
  }
}
