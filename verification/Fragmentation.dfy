/**
  Cutting a message into fragments and putting fragments together again
  (pkg/protocol/fragmentation.go).
*/
module Fragmentation {
  import opened Bytes
  import opened Values
  import opened ContextFields
  import opened PayloadCodec

  type padding = n: int | MIN_PADDING <= n <= MAX_PADDING witness MIN_PADDING

  // "[missing fragment]"
  const PLACEHOLDER: seq<byte> :=
    [0x5B, 0x6D, 0x69, 0x73, 0x73, 0x69, 0x6E, 0x67, 0x20, 0x66, 0x72, 0x61, 0x67, 0x6D, 0x65, 0x6E, 0x74, 0x5D]

  function Concat(frags: seq<Payload>): seq<byte> {
    if frags == [] then [] else Concat(frags[..|frags|-1]) + frags[|frags|-1].data
  }

  lemma {:induction false} ConcatOneMore(frags: seq<Payload>, p: Payload)
    ensures Concat(frags + [p]) == Concat(frags) + p.data
  {
    assert (frags + [p])[..|frags|] == frags;
  }

  // ----- Fragmenting -----

  // Fragment i of p under padding lengths pad.
  predicate FragmentOf(f: Payload, p: Payload, i: nat, seqMax: int, pad: nat -> padding) {
    f == p.(messageSeq := i, messageSeqMax := seqMax, paddingLen := pad(i), data := f.data) && f.data != []
  }

  // The fragment fits, with no room to spare if it is full.
  predicate Fits(f: Payload, full: bool, room: int) {
    var size := |f.data| + f.paddingLen;
    size <= room && (full ==> size == room)
  }

  // All fragments fit, and all but the last are as large as their padding allows.
  ghost predicate FragmentsOf(frags: seq<Payload>, p: Payload, room: int, pad: nat -> padding) {
    && (forall i {:trigger frags[i]} :: 0 <= i < |frags| ==> FragmentOf(frags[i], p, i, |frags| - 1, pad) && Fits(frags[i], i < |frags| - 1, room))
    && Concat(frags) == p.data
  }

  ghost predicate Unfragmentable(p: Payload, room: int, pad: nat -> padding) {
    forall frags {:trigger FragmentsOf(frags, p, room, pad)} :: !FragmentsOf(frags, p, room, pad)
  }

  // Bytes taken by n full fragments.
  function Used(room: int, pad: nat -> padding, n: nat): int { if n == 0 then 0 else Used(room, pad, n - 1) + room - pad(n - 1) }

  // Fails exactly when there is no way to fragment.
  method Fragment(p: Payload, maxPayloadSize: int, fixedProtocolSize: int, pad: nat -> padding) returns (r: Checked<seq<Payload>>)
    ensures r.Valid? ==> FragmentsOf(r.value, p, maxPayloadSize - fixedProtocolSize, pad)
    ensures r.Valid? ==> maxPayloadSize > 0 && fixedProtocolSize > 0
    ensures r.Invalid? && maxPayloadSize > 0 && fixedProtocolSize > 0 ==> Unfragmentable(p, maxPayloadSize - fixedProtocolSize, pad)
  {
    if maxPayloadSize <= 0 || fixedProtocolSize <= 0 {
      return Invalid(FragmentationFailure);
    }
    var room := maxPayloadSize - fixedProtocolSize;
    var remaining := p.data;
    var stamp := 0;
    var frags: seq<Payload> := [];
    while |remaining| > 0
      invariant stamp == |frags| && PiecesOf(frags, p, room, pad, remaining)
      decreases |remaining|
    {
      var size := room - pad(stamp);
      if size <= 0 {
        forall ys ensures !FragmentsOf(ys, p, room, pad) {
          if FragmentsOf(ys, p, room, pad) { RoomForNext(ys, p, room, pad, stamp); }
        }
        return Invalid(FragmentationFailure);
      }
      var piece, rest := NextPiece(p, stamp, pad(stamp), size, remaining);
      OneMoreOfPieces(frags, p, room, pad, remaining, piece, rest);
      frags, remaining, stamp := frags + [piece], rest, stamp + 1;
    }
    r := Valid(SetMax(frags, stamp - 1));
    SetMaxConcat(frags, stamp - 1);
  }

  // The loop body: cuts the next stretch off the remaining data.
  method NextPiece(p: Payload, stamp: nat, paddingLen: padding, size: nat, remaining: seq<byte>) returns (piece: Payload, rest: seq<byte>)
    requires size > 0 && remaining != []
    ensures piece == p.(messageSeq := stamp, paddingLen := paddingLen, data := piece.data) && piece.data != []
    ensures piece.data + rest == remaining && |piece.data| <= size && (rest != [] ==> |piece.data| == size)
  {
    piece := p.(messageSeq := stamp, paddingLen := paddingLen);
    if |remaining| > size {
      piece := piece.(data := remaining[..size]);
      rest := remaining[size..];
    } else {
      piece := piece.(data := remaining);
      rest := [];
    }
  }

  // The fragments cut so far; remaining is not yet cut.
  ghost predicate PiecesOf(frags: seq<Payload>, p: Payload, room: int, pad: nat -> padding, remaining: seq<byte>) {
    && (forall i {:trigger frags[i]} :: 0 <= i < |frags| ==>
          FragmentOf(frags[i], p, i, p.messageSeqMax, pad) && Fits(frags[i], remaining != [] || i < |frags| - 1, room))
    && Concat(frags) + remaining == p.data
    && (remaining != [] ==> |p.data| - |remaining| == Used(room, pad, |frags|) && forall i: nat {:trigger pad(i)} :: i < |frags| ==> pad(i) < room)
  }

  lemma {:induction false} OneMoreOfPieces(frags: seq<Payload>, p: Payload, room: int, pad: nat -> padding, remaining: seq<byte>, piece: Payload, rest: seq<byte>)
    requires PiecesOf(frags, p, room, pad, remaining) && remaining != [] && FragmentOf(piece, p, |frags|, p.messageSeqMax, pad)
    requires piece.data + rest == remaining && |piece.data| + pad(|frags|) <= room && (rest != [] ==> |piece.data| + pad(|frags|) == room)
    ensures PiecesOf(frags + [piece], p, room, pad, rest)
  {
    ConcatOneMore(frags, piece);
    AppendAssoc(Concat(frags), piece.data, rest);
    assert |frags + [piece]| == |frags| + 1;
    if rest != [] { UsedOneMore(frags, p, room, pad, remaining, piece, rest); }
    forall i | 0 <= i < |frags + [piece]|
      ensures FragmentOf((frags + [piece])[i], p, i, p.messageSeqMax, pad) && Fits((frags + [piece])[i], rest != [] || i < |frags|, room)
    {
      if i < |frags| { assert (frags + [piece])[i] == frags[i]; }
    }
  }

  lemma {:induction false} UsedOneMore(frags: seq<Payload>, p: Payload, room: int, pad: nat -> padding, remaining: seq<byte>, piece: Payload, rest: seq<byte>)
    requires |p.data| - |remaining| == Used(room, pad, |frags|) && forall i: nat {:trigger pad(i)} :: i < |frags| ==> pad(i) < room
    requires piece.data != [] && piece.data + rest == remaining && |piece.data| + pad(|frags|) == room
    ensures |p.data| - |rest| == Used(room, pad, |frags| + 1) && forall i: nat {:trigger pad(i)} :: i < |frags| + 1 ==> pad(i) < room
  {
    assert |remaining| == |piece.data| + |rest|;
  }

  // A fragmentation starts with full fragments as long as data is left.
  lemma {:induction false} FullPrefix(ys: seq<Payload>, p: Payload, room: int, pad: nat -> padding, n: nat)
    requires FragmentsOf(ys, p, room, pad) && Used(room, pad, n) < |p.data| && forall i: nat {:trigger pad(i)} :: i < n ==> pad(i) < room
    ensures n < |ys| && |Concat(ys[..n])| == Used(room, pad, n)
  {
    if n > 0 {
      assert pad(n - 1) < room;
      FullPrefix(ys, p, room, pad, n - 1);
      NextStretch(ys, n - 1, p, room, pad);
    }
    assert ys[..|ys|] == ys;
  }

  lemma {:induction false} RoomForNext(ys: seq<Payload>, p: Payload, room: int, pad: nat -> padding, n: nat)
    requires FragmentsOf(ys, p, room, pad) && Used(room, pad, n) < |p.data| && forall i: nat {:trigger pad(i)} :: i < n ==> pad(i) < room
    ensures pad(n) < room
  {
    FullPrefix(ys, p, room, pad, n);
    assert FragmentOf(ys[n], p, n, |ys| - 1, pad) && Fits(ys[n], n < |ys| - 1, room);
  }

  // The second loop, over the finished list.
  function SetMax(frags: seq<Payload>, seqMax: int): (r: seq<Payload>)
    ensures |r| == |frags| && forall i :: 0 <= i < |r| ==> r[i] == frags[i].(messageSeqMax := seqMax)
  {
    seq(|frags|, i requires 0 <= i < |frags| => frags[i].(messageSeqMax := seqMax))
  }

  lemma {:induction false} SetMaxConcat(frags: seq<Payload>, seqMax: int)
    ensures Concat(SetMax(frags, seqMax)) == Concat(frags)
  {
    if frags != [] {
      SetMaxConcat(frags[..|frags|-1], seqMax);
      assert SetMax(frags, seqMax)[..|frags|-1] == SetMax(frags[..|frags|-1], seqMax);
    }
  }

  lemma {:induction false} TakeOneMore<T>(xs: seq<T>, n: nat)
    requires n < |xs|
    ensures xs[..n+1] == xs[..n] + [xs[n]] && xs[..n+1][n] == xs[n]
  {
  }

  lemma {:induction false} Split<T>(xs: seq<T>, n: nat)
    requires n <= |xs|
    ensures xs == xs[..n] + xs[n..]
  {
  }

  lemma {:induction false} ConcatSplit(xs: seq<Payload>, n: nat)
    requires n < |xs|
    ensures Concat(xs[..n+1]) == Concat(xs[..n]) + xs[n].data
    ensures Concat(xs) == Concat(xs[..n+1]) + Concat(xs[n+1..])
  {
    TakeOneMore(xs, n);
    ConcatOneMore(xs[..n], xs[n]);
    Split(xs, n + 1);
    ConcatAppend(xs[..n+1], xs[n+1..]);
  }

  // Fragment n is the next stretch of the data, as long as its padding allows.
  lemma {:induction false} NextStretch(xs: seq<Payload>, n: nat, p: Payload, room: int, pad: nat -> padding)
    requires FragmentsOf(xs, p, room, pad) && n < |xs|
    ensures var from, to := |Concat(xs[..n])|, |Concat(xs[..n+1])|;
            && from < to <= |p.data| && xs[n].data == p.data[from..to]
            && to - from == if |p.data| - from <= room - pad(n) then |p.data| - from else room - pad(n)
  {
    ConcatSplit(xs, n);
    assert FragmentOf(xs[n], p, n, |xs| - 1, pad) && Fits(xs[n], n < |xs| - 1, room);
    var rest := xs[n+1..];
    if rest != [] {
      assert xs[|xs|-1].data != [];
      assert rest[|rest|-1] == xs[|xs|-1];
      assert |Concat(rest)| > 0;
    }
  }

  lemma {:induction false} SameStretches(xs: seq<Payload>, ys: seq<Payload>, n: nat, p: Payload, room: int, pad: nat -> padding)
    requires FragmentsOf(xs, p, room, pad) && FragmentsOf(ys, p, room, pad) && n <= |xs| && n <= |ys|
    ensures |Concat(xs[..n])| == |Concat(ys[..n])|
  {
    if n > 0 {
      SameStretches(xs, ys, n - 1, p, room, pad);
      NextStretch(xs, n - 1, p, room, pad);
      NextStretch(ys, n - 1, p, room, pad);
    }
  }

  lemma {:induction false} NoLonger(xs: seq<Payload>, ys: seq<Payload>, p: Payload, room: int, pad: nat -> padding)
    requires FragmentsOf(xs, p, room, pad) && FragmentsOf(ys, p, room, pad)
    ensures |ys| <= |xs|
  {
    assert xs[..|xs|] == xs;
    if |xs| < |ys| {
      SameStretches(xs, ys, |xs|, p, room, pad);
      NextStretch(ys, |xs|, p, room, pad);
    }
  }

  // So there is only one way to fragment.
  lemma {:induction false} OneFragmentation(xs: seq<Payload>, ys: seq<Payload>, p: Payload, room: int, pad: nat -> padding)
    requires FragmentsOf(xs, p, room, pad) && FragmentsOf(ys, p, room, pad)
    ensures xs == ys
  {
    NoLonger(xs, ys, p, room, pad);
    NoLonger(ys, xs, p, room, pad);
    forall i | 0 <= i < |xs| ensures xs[i] == ys[i] { SameFragment(xs, ys, i, p, room, pad); }
  }

  lemma {:induction false} SameFragment(xs: seq<Payload>, ys: seq<Payload>, i: nat, p: Payload, room: int, pad: nat -> padding)
    requires FragmentsOf(xs, p, room, pad) && FragmentsOf(ys, p, room, pad) && |xs| == |ys| && i < |xs|
    ensures xs[i] == ys[i]
  {
    SameStretches(xs, ys, i, p, room, pad);
    SameStretches(xs, ys, i + 1, p, room, pad);
    NextStretch(xs, i, p, room, pad);
    NextStretch(ys, i, p, room, pad);
    assert FragmentOf(xs[i], p, i, |xs| - 1, pad) && FragmentOf(ys[i], p, i, |ys| - 1, pad);
  }

  lemma {:induction false} ConcatAppend(xs: seq<Payload>, ys: seq<Payload>)
    ensures Concat(xs + ys) == Concat(xs) + Concat(ys)
  {
    if ys == [] {
      assert xs + ys == xs;
    } else {
      var init, last := ys[..|ys|-1], ys[|ys|-1];
      ConcatAppend(xs, init);
      AppendLast(xs, ys);
      ConcatOneMore(xs + init, last);
      AppendAssoc(Concat(xs), Concat(init), last.data);
    }
  }

  lemma {:induction false} AppendLast<T>(xs: seq<T>, ys: seq<T>)
    requires ys != []
    ensures xs + ys == (xs + ys[..|ys|-1]) + [ys[|ys|-1]]
  {
  }

  // ----- Equality of shared fields -----

  // Comparing two interface values that hold byte slices panics.
  datatype Comparison = Same | Different | Panics

  predicate Incomparable(a: Value, b: Value) { a.Blob? && b.Blob? }

  // Other interface values; NaN differs from itself.
  predicate SameValue(a: Value, b: Value) {
    if a.Float32? && b.Float32? then
      !NotANumber32(a.bits32) && Positive32(a.bits32) == Positive32(b.bits32)
    else if a.Float64? && b.Float64? then
      !NotANumber64(a.bits64) && Positive64(a.bits64) == Positive64(b.bits64)
    else a == b
  }

  predicate NotANumber32(bits: uint32) { !Finite32(bits) && bits % 0x80_0000 != 0 }
  predicate NotANumber64(bits: uint64) { !Finite64(bits) && bits % 0x10_0000_0000_0000 != 0 }

  function FieldOf(p: Payload, k: seq<byte>): Value { if k in p.customFields then p.customFields[k] else Nil }

  predicate FieldPanics(a: Payload, b: Payload, k: seq<byte>) { k in a.customFields && Incomparable(FieldOf(b, k), FieldOf(a, k)) }
  predicate FieldDiffers(a: Payload, b: Payload, k: seq<byte>) {
    k in a.customFields && !Incomparable(FieldOf(b, k), FieldOf(a, k)) && !SameValue(FieldOf(b, k), FieldOf(a, k))
  }

  ghost predicate SomePanics(a: Payload, b: Payload) { exists k :: FieldPanics(a, b, k) }
  ghost predicate SomeDiffers(a: Payload, b: Payload) { exists k :: FieldDiffers(a, b, k) }

  predicate SameOrigin(a: Payload, b: Payload) {
    b.remoteIP == a.remoteIP && b.hostID == a.hostID && b.msgID == a.msgID && b.timestamp == a.timestamp && b.hostname == a.hostname
  }

  // What EqualTo may do: the fields are visited in any order, and the first that panics or
  // differs decides.
  ghost predicate Compares(a: Payload, b: Payload, c: Comparison) {
    if |a.customFields| != |b.customFields| then c == Different
    else match c
      case Panics => SomePanics(a, b)
      case Different => SomeDiffers(a, b) || (!SomePanics(a, b) && !SameOrigin(a, b))
      case Same => !SomePanics(a, b) && !SomeDiffers(a, b) && SameOrigin(a, b)
  }

  method EqualTo(a: Payload, b: Payload) returns (c: Comparison)
    ensures Compares(a, b, c)
  {
    if |a.customFields| != |b.customFields| {
      return Different;
    }
    var rest := a.customFields.Keys;
    while rest != {}
      invariant rest <= a.customFields.Keys
      invariant forall k :: k in a.customFields && k !in rest ==> !FieldPanics(a, b, k) && !FieldDiffers(a, b, k)
    {
      var k :| k in rest;
      if Incomparable(FieldOf(b, k), FieldOf(a, k)) {
        assert FieldPanics(a, b, k);
        return Panics;
      }
      if !SameValue(FieldOf(b, k), FieldOf(a, k)) {
        assert FieldDiffers(a, b, k);
        return Different;
      }
      rest := rest - {k};
    }
    c := if SameOrigin(a, b) then Same else Different;
  }

  // No byte-slice field.
  predicate Comparable(p: Payload) { forall k :: k in p.customFields ==> !p.customFields[k].Blob? }

  // Values as the decoder leaves them.
  predicate DecodedValue(v: Value) {
    Acceptable(v) && (v.Float32? || v.Float64? ==> Canonical(v) == v) && !v.Nil?
  }

  predicate Decoded(p: Payload) { forall k :: k in p.customFields ==> DecodedValue(p.customFields[k]) }

  predicate SameIdentity(a: Payload, b: Payload) {
    b == a.(messageSeq := b.messageSeq, messageSeqMax := b.messageSeqMax, signatureID := b.signatureID, signature := b.signature,
            data := b.data, paddingLen := b.paddingLen)
  }

  lemma {:induction false} SameDecodedValue(a: Value, b: Value)
    requires (a.Nil? || DecodedValue(a)) && DecodedValue(b)
    ensures SameValue(a, b) <==> a == b
  {
  }

  // Payloads of one message compare as equal, or panic if they carry a byte slice.
  lemma {:induction false} SameMessageCompares(a: Payload, b: Payload, c: Comparison)
    requires Decoded(a) && SameIdentity(a, b)
    ensures Compares(a, b, c) <==> c == if Comparable(a) then Same else Panics
  {
    forall k | k in a.customFields ensures !FieldDiffers(a, b, k) && (FieldPanics(a, b, k) <==> a.customFields[k].Blob?) {
      SameDecodedValue(a.customFields[k], a.customFields[k]);
    }
  }

  // Payloads that compare as equal agree on everything shared, maps included.
  lemma {:induction false} ComparedSame(a: Payload, b: Payload)
    requires Decoded(a) && Decoded(b) && Compares(a, b, Same)
    ensures SameIdentity(a, b)
  {
    forall k | k in a.customFields ensures k in b.customFields && b.customFields[k] == a.customFields[k] {
      assert !FieldDiffers(a, b, k) && !FieldPanics(a, b, k);
      SameDecodedValue(FieldOf(b, k), a.customFields[k]);
    }
    assert a.customFields.Keys <= b.customFields.Keys;
    SameSizeSubset(a.customFields.Keys, b.customFields.Keys);
    assert a.customFields == b.customFields;
  }

  lemma {:induction false} OtherMessageCompares(a: Payload, b: Payload, c: Comparison)
    requires Decoded(a) && Decoded(b) && !SameIdentity(a, b) && Compares(a, b, c)
    ensures c != Same && (Comparable(a) ==> c == Different)
  {
    if c == Same { ComparedSame(a, b); }
  }

  lemma {:induction false} SameSizeSubset<T>(a: set<T>, b: set<T>)
    requires a <= b && |a| == |b|
    ensures a == b
  {
    assert b == a + (b - a) && |b| == |a| + |b - a|;
    assert b - a == {};
  }

  ghost predicate AllCompare(ps: seq<Payload>, c: Comparison)
    requires ps != []
  {
    if c == Same then forall i :: 1 <= i < |ps| ==> Compares(ps[0], ps[i], Same)
    else exists i :: FirstAt(ps, i, c)
  }

  // The i-th payload is the first that does not compare as equal.
  ghost predicate FirstAt(ps: seq<Payload>, i: int, c: Comparison) {
    1 <= i < |ps| && Compares(ps[0], ps[i], c) && forall j :: 1 <= j < i ==> Compares(ps[0], ps[j], Same)
  }

  method AllFieldsEqual(ps: seq<Payload>) returns (c: Comparison)
    requires ps != []
    ensures AllCompare(ps, c)
  {
    for i := 1 to |ps|
      invariant forall j :: 1 <= j < i ==> Compares(ps[0], ps[j], Same)
    {
      c := EqualTo(ps[0], ps[i]);
      if c != Same {
        assert FirstAt(ps, i, c);
        return;
      }
    }
    c := Same;
  }

  // ----- Reassembling -----

  // Data stored under sequence s, in list order.
  function PieceAt(ps: seq<Payload>, s: int): seq<byte> {
    if ps == [] then [] else PieceAt(ps[..|ps|-1], s) + (if ps[|ps|-1].messageSeq == s then ps[|ps|-1].data else [])
  }

  predicate Has(ps: seq<Payload>, s: int) { exists i :: 0 <= i < |ps| && ps[i].messageSeq == s }

  function SlotData(ps: seq<Payload>, s: int): seq<byte> { if Has(ps, s) then PieceAt(ps, s) else PLACEHOLDER }

  // Sequences 0..n-1 in order, each its data or one placeholder.
  function Assembled(ps: seq<Payload>, n: nat): seq<byte> { Pile(Slots(ps), n) }

  function Slots(ps: seq<Payload>): int -> seq<byte> { s => SlotData(ps, s) }

  // Slots 0..n-1, one after the other.
  function Pile(slot: int -> seq<byte>, n: nat): seq<byte> {
    if n == 0 then [] else Pile(slot, n - 1) + slot(n - 1)
  }

  lemma {:induction false} SamePile(f: int -> seq<byte>, g: int -> seq<byte>, n: nat)
    requires forall i :: 0 <= i < n ==> f(i) == g(i)
    ensures Pile(f, n) == Pile(g, n)
  {
    if n > 0 { SamePile(f, g, n - 1); }
  }

  predicate SortedBySeq(ps: seq<Payload>) { forall i, j :: 0 <= i < j < |ps| ==> ps[i].messageSeq <= ps[j].messageSeq }

  predicate NonNegative(ps: seq<Payload>) { forall i :: 0 <= i < |ps| ==> ps[i].messageSeq >= 0 }

  function Max(a: int, b: int): int { if a < b then b else a }

  // The last sequence reassembled from a sorted list.
  function Top(order: seq<Payload>): int
    requires order != []
  {
    Max(order[|order|-1].messageSeq, order[0].messageSeqMax)
  }

  function Merged(order: seq<Payload>): Payload
    requires order != [] && NonNegative(order)
  {
    var first := order[0];
    Payload(first.remoteIP, first.hostID, first.msgID, 0, 0, first.timestamp, first.hostname, 0, [], first.customFields,
            Assembled(order, Top(order) + 1), 0)
  }

  ghost predicate Merges(ps: seq<Payload>, r: Checked<Payload>) {
    exists order :: multiset(order) == multiset(ps) && SortedBySeq(order) && NonNegative(order) && order != [] && r == Valid(Merged(order))
  }

  // What Defragment may return; a panic in the comparison is its own outcome.
  ghost predicate Defragments(ps: seq<Payload>, r: Checked<Payload>) {
    if ps == [] then r == Invalid(FragmentationFailure)
    else
      || (AllCompare(ps, Same) && Merges(ps, r))
      || (AllCompare(ps, Different) && r == Invalid(FragmentationFailure))
      || (AllCompare(ps, Panics) && r == Invalid(Panicked))
  }

  lemma {:induction false} NothingHere(ps: seq<Payload>, s: int)
    requires !Has(ps, s)
    ensures PieceAt(ps, s) == []
  {
    if ps != [] {
      assert forall i :: 0 <= i < |ps| - 1 ==> ps[..|ps|-1][i] == ps[i];
      NothingHere(ps[..|ps|-1], s);
    }
  }

  lemma {:induction false} OneMorePiece(ps: seq<Payload>, p: Payload, s: int)
    ensures SlotData(ps + [p], s) == if p.messageSeq != s then SlotData(ps, s) else if Has(ps, s) then SlotData(ps, s) + p.data else p.data
  {
    var qs := ps + [p];
    assert qs[..|qs|-1] == ps;
    assert Has(qs, s) <==> Has(ps, s) || p.messageSeq == s by {
      assert qs[|ps|] == p;
      assert forall i :: 0 <= i < |ps| ==> qs[i] == ps[i];
    }
    if !Has(ps, s) { NothingHere(ps, s); }
  }

  lemma {:induction false} LaterPieceUnseen(ps: seq<Payload>, p: Payload, n: nat)
    requires n <= p.messageSeq
    ensures Assembled(ps + [p], n) == Assembled(ps, n)
  {
    forall s | 0 <= s < n ensures Slots(ps + [p])(s) == Slots(ps)(s) { OneMorePiece(ps, p, s); }
    SamePile(Slots(ps + [p]), Slots(ps), n);
  }

  method WriteMissing(ghost ps: seq<Payload>, buffer: seq<byte>, from: nat, to: nat) returns (r: seq<byte>)
    requires buffer == Assembled(ps, from) && from <= to && forall s :: from <= s < to ==> !Has(ps, s)
    ensures r == Assembled(ps, to)
  {
    r := buffer;
    for missing := from to to
      invariant r == Assembled(ps, missing)
    {
      OneMoreSlot(ps, missing);
      r := r + PLACEHOLDER;
    }
  }

  lemma {:induction false} Inserted<T>(xs: seq<T>, j: nat, x: T)
    requires j <= |xs|
    ensures multiset(xs[..j] + [x] + xs[j..]) == multiset(xs) + multiset{x}
  {
    Split(xs, j);
  }

  // sort.Slice: not stable, so only order and contents are promised.
  method SortBySeq(ps: seq<Payload>) returns (order: seq<Payload>)
    ensures multiset(order) == multiset(ps) && SortedBySeq(order)
  {
    order := [];
    for i := 0 to |ps|
      invariant multiset(order) == multiset(ps[..i]) && SortedBySeq(order)
    {
      var j := InsertionIndex(order, ps[i].messageSeq);
      TakeOneMore(ps, i);
      Inserted(order, j, ps[i]);
      order := order[..j] + [ps[i]] + order[j..];
    }
    Split(ps, |ps|);
  }

  method InsertionIndex(order: seq<Payload>, s: int) returns (j: nat)
    requires SortedBySeq(order)
    ensures j <= |order|
    ensures forall k :: 0 <= k < j ==> order[k].messageSeq <= s
    ensures forall k :: j <= k < |order| ==> order[k].messageSeq > s
  {
    j := |order|;
    while j > 0 && order[j - 1].messageSeq > s
      invariant 0 <= j <= |order| && forall k :: j <= k < |order| ==> order[k].messageSeq > s
    {
      j := j - 1;
    }
  }

  lemma {:induction false} SameMembers<T>(xs: seq<T>, ys: seq<T>)
    requires multiset(xs) == multiset(ys)
    ensures |xs| == |ys| && forall x :: x in xs <==> x in ys
  {
    assert |xs| == |multiset(xs)| && |ys| == |multiset(ys)|;
    forall x ensures x in xs <==> x in ys { assert x in xs <==> x in multiset(xs); assert x in ys <==> x in multiset(ys); }
  }

  // Appending the next fragment of a sorted list.
  lemma {:induction false} PlaceNext(done: seq<Payload>, p: Payload)
    requires p.messageSeq >= 0
    ensures Assembled(done + [p], p.messageSeq + 1)
         == Assembled(done, if Has(done, p.messageSeq) then p.messageSeq + 1 else p.messageSeq) + p.data
  {
    var s: nat := p.messageSeq;
    var before, slot := Assembled(done, s), SlotData(done, s);
    LaterPieceUnseen(done, p, s);
    OneMoreSlot(done + [p], s);
    OneMoreSlot(done, s);
    OneMorePiece(done, p, s);
    AppendAssoc(before, slot, p.data);
  }

  lemma {:induction false} OneMoreSlot(ps: seq<Payload>, n: nat)
    ensures Assembled(ps, n + 1) == Assembled(ps, n) + SlotData(ps, n)
  {
  }

  lemma {:induction false} AppendAssoc(a: seq<byte>, b: seq<byte>, c: seq<byte>)
    ensures a + (b + c) == (a + b) + c
  {
  }

  lemma {:induction false} SeenSoFar(done: seq<Payload>, s: int)
    requires SortedBySeq(done) && done != []
    ensures s > done[|done|-1].messageSeq ==> !Has(done, s)
    ensures s == done[|done|-1].messageSeq ==> Has(done, s)
  {
  }

  lemma {:induction false} NothingAfter(done: seq<Payload>, prev: int)
    requires SortedBySeq(done) && done != [] && prev == done[|done|-1].messageSeq
    ensures Has(done, prev) && forall s :: prev < s ==> !Has(done, s)
  {
    SeenSoFar(done, prev);
    forall s | prev < s ensures !Has(done, s) { SeenSoFar(done, s); }
  }

  // The loop body: fills the gap before p, then appends its data.
  method AppendNext(ghost done: seq<Payload>, buffer: seq<byte>, prev: int, p: Payload) returns (r: seq<byte>)
    requires SortedBySeq(done) && prev >= -1 && p.messageSeq >= 0
    requires done == [] ==> prev == -1 && buffer == Assembled(done, p.messageSeq)
    requires done != [] ==> 0 <= prev == done[|done|-1].messageSeq <= p.messageSeq && buffer == Assembled(done, prev + 1)
    ensures r == Assembled(done + [p], p.messageSeq + 1)
  {
    r := buffer;
    if prev != -1 {
      NothingAfter(done, prev);
      if p.messageSeq > prev + 1 {
        r := WriteMissing(done, r, prev + 1, p.messageSeq);
      }
    }
    assert r == Assembled(done, if Has(done, p.messageSeq) then p.messageSeq + 1 else p.messageSeq);
    PlaceNext(done, p);
    r := r + p.data;
  }

  method Reassemble(order: seq<Payload>) returns (buffer: seq<byte>)
    requires order != [] && SortedBySeq(order) && NonNegative(order)
    ensures buffer == Assembled(order, Top(order) + 1)
  {
    buffer := WriteMissing([], [], 0, order[0].messageSeq);
    var prev := -1;
    for i := 0 to |order|
      invariant i == 0 ==> prev == -1 && buffer == Assembled([], order[0].messageSeq)
      invariant i > 0 ==> prev == order[i-1].messageSeq && buffer == Assembled(order[..i], prev + 1)
    {
      TakeOneMore(order, i);
      assert i > 0 ==> order[..i][i-1] == order[i-1];
      assert i == 0 ==> order[..i] == [];
      buffer := AppendNext(order[..i], buffer, prev, order[i]);
      prev := order[i].messageSeq;
    }
    assert order[..|order|] == order;
    buffer := WriteEnd(order, buffer, prev);
  }

  // Placeholders after the last fragment.
  method WriteEnd(order: seq<Payload>, buffer: seq<byte>, prev: int) returns (r: seq<byte>)
    requires order != [] && SortedBySeq(order) && 0 <= prev == order[|order|-1].messageSeq && buffer == Assembled(order, prev + 1)
    ensures r == Assembled(order, Top(order) + 1)
  {
    r := buffer;
    var expectedFinal := order[0].messageSeqMax;
    if prev < expectedFinal {
      NothingAfter(order, prev);
      r := WriteMissing(order, buffer, prev + 1, expectedFinal + 1);
    }
  }

  method Defragment(ps: seq<Payload>) returns (r: Checked<Payload>)
    requires NonNegative(ps)
    ensures Defragments(ps, r)
  {
    if |ps| == 0 {
      return Invalid(FragmentationFailure);
    }
    var c := AllFieldsEqual(ps);
    if c == Panics {
      return Invalid(Panicked);
    }
    if c == Different {
      return Invalid(FragmentationFailure);
    }
    r := SortAndMerge(ps);
  }

  method SortAndMerge(ps: seq<Payload>) returns (r: Checked<Payload>)
    requires NonNegative(ps) && ps != []
    ensures Merges(ps, r)
  {
    var order := SortBySeq(ps);
    SameMembers(order, ps);
    assert NonNegative(order) by {
      forall i | 0 <= i < |order| ensures order[i].messageSeq >= 0 { assert order[i] in ps; }
    }
    var buffer := Reassemble(order);
    var first := order[0];
    r := Valid(Payload(first.remoteIP, first.hostID, first.msgID, 0, 0, first.timestamp, first.hostname, 0, [], first.customFields, buffer, 0));
    assert r == Valid(Merged(order));
  }
}
