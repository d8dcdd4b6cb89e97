/**
  What reassembly gives back, whatever the order of arrival and whatever is missing.
*/
module Reassembly {
  import opened Bytes
  import opened Values
  import opened ContextFields
  import opened PayloadCodec
  import opened Fragmentation

  predicate DistinctSeqs(ps: seq<Payload>) { forall i, j :: 0 <= i < j < |ps| ==> ps[i].messageSeq != ps[j].messageSeq }

  // A sequence that occurs once holds the data of its fragment.
  lemma {:induction false} SlotHolds(ps: seq<Payload>, i: nat)
    requires DistinctSeqs(ps) && i < |ps|
    ensures SlotData(ps, ps[i].messageSeq) == ps[i].data
  {
    var init, last := ps[..|ps|-1], ps[|ps|-1];
    assert ps == init + [last];
    OneMorePiece(init, last, ps[i].messageSeq);
    if i < |init| { SlotHolds(init, i); }
  }

  // ----- Arrival order does not matter -----

  lemma {:induction false} CountOfTwo<T>(xs: seq<T>, i: nat, j: nat)
    requires i < j < |xs| && xs[i] == xs[j]
    ensures multiset(xs)[xs[i]] >= 2
  {
    Split(xs, j);
    assert xs[i] == xs[..j][i] && xs[j] == xs[j..][0];
    assert multiset(xs) == multiset(xs[..j]) + multiset(xs[j..]);
  }

  lemma {:induction false} CountOfOne<T>(xs: seq<T>, x: T)
    requires forall i, j :: 0 <= i < j < |xs| ==> xs[i] != xs[j]
    ensures multiset(xs)[x] <= 1
  {
    if xs != [] {
      var init := xs[..|xs|-1];
      assert xs == init + [xs[|xs|-1]];
      CountOfOne(init, x);
      if x == xs[|xs|-1] { assert x !in init; }
    }
  }

  lemma {:induction false} PermutedDistinct(ps: seq<Payload>, qs: seq<Payload>)
    requires DistinctSeqs(ps) && multiset(ps) == multiset(qs)
    ensures DistinctSeqs(qs)
  {
    SameMembers(ps, qs);
    forall i, j | 0 <= i < j < |qs| ensures qs[i].messageSeq != qs[j].messageSeq {
      if qs[i].messageSeq == qs[j].messageSeq {
        assert qs[i] in ps && qs[j] in ps;
        var a: nat :| a < |ps| && ps[a] == qs[i];
        var b: nat :| b < |ps| && ps[b] == qs[j];
        assert a == b;
        CountOfTwo(qs, i, j);
        CountOfOne(ps, qs[i]);
      }
    }
  }

  lemma {:induction false} SameSlot(ps: seq<Payload>, qs: seq<Payload>, s: int)
    requires DistinctSeqs(ps) && DistinctSeqs(qs) && forall p :: p in ps <==> p in qs
    ensures SlotData(ps, s) == SlotData(qs, s)
  {
    if Has(qs, s) {
      var j: nat :| j < |qs| && qs[j].messageSeq == s;
      assert qs[j] in ps;
      assert Has(ps, s);
    }
    if Has(ps, s) {
      var i: nat :| i < |ps| && ps[i].messageSeq == s;
      assert ps[i] in qs;
      var j: nat :| j < |qs| && qs[j] == ps[i];
      SlotHolds(ps, i);
      SlotHolds(qs, j);
    }
  }

  lemma {:induction false} SameAssembled(ps: seq<Payload>, qs: seq<Payload>, n: nat)
    requires DistinctSeqs(ps) && DistinctSeqs(qs) && forall p :: p in ps <==> p in qs
    ensures Assembled(ps, n) == Assembled(qs, n)
  {
    forall s | 0 <= s < n ensures Slots(ps)(s) == Slots(qs)(s) { SameSlot(ps, qs, s); }
    SamePile(Slots(ps), Slots(qs), n);
  }

  // ----- Buckets: one fragment per sequence at most, one maximum -----

  predicate BucketOf(ps: seq<Payload>, maxSeq: nat) {
    && ps != [] && DistinctSeqs(ps)
    && forall i {:trigger ps[i]} :: 0 <= i < |ps| ==> 0 <= ps[i].messageSeq <= maxSeq && ps[i].messageSeqMax == maxSeq
  }

  predicate OneIdentity(ps: seq<Payload>) {
    forall i {:trigger ps[i]} :: 0 <= i < |ps| ==> Decoded(ps[i]) && SameIdentity(ps[0], ps[i])
  }

  function Whole(p: Payload, data: seq<byte>): Payload {
    Payload(p.remoteIP, p.hostID, p.msgID, 0, 0, p.timestamp, p.hostname, 0, [], p.customFields, data, 0)
  }

  // Several fragments can be compared only without byte slices.
  predicate Mergeable(ps: seq<Payload>)
    requires ps != []
  {
    |ps| == 1 || Comparable(ps[0])
  }

  lemma {:induction false} OneIdentityCompares(ps: seq<Payload>, c: Comparison)
    requires ps != [] && OneIdentity(ps)
    ensures AllCompare(ps, c) <==> c == if Mergeable(ps) then Same else Panics
  {
    forall i, d | 0 <= i < |ps| ensures Compares(ps[0], ps[i], d) <==> d == if Comparable(ps[0]) then Same else Panics {
      SameMessageCompares(ps[0], ps[i], d);
    }
    if |ps| > 1 && !Comparable(ps[0]) { assert FirstAt(ps, 1, Panics); }
  }

  lemma {:induction false} NotOneCompares(ps: seq<Payload>, c: Comparison)
    requires ps != [] && !OneIdentity(ps) && (forall i :: 0 <= i < |ps| ==> Decoded(ps[i])) && AllCompare(ps, c)
    ensures c != Same && (Comparable(ps[0]) ==> c == Different)
  {
    var i :| 0 <= i < |ps| && !SameIdentity(ps[0], ps[i]);
    if c == Same {
      OtherMessageCompares(ps[0], ps[i], Same);
    } else {
      var j :| FirstAt(ps, j, c);
      if SameIdentity(ps[0], ps[j]) { SameMessageCompares(ps[0], ps[j], c); } else { OtherMessageCompares(ps[0], ps[j], c); }
    }
  }

  lemma {:induction false} TopOfBucket(order: seq<Payload>, maxSeq: nat)
    requires BucketOf(order, maxSeq)
    ensures Top(order) == maxSeq
  {
  }

  lemma {:induction false} PermutedBucket(ps: seq<Payload>, qs: seq<Payload>, maxSeq: nat)
    requires BucketOf(ps, maxSeq) && multiset(ps) == multiset(qs)
    ensures BucketOf(qs, maxSeq)
  {
    PermutedDistinct(ps, qs);
    SameMembers(ps, qs);
    forall i | 0 <= i < |qs| ensures 0 <= qs[i].messageSeq <= maxSeq && qs[i].messageSeqMax == maxSeq {
      assert qs[i] in ps;
    }
  }

  lemma {:induction false} MergedBucket(ps: seq<Payload>, order: seq<Payload>, maxSeq: nat)
    requires BucketOf(ps, maxSeq) && OneIdentity(ps) && multiset(order) == multiset(ps) && order != [] && NonNegative(order)
    ensures Merged(order) == Whole(ps[0], Assembled(ps, maxSeq + 1))
  {
    PermutedBucket(ps, order, maxSeq);
    TopOfBucket(order, maxSeq);
    SameMembers(ps, order);
    SameAssembled(ps, order, maxSeq + 1);
    assert order[0] in ps;
  }

  // A bucket reassembles to its fragments in sequence, one placeholder for each that is
  // missing, exactly when they agree on everything they share and can be compared: several
  // fragments that carry a byte slice panic.
  lemma {:induction false} BucketReassembles(ps: seq<Payload>, maxSeq: nat, r: Checked<Payload>)
    requires BucketOf(ps, maxSeq) && (forall i :: 0 <= i < |ps| ==> Decoded(ps[i])) && Defragments(ps, r)
    ensures OneIdentity(ps) ==> r == if Mergeable(ps) then Valid(Whole(ps[0], Assembled(ps, maxSeq + 1))) else Invalid(Panicked)
    ensures !OneIdentity(ps) ==> r == Invalid(FragmentationFailure) || (r == Invalid(Panicked) && !Comparable(ps[0]))
  {
    if OneIdentity(ps) {
      OneIdentityCompares(ps, Same); OneIdentityCompares(ps, Different); OneIdentityCompares(ps, Panics);
      if Merges(ps, r) {
        var order :| multiset(order) == multiset(ps) && SortedBySeq(order) && NonNegative(order) && order != [] && r == Valid(Merged(order));
        MergedBucket(ps, order, maxSeq);
      }
    } else {
      forall c | AllCompare(ps, c) ensures c != Same && (Comparable(ps[0]) ==> c == Different) { NotOneCompares(ps, c); }
    }
  }

  // ----- Nothing missing -----

  predicate InSequence(xs: seq<Payload>) {
    forall i {:trigger xs[i]} :: 0 <= i < |xs| ==> xs[i].messageSeq == i && xs[i].messageSeqMax == |xs| - 1
  }

  lemma {:induction false} InSequenceAssembled(xs: seq<Payload>, n: nat)
    requires InSequence(xs) && n <= |xs|
    ensures Assembled(xs, n) == Concat(xs[..n])
  {
    if n > 0 {
      InSequenceAssembled(xs, n - 1);
      assert xs[n-1].messageSeq == n - 1;
      SlotHolds(xs, n - 1);
      OneMoreSlot(xs, n - 1);
      TakeOneMore(xs, n - 1);
      ConcatOneMore(xs[..n-1], xs[n-1]);
    }
  }

  lemma {:induction false} PermutedIdentity(xs: seq<Payload>, ps: seq<Payload>)
    requires xs != [] && OneIdentity(xs) && multiset(ps) == multiset(xs)
    ensures ps != [] && OneIdentity(ps) && SameIdentity(xs[0], ps[0])
  {
    SameMembers(xs, ps);
    forall i | 0 <= i < |ps| ensures Decoded(ps[i]) && SameIdentity(ps[0], ps[i]) {
      assert ps[i] in xs && ps[0] in xs;
    }
    assert ps[0] in xs;
  }

  lemma {:induction false} InSequenceIsBucket(xs: seq<Payload>)
    requires xs != [] && InSequence(xs)
    ensures BucketOf(xs, |xs| - 1) && Assembled(xs, |xs|) == Concat(xs)
  {
    InSequenceAssembled(xs, |xs|);
    assert xs[..|xs|] == xs;
  }

  // Fragments in any order reassemble to their data in sequence, or panic if there are several
  // and they carry a byte slice.
  lemma {:induction false} PermutationReassembles(xs: seq<Payload>, ps: seq<Payload>, r: Checked<Payload>)
    requires xs != [] && InSequence(xs) && OneIdentity(xs) && multiset(ps) == multiset(xs) && Defragments(ps, r)
    ensures r == if Mergeable(xs) then Valid(Whole(xs[0], Concat(xs))) else Invalid(Panicked)
  {
    InSequenceIsBucket(xs);
    SameMembers(xs, ps);
    PermutedBucket(xs, ps, |xs| - 1);
    PermutedIdentity(xs, ps);
    BucketReassembles(ps, |xs| - 1, r);
    SameAssembled(xs, ps, |xs|);
  }

  // Fragmenting and reassembling, in any order, gives the message back exactly when there is
  // one fragment or no byte-slice field.
  lemma {:induction false} FragmentRoundTrip(p: Payload, room: int, pad: nat -> padding, frags: seq<Payload>, ps: seq<Payload>, r: Checked<Payload>)
    requires p.data != [] && Decoded(p) && FragmentsOf(frags, p, room, pad)
    requires multiset(ps) == multiset(frags) && Defragments(ps, r)
    ensures r == if |frags| == 1 || Comparable(p) then Valid(Whole(p, p.data)) else Invalid(Panicked)
  {
    assert frags != [];
    forall i | 0 <= i < |frags|
      ensures Decoded(frags[i]) && SameIdentity(frags[0], frags[i]) && frags[i].messageSeq == i && frags[i].messageSeqMax == |frags| - 1
    {
      assert FragmentOf(frags[i], p, i, |frags| - 1, pad) && FragmentOf(frags[0], p, 0, |frags| - 1, pad);
    }
    PermutationReassembles(frags, ps, r);
    assert FragmentOf(frags[0], p, 0, |frags| - 1, pad);
  }

  // Two fragments with the field "a" of one byte: reassembly panics.
  lemma {:induction false} ByteSlicesPanic(p: Payload, r: Checked<Payload>)
    requires p.customFields == map[[0x61] := Blob([1])]
    requires Defragments([p.(messageSeq := 0, messageSeqMax := 1), p.(messageSeq := 1, messageSeqMax := 1)], r)
    ensures r == Invalid(Panicked)
  {
    var ps := [p.(messageSeq := 0, messageSeqMax := 1), p.(messageSeq := 1, messageSeqMax := 1)];
    assert p.customFields[[0x61]].Blob? && OneIdentity(ps);
    PermutationReassembles(ps, ps, r);
  }

  // The comparison does not look at the maximum: a list whose maxima differ is accepted, and the
  // lowest sequence decides.
  lemma {:induction false} MaximaAreNotCompared(p: Payload)
    requires Decoded(p) && Comparable(p)
    ensures AllCompare([p.(messageSeq := 0, messageSeqMax := 1), p.(messageSeq := 1, messageSeqMax := 5)], Same)
  {
    var ps := [p.(messageSeq := 0, messageSeqMax := 1), p.(messageSeq := 1, messageSeqMax := 5)];
    assert OneIdentity(ps);
    OneIdentityCompares(ps, Same);
  }
}
