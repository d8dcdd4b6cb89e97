/**
  What a drained bucket reassembles to (internal/receiver/assembler/worker.go), in every run of
  the shard and for every order of arrival.
*/
module ShardAssembly {
  import opened Bytes
  import opened PayloadCodec
  import opened ContextFields
  import opened Fragmentation
  import opened Reassembly
  import opened ShardSteps

  // ----- Stored fragments come from pushes -----

  ghost predicate PushedBefore(events: seq<Event>, n: nat, key: Key, f: Payload) {
    exists j :: 0 <= j < n && j < |events| && events[j].Push? && events[j].key == key && events[j].fragment == f
  }

  ghost predicate AllPushed(events: seq<Event>, n: nat, key: Key, b: Bucket) {
    forall i :: i in b.fragments ==> PushedBefore(events, n, key, b.fragments[i])
  }

  ghost predicate Sourced(s: State, events: seq<Event>, n: nat) {
    && (forall k :: k in s.buckets ==> AllPushed(events, n, k, s.buckets[k]))
    && (forall i :: 0 <= i < |s.drained| ==> AllPushed(events, n, s.drained[i].0, s.drained[i].1))
  }

  // Fragment i of key k is kept from s, or is the one pushed.
  predicate KeptOrPushed(s: State, t: State, k: Key, i: int, key: Key, f: Payload)
    requires k in t.buckets && i in t.buckets[k].fragments
  {
    || (k in s.buckets && i in s.buckets[k].fragments && t.buckets[k].fragments[i] == s.buckets[k].fragments[i])
    || (key == k && f == t.buckets[k].fragments[i])
  }

  lemma {:induction false} StoreKeeps(s: State, key: Key, b: Bucket, f: Payload, start: int, deadline: int, cancelled: bool, k: Key, i: int)
    requires key in s.buckets ==> b == s.buckets[key]
    requires key !in s.buckets ==> b.fragments == map[]
    requires var t := Store(s, key, b, f, start, deadline, cancelled); k in t.buckets && i in t.buckets[k].fragments
    ensures KeptOrPushed(s, Store(s, key, b, f, start, deadline, cancelled), k, i, key, f)
  {
    var t := Store(s, key, b, f, start, deadline, cancelled);
    if k != key { assert t.buckets[k] == s.buckets[k]; }
  }

  // A step stores nothing but the fragment it pushes.
  lemma {:induction false} StoresOnlyPushed(s: State, e: Event, t: State, k: Key, i: int)
    requires Next(s, e, t) && k in t.buckets && i in t.buckets[k].fragments
    ensures if e.Push? then KeptOrPushed(s, t, k, i, e.key, e.fragment)
            else k in s.buckets && t.buckets[k].fragments == s.buckets[k].fragments
  {
    if e.Push? {
      if e.key !in s.buckets {
        var s1 := s.(totalBuckets := s.totalBuckets + 1, created := s.created + 1);
        StoreKeeps(s1, e.key, Bucket(false, map[], e.fragment.messageSeqMax, 0), e.fragment, e.start, e.deadline, e.cancelled, k, i);
      } else if !s.buckets[e.key].filled && s.buckets[e.key].maxSeq == e.fragment.messageSeqMax {
        StoreKeeps(s, e.key, s.buckets[e.key], e.fragment, e.start, e.deadline, e.cancelled, k, i);
      }
    }
  }

  lemma {:induction false} DrainsStored(s: State, e: Event, t: State)
    requires Next(s, e, t)
    ensures || t.drained == s.drained
            || (s.hand.Some? && s.hand.value in s.buckets && t.drained == s.drained + [(s.hand.value, s.buckets[s.hand.value])])
  {
  }

  lemma {:induction false} AlwaysSourced(states: seq<State>, events: seq<Event>, n: nat)
    requires Run(states, events) && n < |states|
    ensures Sourced(states[n], events, n)
  {
    if n > 0 {
      AlwaysSourced(states, events, n - 1);
      var s, e, t := states[n - 1], events[n - 1], states[n];
      assert Next(s, e, t);
      forall k, i | k in t.buckets && i in t.buckets[k].fragments ensures PushedBefore(events, n, k, t.buckets[k].fragments[i]) {
        StoresOnlyPushed(s, e, t, k, i);
        if k in s.buckets && i in s.buckets[k].fragments && t.buckets[k].fragments[i] == s.buckets[k].fragments[i] {
          assert PushedBefore(events, n - 1, k, s.buckets[k].fragments[i]);
        }
      }
      DrainsStored(s, e, t);
      forall j, i | 0 <= j < |t.drained| && i in t.drained[j].1.fragments ensures PushedBefore(events, n, t.drained[j].0, t.drained[j].1.fragments[i]) {
        if j < |s.drained| {
          assert t.drained[j] == s.drained[j];
          assert PushedBefore(events, n - 1, s.drained[j].0, s.drained[j].1.fragments[i]);
        } else {
          assert PushedBefore(events, n - 1, s.hand.value, s.buckets[s.hand.value].fragments[i]);
        }
      }
    }
  }

  // ----- Reassembling a bucket -----

  // Sequences 0..n-1 of a bucket, each its stored data or one placeholder.
  function BucketData(m: map<int, Payload>, n: nat): seq<byte> { Pile(BucketSlots(m), n) }

  function BucketSlots(m: map<int, Payload>): int -> seq<byte> { k => if k in m then m[k].data else PLACEHOLDER }

  // ps lists the fragments of a bucket, in some order.
  predicate Lists(ps: seq<Payload>, m: map<int, Payload>) {
    && DistinctSeqs(ps)
    && (forall i {:trigger ps[i]} :: 0 <= i < |ps| ==> ps[i].messageSeq in m && m[ps[i].messageSeq] == ps[i])
    && (forall k :: k in m ==> Has(ps, k))
  }

  lemma {:induction false} ListedSlot(ps: seq<Payload>, m: map<int, Payload>, k: int)
    requires Lists(ps, m)
    ensures SlotData(ps, k) == if k in m then m[k].data else PLACEHOLDER
  {
    if Has(ps, k) {
      var i: nat :| i < |ps| && ps[i].messageSeq == k;
      assert ps[i].messageSeq in m;
      SlotHolds(ps, i);
    }
  }

  lemma {:induction false} ListedData(ps: seq<Payload>, m: map<int, Payload>, n: nat)
    requires Lists(ps, m)
    ensures Assembled(ps, n) == BucketData(m, n)
  {
    forall k | 0 <= k < n ensures Slots(ps)(k) == BucketSlots(m)(k) { ListedSlot(ps, m, k); }
    SamePile(Slots(ps), BucketSlots(m), n);
  }

  predicate Agree(m: map<int, Payload>) { forall i, j :: i in m && j in m ==> SameIdentity(m[i], m[j]) }

  predicate AllDecoded(m: map<int, Payload>) { forall i :: i in m ==> Decoded(m[i]) }

  function SeqsOf(ps: seq<Payload>): set<int> { set i | 0 <= i < |ps| :: ps[i].messageSeq }

  lemma {:induction false} DistinctCount(ps: seq<Payload>)
    requires DistinctSeqs(ps)
    ensures |SeqsOf(ps)| == |ps|
  {
    if ps != [] {
      var init, last := ps[..|ps|-1], ps[|ps|-1];
      DistinctCount(init);
      assert SeqsOf(ps) == SeqsOf(init) + {last.messageSeq};
      assert last.messageSeq !in SeqsOf(init);
    }
  }

  lemma {:induction false} ListSize(ps: seq<Payload>, m: map<int, Payload>)
    requires Lists(ps, m)
    ensures |ps| == |m|
  {
    DistinctCount(ps);
    forall k ensures k in SeqsOf(ps) <==> k in m {
      if k in m { assert Has(ps, k); }
      if k in SeqsOf(ps) {
        var i :| 0 <= i < |ps| && ps[i].messageSeq == k;
        assert ps[i].messageSeq in m;
      }
    }
    assert SeqsOf(ps) == m.Keys;
    assert |m| == |m.Keys|;
  }

  // Several fragments that carry a byte slice cannot be compared.
  predicate CanMerge(m: map<int, Payload>, i: int)
    requires i in m
  {
    |m| == 1 || Comparable(m[i])
  }

  // Whatever the listing order, the result is the bucket's own data in sequence, exactly when
  // its fragments agree and can be compared.
  lemma {:induction false} DrainedBucketReassembles(b: Bucket, ps: seq<Payload>, r: Checked<Payload>, i: int)
    requires BucketOk(b) && AllDecoded(b.fragments) && Lists(ps, b.fragments) && Defragments(ps, r) && i in b.fragments
    ensures Agree(b.fragments) ==>
      r == if CanMerge(b.fragments, i) then Valid(Whole(b.fragments[i], BucketData(b.fragments, b.maxSeq + 1))) else Invalid(Panicked)
    ensures !Agree(b.fragments) ==>
      r == Invalid(FragmentationFailure) || (r == Invalid(Panicked) && exists j :: j in b.fragments && !Comparable(b.fragments[j]))
  {
    assert Has(ps, i);
    assert BucketOf(ps, b.maxSeq);
    BucketReassembles(ps, b.maxSeq, r);
    ListedData(ps, b.fragments, b.maxSeq + 1);
    AgreementOfList(ps, b.fragments);
    ListSize(ps, b.fragments);
    var j: nat :| j < |ps| && ps[j].messageSeq == i;
    assert ps[j] == b.fragments[i] && ps[0].messageSeq in b.fragments;
  }

  lemma {:induction false} AgreementOfList(ps: seq<Payload>, m: map<int, Payload>)
    requires Lists(ps, m) && AllDecoded(m) && ps != []
    ensures OneIdentity(ps) <==> Agree(m)
  {
    if OneIdentity(ps) {
      forall i, j | i in m && j in m ensures SameIdentity(m[i], m[j]) {
        var a: nat :| a < |ps| && ps[a].messageSeq == i;
        var b: nat :| b < |ps| && ps[b].messageSeq == j;
        assert ps[a] == m[i] && ps[b] == m[j];
      }
    }
    if Agree(m) {
      forall i | 0 <= i < |ps| ensures Decoded(ps[i]) && SameIdentity(ps[0], ps[i]) {
        assert ps[i] == m[ps[i].messageSeq] && ps[0] == m[ps[0].messageSeq];
      }
    }
  }

  // ----- Filled by count -----

  function Range(n: nat): (r: set<int>)
    ensures |r| == n && forall i :: i in r <==> 0 <= i < n
  {
    if n == 0 then {} else Range(n - 1) + {n - 1}
  }

  // As many fragments as sequences: one for each.
  lemma {:induction false} FilledByCount(b: Bucket)
    requires BucketOk(b)
    ensures |b.fragments| == b.maxSeq + 1 <==> forall i :: 0 <= i <= b.maxSeq ==> i in b.fragments
  {
    var all := Range(b.maxSeq + 1);
    assert b.fragments.Keys <= all && |b.fragments| == |b.fragments.Keys|;
    if |b.fragments| == b.maxSeq + 1 { SameSizeSubset(b.fragments.Keys, all); }
    if forall i :: 0 <= i <= b.maxSeq ==> i in b.fragments { assert b.fragments.Keys == all; }
  }

  lemma {:induction false} CompleteData(m: map<int, Payload>, xs: seq<Payload>, n: nat)
    requires n <= |xs| && forall i :: 0 <= i < |xs| ==> i in m && m[i] == xs[i]
    ensures BucketData(m, n) == Concat(xs[..n])
  {
    if n > 0 {
      CompleteData(m, xs, n - 1);
      TakeOneMore(xs, n - 1);
      ConcatOneMore(xs[..n-1], xs[n-1]);
    }
  }

  // xs is the message whose fragments were pushed under key.
  ghost predicate OnlyMessage(events: seq<Event>, key: Key, xs: seq<Payload>) {
    forall j {:trigger events[j]} :: 0 <= j < |events| && events[j].Push? && events[j].key == key ==> events[j].fragment in xs
  }

  ghost predicate Holds(b: Bucket, xs: seq<Payload>) {
    BucketOk(b) && forall i :: i in b.fragments ==> b.maxSeq == |xs| - 1 && 0 <= i < |xs| && b.fragments[i] == xs[i]
  }

  lemma {:induction false} DrainedHoldsMessage(states: seq<State>, events: seq<Event>, n: nat, d: nat, xs: seq<Payload>)
    requires Run(states, events) && n < |states| && d < |states[n].drained|
    requires InSequence(xs) && OnlyMessage(events, states[n].drained[d].0, xs)
    ensures Holds(states[n].drained[d].1, xs)
  {
    var (key, b) := states[n].drained[d];
    AlwaysHolds(states, events, n);
    AlwaysSourced(states, events, n);
    forall i | i in b.fragments ensures b.maxSeq == |xs| - 1 && 0 <= i < |xs| && b.fragments[i] == xs[i] {
      var f := b.fragments[i];
      var j :| 0 <= j < n && j < |events| && events[j].Push? && events[j].key == key && events[j].fragment == f;
      assert f in xs;
      var a: nat :| a < |xs| && xs[a] == f;
    }
  }

  lemma {:induction false} HeldReassembles(b: Bucket, xs: seq<Payload>, ps: seq<Payload>, r: Checked<Payload>, i: int)
    requires InSequence(xs) && OneIdentity(xs) && Holds(b, xs) && i in b.fragments && Lists(ps, b.fragments) && Defragments(ps, r)
    ensures r == if |b.fragments| == 1 || Comparable(xs[0]) then Valid(Whole(xs[0], BucketData(b.fragments, |xs|))) else Invalid(Panicked)
  {
    forall i, j | i in b.fragments && j in b.fragments ensures SameIdentity(b.fragments[i], b.fragments[j]) {
      assert b.fragments[i] == xs[i] && b.fragments[j] == xs[j];
    }
    assert AllDecoded(b.fragments) && Agree(b.fragments);
    DrainedBucketReassembles(b, ps, r, i);
    assert b.fragments[i] == xs[i] && SameIdentity(xs[0], xs[i]);
  }

  lemma {:induction false} CompleteReassembles(b: Bucket, xs: seq<Payload>, ps: seq<Payload>, r: Checked<Payload>)
    requires InSequence(xs) && OneIdentity(xs) && Holds(b, xs) && |b.fragments| == b.maxSeq + 1 && Lists(ps, b.fragments) && Defragments(ps, r)
    ensures xs != [] && r == if Mergeable(xs) then Valid(Whole(xs[0], Concat(xs))) else Invalid(Panicked)
  {
    FilledByCount(b);
    HeldReassembles(b, xs, ps, r, 0);
    CompleteData(b.fragments, xs, |xs|);
    assert xs[..|xs|] == xs;
  }

  // In every run, a bucket of a message that was filled by count gives that message back,
  // whatever the order in which its fragments and their duplicates arrived; unless there are
  // several and they carry a byte slice, when the assembler panics and the message is lost.
  lemma {:induction false} CompleteBucketGivesMessage(states: seq<State>, events: seq<Event>, n: nat, d: nat, xs: seq<Payload>, ps: seq<Payload>, r: Checked<Payload>)
    requires Run(states, events) && n < |states| && d < |states[n].drained|
    requires InSequence(xs) && OneIdentity(xs) && OnlyMessage(events, states[n].drained[d].0, xs)
    requires var b := states[n].drained[d].1; |b.fragments| == b.maxSeq + 1 && Lists(ps, b.fragments)
    requires Defragments(ps, r)
    ensures xs != [] && r == if Mergeable(xs) then Valid(Whole(xs[0], Concat(xs))) else Invalid(Panicked)
  {
    DrainedHoldsMessage(states, events, n, d, xs);
    CompleteReassembles(states[n].drained[d].1, xs, ps, r);
  }

  // A bucket that timed out gives the stored fragments of its message in place, and one
  // placeholder for every other, under the same condition.
  lemma {:induction false} TimedOutBucketGivesGaps(states: seq<State>, events: seq<Event>, n: nat, d: nat, xs: seq<Payload>, ps: seq<Payload>, r: Checked<Payload>, i: int)
    requires Run(states, events) && n < |states| && d < |states[n].drained|
    requires InSequence(xs) && OneIdentity(xs) && OnlyMessage(events, states[n].drained[d].0, xs)
    requires var b := states[n].drained[d].1; i in b.fragments && Lists(ps, b.fragments)
    requires Defragments(ps, r)
    ensures var b := states[n].drained[d].1;
            && Holds(b, xs)
            && r == if |b.fragments| == 1 || Comparable(xs[0]) then Valid(Whole(xs[0], BucketData(b.fragments, |xs|))) else Invalid(Panicked)
  {
    DrainedHoldsMessage(states, events, n, d, xs);
    HeldReassembles(states[n].drained[d].1, xs, ps, r, i);
  }
}
