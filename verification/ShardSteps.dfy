/**
  The life of a bucket in a shard (internal/receiver/shard/queue.go, runtime.go): processors
  push, the watcher times buckets out, one assembler pops keys and drains.  Each step is one
  critical section, or one operation on the key channel.
*/
module ShardSteps {
  import opened Atomics
  import opened Options
  import opened PayloadCodec
  import opened ContextFields

  type Key = string

  datatype Bucket = Bucket(filled: bool, fragments: map<int, Payload>, maxSeq: int, lastStart: int)

  /**
    pending: keys the watcher has marked and not yet sent.  hand: key the assembler has popped
    and not yet drained.  dropped: keys whose sending was cancelled.  drained: buckets handed to
    reassembly so far.  crashed: DrainBucket met a missing key and unlocked twice.
  */
  datatype State = State(
    buckets: map<Key, Bucket>, keyQueue: seq<Key>, totalBuckets: nat,
    pending: seq<Key>, hand: Option<Key>, dropped: set<Key>, drained: seq<(Key, Bucket)>, created: nat, crashed: bool)

  const Start := State(map[], [], 0, [], None, {}, [], 0, false)

  datatype Event =
    | Push(key: Key, fragment: Payload, start: int, deadline: int, cancelled: bool)
    | Mark(order: seq<Key>, now: int, deadline: int)
    | Send
    | GiveUp
    | Pop
    | Drain

  // ----- Steps -----

  // The key goes into the queue, unless the context was cancelled.
  function Enqueued(s: State, key: Key, cancelled: bool): State {
    if cancelled then s.(dropped := s.dropped + {key}) else s.(keyQueue := s.keyQueue + [key])
  }

  function Elapsed(b: Bucket, start: int): int { if b.lastStart <= 0 then 0 else start - b.lastStart }

  // A fragment meets its open bucket b.
  function Store(s: State, key: Key, b: Bucket, f: Payload, start: int, deadline: int, cancelled: bool): State {
    if Elapsed(b, start) > deadline then
      Enqueued(s.(buckets := s.buckets[key := b.(filled := true)]), key, cancelled)
    else
      var stored := b.(lastStart := start, fragments := b.fragments[f.messageSeq := f]);
      if |stored.fragments| == stored.maxSeq + 1 then
        Enqueued(s.(buckets := s.buckets[key := stored.(filled := true)]), key, cancelled)
      else s.(buckets := s.buckets[key := stored])
  }

  function Pushed(s: State, key: Key, f: Payload, start: int, deadline: int, cancelled: bool): State {
    if key !in s.buckets then
      Store(s.(totalBuckets := s.totalBuckets + 1, created := s.created + 1), key, Bucket(false, map[], f.messageSeqMax, 0), f, start, deadline, cancelled)
    else
      var b := s.buckets[key];
      if b.filled || b.maxSeq != f.messageSeqMax then s
      else Store(s, key, b, f, start, deadline, cancelled)
  }

  predicate Expired(b: Bucket, now: int, deadline: int) { !b.filled && now - b.lastStart > deadline }

  function Fill(buckets: map<Key, Bucket>, keys: seq<Key>): map<Key, Bucket> {
    map k | k in buckets :: if k in keys then buckets[k].(filled := true) else buckets[k]
  }

  // order lists the expired buckets once each, in map order.
  ghost predicate Expires(s: State, order: seq<Key>, now: int, deadline: int) {
    Distinct(order) && forall k :: k in order <==> k in s.buckets && Expired(s.buckets[k], now, deadline)
  }

  function Drained(s: State, key: Key): State {
    if key !in s.buckets then s.(hand := None, crashed := true)
    else s.(hand := None, buckets := s.buckets - {key}, totalBuckets := Monus(s.totalBuckets, 1), drained := s.drained + [(key, s.buckets[key])])
  }

  // Fragments reach a shard validated.
  predicate Sequenced(f: Payload) { 0 <= f.messageSeq <= f.messageSeqMax }

  ghost predicate Next(s: State, e: Event, t: State) {
    match e
    case Push(key, f, start, deadline, cancelled) => Sequenced(f) && t == Pushed(s, key, f, start, deadline, cancelled)
    case Mark(order, now, deadline) => s.pending == [] && Expires(s, order, now, deadline) && t == s.(buckets := Fill(s.buckets, order), pending := order)
    case Send => s.pending != [] && t == s.(pending := s.pending[1..], keyQueue := s.keyQueue + [s.pending[0]])
    case GiveUp => s.pending != [] && t == s.(pending := [], dropped := s.dropped + set k | k in s.pending)
    case Pop => s.hand.None? && s.keyQueue != [] && t == s.(hand := Some(s.keyQueue[0]), keyQueue := s.keyQueue[1..])
    case Drain => s.hand.Some? && t == Drained(s, s.hand.value)
  }

  // ----- Invariant -----

  function Tokens(s: State): seq<Key> { s.keyQueue + s.pending + (if s.hand.Some? then [s.hand.value] else []) }

  // One fragment per sequence, all of one maximum.
  predicate BucketOk(b: Bucket) {
    && b.maxSeq >= 0
    && forall i :: i in b.fragments ==> 0 <= i <= b.maxSeq && b.fragments[i].messageSeq == i && b.fragments[i].messageSeqMax == b.maxSeq
  }

  predicate BucketsOk(m: map<Key, Bucket>) { forall k :: k in m ==> BucketOk(m[k]) }

  // Every filled bucket has exactly one token, or lost it to a cancellation; only filled buckets do.
  ghost predicate TokensExact(s: State) {
    && Distinct(Tokens(s))
    && (forall k :: k in Tokens(s) ==> k !in s.dropped)
    && (forall k :: k in Tokens(s) || k in s.dropped <==> k in s.buckets && s.buckets[k].filled)
  }

  ghost predicate Inv(s: State) {
    && TokensExact(s)
    && s.totalBuckets == |s.buckets| && s.created == |s.buckets| + |s.drained| && !s.crashed
    && BucketsOk(s.buckets)
    && (forall i :: 0 <= i < |s.drained| ==> s.drained[i].1.filled && BucketOk(s.drained[i].1))
  }

  lemma {:induction false} OneMoreToken(xs: seq<Key>, ys: seq<Key>, k: Key)
    requires Distinct(xs + ys) && k !in xs + ys
    ensures Distinct(xs + [k] + ys) && forall j :: j in xs + [k] + ys <==> j == k || j in xs + ys
  {
    var a, b := xs + ys, xs + [k] + ys;
    assert forall i :: 0 <= i < |xs| ==> b[i] == a[i];
    assert forall i :: |xs| < i < |b| ==> b[i] == a[i - 1];
    forall i, j | 0 <= i < j < |b| ensures b[i] != b[j] {
      if i == |xs| { assert b[j] == a[j - 1] && a[j - 1] in a; }
      else if j == |xs| { assert b[i] == a[i] && a[i] in a; }
    }
  }

  // Filling an unfilled bucket and enqueueing its key.
  lemma {:induction false} EnqueueKeeps(s: State, key: Key, b: Bucket, cancelled: bool)
    requires TokensExact(s) && b.filled && (key in s.buckets ==> !s.buckets[key].filled)
    ensures TokensExact(Enqueued(s.(buckets := s.buckets[key := b]), key, cancelled))
  {
    assert key !in Tokens(s) && key !in s.dropped;
    var t := Enqueued(s.(buckets := s.buckets[key := b]), key, cancelled);
    if cancelled {
      assert Tokens(t) == Tokens(s);
    } else {
      var rest := s.pending + (if s.hand.Some? then [s.hand.value] else []);
      assert Tokens(s) == s.keyQueue + rest && Tokens(t) == s.keyQueue + [key] + rest;
      OneMoreToken(s.keyQueue, rest, key);
    }
  }

  lemma {:induction false} UnfilledKeeps(s: State, key: Key, b: Bucket)
    requires TokensExact(s) && !b.filled && (key in s.buckets ==> !s.buckets[key].filled)
    ensures TokensExact(s.(buckets := s.buckets[key := b]))
  {
    var t := s.(buckets := s.buckets[key := b]);
    assert Tokens(t) == Tokens(s);
  }

  // What Store does to the stored buckets.
  lemma {:induction false} StoreBuckets(s: State, key: Key, b: Bucket, f: Payload, start: int, deadline: int, cancelled: bool) returns (c: Bucket)
    requires !b.filled && BucketOk(b) && Sequenced(f) && f.messageSeqMax == b.maxSeq && (key in s.buckets ==> !s.buckets[key].filled)
    requires TokensExact(s)
    ensures var t := Store(s, key, b, f, start, deadline, cancelled);
            && TokensExact(t) && BucketOk(c) && t.buckets == s.buckets[key := c]
            && t.totalBuckets == s.totalBuckets && t.created == s.created && t.drained == s.drained && t.crashed == s.crashed
  {
    var t := Store(s, key, b, f, start, deadline, cancelled);
    var stored := b.(lastStart := start, fragments := b.fragments[f.messageSeq := f]);
    assert BucketOk(stored) && BucketOk(b.(filled := true)) && BucketOk(stored.(filled := true));
    if Elapsed(b, start) > deadline {
      EnqueueKeeps(s, key, b.(filled := true), cancelled);
      c := b.(filled := true);
    } else if |stored.fragments| == stored.maxSeq + 1 {
      EnqueueKeeps(s, key, stored.(filled := true), cancelled);
      c := stored.(filled := true);
    } else {
      UnfilledKeeps(s, key, stored);
      c := stored;
    }
  }

  lemma {:induction false} BucketsAfter(m: map<Key, Bucket>, key: Key, c: Bucket)
    requires BucketOk(c) && BucketsOk(m)
    ensures |m[key := c]| == |m| + (if key in m then 0 else 1) && BucketsOk(m[key := c])
  {
    assert m[key := c].Keys == m.Keys + {key};
    assert |m[key := c]| == |m[key := c].Keys| && |m| == |m.Keys|;
  }

  lemma {:induction false} AfterStore(s: State, t: State, key: Key, c: Bucket)
    requires Inv(s) && TokensExact(t) && BucketOk(c) && t.buckets == s.buckets[key := c]
    requires t.drained == s.drained && t.crashed == s.crashed
    requires var more := if key in s.buckets then 0 else 1; t.totalBuckets == s.totalBuckets + more && t.created == s.created + more
    ensures Inv(t)
  {
    BucketsAfter(s.buckets, key, c);
  }

  lemma {:induction false} PushKeeps(s: State, key: Key, f: Payload, start: int, deadline: int, cancelled: bool)
    requires Inv(s) && Sequenced(f)
    ensures Inv(Pushed(s, key, f, start, deadline, cancelled))
  {
    var t := Pushed(s, key, f, start, deadline, cancelled);
    if key !in s.buckets {
      var s1 := s.(totalBuckets := s.totalBuckets + 1, created := s.created + 1);
      assert Tokens(s1) == Tokens(s);
      var c := StoreBuckets(s1, key, Bucket(false, map[], f.messageSeqMax, 0), f, start, deadline, cancelled);
      AfterStore(s, t, key, c);
    } else if !s.buckets[key].filled && s.buckets[key].maxSeq == f.messageSeqMax {
      var c := StoreBuckets(s, key, s.buckets[key], f, start, deadline, cancelled);
      AfterStore(s, t, key, c);
    }
  }

  lemma {:induction false} AppendDistinct(xs: seq<Key>, mid: seq<Key>, ys: seq<Key>)
    requires Distinct(xs + ys) && Distinct(mid) && forall k :: k in mid ==> k !in xs + ys
    ensures Distinct(xs + mid + ys) && forall k :: k in xs + mid + ys <==> k in mid || k in xs + ys
  {
    var a, b := xs + ys, xs + mid + ys;
    assert forall i :: 0 <= i < |a| ==> a[i] in a;
    assert forall i :: 0 <= i < |xs| ==> b[i] == a[i];
    assert forall i :: |xs| <= i < |xs| + |mid| ==> b[i] == mid[i - |xs|];
    assert forall i :: |xs| + |mid| <= i < |b| ==> b[i] == a[i - |mid|];
  }

  lemma {:induction false} MarkKeeps(s: State, order: seq<Key>, now: int, deadline: int)
    requires Inv(s) && s.pending == [] && Expires(s, order, now, deadline)
    ensures Inv(s.(buckets := Fill(s.buckets, order), pending := order))
  {
    var t := s.(buckets := Fill(s.buckets, order), pending := order);
    var hand := if s.hand.Some? then [s.hand.value] else [];
    assert Tokens(s) == s.keyQueue + hand;
    AppendDistinct(s.keyQueue, order, hand);
    assert t.buckets.Keys == s.buckets.Keys;
    assert |t.buckets| == |t.buckets.Keys| && |s.buckets| == |s.buckets.Keys|;
  }

  lemma {:induction false} DrainKeeps(s: State)
    requires Inv(s) && s.hand.Some?
    ensures Inv(Drained(s, s.hand.value))
  {
    var key := s.hand.value;
    var tokens := Tokens(s);
    assert tokens[|tokens|-1] == key && key in tokens;
    var t := Drained(s, key);
    assert Tokens(t) == tokens[..|tokens|-1];
    assert tokens == Tokens(t) + [key];
    assert t.buckets.Keys == s.buckets.Keys - {key};
    assert |t.buckets| == |t.buckets.Keys| && |s.buckets| == |s.buckets.Keys|;
  }

  lemma {:induction false} MoveKeeps(s: State, e: Event, t: State)
    requires Inv(s) && (e.Send? || e.Pop?) && Next(s, e, t)
    ensures Inv(t)
  {
    if e.Send? {
      assert Tokens(t) == Tokens(s);
    } else {
      assert s.keyQueue == [s.keyQueue[0]] + s.keyQueue[1..];
      var hand := s.keyQueue[0];
      assert Tokens(s) == [s.keyQueue[0]] + (s.keyQueue[1..] + s.pending);
      assert Tokens(t) == (s.keyQueue[1..] + s.pending) + [s.keyQueue[0]];
      Rotate(hand, s.keyQueue[1..] + s.pending);
    }
  }

  lemma {:induction false} Rotate(k: Key, rest: seq<Key>)
    requires Distinct([k] + rest)
    ensures Distinct(rest + [k]) && forall j :: j in rest + [k] <==> j in [k] + rest
  {
    var a, b := [k] + rest, rest + [k];
    assert forall i :: 0 <= i < |rest| ==> b[i] == a[i + 1];
    assert b[|rest|] == a[0];
  }

  lemma {:induction false} WithoutMiddle(xs: seq<Key>, mid: seq<Key>, ys: seq<Key>)
    requires Distinct(xs + mid + ys)
    ensures Distinct(xs + ys) && forall k :: k in xs + mid + ys <==> k in xs + ys || k in mid
    ensures forall k :: k in mid ==> k !in xs + ys
  {
    var a, b := xs + ys, xs + mid + ys;
    assert forall i :: 0 <= i < |xs| ==> a[i] == b[i];
    assert forall i :: |xs| <= i < |a| ==> a[i] == b[i + |mid|];
    assert forall i :: 0 <= i < |mid| ==> mid[i] == b[|xs| + i];
  }

  lemma {:induction false} GiveUpKeeps(s: State)
    requires Inv(s) && s.pending != []
    ensures Inv(s.(pending := [], dropped := s.dropped + set k | k in s.pending))
  {
    var t := s.(pending := [], dropped := s.dropped + set k | k in s.pending);
    var hand := if s.hand.Some? then [s.hand.value] else [];
    assert Tokens(t) == s.keyQueue + hand;
    WithoutMiddle(s.keyQueue, s.pending, hand);
  }

  lemma {:induction false} StepKeeps(s: State, e: Event, t: State)
    requires Inv(s) && Next(s, e, t)
    ensures Inv(t)
  {
    match e
    case Push(key, f, start, deadline, cancelled) => PushKeeps(s, key, f, start, deadline, cancelled);
    case Mark(order, now, deadline) => MarkKeeps(s, order, now, deadline);
    case Send => MoveKeeps(s, e, t);
    case GiveUp => GiveUpKeeps(s);
    case Pop => MoveKeeps(s, e, t);
    case Drain => DrainKeeps(s);
  }

  // ----- Runs -----

  ghost predicate Run(states: seq<State>, events: seq<Event>) {
    && |states| == |events| + 1 && states[0] == Start
    && forall i {:trigger events[i]} :: 0 <= i < |events| ==> Next(states[i], events[i], states[i + 1])
  }

  lemma {:induction false} AlwaysHolds(states: seq<State>, events: seq<Event>, i: nat)
    requires Run(states, events) && i < |states|
    ensures Inv(states[i])
  {
    if i > 0 {
      AlwaysHolds(states, events, i - 1);
      var e := events[i - 1];
      StepKeeps(states[i - 1], e, states[i]);
    }
  }

  // DrainBucket never meets a missing key, in any interleaving.
  lemma {:induction false} DrainFindsBucket(states: seq<State>, events: seq<Event>, i: nat)
    requires Run(states, events) && i < |states|
    ensures !states[i].crashed
    ensures states[i].hand.Some? ==> states[i].hand.value in states[i].buckets && states[i].buckets[states[i].hand.value].filled
  {
    AlwaysHolds(states, events, i);
    var tokens := Tokens(states[i]);
    if states[i].hand.Some? { assert tokens[|tokens|-1] in tokens; }
  }

  // A key is never in two places, and no filled bucket is forgotten while nothing is cancelled.
  lemma {:induction false} TokenExactlyOnce(states: seq<State>, events: seq<Event>, i: nat, key: Key)
    requires Run(states, events) && i < |states|
    ensures var s := states[i];
            && multiset(Tokens(s))[key] <= 1
            && (multiset(Tokens(s))[key] == 1 || key in s.dropped <==> key in s.buckets && s.buckets[key].filled)
            && s.totalBuckets == |s.buckets| && s.created == |s.buckets| + |s.drained|
  {
    AlwaysHolds(states, events, i);
    CountDistinct(Tokens(states[i]), key);
  }

  lemma {:induction false} CountDistinct(xs: seq<Key>, k: Key)
    requires Distinct(xs)
    ensures multiset(xs)[k] == if k in xs then 1 else 0
  {
    if xs != [] {
      var init, last := xs[..|xs|-1], xs[|xs|-1];
      assert xs == init + [last];
      CountDistinct(init, k);
      assert last !in init;
    }
  }
}
