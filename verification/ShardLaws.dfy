/**
  What one step of a shard does to its buckets (internal/receiver/shard/queue.go, runtime.go):
  when a push stores, when it fills, and what the watcher marks.
*/
module ShardLaws {
  import opened Options
  import opened PayloadCodec
  import opened ContextFields
  import opened ShardSteps
  import opened ShardAssembly

  // A fragment is late by the time since the last one; the first is late only for a negative deadline.
  ghost predicate Late(s: State, key: Key, start: int, deadline: int) {
    (if key in s.buckets && s.buckets[key].lastStart > 0 then start - s.buckets[key].lastStart else 0) > deadline
  }

  // There is no bucket for key yet, or it is open and expects as many fragments as f says.
  ghost predicate Open(s: State, key: Key, f: Payload) {
    key !in s.buckets || (!s.buckets[key].filled && s.buckets[key].maxSeq == f.messageSeqMax)
  }

  function FragmentsOfKey(s: State, key: Key): map<int, Payload> { if key in s.buckets then s.buckets[key].fragments else map[] }

  ghost predicate Complete(b: Bucket) { forall i :: 0 <= i <= b.maxSeq ==> i in b.fragments }

  // A push touches no other bucket; one that meets a filled bucket, or a bucket of another
  // maximum, changes nothing at all.
  lemma {:induction false} PushLeavesOthers(s: State, e: Event, t: State)
    requires Next(s, e, t) && e.Push?
    ensures forall k :: k != e.key ==> (k in t.buckets <==> k in s.buckets) && (k in s.buckets ==> t.buckets[k] == s.buckets[k])
    ensures !Open(s, e.key, e.fragment) ==> t == s
  {
  }

  // A push on time stores its fragment under its sequence, keeps the others, and fills and
  // enqueues the bucket exactly when no sequence is missing.
  lemma {:induction false} PushOnTime(s: State, e: Event, t: State)
    requires Inv(s) && Next(s, e, t) && e.Push? && Open(s, e.key, e.fragment) && !Late(s, e.key, e.start, e.deadline)
    ensures e.key in t.buckets
    ensures var b, f := t.buckets[e.key], e.fragment;
            && f.messageSeq in b.fragments && b.fragments[f.messageSeq] == f
            && (forall i :: i != f.messageSeq ==> (i in b.fragments <==> i in FragmentsOfKey(s, e.key))
                                                  && (i in b.fragments ==> b.fragments[i] == FragmentsOfKey(s, e.key)[i]))
            && b.maxSeq == f.messageSeqMax && b.lastStart == e.start
            && (b.filled <==> Complete(b))
            && t.keyQueue == s.keyQueue + (if Complete(b) && !e.cancelled then [e.key] else [])
  {
    PushKeeps(s, e.key, e.fragment, e.start, e.deadline, e.cancelled);
    FilledByCount(t.buckets[e.key]);
    assert s.keyQueue + [] == s.keyQueue;
  }

  // A late push stores nothing, and hands the bucket on as it is.
  lemma {:induction false} PushTooLate(s: State, e: Event, t: State)
    requires Next(s, e, t) && e.Push? && Open(s, e.key, e.fragment) && Late(s, e.key, e.start, e.deadline)
    ensures e.key in t.buckets && t.buckets[e.key].filled && t.buckets[e.key].fragments == FragmentsOfKey(s, e.key)
    ensures t.keyQueue == s.keyQueue + (if e.cancelled then [] else [e.key])
  {
    assert s.keyQueue + [] == s.keyQueue;
  }

  // The watcher fills exactly the open buckets whose last fragment is older than the deadline,
  // and stores nothing.
  lemma {:induction false} MarkLaw(s: State, e: Event, t: State, k: Key)
    requires Next(s, e, t) && e.Mark? && k in s.buckets
    ensures k in t.buckets && t.buckets[k] == s.buckets[k].(filled := t.buckets[k].filled)
    ensures t.buckets[k].filled <==> s.buckets[k].filled || e.now - s.buckets[k].lastStart > e.deadline
    ensures k in t.pending <==> t.buckets[k].filled && !s.buckets[k].filled
  {
  }

  // ----- Runs -----

  ghost predicate CompleteAreFilled(s: State) { forall k :: k in s.buckets && Complete(s.buckets[k]) ==> s.buckets[k].filled }

  lemma {:induction false} OtherStepsKeepBuckets(s: State, e: Event, t: State, k: Key)
    requires Next(s, e, t) && !e.Push? && k in t.buckets
    ensures k in s.buckets && t.buckets[k].fragments == s.buckets[k].fragments && t.buckets[k].maxSeq == s.buckets[k].maxSeq
    ensures s.buckets[k].filled ==> t.buckets[k].filled
    ensures !e.Mark? ==> t.buckets[k] == s.buckets[k]
  {
  }

  lemma {:induction false} StepFillsComplete(s: State, e: Event, t: State)
    requires Inv(s) && Next(s, e, t) && CompleteAreFilled(s)
    ensures CompleteAreFilled(t)
  {
    forall k | k in t.buckets && Complete(t.buckets[k]) ensures t.buckets[k].filled {
      if !e.Push? {
        OtherStepsKeepBuckets(s, e, t, k);
        assert Complete(s.buckets[k]);
      } else {
        PushLeavesOthers(s, e, t);
        if k == e.key && Open(s, e.key, e.fragment) {
          if Late(s, e.key, e.start, e.deadline) { PushTooLate(s, e, t); } else { PushOnTime(s, e, t); }
        }
      }
    }
  }

  // In every run a bucket that lacks no sequence is filled.
  lemma {:induction false} CompleteIsFilled(states: seq<State>, events: seq<Event>, n: nat)
    requires Run(states, events) && n < |states|
    ensures CompleteAreFilled(states[n])
  {
    if n > 0 {
      CompleteIsFilled(states, events, n - 1);
      AlwaysHolds(states, events, n - 1);
      var e := events[n - 1];
      StepFillsComplete(states[n - 1], e, states[n]);
    }
  }

  // In every run a bucket that lacks a sequence becomes filled only by the watcher, which found
  // it too old, or by a late fragment.
  lemma {:induction false} FilledEarlyOnlyByTime(states: seq<State>, events: seq<Event>, n: nat, k: Key)
    requires Run(states, events) && n < |events|
    requires k in states[n+1].buckets && states[n+1].buckets[k].filled && !Complete(states[n+1].buckets[k])
    requires k !in states[n].buckets || !states[n].buckets[k].filled
    ensures || (events[n].Mark? && k in states[n].buckets && events[n].now - states[n].buckets[k].lastStart > events[n].deadline)
            || (events[n].Push? && events[n].key == k && Late(states[n], k, events[n].start, events[n].deadline))
  {
    var s, e, t := states[n], events[n], states[n + 1];
    AlwaysHolds(states, events, n);
    assert Next(s, e, t);
    if e.Push? {
      PushLeavesOthers(s, e, t);
      if e.key == k && Open(s, k, e.fragment) && !Late(s, k, e.start, e.deadline) { PushOnTime(s, e, t); }
    } else {
      OtherStepsKeepBuckets(s, e, t, k);
      if e.Mark? { MarkLaw(s, e, t, k); }
    }
  }

  // Keys are handed to the assembler in the order in which they were enqueued.
  lemma {:induction false} QueueIsFifo(s: State, e: Event, t: State)
    requires Next(s, e, t)
    ensures e.Pop? ==> s.keyQueue != [] && t.hand == Some(s.keyQueue[0]) && t.keyQueue == s.keyQueue[1..] && t.buckets == s.buckets
    ensures e.Send? ==> s.pending != [] && t.keyQueue == s.keyQueue + [s.pending[0]] && t.pending == s.pending[1..]
    ensures e.Drain? ==> t.keyQueue == s.keyQueue && t.hand == None
    ensures e.Drain? && s.hand.value in s.buckets ==>
      t.buckets == s.buckets - {s.hand.value} && t.drained == s.drained + [(s.hand.value, s.buckets[s.hand.value])]
  {
  }
}
