/**
  The shard as an object: each method performs a step of the shard machine on the fields, and
  the worker drains one bucket into a message.
*/
module ShardQueue {
  import opened Atomics
  import opened Options
  import opened ContextFields
  import opened PayloadCodec
  import opened Fragmentation
  import opened Reassembly
  import opened ShardSteps
  import opened ShardAssembly

  class Shard {
    var buckets: map<Key, Bucket>
    var keyQueue: seq<Key>
    var totalBuckets: nat
    var locked: bool
    var fatal: bool
    // Where keys are between the queue's operations, and what has happened so far.
    ghost var pending: seq<Key>
    ghost var hand: Option<Key>
    ghost var dropped: set<Key>
    ghost var drained: seq<(Key, Bucket)>
    ghost var created: nat

    ghost function View(): State
      reads this
    {
      State(buckets, keyQueue, totalBuckets, pending, hand, dropped, drained, created, fatal)
    }

    ghost predicate Valid()
      reads this
    {
      !locked && Inv(View())
    }

    constructor ()
      ensures View() == Start && Valid()
    {
      buckets, keyQueue, totalBuckets, locked, fatal := map[], [], 0, false, false;
      pending, hand, dropped, drained, created := [], None, {}, [], 0;
    }

    // sync.Mutex.Unlock is fatal on an unlocked mutex.
    method Unlock()
      modifies this`locked, this`fatal
      ensures !locked && fatal == (old(fatal) || !old(locked))
    {
      if !locked { fatal := true; }
      locked := false;
    }

    // The select between the key channel and a cancelled context.
    method Enqueue(key: Key, cancelled: bool)
      modifies this`keyQueue, this`dropped
      ensures keyQueue == if cancelled then old(keyQueue) else old(keyQueue) + [key]
      ensures dropped == if cancelled then old(dropped) + {key} else old(dropped)
    {
      if cancelled {
        dropped := dropped + {key};
      } else {
        keyQueue := keyQueue + [key];
      }
    }

    method Push(key: Key, f: Payload, start: int, deadline: int, cancelled: bool)
      requires Valid() && Sequenced(f)
      modifies this
      ensures View() == Pushed(old(View()), key, f, start, deadline, cancelled) && Valid()
    {
      PushKeeps(View(), key, f, start, deadline, cancelled);
      locked := true;
      PushLocked(key, f, start, deadline, cancelled);
      Unlock();
    }

    // The critical section of push.
    method PushLocked(key: Key, f: Payload, start: int, deadline: int, cancelled: bool)
      modifies this`buckets, this`keyQueue, this`dropped, this`totalBuckets, this`created
      ensures View() == Pushed(old(View()), key, f, start, deadline, cancelled)
    {
      ghost var s := View();
      var bucket: Bucket;
      if key !in buckets {
        bucket := Bucket(false, map[], f.messageSeqMax, 0);
        buckets := buckets[key := bucket];
        totalBuckets := totalBuckets + 1;
        created := created + 1;
        s := s.(totalBuckets := s.totalBuckets + 1, created := s.created + 1);
        StoreOverwrites(s, key, bucket, f, start, deadline, cancelled);
      } else {
        bucket := buckets[key];
        if bucket.filled || bucket.maxSeq != f.messageSeqMax {
          return;
        }
      }
      StoreFragment(key, bucket, f, start, deadline, cancelled);
    }

    // The rest of push, once the bucket is known to be open.
    method StoreFragment(key: Key, current: Bucket, f: Payload, start: int, deadline: int, cancelled: bool)
      modifies this`buckets, this`keyQueue, this`dropped
      ensures View() == Store(old(View()), key, current, f, start, deadline, cancelled)
    {
      var bucket := current;
      var elapsed := if bucket.lastStart <= 0 then 0 else start - bucket.lastStart;
      if elapsed > deadline {
        buckets := buckets[key := bucket.(filled := true)];
        Enqueue(key, cancelled);
        return;
      }
      bucket := bucket.(lastStart := start);
      bucket := bucket.(fragments := bucket.fragments[f.messageSeq := f]);
      if |bucket.fragments| == bucket.maxSeq + 1 {
        bucket := bucket.(filled := true);
        buckets := buckets[key := bucket];
        Enqueue(key, cancelled);
      } else {
        buckets := buckets[key := bucket];
      }
    }

    // Blocks while the queue is empty, until the context is cancelled.
    method PopKey(cancelled: bool) returns (key: Key, ok: bool)
      requires Valid() && hand.None? && (keyQueue != [] || cancelled)
      modifies this
      ensures ok == !cancelled && Valid()
      ensures ok ==> Next(old(View()), Pop, View()) && hand == Some(key)
      ensures !ok ==> View() == old(View())
    {
      if cancelled {
        return "", false;
      }
      ghost var before := View();
      key, ok := keyQueue[0], true;
      keyQueue := keyQueue[1..];
      hand := Some(key);
      StepKeeps(before, Pop, View());
    }

    // The missing-key path unlocks twice.
    method DrainBucket(key: Key) returns (bucket: Bucket, notExist: bool)
      requires !locked
      modifies this
      ensures View() == Drained(old(View()), key) && !locked
      ensures notExist == (key !in old(buckets)) && (notExist ==> fatal)
      ensures !notExist ==> bucket == old(buckets)[key]
    {
      locked, hand := true, None;
      if key !in buckets {
        Unlock();
        Unlock();
        return Bucket(false, map[], 0, 0), true;
      }
      bucket, notExist := buckets[key], false;
      buckets := buckets - {key};
      drained := drained + [(key, bucket)];
      totalBuckets := Monus(totalBuckets, 1);
      Unlock();
    }

    // The watcher's pass over the buckets, under the lock.
    method MarkExpired(now: int, deadline: int) returns (keysToSend: seq<Key>)
      requires Valid() && pending == []
      modifies this
      ensures Next(old(View()), Mark(keysToSend, now, deadline), View()) && Valid() && pending == keysToSend
    {
      ghost var before := View();
      locked := true;
      keysToSend := FillExpired(now, deadline);
      Unlock();
      pending := keysToSend;
      StepKeeps(before, Mark(keysToSend, now, deadline), View());
    }

    method FillExpired(now: int, deadline: int) returns (keys: seq<Key>)
      modifies this`buckets
      ensures Distinct(keys) && forall k :: k in keys <==> k in old(buckets) && Expired(old(buckets)[k], now, deadline)
      ensures buckets == Fill(old(buckets), keys)
    {
      keys := [];
      var rest := buckets.Keys;
      while rest != {}
        invariant rest <= old(buckets).Keys && Distinct(keys) && buckets == Fill(old(buckets), keys)
        invariant forall k :: k in keys <==> k in old(buckets) && k !in rest && Expired(old(buckets)[k], now, deadline)
      {
        var k :| k in rest;
        rest := rest - {k};
        if !buckets[k].filled && now - buckets[k].lastStart > deadline {
          FillOneMore(old(buckets), keys, k);
          buckets := buckets[k := buckets[k].(filled := true)];
          keys := keys + [k];
        }
      }
    }

    method SendOne(key: Key)
      requires Valid() && pending != [] && pending[0] == key
      modifies this`keyQueue, this`pending
      ensures Next(old(View()), Send, View()) && Valid()
    {
      ghost var before := View();
      keyQueue := keyQueue + [key];
      pending := pending[1..];
      StepKeeps(before, Send, View());
    }

    ghost method DropRest()
      requires Valid() && pending != []
      modifies this`dropped, this`pending
      ensures Next(old(View()), GiveUp, View()) && Valid()
    {
      ghost var before := View();
      dropped := dropped + set k | k in pending;
      pending := [];
      StepKeeps(before, GiveUp, View());
    }

    // The watcher's sends; cancelledAt(i) is whether the context is found cancelled at the i-th.
    method SendMarked(keysToSend: seq<Key>, cancelledAt: nat -> bool) returns (sent: nat)
      requires Valid() && pending == keysToSend
      modifies this
      ensures Valid() && sent <= |keysToSend|
      ensures View() == old(View()).(pending := [], keyQueue := old(keyQueue) + keysToSend[..sent], dropped := old(dropped) + set k | k in keysToSend[sent..])
      ensures sent < |keysToSend| ==> cancelledAt(sent)
      ensures forall i :: 0 <= i < sent ==> !cancelledAt(i)
    {
      sent := 0;
      while sent < |keysToSend|
        invariant 0 <= sent <= |keysToSend| && Valid()
        invariant View() == old(View()).(pending := keysToSend[sent..], keyQueue := old(keyQueue) + keysToSend[..sent])
        invariant forall i :: 0 <= i < sent ==> !cancelledAt(i)
      {
        if cancelledAt(sent) {
          DropRest();
          return;
        }
        MoveOne(old(keyQueue), keysToSend, sent);
        SendOne(keysToSend[sent]);
        sent := sent + 1;
      }
      assert keysToSend[|keysToSend|..] == [];
    }

    // One round of the assembler.
    method AssembleOne(cancelled: bool) returns (message: Checked<Payload>, ghost bucket: Bucket, ghost listed: seq<Payload>, worked: bool)
      requires Valid() && hand.None? && (keyQueue != [] || cancelled)
      modifies this
      ensures Valid() && hand.None? && worked == !cancelled
      ensures worked ==> drained == old(drained) + [(old(keyQueue)[0], bucket)] && bucket.filled && BucketOk(bucket)
      ensures worked ==> Lists(listed, bucket.fragments) && Defragments(listed, message)
    {
      message, listed, bucket, worked := Invalid(InvalidPayload), [], Bucket(false, map[], 0, 0), false;
      var key, ok := PopKey(cancelled);
      if !ok {
        return;
      }
      ghost var popped := View();
      DrainKeeps(popped);
      var b, notExist := DrainBucket(key);
      var list := ListFragments(b.fragments);
      forall i | 0 <= i < |list| ensures list[i].messageSeq >= 0 {
        assert list[i].messageSeq in b.fragments;
      }
      var m := Defragment(list);
      message, bucket, listed, worked := m, b, list, true;
    }
  }

  lemma {:induction false} MoveOne(queue: seq<Key>, keys: seq<Key>, n: nat)
    requires n < |keys|
    ensures keys[n..] != [] && keys[n..][0] == keys[n] && keys[n..][1..] == keys[n+1..]
    ensures queue + keys[..n] + [keys[n]] == queue + keys[..n+1]
  {
  }

  lemma {:induction false} FillOneMore(m: map<Key, Bucket>, keys: seq<Key>, k: Key)
    requires k in m && k !in keys
    ensures Fill(m, keys + [k]) == Fill(m, keys)[k := m[k].(filled := true)] && Fill(m, keys)[k] == m[k]
  {
  }

  // Inserting a bucket and storing into it is one update of the map.
  lemma {:induction false} StoreOverwrites(s: State, key: Key, b: Bucket, f: Payload, start: int, deadline: int, cancelled: bool)
    ensures Store(s.(buckets := s.buckets[key := b]), key, b, f, start, deadline, cancelled) == Store(s, key, b, f, start, deadline, cancelled)
  {
    var late, stored := b.(filled := true), b.(lastStart := start, fragments := b.fragments[f.messageSeq := f]);
    var m := s.buckets[key := b];
    assert m[key := late] == s.buckets[key := late] && m[key := stored] == s.buckets[key := stored];
    assert m[key := stored.(filled := true)] == s.buckets[key := stored.(filled := true)];
  }

  // The fragments in map order.
  method ListFragments(m: map<int, Payload>) returns (ps: seq<Payload>)
    requires forall i :: i in m ==> m[i].messageSeq == i
    ensures Lists(ps, m)
  {
    ps := [];
    var rest := m.Keys;
    while exists k :: k in rest
      invariant rest <= m.Keys && DistinctSeqs(ps)
      invariant forall i {:trigger ps[i]} :: 0 <= i < |ps| ==> ps[i].messageSeq in m && ps[i].messageSeq !in rest && m[ps[i].messageSeq] == ps[i]
      invariant forall k :: k in m && k !in rest ==> Has(ps, k)
      decreases rest
    {
      var k :| k in rest;
      rest := rest - {k};
      ghost var before := ps;
      ps := ps + [m[k]];
      assert ps[|ps|-1].messageSeq == k;
      forall j | j in m && j !in rest ensures Has(ps, j) {
        if j != k {
          assert Has(before, j);
          var i :| 0 <= i < |before| && before[i].messageSeq == j;
          assert ps[i].messageSeq == j;
        }
      }
    }
  }
}
