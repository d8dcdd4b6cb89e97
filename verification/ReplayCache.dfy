/**
  Replay protection (internal/receiver/listener/replayprotection.go): a sharded map of first
  uses, cleaned from time to time, against one map that is never cleaned.  The hash of a key and
  the clock are parameters.
*/
module ReplayCache {
  import opened Arith

  type Key = seq<int>
  type Store = map<Key, int>

  datatype Config = Config(ttl: int, hash: Key -> nat, numShards: nat)

  datatype Op = Query(key: Key, now: int) | Clean(shard: nat, now: int)

  // ----- One map, never cleaned -----

  predicate Recent(store: Store, key: Key, now: int, ttl: int) { key in store && now - store[key] < ttl }

  function Seen(store: Store, key: Key, now: int, ttl: int): Store {
    if Recent(store, key, now, ttl) then store else store[key := now]
  }

  function PlainAfter(c: Config, ops: seq<Op>): Store {
    if ops == [] then map[]
    else
      var store := PlainAfter(c, ops[..|ops|-1]);
      match ops[|ops|-1]
      case Query(key, now) => Seen(store, key, now, c.ttl)
      case Clean(_, _) => store
  }

  // ----- The sharded cache -----

  function ShardOf(c: Config, key: Key): nat
    requires c.numShards > 0
  {
    c.hash(key) % c.numShards
  }

  function Cleaned(store: Store, now: int, ttl: int): Store { map k | k in store && now - store[k] < ttl :: store[k] }

  function CacheStep(c: Config, shards: seq<Store>, op: Op): (r: seq<Store>)
    requires c.numShards > 0 && |shards| == c.numShards
    ensures |r| == |shards|
  {
    match op
    case Query(key, now) =>
      ModInRange(c.hash(key), c.numShards);
      var i := ShardOf(c, key);
      shards[i := Seen(shards[i], key, now, c.ttl)]
    case Clean(i, now) => if i < |shards| then shards[i := Cleaned(shards[i], now, c.ttl)] else shards
  }

  function CacheAfter(c: Config, ops: seq<Op>): (r: seq<Store>)
    requires c.numShards > 0
    ensures |r| == c.numShards
  {
    if ops == [] then seq(c.numShards, _ => map[]) else CacheStep(c, CacheAfter(c, ops[..|ops|-1]), ops[|ops|-1])
  }

  // The cache's answer to the i-th operation.
  predicate Replayed(c: Config, ops: seq<Op>, i: nat)
    requires c.numShards > 0 && i < |ops| && ops[i].Query?
  {
    Recent(CacheAfter(c, ops[..i])[ShardOf(c, ops[i].key)], ops[i].key, ops[i].now, c.ttl)
  }

  // ----- Agreement -----

  // The clock never goes back.
  predicate Forward(ops: seq<Op>) { forall i, j :: 0 <= i < j < |ops| ==> ops[i].now <= ops[j].now }

  // What the shard has is what the map has; what it lacks is missing there too, or expired.
  predicate Agrees(shard: Store, plain: Store, key: Key, now: int, ttl: int) {
    if key in shard then key in plain && plain[key] == shard[key] else key in plain ==> now - plain[key] >= ttl
  }

  lemma {:induction false} AgreesAfterQuery(shard: Store, plain: Store, key: Key, k: Key, now: int, later: int, ttl: int)
    requires Agrees(shard, plain, k, now, ttl) && Agrees(shard, plain, key, now, ttl) && now <= later
    ensures Recent(shard, k, later, ttl) == Recent(plain, k, later, ttl)
    ensures Agrees(Seen(shard, k, later, ttl), Seen(plain, k, later, ttl), key, later, ttl)
  {
  }

  ghost predicate AllAgree(c: Config, shards: seq<Store>, plain: Store, now: int)
    requires c.numShards > 0 && |shards| == c.numShards
  {
    forall key :: Agrees(shards[ShardOf(c, key)], plain, key, now, c.ttl)
  }

  lemma {:induction false} StepAgrees(c: Config, shards: seq<Store>, plain: Store, now: int, op: Op, key: Key)
    requires c.numShards > 0 && |shards| == c.numShards && AllAgree(c, shards, plain, now) && now <= op.now
    ensures var after := if op.Query? then Seen(plain, op.key, op.now, c.ttl) else plain;
            Agrees(CacheStep(c, shards, op)[ShardOf(c, key)], after, key, op.now, c.ttl)
  {
    assert Agrees(shards[ShardOf(c, key)], plain, key, now, c.ttl);
    if op.Query? {
      assert Agrees(shards[ShardOf(c, op.key)], plain, op.key, now, c.ttl);
      ModInRange(c.hash(op.key), c.numShards);
      if ShardOf(c, key) == ShardOf(c, op.key) {
        AgreesAfterQuery(shards[ShardOf(c, key)], plain, key, op.key, now, op.now, c.ttl);
      }
    }
  }

  lemma {:induction false} AlwaysAgree(c: Config, ops: seq<Op>, now: int)
    requires c.numShards > 0 && Forward(ops) && forall i :: 0 <= i < |ops| ==> ops[i].now <= now
    ensures AllAgree(c, CacheAfter(c, ops), PlainAfter(c, ops), now)
  {
    if ops != [] {
      var init, op := ops[..|ops|-1], ops[|ops|-1];
      AlwaysAgree(c, init, op.now);
      forall key ensures Agrees(CacheAfter(c, ops)[ShardOf(c, key)], PlainAfter(c, ops), key, now, c.ttl) {
        StepAgrees(c, CacheAfter(c, init), PlainAfter(c, init), op.now, op, key);
      }
    }
  }

  // Sharding and cleaning change no answer.
  lemma {:induction false} AnswersLikePlainMap(c: Config, ops: seq<Op>, i: nat)
    requires c.numShards > 0 && Forward(ops) && i < |ops| && ops[i].Query?
    ensures Replayed(c, ops, i) <==> Recent(PlainAfter(c, ops[..i]), ops[i].key, ops[i].now, c.ttl)
  {
    var before := ops[..i];
    AlwaysAgree(c, before, ops[i].now);
    var key := ops[i].key;
    assert Agrees(CacheAfter(c, before)[ShardOf(c, key)], PlainAfter(c, before), key, ops[i].now, c.ttl);
  }

  // ----- What the answers mean -----

  predicate Accepted(c: Config, ops: seq<Op>, i: nat, key: Key)
    requires c.numShards > 0 && i < |ops|
  {
    ops[i].Query? && ops[i].key == key && !Replayed(c, ops, i)
  }

  // The plain map holds, for each key, its last accepted use.
  lemma {:induction false} LastAccepted(c: Config, ops: seq<Op>, n: nat, key: Key)
    requires c.numShards > 0 && Forward(ops) && n <= |ops|
    ensures var store := PlainAfter(c, ops[..n]);
            && (key in store ==> exists j :: 0 <= j < n && Accepted(c, ops, j, key) && ops[j].now == store[key])
            && (forall j :: 0 <= j < n && Accepted(c, ops, j, key) ==> key in store && ops[j].now <= store[key])
  {
    if n > 0 {
      LastAccepted(c, ops, n - 1, key);
      var before := PlainAfter(c, ops[..n-1]);
      var op := ops[n-1];
      assert ops[..n][..n-1] == ops[..n-1] && ops[..n][n-1] == op;
      if op.Query? && op.key == key {
        AnswersLikePlainMap(c, ops, n - 1);
        if !Replayed(c, ops, n - 1) {
          assert Accepted(c, ops, n - 1, key);
          assert PlainAfter(c, ops[..n])[key] == op.now;
        }
      }
    }
  }

  // A key is refused exactly when it was accepted less than ttl seconds ago.
  lemma {:induction false} ReplayedIffRecentlyAccepted(c: Config, ops: seq<Op>, i: nat)
    requires c.numShards > 0 && Forward(ops) && i < |ops| && ops[i].Query?
    ensures Replayed(c, ops, i) <==> exists j :: 0 <= j < i && Accepted(c, ops, j, ops[i].key) && ops[i].now - ops[j].now < c.ttl
  {
    AnswersLikePlainMap(c, ops, i);
    LastAccepted(c, ops, i, ops[i].key);
  }

  // Two accepted uses of a key are at least ttl seconds apart.
  lemma {:induction false} AcceptedUsesAreApart(c: Config, ops: seq<Op>, i: nat, j: nat, key: Key)
    requires c.numShards > 0 && Forward(ops) && i < j < |ops| && Accepted(c, ops, i, key) && Accepted(c, ops, j, key)
    ensures ops[j].now - ops[i].now >= c.ttl
  {
    ReplayedIffRecentlyAccepted(c, ops, j);
  }

  // ----- The cache itself -----

  class Cache {
    const config: Config
    var shards: seq<Store>

    ghost predicate Valid()
      reads this
    {
      config.numShards > 0 && |shards| == config.numShards
    }

    constructor (numShards: nat, ttl: int, hash: Key -> nat)
      requires numShards > 0
      ensures Valid() && config == Config(ttl, hash, numShards) && shards == CacheAfter(config, [])
    {
      config := Config(ttl, hash, numShards);
      shards := seq(numShards, _ => map[]);
    }

    method IsReplayed(key: Key, now: int) returns (replay: bool)
      requires Valid()
      modifies this
      ensures Valid() && shards == CacheStep(config, old(shards), Query(key, now))
      ensures replay <==> Recent(old(shards)[ShardOf(config, key)], key, now, config.ttl)
    {
      ModInRange(config.hash(key), config.numShards);
      var i := config.hash(key) % config.numShards;
      var store := shards[i];
      if key in store && now - store[key] < config.ttl {
        assert shards == shards[i := store];
        return true;
      }
      shards := shards[i := store[key := now]];
      return false;
    }

    method CleanupShard(i: nat, now: int)
      requires Valid() && i < |shards|
      modifies this
      ensures Valid() && shards == CacheStep(config, old(shards), Clean(i, now))
      ensures forall k :: k in shards[i] <==> k in old(shards)[i] && now - old(shards)[i][k] < config.ttl
      ensures forall k :: k in shards[i] ==> shards[i][k] == old(shards)[i][k]
    {
      var rest := shards[i].Keys;
      ghost var store := shards[i];
      while rest != {}
        invariant Valid() && rest <= store.Keys && shards == old(shards)[i := shards[i]]
        invariant shards[i] == map k | k in store && (k in rest || now - store[k] < config.ttl) :: store[k]
      {
        var k :| k in rest;
        rest := rest - {k};
        if now - shards[i][k] >= config.ttl {
          shards := shards[i := shards[i] - {k}];
        }
      }
      assert shards[i] == Cleaned(store, now, config.ttl);
    }

    // One tick of the cleanup loop; at(i) is the clock when shard i is cleaned.
    method Cleanup(at: nat -> int)
      requires Valid()
      modifies this
      ensures Valid() && forall i :: 0 <= i < |shards| ==> shards[i] == Cleaned(old(shards)[i], at(i), config.ttl)
    {
      for i := 0 to |shards|
        invariant Valid()
        invariant forall j :: 0 <= j < |shards| ==> shards[j] == if j < i then Cleaned(old(shards)[j], at(j), config.ttl) else old(shards)[j]
      {
        CleanupShard(i, at(i));
      }
    }
  }
}
