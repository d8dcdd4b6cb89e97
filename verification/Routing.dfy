/**
  Routing fragments to shards while shards are being shut down (internal/receiver/shard/
  routing.go, internal/receiver/assembler/routing.go), for a fixed routing snapshot.  Choosing
  the shard and pushing to it is one step; what a remote process answers is a parameter.
*/
module Routing {
  import opened Arith
  import opened Bytes
  import opened PayloadCodec
  import opened Options
  import opened ShardSteps

  type ID = string

  // shutdown holds the shards that were told to stop; hash is the first half of the key's digest.
  datatype Net = Net(ids: seq<ID>, shards: map<ID, State>, shutdown: set<ID>, hash: Key -> nat)

  // ----- Selection -----

  function Index(h: nat, n: nat): (i: nat)
    requires n > 0
    ensures i < n
  {
    ModInRange(h, n);
    h % n
  }

  // Primary and secondary candidate.
  function RouteSelect(key: Key, candidates: seq<ID>, hash: Key -> nat): (r: (ID, ID))
    ensures candidates != [] ==> r.0 in candidates && r.1 in candidates
    ensures candidates != [] ==> r.0 == candidates[hash(key) % |candidates|]
    ensures |candidates| > 1 && (forall i, j :: 0 <= i < j < |candidates| ==> candidates[i] != candidates[j]) ==> r.0 != r.1
  {
    var n := |candidates|;
    if n == 0 then ("", "")
    else if n == 1 then (candidates[0], candidates[0])
    else
      var i := Index(hash(key), n);
      (candidates[i], candidates[Index(i + 1, n)])
  }

  predicate IsShutdown(net: Net, id: ID) { id !in net.shards || id in net.shutdown }

  predicate BucketExists(net: Net, id: ID, key: Key) { id in net.shards && key in net.shards[id].buckets }

  // The remote process asked about a new message of a draining primary: none, the listing of
  // sockets failed, it took the fragment, or it did not (error or re-route), which may have
  // rewritten the fragment's hostname.
  datatype Remote = NoRemote | ListingFails | Takes | Declines(hostname: seq<byte>)

  // avail lists the shards that are not draining, in map order.
  datatype Arrival = Arrival(key: Key, fragment: Payload, start: int, deadline: int, cancelled: bool, avail: seq<ID>, remote: Remote)

  datatype Decision = Local(id: ID, fragment: Payload) | Elsewhere | Nowhere

  function Fallback(net: Net, secondary: ID, f: Payload): Decision {
    if secondary == "" || secondary !in net.shards then Nowhere else Local(secondary, f)
  }

  // Where a fragment goes, and with which hostname.
  function Decide(net: Net, a: Arrival): Decision {
    if a.fragment.messageSeqMax == 0 then
      if a.avail == [] then Nowhere
      else
        var id := RouteSelect(a.key, a.avail, net.hash).0;
        if id in net.shards then Local(id, a.fragment) else Nowhere
    else if a.remote.ListingFails? || net.ids == [] then Nowhere
    else
      var (primary, secondary) := RouteSelect(a.key, net.ids, net.hash);
      if !IsShutdown(net, primary) || BucketExists(net, primary, a.key) then Local(primary, a.fragment)
      else match a.remote
        case Takes => Elsewhere
        case Declines(hostname) => Fallback(net, secondary, a.fragment.(hostname := hostname))
        case _ => Fallback(net, secondary, a.fragment)
  }

  function PushTo(net: Net, id: ID, f: Payload, a: Arrival): Net
    requires id in net.shards
  {
    net.(shards := net.shards[id := Pushed(net.shards[id], a.key, f, a.start, a.deadline, a.cancelled)])
  }

  function Routed(net: Net, a: Arrival): Net {
    match Decide(net, a)
    case Local(id, f) => PushTo(net, id, f, a)
    case _ => net
  }

  // A fragment of a larger message whose primary is there and was not told to stop.
  predicate ActivePrimary(net: Net, a: Arrival) {
    var primary := RouteSelect(a.key, net.ids, net.hash).0;
    a.fragment.messageSeqMax != 0 && !a.remote.ListingFails? && net.ids != [] && primary in net.shards && primary !in net.shutdown
  }

  // One whose primary was told to stop and has no bucket for it, that no remote process takes,
  // and whose secondary is there.
  predicate FallsBack(net: Net, a: Arrival) {
    var (primary, secondary) := RouteSelect(a.key, net.ids, net.hash);
    && a.fragment.messageSeqMax != 0 && net.ids != [] && (a.remote.NoRemote? || a.remote.Declines?)
    && primary in net.shards && primary in net.shutdown && a.key !in net.shards[primary].buckets
    && secondary in net.shards && secondary != ""
  }

  function FallbackFragment(a: Arrival): Payload {
    if a.remote.Declines? then a.fragment.(hostname := a.remote.hostname) else a.fragment
  }

  // RouteFragment, with its bounded retries.
  method RouteFragment(net: Net, a: Arrival) returns (after: Net, success: bool)
    ensures after == Routed(net, a) && success == !Decide(net, a).Nowhere?
    ensures ActivePrimary(net, a) ==> success && after == PushTo(net, RouteSelect(a.key, net.ids, net.hash).0, a.fragment, a)
    ensures FallsBack(net, a) ==> success && after == PushTo(net, RouteSelect(a.key, net.ids, net.hash).1, FallbackFragment(a), a)
  {
    after := net;
    if a.fragment.messageSeqMax == 0 {
      if |a.avail| == 0 {
        return after, false;
      }
      var id := a.avail[0];
      if |a.avail| > 1 {
        id := RouteSelect(a.key, a.avail, net.hash).0;
      }
      if id !in net.shards {
        return after, false;
      }
      return PushTo(net, id, a.fragment, a), true;
    }
    if a.remote.ListingFails? {
      return after, false;
    }
    var remote, f := a.remote, a.fragment;
    for tries := 0 to 3
      invariant remote == (if tries == 0 then a.remote else NoRemote) && (tries == 0 ==> f == a.fragment)
      invariant tries > 0 ==> Decide(net, a) == Fallback(net, RouteSelect(a.key, net.ids, net.hash).1, f)
      invariant tries > 0 ==> IsShutdown(net, RouteSelect(a.key, net.ids, net.hash).0) && !BucketExists(net, RouteSelect(a.key, net.ids, net.hash).0, a.key)
      invariant tries > 1 ==> RouteSelect(a.key, net.ids, net.hash).1 !in net.shards
    {
      if |net.ids| == 0 {
        return after, false;
      }
      var (primary, secondary) := RouteSelect(a.key, net.ids, net.hash);
      if !IsShutdown(net, primary) {
        return PushTo(net, primary, f, a), true;
      }
      if BucketExists(net, primary, a.key) {
        return PushTo(net, primary, f, a), true;
      }
      if remote.Takes? {
        return after, true;
      }
      if remote.Declines? {
        f := f.(hostname := remote.hostname);
        remote := NoRemote;
        continue;
      }
      remote := NoRemote;
      if secondary == "" {
        return after, false;
      }
      if secondary in net.shards {
        return PushTo(net, secondary, f, a), true;
      }
    }
    return after, false;
  }

  // ----- Runs -----

  datatype Event = Route(arrival: Arrival) | Shutdown(id: ID) | Inside(shard: ID, event: ShardSteps.Event)

  // Inside a shard everything but pushing happens by itself.
  ghost predicate NetNext(a: Net, e: Event, b: Net) {
    match e
    case Route(arrival) => Sequenced(arrival.fragment) && b == Routed(a, arrival)
    case Shutdown(id) => b == a.(shutdown := a.shutdown + {id})
    case Inside(id, event) =>
      !event.Push? && id in a.shards && id in b.shards && Next(a.shards[id], event, b.shards[id]) && b == a.(shards := a.shards[id := b.shards[id]])
  }

  ghost predicate NetRun(nets: seq<Net>, events: seq<Event>) {
    && |nets| == |events| + 1
    && (forall id :: id in nets[0].shards ==> nets[0].shards[id] == Start)
    && forall i {:trigger events[i]} :: 0 <= i < |events| ==> NetNext(nets[i], events[i], nets[i + 1])
  }

  // All fragments under key belong to a message of several fragments.
  ghost predicate Fragmented(events: seq<Event>, key: Key) {
    forall i {:trigger events[i]} :: 0 <= i < |events| && events[i].Route? && events[i].arrival.key == key ==> events[i].arrival.fragment.messageSeqMax > 0
  }

  // ----- One live bucket -----

  // The bucket is with the primary, or with the secondary once the primary is shut down
  // without it.
  predicate Placed(net: Net, key: Key) {
    var (primary, secondary) := RouteSelect(key, net.ids, net.hash);
    forall id :: id in net.shards && key in net.shards[id].buckets ==>
      id == primary || (id == secondary && IsShutdown(net, primary) && !BucketExists(net, primary, key))
  }

  // Only a push of key makes a bucket for it.
  lemma {:induction false} OnlyPushCreates(s: State, e: ShardSteps.Event, t: State, key: Key)
    requires Next(s, e, t) && !e.Push? && key in t.buckets
    ensures key in s.buckets
  {
  }

  lemma {:induction false} PushCreatesOnlyItsKey(s: State, key: Key, f: Payload, start: int, deadline: int, cancelled: bool, k: Key)
    requires k in Pushed(s, key, f, start, deadline, cancelled).buckets && k != key
    ensures k in s.buckets
  {
  }

  lemma {:induction false} RouteKeepsPlaced(net: Net, a: Arrival, key: Key)
    requires Placed(net, key) && (a.key == key ==> a.fragment.messageSeqMax > 0)
    ensures Placed(Routed(net, a), key)
  {
    var after := Routed(net, a);
    var (primary, secondary) := RouteSelect(key, net.ids, net.hash);
    var d := Decide(net, a);
    if d.Local? {
      forall id | id in after.shards && key in after.shards[id].buckets
        ensures id == primary || (id == secondary && IsShutdown(after, primary) && !BucketExists(after, primary, key))
      {
        PlacedAfterPush(net, a, key, d.id, d.fragment, id);
      }
    }
  }

  lemma {:induction false} PlacedAfterPush(net: Net, a: Arrival, key: Key, t: ID, f: Payload, id: ID)
    requires Placed(net, key) && t in net.shards && Decide(net, a) == Local(t, f)
    requires a.key == key ==> a.fragment.messageSeqMax > 0
    requires id in net.shards && key in PushTo(net, t, f, a).shards[id].buckets
    ensures var (primary, secondary) := RouteSelect(key, net.ids, net.hash);
            id == primary || (id == secondary && IsShutdown(net, primary) && !BucketExists(PushTo(net, t, f, a), primary, key))
  {
    var (primary, secondary) := RouteSelect(key, net.ids, net.hash);
    if a.key != key {
      if t == id { PushCreatesOnlyItsKey(net.shards[t], a.key, f, a.start, a.deadline, a.cancelled, key); }
      if primary in net.shards && primary == t && BucketExists(PushTo(net, t, f, a), primary, key) {
        PushCreatesOnlyItsKey(net.shards[t], a.key, f, a.start, a.deadline, a.cancelled, key);
      }
    }
  }

  lemma {:induction false} StepKeepsPlaced(a: Net, e: Event, b: Net, key: Key)
    requires NetNext(a, e, b) && Placed(a, key)
    requires e.Route? && e.arrival.key == key ==> e.arrival.fragment.messageSeqMax > 0
    ensures Placed(b, key)
  {
    match e
    case Route(arrival) => RouteKeepsPlaced(a, arrival, key);
    case Shutdown(id) =>
    case Inside(shard, event) =>
      if key in b.shards[shard].buckets { OnlyPushCreates(a.shards[shard], event, b.shards[shard], key); }
  }

  lemma {:induction false} AlwaysPlaced(nets: seq<Net>, events: seq<Event>, key: Key, i: nat)
    requires NetRun(nets, events) && Fragmented(events, key) && i < |nets|
    ensures Placed(nets[i], key)
  {
    if i > 0 {
      AlwaysPlaced(nets, events, key, i - 1);
      var e := events[i - 1];
      StepKeepsPlaced(nets[i - 1], e, nets[i], key);
    }
  }

  // A message of several fragments never has live buckets in two shards, however shutdowns,
  // timeouts and drains interleave with its fragments.
  lemma {:induction false} OneLiveBucket(nets: seq<Net>, events: seq<Event>, key: Key, i: nat, x: ID, y: ID)
    requires NetRun(nets, events) && Fragmented(events, key) && i < |nets|
    requires BucketExists(nets[i], x, key) && BucketExists(nets[i], y, key)
    ensures x == y
  {
    AlwaysPlaced(nets, events, key, i);
  }

  // ----- Shutdown -----

  // A shard told to stop stays so.
  lemma {:induction false} ShutdownLasts(nets: seq<Net>, events: seq<Event>, id: ID, i: nat, j: nat)
    requires NetRun(nets, events) && i < |events| && events[i] == Shutdown(id) && i < j < |nets|
    ensures id in nets[j].shutdown
    decreases j
  {
    if j > i + 1 { ShutdownLasts(nets, events, id, i, j - 1); }
    var e := events[j - 1];
    assert NetNext(nets[j - 1], e, nets[j]);
  }

  lemma {:induction false} ShapeStays(a: Net, e: Event, b: Net)
    requires NetNext(a, e, b)
    ensures b.ids == a.ids && b.hash == a.hash && b.shards.Keys == a.shards.Keys && a.shutdown <= b.shutdown
  {
  }

  // A push that opens a bucket goes to a shard that was not told to stop, or to the secondary.
  lemma {:induction false} OpensWhereActive(a: Net, e: Event, b: Net, key: Key, id: ID)
    requires NetNext(a, e, b) && (e.Route? && e.arrival.key == key ==> e.arrival.fragment.messageSeqMax > 0)
    requires BucketExists(b, id, key) && !BucketExists(a, id, key)
    ensures id !in a.shutdown || id == RouteSelect(key, a.ids, a.hash).1
  {
    match e
    case Route(arrival) =>
      var d := Decide(a, arrival);
      if d.Local? && d.id == id && arrival.key != key {
        PushCreatesOnlyItsKey(a.shards[id], arrival.key, d.fragment, arrival.start, arrival.deadline, arrival.cancelled, key);
      }
    case Shutdown(_) =>
    case Inside(shard, event) =>
      if shard == id { OnlyPushCreates(a.shards[shard], event, b.shards[shard], key); }
  }

  // In every run, a shard that was told to stop gets no new message of several fragments, unless
  // it is the secondary of a primary that stopped as well.
  lemma {:induction false} NoNewMessageAfterShutdown(nets: seq<Net>, events: seq<Event>, key: Key, i: nat, id: ID)
    requires NetRun(nets, events) && Fragmented(events, key) && i < |events|
    requires BucketExists(nets[i+1], id, key) && !BucketExists(nets[i], id, key)
    ensures var (primary, secondary) := RouteSelect(key, nets[i].ids, nets[i].hash);
            && (secondary !in nets[i].shutdown ==> id !in nets[i].shutdown)
            && (id in nets[i].shutdown ==> id == secondary && (primary in nets[i].shutdown || primary !in nets[i].shards))
  {
    var e := events[i];
    assert NetNext(nets[i], e, nets[i+1]);
    OpensWhereActive(nets[i], e, nets[i+1], key, id);
    if id in nets[i].shutdown { SecondaryOnlyAfterPrimary(nets[i], e, nets[i+1], key, id); }
  }

  lemma {:induction false} SecondaryOnlyAfterPrimary(a: Net, e: Event, b: Net, key: Key, id: ID)
    requires NetNext(a, e, b) && (e.Route? && e.arrival.key == key ==> e.arrival.fragment.messageSeqMax > 0)
    requires BucketExists(b, id, key) && !BucketExists(a, id, key) && id in a.shutdown
    ensures var primary := RouteSelect(key, a.ids, a.hash).0; primary in a.shutdown || primary !in a.shards
  {
    match e
    case Route(arrival) =>
      var d := Decide(a, arrival);
      if d.Local? && d.id == id && arrival.key != key {
        PushCreatesOnlyItsKey(a.shards[id], arrival.key, d.fragment, arrival.start, arrival.deadline, arrival.cancelled, key);
      }
    case Shutdown(_) =>
    case Inside(shard, event) =>
      if shard == id { OnlyPushCreates(a.shards[shard], event, b.shards[shard], key); }
  }

  // A message of one fragment goes only to a shard that is listed as not draining.
  lemma {:induction false} SingleFragmentGoesToListed(net: Net, a: Arrival)
    requires a.fragment.messageSeqMax == 0 && Decide(net, a).Local?
    ensures Decide(net, a).id in a.avail && Decide(net, a).fragment == a.fragment
  {
  }
}
