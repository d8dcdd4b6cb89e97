/**
  The queue container of internal/queue/mpmc/entry.go at operation granularity: a ring
  instance for producers, a ring instance for consumers, and a resize that swaps the
  former and lets consumers drain the latter.  `View` is the abstract queue; the classes
  are proved to move it as the functions on views say, and the properties are proved of
  those functions.
*/
module MpmcQueue {
  import opened Arith
  import opened Scaling
  import opened Options

  // ----- The abstract queue -----

  // Settled: producers and consumers share one instance.
  // Migrating: consumers drain `old`, producers fill `fresh`; signal: the migrate channel holds a token.
  datatype View<T> =
    | Settled(items: seq<T>, capacity: nat)
    | Migrating(old_: seq<T>, fresh_: seq<T>, capacity: nat, signal: bool)
  {
    function Contents(): seq<T> {
      match this
      case Settled(items, _) => items
      case Migrating(o, f, _, _) => o + f
    }
    // The part that producers append to.
    function Writing(): seq<T> { if Settled? then items else fresh_ }
  }

  ghost predicate Coherent<T>(q: View<T>) {
    |q.Writing()| <= q.capacity && (q.Migrating? && q.signal ==> q.old_ == [])
  }

  function PushView<T>(q: View<T>, v: T): (r: (View<T>, bool))
  {
    if |q.Writing()| >= q.capacity then (q, false)
    else if q.Settled? then (q.(items := q.items + [v]), true)
    else (q.(fresh_ := q.fresh_ + [v]), true)
  }

  // None: the consumer blocks until woken or cancelled.
  function PopSettled<T>(items: seq<T>, capacity: nat): (r: (View<T>, Option<T>))
  {
    if items == [] then (Settled(items, capacity), None) else (Settled(items[1..], capacity), Some(items[0]))
  }

  // A drained instance whose signal is up is left behind.
  function PopView<T>(q: View<T>): (r: (View<T>, Option<T>))
  {
    match q
    case Settled(items, capacity) => PopSettled(items, capacity)
    case Migrating(o, f, capacity, signal) =>
      if o != [] then (q.(old_ := o[1..], signal := signal || |o| == 1), Some(o[0]))
      else if signal then PopSettled(f, capacity)
      else (q, None)
  }

  // The guard of newQueueInst.
  predicate AcceptedCapacity(n: nat) { n >= 2 && BitAnd(n, n - 1) == 0 }

  function ResizeView<T>(q: View<T>, n: nat): (r: View<T>)
  {
    if q.Settled? && AcceptedCapacity(n) then Migrating(q.items, [], n, false) else q
  }

  datatype Op<T> = Push(v: T) | Pop | Resize(n: nat)

  // One operation: the new view, what it accepted and what it returned.
  function Step<T>(q: View<T>, op: Op<T>): (r: (View<T>, seq<T>, seq<T>))
  {
    match op
    case Push(v) => var (q', ok) := PushView(q, v); (q', if ok then [v] else [], [])
    case Pop => var (q', out) := PopView(q); (q', [], if out.Some? then [out.value] else [])
    case Resize(n) => (ResizeView(q, n), [], [])
  }

  // The final view, the accepted pushes and the popped values of a sequence of operations.
  function Execute<T>(q: View<T>, ops: seq<Op<T>>): (r: (View<T>, seq<T>, seq<T>))
  {
    if ops == [] then (q, [], [])
    else
      var (q1, pushed, popped) := Execute(q, ops[..|ops|-1]);
      var (q2, more, out) := Step(q1, ops[|ops|-1]);
      (q2, pushed + more, popped + out)
  }

  // A pop returns the oldest element and removes only it; a resize changes no contents; the
  // reading side flips only once it is empty.
  lemma {:induction false} PopTakesOldest<T>(q: View<T>)
    requires Coherent(q)
    ensures var (q', out) := PopView(q);
            && (out.Some? ==> q.Contents() == [out.value] + q'.Contents())
            && (out.None? ==> q'.Contents() == q.Contents())
            && (out.None? <==> q.Contents() == [] || (q.Migrating? && q.old_ == [] && !q.signal))
            && (q.Migrating? && q'.Settled? ==> q.old_ == [])
  {
    match q
    case Settled(items, _) =>
      if items != [] { assert items == [items[0]] + items[1..]; }
    case Migrating(o, f, capacity, signal) =>
      if o != [] {
        assert o + f == [o[0]] + (o[1..] + f);
      } else {
        assert o + f == f;
        if f != [] { assert f == [f[0]] + f[1..]; }
      }
  }

  lemma {:induction false} PushAppends<T>(q: View<T>, v: T)
    requires Coherent(q)
    ensures var (q', ok) := PushView(q, v);
            Coherent(q') && q'.Contents() == q.Contents() + (if ok then [v] else [])
  {
    if q.Migrating? { assert q.old_ + q.fresh_ + [v] == q.old_ + (q.fresh_ + [v]); }
    assert q.Contents() + [] == q.Contents();
  }

  lemma {:induction false} PopStaysCoherent<T>(q: View<T>)
    requires Coherent(q)
    ensures Coherent(PopView(q).0)
  {
  }

  lemma {:induction false} StepFifo<T>(q: View<T>, op: Op<T>)
    requires Coherent(q)
    ensures var (q', more, out) := Step(q, op);
            Coherent(q') && q.Contents() + more == out + q'.Contents()
  {
    match op
    case Push(v) => PushAppends(q, v);
    case Pop =>
      PopTakesOldest(q);
      PopStaysCoherent(q);
    case Resize(n) => assert q.Settled? ==> q.items + [] == q.items;
  }

  lemma {:induction false} Glue<T>(start: seq<T>, pushed: seq<T>, popped: seq<T>, mid: seq<T>, more: seq<T>, out: seq<T>, end: seq<T>)
    requires start + pushed == popped + mid && mid + more == out + end
    ensures start + (pushed + more) == (popped + out) + end
  {
    assert start + (pushed + more) == (start + pushed) + more == popped + (mid + more);
    assert popped + (out + end) == (popped + out) + end;
  }

  // Whatever the interleaving of pushes, pops and resizes, what was pushed is what was popped
  // followed by what is still held, in order: nothing is lost, duplicated or reordered.
  lemma {:induction false} FifoAcrossResizes<T>(q: View<T>, ops: seq<Op<T>>)
    requires Coherent(q)
    ensures var (q', pushed, popped) := Execute(q, ops);
            Coherent(q') && q.Contents() + pushed == popped + q'.Contents()
  {
    if ops != [] {
      var init, op := ops[..|ops|-1], ops[|ops|-1];
      FifoAcrossResizes(q, init);
      var (q1, pushed, popped) := Execute(q, init);
      var (q2, more, out) := Step(q1, op);
      StepFifo(q1, op);
      Glue(q.Contents(), pushed, popped, q1.Contents(), more, out, q2.Contents());
    }
  }

  // Consumers drain an empty instance whose signal was never raised.
  ghost predicate Stalled<T>(q: View<T>) { q.Migrating? && q.old_ == [] && !q.signal }

  // A resize that takes effect on an empty queue.
  ghost predicate EmptyResize<T>(q: View<T>, op: Op<T>) { op.Resize? && q.Settled? && q.items == [] && AcceptedCapacity(op.n) }

  // A step leaves the queue stalled exactly when it was, or when it resizes it while empty.
  lemma {:induction false} StalledStep<T>(q: View<T>, op: Op<T>)
    requires Coherent(q)
    ensures Stalled(Step(q, op).0) <==> Stalled(q) || EmptyResize(q, op)
    ensures Stalled(q) ==> Step(q, op).2 == []
  {
  }

  // The queue before the i-th operation.
  function Before<T>(q: View<T>, ops: seq<Op<T>>, i: nat): View<T>
    requires i <= |ops|
  {
    Execute(q, ops[..i]).0
  }

  ghost predicate EmptyResizeAt<T>(q: View<T>, ops: seq<Op<T>>, i: nat)
    requires i < |ops|
  {
    EmptyResize(Before(q, ops, i), ops[i])
  }

  lemma {:induction false} SameBefore<T>(q: View<T>, ops: seq<Op<T>>, i: nat)
    requires i + 1 < |ops|
    ensures EmptyResizeAt(q, ops[..|ops|-1], i) == EmptyResizeAt(q, ops, i)
  {
    assert ops[..|ops|-1][..i] == ops[..i];
  }

  ghost predicate EverEmptyResize<T>(q: View<T>, ops: seq<Op<T>>) { exists i: nat :: i < |ops| && EmptyResizeAt(q, ops, i) }

  lemma {:induction false} LastOp<T>(q: View<T>, ops: seq<Op<T>>)
    requires ops != []
    ensures Execute(q, ops).0 == Step(Execute(q, ops[..|ops|-1]).0, ops[|ops|-1]).0
  {
  }

  lemma {:induction false} OneMoreOp<T>(q: View<T>, ops: seq<Op<T>>)
    requires ops != []
    ensures var init, last := ops[..|ops|-1], ops[|ops|-1];
            EverEmptyResize(q, ops) <==> EverEmptyResize(q, init) || EmptyResize(Execute(q, init).0, last)
  {
    var n := |ops| - 1;
    var init := ops[..n];
    assert EmptyResizeAt(q, ops, n) <==> EmptyResize(Execute(q, init).0, ops[n]);
    if EverEmptyResize(q, init) {
      var i: nat :| i < n && EmptyResizeAt(q, init, i);
      SameBefore(q, ops, i);
    }
    if EverEmptyResize(q, ops) {
      var i: nat :| i < |ops| && EmptyResizeAt(q, ops, i);
      if i < n { SameBefore(q, ops, i); }
    }
  }

  // In any run a migration fails to complete exactly when some resize hit the queue empty.
  lemma {:induction false} StallsExactly<T>(q: View<T>, ops: seq<Op<T>>)
    requires Coherent(q)
    ensures Stalled(Execute(q, ops).0) <==> Stalled(q) || EverEmptyResize(q, ops)
  {
    if ops != [] {
      var init := ops[..|ops|-1];
      StallsExactly(q, init);
      FifoAcrossResizes(q, init);
      OneMoreOp(q, ops);
      LastOp(q, ops);
      StalledStep(Execute(q, init).0, ops[|ops|-1]);
    }
  }

  // Resizing an empty queue never signals the migration: from then on no pop returns, however
  // many values are pushed.
  lemma {:induction false} EmptyResizeStalls<T>(capacity: nat, n: nat, ops: seq<Op<T>>)
    requires AcceptedCapacity(n)
    ensures var (q, _, popped) := Execute(ResizeView(View<T>.Settled([], capacity), n), ops);
            q.Migrating? && q.old_ == [] && !q.signal && popped == []
  {
    if ops != [] { EmptyResizeStalls(capacity, n, ops[..|ops|-1]); }
  }

  function Pops<T>(n: nat): seq<Op<T>> { seq(n, _ => Pop) }

  // Otherwise the migration completes: popping once for each element of the drained instance
  // returns them all, and the next pop reads from the new one.
  lemma {:induction false} MigrationCompletes<T>(q: View<T>, n: nat)
    requires Coherent(q) && q.Migrating? && !Stalled(q) && n <= |q.old_|
    ensures var (q', _, popped) := Execute(q, Pops(n));
            && q' == Migrating(q.old_[n..], q.fresh_, q.capacity, q.signal || (n > 0 && n == |q.old_|)) && popped == q.old_[..n]
            && (n == |q.old_| ==> PopView(q').0.Settled?)
  {
    if n > 0 {
      MigrationCompletes(q, n - 1);
      var ops: seq<Op<T>> := Pops(n);
      assert ops[..n-1] == Pops(n - 1);
      assert q.old_[n-1..][1..] == q.old_[n..] && q.old_[..n-1] + [q.old_[n-1]] == q.old_[..n];
    }
  }

  function Pushes<T>(vs: seq<T>): seq<Op<T>> { seq(|vs|, i requires 0 <= i < |vs| => Push(vs[i])) }

  lemma {:induction false} PushFindsRoom<T>(q: View<T>, v: T)
    requires |q.Writing()| <= q.capacity
    ensures var (q', more, out) := Step(q, Push(v));
            && q'.capacity == q.capacity && out == [] && q'.Migrating? == q.Migrating?
            && more == (if |q.Writing()| < q.capacity then [v] else []) && q'.Writing() == q.Writing() + more
  {
    assert q.Writing() + [] == q.Writing();
  }

  lemma {:induction false} ExecuteLast<T>(q: View<T>, ops: seq<Op<T>>, op: Op<T>)
    ensures var (q1, pushed, popped) := Execute(q, ops);
            var (q2, more, out) := Step(q1, op);
            Execute(q, ops + [op]) == (q2, pushed + more, popped + out)
  {
    assert (ops + [op])[..|ops|] == ops;
  }

  lemma {:induction false} OneMorePush<T>(vs: seq<T>, v: T)
    ensures Pushes(vs + [v]) == Pushes(vs) + [Push(v)]
  {
  }

  lemma {:induction false} TakeOfInit<T>(vs: seq<T>, v: T, n: nat)
    requires n <= |vs|
    ensures (vs + [v])[..n] == vs[..n] && (n == |vs| ==> (vs + [v])[..n + 1] == vs[..n] + [v])
  {
  }

  lemma {:induction false} PushesInOrder<T>(q: View<T>, vs: seq<T>)
    requires |q.Writing()| <= q.capacity
    ensures var (q', pushed, popped) := Execute(q, Pushes(vs));
            && q'.capacity == q.capacity && popped == [] && q'.Migrating? == q.Migrating?
            && pushed == vs[..Room(q, |vs|)] && q'.Writing() == q.Writing() + pushed
  {
    if vs == [] {
      assert Pushes(vs) == [];
      assert q.Writing() + [] == q.Writing();
    } else {
      var init, last := vs[..|vs|-1], vs[|vs|-1];
      assert vs == init + [last];
      PushesInOrder(q, init);
      OneMorePush(init, last);
      ExecuteLast(q, Pushes(init), Push(last));
      var (q1, pushed, _) := Execute(q, Pushes(init));
      PushFindsRoom(q1, last);
      OneMoreTaken(q, init, last, pushed);
      AppendTwice(q.Writing(), pushed, Step(q1, Push(last)).1);
    }
  }

  lemma {:induction false} OneMoreTaken<T>(q: View<T>, vs: seq<T>, v: T, pushed: seq<T>)
    requires |q.Writing()| <= q.capacity && pushed == vs[..Room(q, |vs|)]
    ensures pushed + (if |q.Writing()| + |pushed| < q.capacity then [v] else []) == (vs + [v])[..Room(q, |vs + [v]|)]
  {
    TakeOfInit(vs, v, Room(q, |vs|));
    assert pushed + [] == pushed;
  }

  lemma {:induction false} AppendTwice<T>(a: seq<T>, b: seq<T>, c: seq<T>)
    ensures a + (b + c) == (a + b) + c
  {
  }

  // How many of n pushes find room.
  function Room<T>(q: View<T>, n: nat): nat
    requires |q.Writing()| <= q.capacity
  {
    if n <= q.capacity - |q.Writing()| then n else q.capacity - |q.Writing()|
  }

  // After an accepted resize to n, producers have an empty instance that takes exactly n values.
  lemma {:induction false} ResizedHoldsExactly<T>(items: seq<T>, capacity: nat, n: nat, vs: seq<T>)
    requires AcceptedCapacity(n)
    ensures var (q', pushed, popped) := Execute(Step(View<T>.Settled(items, capacity), Resize(n)).0, Pushes(vs));
            pushed == (if |vs| <= n then vs else vs[..n]) && popped == [] && q'.Contents() == items + pushed
  {
    var q := Step(View<T>.Settled(items, capacity), Resize(n)).0;
    FilledToCapacity(q, vs);
  }

  lemma {:induction false} FilledToCapacity<T>(q: View<T>, vs: seq<T>)
    requires q.Migrating? && q.fresh_ == []
    ensures var (q', pushed, popped) := Execute(q, Pushes(vs));
            pushed == (if |vs| <= q.capacity then vs else vs[..q.capacity]) && popped == [] && q'.Contents() == q.old_ + pushed
  {
    PushesInOrder(q, vs);
    assert vs[..|vs|] == vs;
    assert [] + Execute(q, Pushes(vs)).1 == Execute(q, Pushes(vs)).1;
    OldSideStays(q, vs);
  }

  lemma {:induction false} OldSideStays<T>(q: View<T>, vs: seq<T>)
    requires q.Migrating?
    ensures var q' := Execute(q, Pushes(vs)).0; q'.Migrating? && q'.old_ == q.old_
  {
    if vs == [] {
      assert Pushes(vs) == [];
    } else {
      var init, last := vs[..|vs|-1], vs[|vs|-1];
      assert vs == init + [last];
      OldSideStays(q, init);
      OneMorePush(init, last);
      ExecuteLast(q, Pushes(init), Push(last));
    }
  }

  // ----- The ring instance -----

  // A ring at rest: held positions are published, the others are free for their next use.
  ghost predicate RingOk<T>(cells: seq<Cell<T>>, head: nat, tail: nat) {
    && |cells| >= 2 && head <= tail <= head + |cells|
    && (forall p: nat {:trigger Slot(p, |cells|)} :: head <= p < tail ==> cells[Slot(p, |cells|)].stamp == p + 1)
    && (forall p: nat {:trigger Slot(p, |cells|)} :: tail <= p < head + |cells| ==> cells[Slot(p, |cells|)].stamp == p)
  }

  ghost function RingItems<T>(cells: seq<Cell<T>>, head: nat, tail: nat): (s: seq<T>)
    requires |cells| > 0 && head <= tail
    ensures |s| == tail - head
  {
    seq(tail - head, k requires 0 <= k => cells[Slot(head + k, |cells|)].data)
  }

  lemma {:induction false} RingPush<T>(cells: seq<Cell<T>>, head: nat, tail: nat, v: T)
    requires RingOk(cells, head, tail)
    ensures var i := Slot(tail, |cells|);
            if tail < head + |cells| then
              && cells[i].stamp == tail
              && RingOk(cells[i := Cell(tail + 1, v)], head, tail + 1)
              && RingItems(cells[i := Cell(tail + 1, v)], head, tail + 1) == RingItems(cells, head, tail) + [v]
            else cells[i].stamp < tail
  {
    var n := |cells|;
    var i := Slot(tail, n);
    if tail < head + n {
      forall p: nat | head <= p < head + n && p != tail ensures Slot(p, n) != i {
        if Slot(p, n) == i && p < tail { SlotUnique(p, tail, n); }
      }
    } else {
      SlotShift(head, n);
    }
  }

  lemma {:induction false} RingPop<T>(cells: seq<Cell<T>>, head: nat, tail: nat)
    requires RingOk(cells, head, tail)
    ensures var i := Slot(head, |cells|);
            if head < tail then
              && cells[i].stamp == head + 1
              && RingItems(cells, head, tail)[0] == cells[i].data
              && RingOk(cells[i := cells[i].(stamp := head + |cells|)], head + 1, tail)
              && RingItems(cells[i := cells[i].(stamp := head + |cells|)], head + 1, tail) == RingItems(cells, head, tail)[1..]
            else cells[i].stamp < head + 1
  {
    var n := |cells|;
    var i := Slot(head, n);
    SlotShift(head, n);
    forall p: nat | head < p < head + n ensures Slot(p, n) != i {
      if Slot(p, n) == i { SlotUnique(head, p, n); }
    }
  }

  // pos & mask
  method CellIndex(pos: nat, capacity: nat) returns (i: nat)
    requires IsPow2(capacity)
    ensures i == Slot(pos, capacity)
  {
    MaskIsSlot(pos, capacity);
    i := BitAnd(pos, capacity - 1);
  }

  class QueueInst<T(0)> {
    const buf: array<Cell<T>>
    var head: nat
    var tail: nat
    var draining: bool

    ghost predicate Valid()
      reads this, buf
    {
      IsPow2(buf.Length) && RingOk(buf[..], head, tail)
    }

    ghost function Items(): (s: seq<T>)
      requires Valid()
      reads this, buf
    {
      RingItems(buf[..], head, tail)
    }

    constructor (capacity: nat)
      requires capacity >= 2 && IsPow2(capacity)
      ensures Valid() && fresh(buf) && buf.Length == capacity && !draining && Items() == []
    {
      var cells := new Cell<T>[capacity];
      for i := 0 to capacity
        invariant forall j :: 0 <= j < i ==> cells[j].stamp == j
      {
        cells[i] := cells[i].(stamp := i);
      }
      buf := cells;
      head, tail, draining := 0, 0, false;
    }

    // One producer, undisturbed: the CAS loop succeeds or reports full in its first round.
    method Push(v: T) returns (ok: bool)
      requires Valid()
      modifies this`tail, buf
      ensures Valid()
      ensures ok <==> old(|Items()|) < buf.Length
      ensures Items() == if ok then old(Items()) + [v] else old(Items())
    {
      var pos := tail;
      var i := CellIndex(pos, buf.Length);
      RingPush(buf[..], head, tail, v);
      if buf[i].stamp == pos {
        tail := pos + 1;
        buf[i] := Cell(pos + 1, v);
        assert buf[..] == old(buf[..])[i := Cell(pos + 1, v)];
        ok := true;
      } else {
        ok := false;
      }
    }

    method Pop() returns (out: Option<T>)
      requires Valid()
      modifies this`head, buf
      ensures Valid()
      ensures old(Items()) == [] ==> out == None && Items() == []
      ensures old(Items()) != [] ==> out == Some(old(Items())[0]) && Items() == old(Items())[1..]
    {
      var pos := head;
      ghost var was := buf[..];
      var i := CellIndex(pos, buf.Length);
      RingPop(was, head, tail);
      var cell := buf[i];
      if cell.stamp == pos + 1 {
        head := pos + 1;
        out := Some(cell.data);
        buf[i] := cell.(stamp := pos + buf.Length);
        assert buf[..] == was[i := cell.(stamp := pos + |was|)];
      } else {
        out := None;
      }
    }
  }

  // newQueueInst: refuses anything but a power of two of at least 2.
  method NewQueueInst<T(0)>(capacity: nat) returns (inst: QueueInst?<T>)
    ensures inst != null <==> AcceptedCapacity(capacity)
    ensures inst != null ==> fresh(inst) && fresh(inst.buf) && inst.Valid() && !inst.draining
                             && inst.buf.Length == capacity && inst.Items() == []
  {
    if capacity >= 1 { PowerTest(capacity); }
    if capacity < 2 || BitAnd(capacity, capacity - 1) != 0 {
      inst := null;
    } else {
      inst := new QueueInst<T>(capacity);
    }
  }

  // ----- The container -----

  class Queue<T(0)> {
    var activeWrite: QueueInst<T>
    var activeRead: QueueInst<T>
    var migrateSignal: bool  // a token waits in the current migrate channel

    ghost predicate Valid()
      reads this, activeRead, activeRead.buf, activeWrite, activeWrite.buf
    {
      && activeRead.Valid() && activeWrite.Valid()
      && (activeRead != activeWrite ==> activeRead.buf != activeWrite.buf && activeRead.draining)
      && !activeWrite.draining
      && (migrateSignal ==> activeRead != activeWrite && activeRead.head == activeRead.tail)
    }

    ghost function AsView(): (q: View<T>)
      requires Valid()
      reads this, activeRead, activeRead.buf, activeWrite, activeWrite.buf
      ensures Coherent(q)
    {
      if activeRead == activeWrite then Settled(activeWrite.Items(), activeWrite.buf.Length)
      else Migrating(activeRead.Items(), activeWrite.Items(), activeWrite.buf.Length, migrateSignal)
    }

    constructor (inst: QueueInst<T>)
      requires inst.Valid() && !inst.draining
      ensures Valid() && activeRead == activeWrite == inst && AsView() == Settled(inst.Items(), inst.buf.Length)
    {
      activeWrite, activeRead, migrateSignal := inst, inst, false;
    }

    method Push(v: T) returns (ok: bool)
      requires Valid()
      modifies activeWrite, activeWrite.buf
      ensures Valid()
      ensures (AsView(), ok) == PushView(old(AsView()), v)
    {
      ok := activeWrite.Push(v);
    }

    // None: would block.
    method Pop() returns (out: Option<T>)
      requires Valid()
      modifies this, activeRead, activeRead.buf, activeWrite, activeWrite.buf
      ensures Valid()
      ensures (AsView(), out) == PopView(old(AsView()))
    {
      while true
        invariant Valid()
        invariant activeRead in {old(activeRead), old(activeWrite)} && activeWrite == old(activeWrite)
        invariant PopView(AsView()) == PopView(old(AsView()))
        decreases migrateSignal
      {
        out := Take();
        if out.Some? || !migrateSignal {
          return;
        }
        migrateSignal := false;
        activeRead := activeWrite;
      }
    }

    // One round of the consumer's loop: take a ready element and, if that was the last one of
    // a draining instance, put a token in the migrate channel.
    method Take() returns (out: Option<T>)
      requires Valid()
      modifies this`migrateSignal, activeRead, activeRead.buf
      ensures Valid() && (activeRead == activeWrite) == old(activeRead == activeWrite)
      ensures out.Some? ==> (AsView(), out) == PopView(old(AsView()))
      ensures out.None? ==> AsView() == old(AsView()) && activeRead.Items() == []
    {
      out := activeRead.Pop();
      if out.Some? && activeRead.draining && activeRead.head == activeRead.tail {
        migrateSignal := true;
      }
    }

    method MutateSize(newCapacity: nat) returns (ok: bool)
      requires Valid()
      modifies this, activeWrite
      ensures Valid()
      ensures AsView() == ResizeView(old(AsView()), newCapacity)
      ensures ok <==> old(activeRead) != old(activeWrite) || AcceptedCapacity(newCapacity)
    {
      if activeRead != activeWrite {
        return true;
      }
      var inst := NewQueueInst<T>(newCapacity);
      if inst == null {
        return false;
      }
      migrateSignal := false;
      activeWrite.draining := true;
      activeWrite := inst;
      ok := true;
    }
  }
}
