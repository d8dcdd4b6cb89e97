/**
  The lock-free ring of internal/queue/mpmc/entry.go, one queue instance, at the
  granularity of its atomic operations: every load of `head`, `tail` or a cell's
  sequence number (here `stamp`), every compare-and-swap, the plain data accesses and
  the publishing stores are separate steps that any number of threads may interleave.
  Positions are unbounded naturals.
*/
module MpmcSteps {
  import opened Arith

  // Where a thread stands inside Push or Pop.
  datatype Pc<T> =
    | Idle
    | PushLoadTail(v: T)
    | PushLoadSeq(v: T, pos: nat)
    | PushDecide(v: T, pos: nat, seen: nat)
    | PushWrite(v: T, pos: nat)
    | PushPublish(v: T, pos: nat)
    | PopLoadHead
    | PopLoadSeq(pos: nat)
    | PopDecide(pos: nat, seen: nat)
    | PopRead(pos: nat)
    | PopRelease(pos: nat, out: T)

  datatype State<T> = State(head: nat, tail: nat, cells: seq<Cell<T>>, pcs: map<nat, Pc<T>>)

  datatype Action<T> =
    | BeginPush(t: nat, v: T)
    | BeginPop(t: nat)
    | Run(t: nat)       // the thread's next atomic operation
    | GiveUp(t: nat)    // a consumer that found the queue empty sees its context cancelled

  // What a step did, as recorded in the history.
  datatype Event<T> =
    | Internal
    | ProbedFree(t: nat, pos: nat, behind: bool)  // producer loaded the cell's stamp; behind: stamp < pos
    | PushClaimed(t: nat, pos: nat, v: T)         // successful CAS on tail
    | PushDone(t: nat, pos: nat)
    | PushFull(t: nat, pos: nat)
    | PopClaimed(t: nat, pos: nat)                // successful CAS on head
    | PopDone(t: nat, pos: nat, out: T)           // released the cell and returned out
    | PopEmpty(t: nat, pos: nat)

  function Init<T>(capacity: nat, zero: T, threads: set<nat>): State<T> {
    State(0, 0, seq(capacity, i requires 0 <= i => Cell(i, zero)), map t | t in threads :: Idle)
  }

  predicate Enabled<T>(s: State<T>, a: Action<T>) {
    a.t in s.pcs &&
    match a
    case BeginPush(t, _) => s.pcs[t].Idle?
    case BeginPop(t) => s.pcs[t].Idle?
    case Run(t) => !s.pcs[t].Idle?
    case GiveUp(t) => s.pcs[t].PopDecide? && s.pcs[t].seen < s.pcs[t].pos + 1
  }

  function Goto<T>(s: State<T>, t: nat, pc: Pc<T>): State<T> { s.(pcs := s.pcs[t := pc]) }

  // The effect of one atomic operation.
  function Next<T>(s: State<T>, a: Action<T>): (State<T>, Event<T>)
    requires |s.cells| > 0 && Enabled(s, a)
  {
    match a
    case BeginPush(t, v) => (Goto(s, t, PushLoadTail(v)), Internal)
    case BeginPop(t) => (Goto(s, t, PopLoadHead), Internal)
    case GiveUp(t) => (Goto(s, t, Idle), PopEmpty(t, s.pcs[t].pos))
    case Run(t) =>
      var n := |s.cells|;
      match s.pcs[t]
      case PushLoadTail(v) => (Goto(s, t, PushLoadSeq(v, s.tail)), Internal)
      case PushLoadSeq(v, pos) =>
        var q := s.cells[Slot(pos, n)].stamp;
        (Goto(s, t, PushDecide(v, pos, q)), ProbedFree(t, pos, q < pos))
      case PushDecide(v, pos, q) =>
        if q == pos then
          if s.tail == pos
          then (Goto(s.(tail := pos + 1), t, PushWrite(v, pos)), PushClaimed(t, pos, v))
          else (Goto(s, t, PushLoadTail(v)), Internal)
        else if q < pos then (Goto(s, t, Idle), PushFull(t, pos))
        else (Goto(s, t, PushLoadTail(v)), Internal)
      case PushWrite(v, pos) =>
        var c := s.cells[Slot(pos, n)].(data := v);
        (Goto(s.(cells := s.cells[Slot(pos, n) := c]), t, PushPublish(v, pos)), Internal)
      case PushPublish(v, pos) =>
        var c := s.cells[Slot(pos, n)].(stamp := pos + 1);
        (Goto(s.(cells := s.cells[Slot(pos, n) := c]), t, Idle), PushDone(t, pos))
      case PopLoadHead => (Goto(s, t, PopLoadSeq(s.head)), Internal)
      case PopLoadSeq(pos) => (Goto(s, t, PopDecide(pos, s.cells[Slot(pos, n)].stamp)), Internal)
      case PopDecide(pos, q) =>
        if q == pos + 1 && s.head == pos
        then (Goto(s.(head := pos + 1), t, PopRead(pos)), PopClaimed(t, pos))
        else (Goto(s, t, PopLoadHead), Internal)
      case PopRead(pos) => (Goto(s, t, PopRelease(pos, s.cells[Slot(pos, n)].data)), Internal)
      case PopRelease(pos, out) =>
        var c := s.cells[Slot(pos, n)].(stamp := pos + n);
        (Goto(s.(cells := s.cells[Slot(pos, n) := c]), t, Idle), PopDone(t, pos, out))
      case Idle => assert false; (s, Internal)
  }

  // ----- History -----

  // The values of the claimed tail positions, in claim order.
  ghost function PushLog<T>(h: seq<Event<T>>): seq<T> {
    if h == [] then []
    else if h[|h|-1].PushClaimed? then PushLog(h[..|h|-1]) + [h[|h|-1].v]
    else PushLog(h[..|h|-1])
  }

  ghost predicate Released<T>(h: seq<Event<T>>, p: int) {
    exists i :: 0 <= i < |h| && h[i].PopDone? && h[i].pos == p
  }

  // An execution: some interleaving of actions from an initial state.  After the first k
  // actions the state is states[k] and the history hist[..k].
  datatype Execution<T> = Execution(capacity: nat, zero: T, threads: set<nat>,
                                    states: seq<State<T>>, acts: seq<Action<T>>, hist: seq<Event<T>>)
  {
    ghost predicate Valid() {
      && |states| == |acts| + 1 == |hist| + 1
      && states[0] == Init(capacity, zero, threads)
      && forall k :: 0 <= k < |acts| ==> StepsTo(states[k], acts[k], states[k+1], hist[k])
    }
  }

  ghost predicate StepsTo<T>(s: State<T>, a: Action<T>, s': State<T>, e: Event<T>) {
    |s.cells| > 0 && Enabled(s, a) && Next(s, a) == (s', e)
  }

  // ----- The invariant -----

  ghost predicate PushOwner<T>(pc: Pc<T>) { pc.PushWrite? || pc.PushPublish? }
  ghost predicate PopOwner<T>(pc: Pc<T>) { pc.PopRead? || pc.PopRelease? }

  // A cell is free for position stamp, or holds the published value of position stamp - 1.
  ghost predicate FreeCell<T>(s: State<T>, i: nat)
    requires i < |s.cells|
  {
    var q := s.cells[i].stamp;
    Slot(q, |s.cells|) == i && s.head <= q < s.head + |s.cells|
  }

  ghost predicate FullCell<T>(s: State<T>, log: seq<T>, i: nat)
    requires i < |s.cells|
  {
    var q := s.cells[i].stamp - 1;
    0 <= q < s.tail <= q + |s.cells| && Slot(q, |s.cells|) == i && q < |log| && s.cells[i].data == log[q]
  }

  ghost predicate PcOk<T>(s: State<T>, log: seq<T>, pc: Pc<T>)
    requires |s.cells| > 0
  {
    match pc
    case Idle => true
    case PushLoadTail(_) => true
    case PushLoadSeq(_, pos) => pos <= s.tail
    case PushDecide(_, pos, q) => pos <= s.tail && q <= s.cells[Slot(pos, |s.cells|)].stamp
    case PushWrite(v, pos) =>
      pos < |log| && pos < s.tail && s.cells[Slot(pos, |s.cells|)].stamp == pos && log[pos] == v
    case PushPublish(v, pos) =>
      && pos < |log| && pos < s.tail && s.cells[Slot(pos, |s.cells|)].stamp == pos && log[pos] == v
      && s.cells[Slot(pos, |s.cells|)].data == v
    case PopLoadHead => true
    case PopLoadSeq(pos) => pos <= s.head
    case PopDecide(pos, q) => pos <= s.head && q <= s.cells[Slot(pos, |s.cells|)].stamp
    case PopRead(pos) => pos < s.head && s.cells[Slot(pos, |s.cells|)].stamp == pos + 1
    case PopRelease(pos, out) =>
      pos < |log| && pos < s.head && s.cells[Slot(pos, |s.cells|)].stamp == pos + 1 && log[pos] == out
  }

  // Two threads that hold the same claimed position on the same side.
  ghost predicate Clash<T>(a: Pc<T>, b: Pc<T>) {
    ((PushOwner(a) && PushOwner(b)) || (PopOwner(a) && PopOwner(b))) && a.pos == b.pos
  }

  ghost predicate OwnersDistinct<T>(s: State<T>) {
    forall t, u {:trigger Clash(s.pcs[t], s.pcs[u])} ::
      t in s.pcs && u in s.pcs && t != u ==> !Clash(s.pcs[t], s.pcs[u])
  }

  ghost predicate Inv<T>(s: State<T>, log: seq<T>) {
    && |s.cells| >= 2
    && |log| == s.tail
    && s.head <= s.tail <= s.head + |s.cells|
    && (forall i: nat {:trigger FreeCell(s, i)} :: i < |s.cells| ==> FreeCell(s, i) || FullCell(s, log, i))
    && (forall t {:trigger PcOk(s, log, s.pcs[t])} :: t in s.pcs ==> PcOk(s, log, s.pcs[t]))
    && OwnersDistinct(s)
  }

  // A cell whose stamp is at least pos, for the position pos the tail points to, is free for pos.
  lemma {:induction false} TailCell<T>(s: State<T>, log: seq<T>)
    requires Inv(s, log)
    requires s.cells[Slot(s.tail, |s.cells|)].stamp >= s.tail
    ensures s.cells[Slot(s.tail, |s.cells|)].stamp == s.tail < s.head + |s.cells|
  {
    var n := |s.cells|;
    var i := Slot(s.tail, n);
    var q := s.cells[i].stamp;
    if FreeCell(s, i) { SlotUnique(s.tail, q, n); }
    else {
      SlotShift(q - 1, n);
    }
  }

  // A cell whose stamp is beyond pos, for the position pos the head points to, holds position pos.
  lemma {:induction false} HeadCell<T>(s: State<T>, log: seq<T>)
    requires Inv(s, log)
    requires s.cells[Slot(s.head, |s.cells|)].stamp >= s.head + 1
    ensures s.cells[Slot(s.head, |s.cells|)].stamp == s.head + 1
    ensures FullCell(s, log, Slot(s.head, |s.cells|)) && s.head < s.tail
  {
    var n := |s.cells|;
    var i := Slot(s.head, n);
    var q := s.cells[i].stamp;
    if FreeCell(s, i) { SlotUnique(s.head, q, n); }
    else { SlotUnique(s.head, q - 1, n); }
  }

  ghost function Extend<T>(log: seq<T>, e: Event<T>): seq<T> {
    if e.PushClaimed? then log + [e.v] else log
  }

  // Storing a new stamp or value in one cell keeps every other cell's reading.
  lemma {:induction false} OtherCells<T>(s: State<T>, s': State<T>, log: seq<T>, k: nat)
    requires Inv(s, log) && |s'.cells| == |s.cells| && k < |s.cells|
    requires s'.head == s.head && s'.tail == s.tail && s'.cells == s.cells[k := s'.cells[k]]
    ensures forall i: nat {:trigger FreeCell(s', i)} :: i < |s.cells| && i != k ==> FreeCell(s', i) || FullCell(s', log, i)
  {
    forall i: nat | i < |s.cells| && i != k
      ensures FreeCell(s', i) || FullCell(s', log, i)
    {
      assert s'.cells[i] == s.cells[i];
      assert FreeCell(s, i) || FullCell(s, log, i);
    }
  }

  lemma {:induction false} PreserveClaimPush<T>(s: State<T>, log: seq<T>, t: nat)
    requires Inv(s, log) && t in s.pcs && s.pcs[t].PushDecide?
    requires s.pcs[t].seen == s.pcs[t].pos == s.tail
    ensures Inv(Next(s, Run(t)).0, log + [s.pcs[t].v])
  {
    var pc := s.pcs[t];
    var n := |s.cells|;
    var (s', e) := Next(s, Run(t));
    var log' := log + [pc.v];
    assert PcOk(s, log, pc);
    TailCell(s, log);
    forall i: nat | i < n ensures FreeCell(s', i) || FullCell(s', log', i) {
      assert FreeCell(s, i) || FullCell(s, log, i);
      if FullCell(s, log, i) {
        SlotShift(s.cells[i].stamp - 1, n);
      }
    }
    forall u | u in s'.pcs ensures PcOk(s', log', s'.pcs[u]) {
      if u != t { assert PcOk(s, log, s.pcs[u]); }
    }
    forall u | u in s.pcs && u != t ensures !Clash(s'.pcs[t], s.pcs[u]) {
      assert PcOk(s, log, s.pcs[u]);
    }
    StillDistinct(s, s', t);
  }

  lemma {:induction false} PreserveClaimPop<T>(s: State<T>, log: seq<T>, t: nat)
    requires Inv(s, log) && t in s.pcs && s.pcs[t].PopDecide?
    requires s.pcs[t].seen == s.pcs[t].pos + 1 == s.head + 1
    ensures Inv(Next(s, Run(t)).0, log)
  {
    var pc := s.pcs[t];
    var n := |s.cells|;
    var (s', e) := Next(s, Run(t));
    assert PcOk(s, log, pc);
    HeadCell(s, log);
    SlotShift(s.head, n);
    forall i: nat | i < n ensures FreeCell(s', i) || FullCell(s', log, i) {
      assert FreeCell(s, i) || FullCell(s, log, i);
    }
    forall u | u in s'.pcs ensures PcOk(s', log, s'.pcs[u]) {
      if u != t { assert PcOk(s, log, s.pcs[u]); }
    }
    forall u | u in s.pcs && u != t ensures !Clash(s'.pcs[t], s.pcs[u]) {
      assert PcOk(s, log, s.pcs[u]);
    }
    StillDistinct(s, s', t);
  }

  // No other owner works on the cell that t owns.
  lemma {:induction false} SoleOwner<T>(s: State<T>, log: seq<T>, t: nat, u: nat)
    requires Inv(s, log) && t in s.pcs && u in s.pcs && t != u
    requires PushOwner(s.pcs[t]) || PopOwner(s.pcs[t])
    requires PushOwner(s.pcs[u]) || PopOwner(s.pcs[u])
    ensures Slot(s.pcs[t].pos, |s.cells|) != Slot(s.pcs[u].pos, |s.cells|)
  {
    var p, q := s.pcs[t].pos, s.pcs[u].pos;
    assert PcOk(s, log, s.pcs[t]) && PcOk(s, log, s.pcs[u]);
    assert !Clash(s.pcs[t], s.pcs[u]);
    SlotShift(p, |s.cells|);
    SlotShift(q, |s.cells|);
  }

  // A producer's claimed cell is free for it; a consumer's claimed cell is full.
  lemma {:induction false} OwnedCell<T>(s: State<T>, log: seq<T>, t: nat)
    requires Inv(s, log) && t in s.pcs
    ensures PushOwner(s.pcs[t]) ==> FreeCell(s, Slot(s.pcs[t].pos, |s.cells|))
    ensures PopOwner(s.pcs[t]) ==> FullCell(s, log, Slot(s.pcs[t].pos, |s.cells|))
  {
    var pc := s.pcs[t];
    assert PcOk(s, log, pc);
    if PushOwner(pc) || PopOwner(pc) {
      var k := Slot(pc.pos, |s.cells|);
      assert FreeCell(s, k) || FullCell(s, log, k);
      SlotShift(pc.pos, |s.cells|);
      if pc.pos > 0 { SlotShift(pc.pos - 1, |s.cells|); }
    }
  }

  // Changing thread t's program counter keeps owners distinct if t gains no clash.
  lemma {:induction false} StillDistinct<T>(s: State<T>, s': State<T>, t: nat)
    requires OwnersDistinct(s) && t in s.pcs && t in s'.pcs && s'.pcs == s.pcs[t := s'.pcs[t]]
    requires forall u :: u in s.pcs && u != t ==> !Clash(s'.pcs[t], s.pcs[u])
    ensures OwnersDistinct(s')
  {
    forall a, b | a in s'.pcs && b in s'.pcs && a != b ensures !Clash(s'.pcs[a], s'.pcs[b]) {
      if a != t && b != t { assert !Clash(s.pcs[a], s.pcs[b]); }
      else if a == t { assert !Clash(s'.pcs[t], s.pcs[b]); }
      else { assert !Clash(s'.pcs[t], s.pcs[a]); }
    }
  }

  lemma {:induction false} PreserveStore<T>(s: State<T>, log: seq<T>, t: nat)
    requires Inv(s, log) && t in s.pcs
    requires s.pcs[t].PushWrite? || s.pcs[t].PushPublish? || s.pcs[t].PopRelease?
    ensures Inv(Next(s, Run(t)).0, log)
  {
    var pc := s.pcs[t];
    var n := |s.cells|;
    var (s', e) := Next(s, Run(t));
    var k := Slot(pc.pos, n);
    assert PcOk(s, log, pc);
    OwnedCell(s, log, t);
    SlotShift(pc.pos, n);
    OtherCells(s, s', log, k);
    assert FreeCell(s', k) || FullCell(s', log, k);
    forall u | u in s'.pcs ensures PcOk(s', log, s'.pcs[u]) {
      if u != t { OthersUnmoved(s, s', log, t, u); }
    }
    NoNewClash(s, s', t);
  }

  // The thread keeps its position, or gives it up.
  lemma {:induction false} NoNewClash<T>(s: State<T>, s': State<T>, t: nat)
    requires OwnersDistinct(s) && t in s.pcs && t in s'.pcs && s'.pcs == s.pcs[t := s'.pcs[t]]
    requires PushOwner(s'.pcs[t]) || PopOwner(s'.pcs[t]) ==> Clash(s'.pcs[t], s.pcs[t])
    ensures OwnersDistinct(s')
  {
    forall u | u in s.pcs && u != t ensures !Clash(s'.pcs[t], s.pcs[u]) {
      assert !Clash(s.pcs[t], s.pcs[u]);
    }
    StillDistinct(s, s', t);
  }

  // A store by t into its own cell, which never lowers the stamp, does not disturb thread u.
  lemma {:induction false} OthersUnmoved<T>(s: State<T>, s': State<T>, log: seq<T>, t: nat, u: nat)
    requires Inv(s, log) && t in s.pcs && u in s.pcs && t != u && (PushOwner(s.pcs[t]) || PopOwner(s.pcs[t]))
    requires var k := Slot(s.pcs[t].pos, |s.cells|);
             && |s'.cells| == |s.cells| && s'.head == s.head && s'.tail == s.tail
             && s'.cells == s.cells[k := s'.cells[k]] && s'.cells[k].stamp >= s.cells[k].stamp
    ensures PcOk(s', log, s.pcs[u])
  {
    assert PcOk(s, log, s.pcs[u]);
    if PushOwner(s.pcs[u]) || PopOwner(s.pcs[u]) { SoleOwner(s, log, t, u); }
  }

  // A step that only moves thread t to a program counter that is right for the shared state.
  lemma {:induction false} PreserveLocal<T>(s: State<T>, log: seq<T>, t: nat, pc: Pc<T>)
    requires Inv(s, log) && t in s.pcs && PcOk(s, log, pc)
    requires PushOwner(pc) || PopOwner(pc) ==> Clash(pc, s.pcs[t])
    ensures Inv(Goto(s, t, pc), log)
  {
    var s' := Goto(s, t, pc);
    forall i: nat | i < |s'.cells| ensures FreeCell(s', i) || FullCell(s', log, i) {
      assert FreeCell(s, i) || FullCell(s, log, i);
    }
    forall u | u in s'.pcs ensures PcOk(s', log, s'.pcs[u]) {
      if u != t { assert PcOk(s, log, s.pcs[u]); }
    }
    forall u | u in s.pcs && u != t ensures !Clash(s'.pcs[t], s.pcs[u]) {
      assert !Clash(s.pcs[t], s.pcs[u]);
    }
    StillDistinct(s, s', t);
  }

  // Every atomic step keeps the invariant.
  lemma {:induction false} InvStep<T>(s: State<T>, log: seq<T>, a: Action<T>)
    requires Inv(s, log) && Enabled(s, a)
    ensures Inv(Next(s, a).0, Extend(log, Next(s, a).1))
  {
    var t := a.t;
    if a.Run? && s.pcs[t].PushDecide? && s.pcs[t].seen == s.pcs[t].pos == s.tail {
      PreserveClaimPush(s, log, t);
    } else if a.Run? && s.pcs[t].PopDecide? && s.pcs[t].seen == s.pcs[t].pos + 1 == s.head + 1 {
      PreserveClaimPop(s, log, t);
    } else if a.Run? && (s.pcs[t].PushWrite? || s.pcs[t].PushPublish? || s.pcs[t].PopRelease?) {
      PreserveStore(s, log, t);
    } else {
      LocalStep(s, log, a);
    }
  }

  ghost predicate SharedStep<T>(s: State<T>, a: Action<T>)
    requires a.t in s.pcs
  {
    var pc := s.pcs[a.t];
    a.Run? && ((pc.PushDecide? && pc.seen == pc.pos == s.tail) || (pc.PopDecide? && pc.seen == pc.pos + 1 == s.head + 1)
               || pc.PushWrite? || pc.PushPublish? || pc.PopRelease?)
  }

  lemma {:induction false} LocalStep<T>(s: State<T>, log: seq<T>, a: Action<T>)
    requires Inv(s, log) && Enabled(s, a) && !SharedStep(s, a)
    ensures Inv(Next(s, a).0, Extend(log, Next(s, a).1))
  {
    var t := a.t;
    assert PcOk(s, log, s.pcs[t]);
    OwnedCell(s, log, t);
    var s' := Next(s, a).0;
    assert s' == Goto(s, t, s'.pcs[t]);
    PreserveLocal(s, log, t, s'.pcs[t]);
  }

  lemma {:induction false} InvInit<T>(capacity: nat, zero: T, threads: set<nat>)
    requires capacity >= 2
    ensures Inv(Init(capacity, zero, threads), [])
  {
    var s := Init(capacity, zero, threads);
    forall i: nat | i < |s.cells| ensures FreeCell(s, i) { }
  }

  // ----- What the history says about the state -----

  ghost predicate ClaimedPop<T>(h: seq<Event<T>>, t: nat, p: nat) {
    exists i :: 0 <= i < |h| && h[i] == PopClaimed(t, p)
  }

  ghost predicate ProbedBehind<T>(h: seq<Event<T>>, t: nat, p: nat) {
    exists i :: 0 <= i < |h| && h[i] == ProbedFree(t, p, true)
  }

  ghost predicate EventOk<T>(s: State<T>, log: seq<T>, e: Event<T>) {
    && (e.PushClaimed? ==> e.pos < s.tail && e.pos < |log| && log[e.pos] == e.v)
    && (e.PopClaimed? ==> e.pos < s.head)
  }

  ghost predicate PcHist<T>(h: seq<Event<T>>, t: nat, pc: Pc<T>) {
    && (PopOwner(pc) ==> ClaimedPop(h, t, pc.pos))
    && (pc.PushDecide? && pc.seen < pc.pos ==> ProbedBehind(h, t, pc.pos))
  }

  ghost predicate HistInv<T>(s: State<T>, h: seq<Event<T>>) {
    && Inv(s, PushLog(h))
    && (forall i {:trigger h[i]} :: 0 <= i < |h| ==> EventOk(s, PushLog(h), h[i]))
    && (forall t {:trigger s.pcs[t]} :: t in s.pcs ==> PcHist(h, t, s.pcs[t]))
    && (forall p: nat {:trigger Released(h, p)} ::
          Released(h, p) <==> s.cells[Slot(p, |s.cells|)].stamp >= p + |s.cells|)
  }

  lemma {:induction false} ExtendLast<T>(h: seq<Event<T>>, e: Event<T>)
    ensures PushLog(h + [e]) == Extend(PushLog(h), e)
  {
    assert (h + [e])[..|h|] == h;
  }

  lemma {:induction false} ReleasedStep<T>(s: State<T>, h: seq<Event<T>>, a: Action<T>, p: nat)
    requires HistInv(s, h) && Enabled(s, a)
    ensures var (s', e) := Next(s, a);
            Released(h + [e], p) <==> s'.cells[Slot(p, |s.cells|)].stamp >= p + |s.cells|
  {
    var (s', e) := Next(s, a);
    var n := |s.cells|;
    var h' := h + [e];
    var pc := s.pcs[a.t];
    assert Released(h, p) <==> s.cells[Slot(p, n)].stamp >= p + n;
    assert PcOk(s, PushLog(h), pc);
    if Released(h, p) {
      var i :| 0 <= i < |h| && h[i].PopDone? && h[i].pos == p;
      assert h'[i] == h[i];
    }
    if e.PopDone? && e.pos == p { assert h'[|h|] == e; }
    if Released(h', p) && !Released(h, p) {
      var i :| 0 <= i < |h'| && h'[i].PopDone? && h'[i].pos == p;
      assert i == |h|;
    }
    if a.Run? && (pc.PushPublish? || pc.PopRelease?) && Slot(pc.pos, n) == Slot(p, n) {
      SlotShift(p, n);
      SlotShift(pc.pos, n);
      if p < pc.pos < p + n { SlotUnique(p, pc.pos, n); }
    }
  }

  lemma {:induction false} HistStep<T>(s: State<T>, h: seq<Event<T>>, a: Action<T>)
    requires HistInv(s, h) && Enabled(s, a)
    ensures HistInv(Next(s, a).0, h + [Next(s, a).1])
  {
    var (s', e) := Next(s, a);
    var h' := h + [e];
    ExtendLast(h, e);
    InvStep(s, PushLog(h), a);
    forall i | 0 <= i < |h'| ensures EventOk(s', PushLog(h'), h'[i]) { EventStep(s, h, a, i); }
    forall t | t in s'.pcs ensures PcHist(h', t, s'.pcs[t]) { PcStep(s, h, a, t); }
    forall p: nat ensures Released(h', p) <==> s'.cells[Slot(p, |s.cells|)].stamp >= p + |s.cells| {
      ReleasedStep(s, h, a, p);
    }
  }

  lemma {:induction false} EventStep<T>(s: State<T>, h: seq<Event<T>>, a: Action<T>, i: nat)
    requires HistInv(s, h) && Enabled(s, a) && i <= |h|
    ensures EventOk(Next(s, a).0, PushLog(h + [Next(s, a).1]), (h + [Next(s, a).1])[i])
  {
    ExtendLast(h, Next(s, a).1);
    assert PcOk(s, PushLog(h), s.pcs[a.t]);
    if i < |h| { assert EventOk(s, PushLog(h), h[i]); }
  }

  lemma {:induction false} PcStep<T>(s: State<T>, h: seq<Event<T>>, a: Action<T>, t: nat)
    requires HistInv(s, h) && Enabled(s, a) && t in Next(s, a).0.pcs
    ensures PcHist(h + [Next(s, a).1], t, Next(s, a).0.pcs[t])
  {
    var e := Next(s, a).1;
    assert PcHist(h, t, s.pcs[t]);
    HistGrows(h, e, t);
    assert (h + [e])[|h|] == e;
  }

  lemma {:induction false} HistGrows<T>(h: seq<Event<T>>, e: Event<T>, t: nat)
    ensures forall p: nat :: ClaimedPop(h, t, p) ==> ClaimedPop(h + [e], t, p)
    ensures forall p: nat :: ProbedBehind(h, t, p) ==> ProbedBehind(h + [e], t, p)
  {
    var h' := h + [e];
    forall p: nat | ClaimedPop(h, t, p) ensures ClaimedPop(h', t, p) {
      var i :| 0 <= i < |h| && h[i] == PopClaimed(t, p);
      assert h'[i] == h[i];
    }
    forall p: nat | ProbedBehind(h, t, p) ensures ProbedBehind(h', t, p) {
      var i :| 0 <= i < |h| && h[i] == ProbedFree(t, p, true);
      assert h'[i] == h[i];
    }
  }

  lemma {:induction false} HistOneMore<T>(h: seq<Event<T>>, i: nat)
    requires i < |h|
    ensures h[..i+1] == h[..i] + [h[i]]
  {
  }

  // In every interleaving, after any number of steps, the state agrees with its history.
  lemma {:induction false} AlwaysHolds<T>(x: Execution<T>, k: nat)
    requires x.Valid() && x.capacity >= 2 && k <= |x.acts|
    ensures HistInv(x.states[k], x.hist[..k]) && |x.states[k].cells| == x.capacity
  {
    if k == 0 {
      InvInit(x.capacity, x.zero, x.threads);
    } else {
      AlwaysHolds(x, k - 1);
      assert StepsTo(x.states[k-1], x.acts[k-1], x.states[k], x.hist[k-1]);
      HistStep(x.states[k-1], x.hist[..k-1], x.acts[k-1]);
      HistOneMore(x.hist, k - 1);
    }
  }

  // ----- Main results -----

  lemma {:induction false} BoundedOccupancy<T>(x: Execution<T>, k: nat)
    requires x.Valid() && x.capacity >= 2 && k <= |x.acts|
    ensures x.states[k].head <= x.states[k].tail <= x.states[k].head + x.capacity
  {
    AlwaysHolds(x, k);
  }

  // Tail positions are claimed one after the other, each once, and so are head positions;
  // no position is returned twice.
  lemma {:induction false} ClaimedOnce<T>(x: Execution<T>, i: nat, j: nat)
    requires x.Valid() && x.capacity >= 2 && i < j < |x.hist|
    ensures x.hist[i].PushClaimed? && x.hist[j].PushClaimed? ==> x.hist[i].pos < x.hist[j].pos
    ensures x.hist[i].PopClaimed? && x.hist[j].PopClaimed? ==> x.hist[i].pos < x.hist[j].pos
    ensures x.hist[i].PopDone? && x.hist[j].PopDone? ==> x.hist[i].pos != x.hist[j].pos
  {
    AlwaysHolds(x, j);
    var s := x.states[j];
    assert StepsTo(s, x.acts[j], x.states[j+1], x.hist[j]);
    assert x.hist[..j][i] == x.hist[i];
    assert EventOk(s, PushLog(x.hist[..j]), x.hist[i]);
    assert PcOk(s, PushLog(x.hist[..j]), s.pcs[x.acts[j].t]);
    if x.hist[i].PopDone? && x.hist[j].PopDone? && x.hist[i].pos == x.hist[j].pos {
      assert Released(x.hist[..j], x.hist[i].pos);
    }
  }

  // Every position below the tail was claimed by some producer.
  lemma {:induction false} EveryPositionClaimed<T>(x: Execution<T>, k: nat, p: nat) returns (i: nat)
    requires x.Valid() && x.capacity >= 2 && k <= |x.acts| && p < x.states[k].tail
    ensures i < k && x.hist[i].PushClaimed? && x.hist[i].pos == p
  {
    if k > 0 {
      assert StepsTo(x.states[k-1], x.acts[k-1], x.states[k], x.hist[k-1]);
      if p < x.states[k-1].tail { i := EveryPositionClaimed(x, k - 1, p); }
      else { i := k - 1; }
    }
  }

  // Every position below the head was claimed by some consumer.
  lemma {:induction false} EveryHeadClaimed<T>(x: Execution<T>, k: nat, p: nat) returns (i: nat)
    requires x.Valid() && x.capacity >= 2 && k <= |x.acts| && p < x.states[k].head
    ensures i < k && x.hist[i].PopClaimed? && x.hist[i].pos == p
  {
    if k > 0 {
      assert StepsTo(x.states[k-1], x.acts[k-1], x.states[k], x.hist[k-1]);
      if p < x.states[k-1].head { i := EveryHeadClaimed(x, k - 1, p); }
      else { i := k - 1; }
    }
  }

  // A pop that returns from position p was claimed by the same consumer, after a producer
  // claimed p, and returns exactly that producer's value.
  lemma {:induction false} PopReturnsPushed<T>(x: Execution<T>, j: nat)
    returns (i: nat, c: nat)
    requires x.Valid() && x.capacity >= 2 && j < |x.hist| && x.hist[j].PopDone?
    ensures i < c < j
    ensures x.hist[i].PushClaimed? && x.hist[i].pos == x.hist[j].pos && x.hist[i].v == x.hist[j].out
    ensures x.hist[c] == PopClaimed(x.hist[j].t, x.hist[j].pos)
  {
    AlwaysHolds(x, j);
    var s := x.states[j];
    assert StepsTo(s, x.acts[j], x.states[j+1], x.hist[j]);
    var pc := s.pcs[x.acts[j].t];
    assert PcOk(s, PushLog(x.hist[..j]), pc) && PcHist(x.hist[..j], x.acts[j].t, pc);
    c :| 0 <= c < j && x.hist[..j][c] == PopClaimed(x.acts[j].t, pc.pos);
    AlwaysHolds(x, c);
    assert StepsTo(x.states[c], x.acts[c], x.states[c+1], x.hist[c]);
    assert PcOk(x.states[c], PushLog(x.hist[..c]), x.states[c].pcs[x.acts[c].t]);
    HeadCell(x.states[c], PushLog(x.hist[..c]));
    i := EveryPositionClaimed(x, c, pc.pos);
    assert EventOk(s, PushLog(x.hist[..j]), x.hist[..j][i]);
  }

  // A producer reads a cell as behind exactly when the occupant one lap earlier has not been
  // released, and reports the queue full only after such a reading.
  lemma {:induction false} FullMeansOccupied<T>(x: Execution<T>, j: nat)
    requires x.Valid() && x.capacity >= 2 && j < |x.hist|
    ensures x.hist[j].ProbedFree? ==>
              (x.hist[j].behind <==> x.hist[j].pos >= x.capacity && !Released(x.hist[..j], x.hist[j].pos - x.capacity))
    ensures x.hist[j].PushFull? ==> exists i :: 0 <= i < j && x.hist[i] == ProbedFree(x.hist[j].t, x.hist[j].pos, true)
  {
    AlwaysHolds(x, j);
    var s := x.states[j];
    var log := PushLog(x.hist[..j]);
    assert StepsTo(s, x.acts[j], x.states[j+1], x.hist[j]);
    var pc := s.pcs[x.acts[j].t];
    assert PcOk(s, log, pc) && PcHist(x.hist[..j], x.acts[j].t, pc);
    if x.hist[j].ProbedFree? {
      var k := Slot(pc.pos, x.capacity);
      assert FreeCell(s, k) || FullCell(s, log, k);
      if pc.pos >= x.capacity {
        SlotShift(pc.pos - x.capacity, x.capacity);
        assert Released(x.hist[..j], pc.pos - x.capacity) <==> s.cells[k].stamp >= pc.pos;
      }
    } else if x.hist[j].PushFull? {
      var i :| 0 <= i < j && x.hist[..j][i] == ProbedFree(x.acts[j].t, pc.pos, true);
      assert x.hist[i] == ProbedFree(x.acts[j].t, pc.pos, true);
    }
  }

  ghost function Contents<T>(s: State<T>, log: seq<T>): seq<T>
    requires s.head <= s.tail <= |log|
  {
    log[s.head..s.tail]
  }

  // Linearisation: a push takes effect at its claim, a pop at its claim, and every other step
  // leaves the abstract bounded FIFO alone.
  lemma {:induction false} RefinesFifo<T>(s: State<T>, log: seq<T>, a: Action<T>)
    requires Inv(s, log) && Enabled(s, a)
    ensures var (s', e) := Next(s, a);
            var log' := Extend(log, e);
            && s'.head <= s'.tail <= |log'|
            && (e.PushClaimed? ==> |Contents(s, log)| < |s.cells| && Contents(s', log') == Contents(s, log) + [e.v])
            && (e.PopClaimed? ==> Contents(s, log) != [] && Contents(s', log') == Contents(s, log)[1..]
                                  && Contents(s, log)[0] == log[e.pos])
            && (!e.PushClaimed? && !e.PopClaimed? ==> Contents(s', log') == Contents(s, log))
  {
    var t := a.t;
    assert PcOk(s, log, s.pcs[t]);
    var (s', e) := Next(s, a);
    if e.PushClaimed? { TailCell(s, log); }
    else if e.PopClaimed? { HeadCell(s, log); }
  }

  // Why newQueueInst refuses a capacity below 2: on a ring of one cell "published at p" and
  // "free for p + 1" are the same stamp, so a second producer claims over an unread value.
  lemma {:induction false} CapacityOneOverruns<T>(zero: T, a: T, b: T) returns (x: Execution<T>)
    ensures x.Valid() && x.capacity == 1
    ensures var s := x.states[|x.acts|]; s.tail == s.head + 2
  {
    x := Execution(1, zero, {0}, [Init(1, zero, {0})], [], []);
    assert Overrun(0, x.states[0], a, b);
    var k := 0;
    while k < 10
      invariant k <= 10 && |x.acts| == k && x.capacity == 1 && x.Valid() && Overrun(k, x.states[k], a, b)
    {
      var s := x.states[k];
      OverrunStep(k, s, a, b);
      var (s', e) := Next(s, OverrunAct(k, a, b));
      x := x.(states := x.states + [s'], acts := x.acts + [OverrunAct(k, a, b)], hist := x.hist + [e]);
      k := k + 1;
    }
  }

  function OverrunAct<T>(k: nat, a: T, b: T): Action<T> { if k == 0 then BeginPush(0, a) else if k == 6 then BeginPush(0, b) else Run(0) }

  function OverrunPc<T>(k: nat, a: T, b: T): Pc<T> {
    match k
    case 1 => PushLoadTail(a) case 2 => PushLoadSeq(a, 0) case 3 => PushDecide(a, 0, 0) case 4 => PushWrite(a, 0) case 5 => PushPublish(a, 0)
    case 7 => PushLoadTail(b) case 8 => PushLoadSeq(b, 1) case 9 => PushDecide(b, 1, 1) case 10 => PushWrite(b, 1)
    case _ => Idle
  }

  // The state after k steps of the overrun.
  ghost predicate Overrun<T>(k: nat, s: State<T>, a: T, b: T) {
    && |s.cells| == 1 && s.head == 0 && s.pcs.Keys == {0} && s.pcs[0] == OverrunPc(k, a, b)
    && s.tail == (if k <= 3 then 0 else if k <= 9 then 1 else 2) && s.cells[0].stamp == (if k <= 5 then 0 else 1)
  }

  lemma {:induction false} OverrunStep<T>(k: nat, s: State<T>, a: T, b: T)
    requires k < 10 && Overrun(k, s, a, b)
    ensures Enabled(s, OverrunAct(k, a, b)) && Overrun(k + 1, Next(s, OverrunAct(k, a, b)).0, a, b)
  {
  }
}
