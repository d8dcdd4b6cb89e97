/**
  Whole calls on the ring: what a producer or a consumer has done between entering Push or Pop
  and returning from it, read off the actions and the history of an execution.
*/
module MpmcCalls {
  import opened Arith
  import opened MpmcSteps

  // ----- Calls -----

  ghost predicate Pushing<T>(pc: Pc<T>) {
    pc.PushLoadTail? || pc.PushLoadSeq? || pc.PushDecide? || pc.PushWrite? || pc.PushPublish?
  }

  ghost predicate Popping<T>(pc: Pc<T>) {
    pc.PopLoadHead? || pc.PopLoadSeq? || pc.PopDecide? || pc.PopRead? || pc.PopRelease?
  }

  // Thread t begins a call at step b and none between b and k.
  ghost predicate Begins<T>(x: Execution<T>, t: nat, b: nat, k: nat) {
    && b < k <= |x.acts| && x.acts[b].t == t && (x.acts[b].BeginPush? || x.acts[b].BeginPop?)
    && forall i :: b < i < k ==> !(x.acts[i].t == t && (x.acts[i].BeginPush? || x.acts[i].BeginPop?))
  }

  ghost predicate PushClaimAt<T>(x: Execution<T>, t: nat, i: nat) { i < |x.hist| && x.hist[i].PushClaimed? && x.hist[i].t == t }
  ghost predicate PopClaimAt<T>(x: Execution<T>, t: nat, i: nat) { i < |x.hist| && x.hist[i].PopClaimed? && x.hist[i].t == t }

  ghost predicate NoPushClaim<T>(x: Execution<T>, t: nat, b: nat, k: nat) { forall i: nat :: b < i < k ==> !PushClaimAt(x, t, i) }
  ghost predicate NoPopClaim<T>(x: Execution<T>, t: nat, b: nat, k: nat) { forall i: nat :: b < i < k ==> !PopClaimAt(x, t, i) }

  // Between b and k thread t claims exactly one position, at step c.
  ghost predicate OnePushClaim<T>(x: Execution<T>, t: nat, b: nat, k: nat, c: nat, pos: nat, v: T) {
    b < c < k <= |x.hist| && x.hist[c] == PushClaimed(t, pos, v) && forall i: nat :: b < i < k && i != c ==> !PushClaimAt(x, t, i)
  }

  ghost predicate OnePopClaim<T>(x: Execution<T>, t: nat, b: nat, k: nat, c: nat, pos: nat) {
    b < c < k <= |x.hist| && x.hist[c] == PopClaimed(t, pos) && forall i: nat :: b < i < k && i != c ==> !PopClaimAt(x, t, i)
  }

  // Thread t read the stamp of position pos at step j, as seen.
  ghost predicate ReadStamp<T>(x: Execution<T>, t: nat, j: nat, pos: nat, seen: nat) {
    && j < |x.acts| && |x.states| == |x.acts| + 1 && x.acts[j] == Run(t)
    && |x.states[j].cells| > 0 && x.states[j].cells[Slot(pos, |x.states[j].cells|)].stamp == seen
  }

  // ----- Pushing -----

  // What a producer has done since it began, as its program counter tells.
  ghost predicate PushSoFar<T>(x: Execution<T>, t: nat, b: nat, k: nat, pc: Pc<T>)
    requires Pushing(pc)
  {
    && Begins(x, t, b, k) && x.acts[b] == BeginPush(t, pc.v)
    && if PushOwner(pc) then exists c :: OnePushClaim(x, t, b, k, c, pc.pos, pc.v) else NoPushClaim(x, t, b, k)
  }

  lemma {:induction false} PushGoesOn<T>(x: Execution<T>, t: nat, b: nat, k: nat, pc: Pc<T>, pc': Pc<T>)
    requires Pushing(pc) && Pushing(pc') && pc'.v == pc.v && PushSoFar(x, t, b, k, pc) && k < |x.acts| == |x.hist|
    requires !(x.acts[k].t == t && (x.acts[k].BeginPush? || x.acts[k].BeginPop?))
    requires PushOwner(pc) ==> PushOwner(pc') && pc'.pos == pc.pos && !PushClaimAt(x, t, k)
    requires !PushOwner(pc) && PushOwner(pc') ==> x.hist[k] == PushClaimed(t, pc'.pos, pc.v)
    requires !PushOwner(pc) && !PushOwner(pc') ==> !PushClaimAt(x, t, k)
    ensures PushSoFar(x, t, b, k + 1, pc')
  {
    if PushOwner(pc) {
      var c :| OnePushClaim(x, t, b, k, c, pc.pos, pc.v);
      assert OnePushClaim(x, t, b, k + 1, c, pc'.pos, pc'.v);
    } else if PushOwner(pc') {
      assert OnePushClaim(x, t, b, k + 1, k, pc'.pos, pc'.v);
    }
  }

  lemma {:induction false} PushSince<T>(x: Execution<T>, k: nat, t: nat) returns (b: nat)
    requires x.Valid() && k <= |x.acts| && t in x.states[k].pcs && Pushing(x.states[k].pcs[t])
    ensures PushSoFar(x, t, b, k, x.states[k].pcs[t])
  {
    if k > 0 {
      var s, s' := x.states[k-1], x.states[k];
      assert StepsTo(s, x.acts[k-1], s', x.hist[k-1]);
      if x.acts[k-1] == BeginPush(t, s'.pcs[t].v) {
        b := k - 1;
      } else {
        b := PushSince(x, k - 1, t);
        PushGoesOn(x, t, b, k - 1, s.pcs[t], s'.pcs[t]);
      }
    }
  }

  // A push that returns reports full and has claimed nothing, or is done and has claimed exactly
  // one position with its value: no value is dropped on the way.
  lemma {:induction false} PushReturns<T>(x: Execution<T>, k: nat, t: nat) returns (b: nat, c: nat)
    requires x.Valid() && k < |x.acts| && t in x.states[k].pcs && t in x.states[k+1].pcs
    requires Pushing(x.states[k].pcs[t]) && x.states[k+1].pcs[t].Idle?
    ensures Begins(x, t, b, k) && x.acts[b] == BeginPush(t, x.states[k].pcs[t].v)
    ensures || (exists pos: nat :: x.hist[k] == PushFull(t, pos) && NoPushClaim(x, t, b, k))
            || (exists pos: nat :: x.hist[k] == PushDone(t, pos) && OnePushClaim(x, t, b, k, c, pos, x.states[k].pcs[t].v))
  {
    b := PushSince(x, k, t);
    c := 0;
    var pc := x.states[k].pcs[t];
    assert StepsTo(x.states[k], x.acts[k], x.states[k+1], x.hist[k]);
    if PushOwner(pc) {
      c :| OnePushClaim(x, t, b, k, c, pc.pos, pc.v);
      assert x.hist[k] == PushDone(t, pc.pos);
    } else {
      assert x.hist[k] == PushFull(t, pc.pos);
    }
  }

  // ----- Popping -----

  ghost predicate PopSoFar<T>(x: Execution<T>, t: nat, b: nat, k: nat, pc: Pc<T>) {
    && Begins(x, t, b, k) && x.acts[b] == BeginPop(t)
    && (if PopOwner(pc) then exists c :: OnePopClaim(x, t, b, k, c, pc.pos) else NoPopClaim(x, t, b, k))
    && (pc.PopDecide? ==> exists j :: b < j < k && ReadStamp(x, t, j, pc.pos, pc.seen))
  }

  lemma {:induction false} PopGoesOn<T>(x: Execution<T>, t: nat, b: nat, k: nat, pc: Pc<T>, pc': Pc<T>)
    requires Popping(pc) && Popping(pc') && PopSoFar(x, t, b, k, pc) && k < |x.acts| == |x.hist|
    requires !(x.acts[k].t == t && (x.acts[k].BeginPush? || x.acts[k].BeginPop?))
    requires PopOwner(pc) ==> PopOwner(pc') && pc'.pos == pc.pos && !PopClaimAt(x, t, k)
    requires !PopOwner(pc) && PopOwner(pc') ==> x.hist[k] == PopClaimed(t, pc'.pos)
    requires !PopOwner(pc) && !PopOwner(pc') ==> !PopClaimAt(x, t, k)
    requires pc'.PopDecide? ==> pc' == pc || ReadStamp(x, t, k, pc'.pos, pc'.seen)
    ensures PopSoFar(x, t, b, k + 1, pc')
  {
    if PopOwner(pc) {
      var c :| OnePopClaim(x, t, b, k, c, pc.pos);
      assert OnePopClaim(x, t, b, k + 1, c, pc'.pos);
    } else if PopOwner(pc') {
      assert OnePopClaim(x, t, b, k + 1, k, pc'.pos);
    }
    if pc'.PopDecide? && pc' == pc {
      var j :| b < j < k && ReadStamp(x, t, j, pc.pos, pc.seen);
      assert b < j < k + 1;
    }
  }

  // A step that leaves t popping, other than its begin, found t popping and claims at most once.
  lemma {:induction false} PopStep<T>(s: State<T>, act: Action<T>, s': State<T>, e: Event<T>, t: nat)
    requires StepsTo(s, act, s', e) && t in s'.pcs && Popping(s'.pcs[t]) && act != BeginPop(t)
    ensures t in s.pcs && Popping(s.pcs[t]) && !(act.t == t && (act.BeginPush? || act.BeginPop?))
    ensures var pc, pc' := s.pcs[t], s'.pcs[t];
            && (PopOwner(pc) ==> PopOwner(pc') && pc'.pos == pc.pos && !(e.PopClaimed? && e.t == t))
            && (!PopOwner(pc) && PopOwner(pc') ==> e == PopClaimed(t, pc'.pos))
            && (!PopOwner(pc) && !PopOwner(pc') ==> !(e.PopClaimed? && e.t == t))
            && (pc'.PopDecide? && pc' != pc ==> act == Run(t) && |s.cells| > 0 && s.cells[Slot(pc'.pos, |s.cells|)].stamp == pc'.seen)
  {
  }

  lemma {:induction false} PopSince<T>(x: Execution<T>, k: nat, t: nat) returns (b: nat)
    requires x.Valid() && k <= |x.acts| && t in x.states[k].pcs && Popping(x.states[k].pcs[t])
    ensures PopSoFar(x, t, b, k, x.states[k].pcs[t])
  {
    if k > 0 {
      var s, s' := x.states[k-1], x.states[k];
      assert StepsTo(s, x.acts[k-1], s', x.hist[k-1]);
      if x.acts[k-1] == BeginPop(t) {
        b := k - 1;
      } else {
        PopStep(s, x.acts[k-1], s', x.hist[k-1], t);
        b := PopSince(x, k - 1, t);
        PopGoesOn(x, t, b, k - 1, s.pcs[t], s'.pcs[t]);
      }
    }
  }

  // A pop that returns has claimed nothing and had found its position unpublished, or has
  // claimed exactly the one position that it returns from.
  lemma {:induction false} PopReturns<T>(x: Execution<T>, k: nat, t: nat) returns (b: nat, c: nat)
    requires x.Valid() && k < |x.acts| && t in x.states[k].pcs && t in x.states[k+1].pcs
    requires Popping(x.states[k].pcs[t]) && x.states[k+1].pcs[t].Idle?
    ensures Begins(x, t, b, k) && x.acts[b] == BeginPop(t)
    ensures || (exists pos: nat, j: nat, seen: nat :: x.hist[k] == PopEmpty(t, pos) && NoPopClaim(x, t, b, k)
                                                    && b < j < k && ReadStamp(x, t, j, pos, seen) && seen < pos + 1)
            || (exists pos: nat :: x.hist[k].PopDone? && x.hist[k].t == t && x.hist[k].pos == pos && OnePopClaim(x, t, b, k, c, pos))
  {
    b := PopSince(x, k, t);
    c := 0;
    var pc := x.states[k].pcs[t];
    assert StepsTo(x.states[k], x.acts[k], x.states[k+1], x.hist[k]);
    if PopOwner(pc) {
      c :| OnePopClaim(x, t, b, k, c, pc.pos);
      assert x.hist[k].PopDone? && x.hist[k].t == t && x.hist[k].pos == pc.pos;
    } else {
      var j :| b < j < k && ReadStamp(x, t, j, pc.pos, pc.seen);
      assert x.hist[k] == PopEmpty(t, pc.pos);
    }
  }
}
