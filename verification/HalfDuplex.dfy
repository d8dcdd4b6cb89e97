/**
  Two deterministic ends that talk over a pair of in-order channels, where at every moment of
  the conversation at most one of them is about to write.  Whatever the interleaving, and
  however many frames wait in the channels, both ends only ever go through the states of the
  one conversation in which every frame is read as soon as it is written.
*/
module HalfDuplex {

  datatype Mode = Writes | Waits | Over

  // C, S: states of the two ends; W: frames.  pc, ps: their states along the conversation.
  datatype System<!C, !S, !W> = System(
    cMode: C -> Mode, cOut: C -> W, cSent: C -> C, cGot: (C, W) -> C, cEof: C -> C,
    sMode: S -> Mode, sOut: S -> W, sSent: S -> S, sGot: (S, W) -> S, sEof: S -> S,
    pc: nat -> C, ps: nat -> S)
  {
    // What one step of the conversation does to the two ends.
    ghost predicate Law(c: C, s: S, c': C, s': S) {
      && !(cMode(c).Writes? && sMode(s).Writes?) && !(cMode(c).Waits? && sMode(s).Waits?)
      && (cMode(c).Writes? ==> c' == cSent(c)) && (sMode(s).Writes? ==> s' == sSent(s))
      && (cMode(c).Writes? && sMode(s).Waits? ==> s' == sGot(s, cOut(c)))
      && (sMode(s).Writes? && cMode(c).Waits? ==> c' == cGot(c, sOut(s)))
      && (cMode(c).Over? ==> c' == c) && (sMode(s).Over? ==> s' == s)
      && (cMode(c).Waits? && sMode(s).Over? ==> c' == cEof(c))
      && (sMode(s).Waits? && cMode(c).Over? ==> s' == sEof(s))
    }

    ghost predicate StepLaw(k: nat) { Law(pc(k), ps(k), pc(k + 1), ps(k + 1)) }

    ghost predicate Lawful() { forall k: nat {:trigger StepLaw(k)} :: StepLaw(k) }
  }

  // cs, sc: frames written and not yet read, oldest first.
  datatype Net<C, S, W> = Net(c: C, s: S, cs: seq<W>, sc: seq<W>)

  ghost predicate ClientMoves<C, S, W>(sys: System<C, S, W>, n: Net<C, S, W>, n': Net<C, S, W>) {
    n'.s == n.s &&
    match sys.cMode(n.c)
    case Writes => n'.c == sys.cSent(n.c) && n'.cs == n.cs + [sys.cOut(n.c)] && n'.sc == n.sc
    case Waits =>
      && n'.cs == n.cs
      && if n.sc != [] then n'.c == sys.cGot(n.c, n.sc[0]) && n'.sc == n.sc[1..]
         else sys.sMode(n.s).Over? && n'.c == sys.cEof(n.c) && n'.sc == n.sc
    case Over => false
  }

  ghost predicate ServerMoves<C, S, W>(sys: System<C, S, W>, n: Net<C, S, W>, n': Net<C, S, W>) {
    n'.c == n.c &&
    match sys.sMode(n.s)
    case Writes => n'.s == sys.sSent(n.s) && n'.sc == n.sc + [sys.sOut(n.s)] && n'.cs == n.cs
    case Waits =>
      && n'.sc == n.sc
      && if n.cs != [] then n'.s == sys.sGot(n.s, n.cs[0]) && n'.cs == n.cs[1..]
         else sys.cMode(n.c).Over? && n'.s == sys.sEof(n.s) && n'.cs == n.cs
    case Over => false
  }

  ghost predicate Moves<C, S, W>(sys: System<C, S, W>, n: Net<C, S, W>, n': Net<C, S, W>) {
    ClientMoves(sys, n, n') || ServerMoves(sys, n, n')
  }

  ghost predicate MovesAt<C, S, W>(sys: System<C, S, W>, run: seq<Net<C, S, W>>, i: nat)
    requires i + 1 < |run|
  {
    Moves(sys, run[i], run[i+1])
  }

  ghost predicate Run<C, S, W>(sys: System<C, S, W>, run: seq<Net<C, S, W>>) {
    && |run| > 0 && run[0] == Net(sys.pc(0), sys.ps(0), [], [])
    && forall i: nat :: i + 1 < |run| ==> MovesAt(sys, run, i)
  }

  ghost predicate ClientAhead<C, S, W>(sys: System<C, S, W>, frames: seq<W>, from: nat, to: nat)
    requires from <= to
  {
    && |frames| == to - from
    && forall k: nat {:trigger sys.pc(k)} :: from <= k < to ==>
         sys.cMode(sys.pc(k)).Writes? && frames[k - from] == sys.cOut(sys.pc(k))
  }

  ghost predicate ServerAhead<C, S, W>(sys: System<C, S, W>, frames: seq<W>, from: nat, to: nat)
    requires from <= to
  {
    && |frames| == to - from
    && forall k: nat {:trigger sys.ps(k)} :: from <= k < to ==>
         sys.sMode(sys.ps(k)).Writes? && frames[k - from] == sys.sOut(sys.ps(k))
  }

  // The client has taken a steps of the conversation and the server b; the channels hold the
  // steps by which one is ahead.  Frames for an end that is over are of no interest.
  ghost predicate Lockstep<C, S, W>(sys: System<C, S, W>, n: Net<C, S, W>, a: nat, b: nat) {
    && n.c == sys.pc(a) && n.s == sys.ps(b)
    && (b <= a ==> n.sc == [] && (!sys.sMode(n.s).Over? ==> ClientAhead(sys, n.cs, b, a)))
    && (a <= b ==> n.cs == [] && (!sys.cMode(n.c).Over? ==> ServerAhead(sys, n.sc, a, b)))
  }

  lemma {:induction false} StaysOver<C, S, W>(sys: System<C, S, W>, k: nat, m: nat)
    requires sys.Lawful() && k <= m
    ensures sys.cMode(sys.pc(k)).Over? ==> sys.pc(m) == sys.pc(k)
    ensures sys.sMode(sys.ps(k)).Over? ==> sys.ps(m) == sys.ps(k)
    decreases m
  {
    if k < m {
      StaysOver(sys, k, m - 1);
      assert sys.StepLaw(m - 1);
    }
  }

  lemma {:induction false} ClientStaysInStep<C, S, W>(sys: System<C, S, W>, n: Net<C, S, W>, n': Net<C, S, W>, a: nat, b: nat)
    requires sys.Lawful() && Lockstep(sys, n, a, b) && ClientMoves(sys, n, n')
    ensures Lockstep(sys, n', a + 1, b)
  {
    assert sys.StepLaw(a);
    if b <= a {
      if sys.sMode(n.s).Over? { StaysOver(sys, b, a); }
    } else {
      assert sys.sMode(sys.ps(a)).Writes?;
    }
  }

  lemma {:induction false} ServerStaysInStep<C, S, W>(sys: System<C, S, W>, n: Net<C, S, W>, n': Net<C, S, W>, a: nat, b: nat)
    requires sys.Lawful() && Lockstep(sys, n, a, b) && ServerMoves(sys, n, n')
    ensures Lockstep(sys, n', a, b + 1)
  {
    assert sys.StepLaw(b);
    if a <= b {
      if sys.cMode(n.c).Over? { StaysOver(sys, a, b); }
    } else {
      assert sys.cMode(sys.pc(b)).Writes?;
    }
  }

  // Every interleaving stays in step with the conversation, and each of its moves advances one
  // end by one step; an end only moves from steps in which it is not over.
  lemma {:induction false} AlwaysInStep<C, S, W>(sys: System<C, S, W>, run: seq<Net<C, S, W>>) returns (a: nat, b: nat)
    requires sys.Lawful() && Run(sys, run)
    ensures Lockstep(sys, run[|run|-1], a, b) && a + b == |run| - 1
    ensures a > 0 ==> !sys.cMode(sys.pc(a - 1)).Over?
    ensures b > 0 ==> !sys.sMode(sys.ps(b - 1)).Over?
  {
    if |run| == 1 {
      a, b := 0, 0;
    } else {
      var init := run[..|run|-1];
      forall i: nat | i + 1 < |init| ensures MovesAt(sys, init, i) { assert MovesAt(sys, run, i); }
      a, b := AlwaysInStep(sys, init);
      var n, n' := init[|init|-1], run[|run|-1];
      assert MovesAt(sys, run, |run| - 2);
      if ClientMoves(sys, n, n') {
        ClientStaysInStep(sys, n, n', a, b);
        a := a + 1;
      } else {
        ServerStaysInStep(sys, n, n', a, b);
        b := b + 1;
      }
    }
  }

  // If both ends are over from step `limit` of the conversation on, every run is short.
  lemma {:induction false} RunsAreShort<C, S, W>(sys: System<C, S, W>, run: seq<Net<C, S, W>>, limit: nat) returns (a: nat, b: nat)
    requires sys.Lawful() && Run(sys, run)
    requires forall k: nat {:trigger sys.pc(k)} :: k >= limit ==> sys.cMode(sys.pc(k)).Over?
    requires forall k: nat {:trigger sys.ps(k)} :: k >= limit ==> sys.sMode(sys.ps(k)).Over?
    ensures Lockstep(sys, run[|run|-1], a, b) && a + b == |run| - 1 && a <= limit && b <= limit
  {
    a, b := AlwaysInStep(sys, run);
  }

  // While neither end is over: the lead in steps is the number of frames in flight, in one
  // direction only, and the i-th of them is the frame of step (receiver's step + i).
  lemma {:induction false} InFlight<C, S, W>(sys: System<C, S, W>, n: Net<C, S, W>, a: nat, b: nat)
    requires Lockstep(sys, n, a, b) && !sys.cMode(n.c).Over? && !sys.sMode(n.s).Over?
    ensures |n.cs| - |n.sc| == a - b && (n.cs == [] || n.sc == [])
    ensures forall i: nat :: i < |n.cs| ==> sys.cMode(sys.pc(b + i)).Writes? && n.cs[i] == sys.cOut(sys.pc(b + i))
    ensures forall i: nat :: i < |n.sc| ==> sys.sMode(sys.ps(a + i)).Writes? && n.sc[i] == sys.sOut(sys.ps(a + i))
  {
  }

  // As long as one end is not over, some end can move: there is no deadlock.
  lemma {:induction false} SomeoneMoves<C, S, W>(sys: System<C, S, W>, n: Net<C, S, W>, a: nat, b: nat) returns (n': Net<C, S, W>)
    requires sys.Lawful() && Lockstep(sys, n, a, b) && !(sys.cMode(n.c).Over? && sys.sMode(n.s).Over?)
    ensures Moves(sys, n, n')
  {
    assert sys.StepLaw(a) && sys.StepLaw(b);
    if sys.cMode(n.c).Writes? { n' := Net(sys.cSent(n.c), n.s, n.cs + [sys.cOut(n.c)], n.sc); }
    else if sys.sMode(n.s).Writes? { n' := Net(n.c, sys.sSent(n.s), n.cs, n.sc + [sys.sOut(n.s)]); }
    else if sys.cMode(n.c).Waits? && n.sc != [] { n' := Net(sys.cGot(n.c, n.sc[0]), n.s, n.cs, n.sc[1..]); }
    else if sys.sMode(n.s).Waits? && n.cs != [] { n' := Net(n.c, sys.sGot(n.s, n.cs[0]), n.cs[1..], n.sc); }
    else if sys.cMode(n.c).Waits? { n' := Net(sys.cEof(n.c), n.s, n.cs, n.sc); }
    else { n' := Net(n.c, sys.sEof(n.s), n.cs, n.sc); }
  }

  lemma {:induction false} OneMoreMove<C, S, W>(sys: System<C, S, W>, run: seq<Net<C, S, W>>, n': Net<C, S, W>)
    requires Run(sys, run) && Moves(sys, run[|run|-1], n')
    ensures Run(sys, run + [n'])
  {
    var longer := run + [n'];
    forall i: nat | i + 1 < |longer| ensures MovesAt(sys, longer, i) {
      if i + 1 < |run| { assert MovesAt(sys, run, i); }
    }
  }
}
