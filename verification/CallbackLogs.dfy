/** What the callbacks observe with any number of threads: when exactly each thread's callbacks are those of the
    instrumented instructions it executes, and the two ways in which they are not. */
module CallbackLogs {
  import opened Common
  import opened Instrumentation
  import opened Breakpoints
  import opened BreakpointLog

  // ---------- The log of a thread ----------

  /** The events of one thread. */
  function Of(t: nat, events: seq<(nat, int)>): seq<(nat, int)> {
    if events == [] then []
    else
      var last := events[|events| - 1];
      Of(t, events[..|events| - 1]) + (if last.0 == t then [last] else [])
  }

  lemma OfAppend(t: nat, events: seq<(nat, int)>, e: (nat, int))
    ensures Of(t, events + [e]) == if e.0 == t then Of(t, events) + [e] else Of(t, events)
  {
    assert (events + [e])[..|events|] == events;
  }

  /** The instruction the thread is at, if its callback was made and it has not been executed since. */
  function Here(p: Program, t: nat, th: Thread): seq<(nat, int)> {
    if th.phase.Notified? || (!th.phase.Rearming? && Holds(p, th, th.context.rip)) then [(t, th.context.rip)] else []
  }

  /** The thread's callbacks were made for the instrumented instructions it executed, once each and in order, up to the
      one it is at. */
  predicate Exact(p: Program, t: nat, w: World) {
    t in w.threads ==> Of(t, w.log) == Hits(p, Of(t, w.retired)) + Here(p, t, w.threads[t])
  }

  /** The thread is about to execute an instrumented instruction without a callback, or to have a second one made. */
  predicate Astray(p: Program, t: nat, w: World) {
    && t in w.threads && Instrumented(p.entries, w.threads[t].context.rip)
    && var th := w.threads[t];
       || (th.phase.Running? && !Breaks(w.code, th.context.rip) && !Holds(p, th, th.context.rip))
       || (th.phase.Trapped? && Holds(p, th, th.context.rip))
  }

  ghost predicate Moves(p: Program, t: nat, w: World, w': World) {
    t in w.threads && exists keep :: w' == Step(p, w, t, keep)
  }

  /** Outside the single-step handler what is pending is the instruction the thread is at, and it will be
      single-stepped. */
  predicate AtPending(p: Program, th: Thread) {
    !th.phase.Rearming? ==>
      && (th.pending != [] ==> th.trapFlag)
      && forall k :: 0 <= k < |th.pending| ==>
           th.pending[k] < |p.entries| && p.entries[th.pending[k]].instruction == th.context.rip
  }

  lemma AtPendingHolds(p: Program, th: Thread)
    requires AtPending(p, th) && !th.phase.Rearming?
    ensures Holds(p, th, th.context.rip) <==> th.phase.Disarmed? || th.pending != []
    ensures th.pending != [] ==> Instrumented(p.entries, th.context.rip)
  {
    if th.pending != [] {
      assert p.entries[th.pending[0]].instruction == th.context.rip;
    }
  }

  // ---------- One step ----------

  /** An instruction executed by the thread itself. */
  lemma OwnExecute(p: Program, t: nat, w: World, phase: Phase, keep: bool)
    requires t in w.threads && AtPending(p, w.threads[t]) && Exact(p, t, w)
    requires var th := w.threads[t];
             || (th.phase.Trapped? && phase == Running && !Instrumented(p.entries, th.context.rip))
             || (th.phase.Running? && phase == if th.trapFlag then Rearming(0) else Running)
    ensures var w', th := Execute(p, w, t, phase, keep), w.threads[t];
            && AtPending(p, w'.threads[t])
            && (Exact(p, t, w') <==> (Instrumented(p.entries, th.context.rip) ==> Holds(p, th, th.context.rip)))
  {
    var th, w' := w.threads[t], Execute(p, w, t, phase, keep);
    var r := (t, th.context.rip);
    AtPendingHolds(p, th);
    OfAppend(t, w.retired, r);
    HitsAppend(p, Of(t, w.retired), r);
    if phase == Running {
      AtPendingHolds(p, w'.threads[t]);
    }
  }

  /** A trap and its callback: exact but for a second callback. */
  lemma OwnTrap(p: Program, t: nat, w: World, keep: bool)
    requires t in w.threads && AtPending(p, w.threads[t]) && Exact(p, t, w)
    requires var th := w.threads[t];
             || (th.phase.Running? && Breaks(w.code, th.context.rip))
             || (th.phase.Trapped? && Instrumented(p.entries, th.context.rip))
    ensures AtPending(p, Step(p, w, t, keep).threads[t])
    ensures Exact(p, t, Step(p, w, t, keep)) <==> !Astray(p, t, w)
  {
    AtPendingHolds(p, w.threads[t]);
    AtPendingHolds(p, Step(p, w, t, keep).threads[t]);
    OfAppend(t, w.log, (t, w.threads[t].context.rip));
  }

  /** The rest of the handler neither executes nor calls back, and keeps what Here says. */
  lemma HandlerHere(p: Program, t: nat, w: World, keep: bool)
    requires t in w.threads && AtPending(p, w.threads[t]) && ThreadOk(p, w.threads[t])
    requires !w.threads[t].phase.Running? && !w.threads[t].phase.Trapped?
    ensures var th, th' := w.threads[t], Step(p, w, t, keep).threads[t];
            AtPending(p, th') && Here(p, t, th') == Here(p, t, th)
  {
    var th, th' := w.threads[t], Step(p, w, t, keep).threads[t];
    match th.phase
    case Notified(_) =>
    case Disarmed(i) =>
      assert th'.pending == th.pending + [i] && p.entries[i].instruction == th.context.rip;
      AtPendingHolds(p, th');
    case Rearming(n) =>
      if n == |th.pending| {
        assert th'.pending == [];
      }
  }

  lemma OwnHandler(p: Program, t: nat, w: World, keep: bool)
    requires t in w.threads && AtPending(p, w.threads[t]) && ThreadOk(p, w.threads[t]) && Exact(p, t, w)
    requires !w.threads[t].phase.Running? && !w.threads[t].phase.Trapped?
    ensures AtPending(p, Step(p, w, t, keep).threads[t]) && Exact(p, t, Step(p, w, t, keep))
  {
    HandlerHere(p, t, w, keep);
  }

  /** A thread's own step keeps its log exact if and only if it was not astray. */
  lemma OwnStep(p: Program, t: nat, w: World, keep: bool)
    requires t in w.threads && AtPending(p, w.threads[t]) && ThreadOk(p, w.threads[t]) && Exact(p, t, w)
    ensures AtPending(p, Step(p, w, t, keep).threads[t])
    ensures Exact(p, t, Step(p, w, t, keep)) <==> !Astray(p, t, w)
  {
    var th := w.threads[t];
    if th.phase.Running? && !Breaks(w.code, th.context.rip) {
      OwnExecute(p, t, w, if th.trapFlag then Rearming(0) else Running, !th.trapFlag || keep);
    } else if th.phase.Trapped? && !Instrumented(p.entries, th.context.rip) {
      OwnExecute(p, t, w, Running, true);
    } else if th.phase.Running? || th.phase.Trapped? {
      OwnTrap(p, t, w, keep);
    } else {
      OwnHandler(p, t, w, keep);
    }
  }

  /** The step of another thread does not concern it. */
  lemma OtherStep(p: Program, t: nat, u: nat, w: World, keep: bool)
    requires t in w.threads && u in w.threads && u != t
    ensures t in Step(p, w, u, keep).threads && Step(p, w, u, keep).threads[t] == w.threads[t]
    ensures Exact(p, t, Step(p, w, u, keep)) <==> Exact(p, t, w)
  {
    assert Step(p, w, u, keep).threads[t] == w.threads[t];
    OtherEvents(p, t, u, w, keep);
  }

  lemma OtherEvents(p: Program, t: nat, u: nat, w: World, keep: bool)
    requires u in w.threads && u != t
    ensures Of(t, Step(p, w, u, keep).log) == Of(t, w.log) && Of(t, Step(p, w, u, keep).retired) == Of(t, w.retired)
  {
    var rip := w.threads[u].context.rip;
    OfAppend(t, w.log, (u, rip));
    OfAppend(t, w.retired, (u, rip));
  }

  // ---------- Whole runs ----------

  ghost predicate Follows(p: Program, t: nat, w: World) {
    Invariant(p, w) && t in w.threads && AtPending(p, w.threads[t])
  }

  /** What makes a step the thread's own. */
  lemma OnlyMover(p: Program, t: nat, u: nat, w: World, keep: bool)
    requires t in w.threads && AtPending(p, w.threads[t]) && ThreadOk(p, w.threads[t]) && Exact(p, t, w)
    requires u in w.threads && u != t && Moves(p, t, w, Step(p, w, u, keep))
    ensures !Astray(p, t, w)
  {
    OtherStep(p, t, u, w, keep);
    var k :| Step(p, w, u, keep) == Step(p, w, t, k);
    OwnStep(p, t, w, k);
  }

  lemma StepExact(p: Program, t: nat, u: nat, w: World, keep: bool)
    requires t in w.threads && AtPending(p, w.threads[t]) && ThreadOk(p, w.threads[t]) && Exact(p, t, w)
    requires u in w.threads
    ensures var w' := Step(p, w, u, keep);
            && t in w'.threads && AtPending(p, w'.threads[t])
            && (Exact(p, t, w') <==> !(Astray(p, t, w) && Moves(p, t, w, w')))
  {
    if u == t {
      OwnStep(p, t, w, keep);
    } else {
      OtherStep(p, t, u, w, keep);
      if Moves(p, t, w, Step(p, w, u, keep)) {
        OnlyMover(p, t, u, w, keep);
      }
    }
  }

  lemma NextExact(p: Program, t: nat, w: World, w': World)
    requires t in w.threads && AtPending(p, w.threads[t]) && ThreadOk(p, w.threads[t]) && Exact(p, t, w)
    requires Next(p, w, w')
    ensures t in w'.threads && AtPending(p, w'.threads[t])
    ensures Exact(p, t, w') <==> !(Astray(p, t, w) && Moves(p, t, w, w'))
  {
    var u, keep :| u in w.threads && w' == Step(p, w, u, keep);
    StepExact(p, t, u, w, keep);
  }

  /** The log is exact in every state of the run. */
  ghost predicate AlwaysExact(p: Program, t: nat, ws: seq<World>) {
    ws == [] || (AlwaysExact(p, t, ws[..|ws| - 1]) && Exact(p, t, ws[|ws| - 1]))
  }

  /** No step the thread takes in the run finds it astray. */
  ghost predicate NeverAstray(p: Program, t: nat, ws: seq<World>) {
    |ws| <= 1 || (NeverAstray(p, t, ws[..|ws| - 1])
                  && !(Astray(p, t, ws[|ws| - 2]) && Moves(p, t, ws[|ws| - 2], ws[|ws| - 1])))
  }

  /** The exact condition, for any number of threads: a thread's callbacks are those of the instrumented instructions it
      executes throughout a run if and only if it never moves while astray, that is, whenever it executes an
      instrumented instruction it holds the breakpoint, and whenever it traps on one it does not. */
  lemma {:induction false} LogExactly(p: Program, t: nat, ws: seq<World>)
    requires Sound(p) && Execution(p, ws) && Initial(p, ws[0]) && t in ws[0].threads
    ensures AlwaysExact(p, t, ws) <==> NeverAstray(p, t, ws)
    ensures NeverAstray(p, t, ws) ==> Follows(p, t, ws[|ws| - 1]) && Exact(p, t, ws[|ws| - 1])
  {
    if |ws| == 1 {
      InitialInvariant(p, ws[0]);
      assert AlwaysExact(p, t, ws[..0]);
    } else {
      var front, w, w' := ws[..|ws| - 1], ws[|ws| - 2], ws[|ws| - 1];
      LogExactly(p, t, front);
      if NeverAstray(p, t, front) {
        NextExact(p, t, w, w');
        NextKeepsInvariant(p, w, w');
      }
    }
  }

  /** ... so it is in each of them. */
  lemma {:induction false} AlwaysExactAt(p: Program, t: nat, ws: seq<World>, k: nat)
    requires AlwaysExact(p, t, ws) && k < |ws|
    ensures Exact(p, t, ws[k])
    decreases |ws|
  {
    if k == |ws| - 1 {
    } else {
      AlwaysExactAt(p, t, ws[..|ws| - 1], k);
    }
  }

  /** A thread that does not hold the breakpoint itself runs over an instrumented instruction without a callback only
      while another thread holds it. */
  lemma {:induction false} SkippedOnlyWhileHeld(p: Program, ws: seq<World>, t: nat)
    requires Sound(p) && Execution(p, ws) && Initial(p, ws[0])
    requires var w := ws[|ws| - 1]; Astray(p, t, w) && w.threads[t].phase.Running?
    ensures var w := ws[|ws| - 1];
            exists u :: u in w.threads && u != t && Holds(p, w.threads[u], w.threads[t].context.rip)
  {
    ExecutionKeepsInvariant(p, ws);
    var w := ws[|ws| - 1];
    assert Held(p, w, w.threads[t].context.rip);
  }

  // ---------- A condition on where threads are ----------

  /** No thread outside the single-step handler is at an instruction whose breakpoint another thread holds. That no two
      threads hold one breakpoint is not enough: in CallbackMissed only one thread ever does. */
  ghost predicate Alone(p: Program, w: World) {
    forall t, u :: t in w.threads && u in w.threads && t != u && !w.threads[t].phase.Rearming? ==>
      !Holds(p, w.threads[u], w.threads[t].context.rip)
  }

  /** No thread was disturbed at its instruction: it traps on a breakpoint only when it does not hold it. */
  ghost predicate Undisturbed(p: Program, w: World, t: nat)
    requires t in w.threads
  {
    var th := w.threads[t];
    && AtPending(p, th)
    && (th.phase.Running? && th.pending != [] ==> !Breaks(w.code, th.context.rip))
    && (th.phase.Trapped? || th.phase.Notified? ==> th.pending == [])
    && (th.phase.Disarmed? ==> !Breaks(w.code, th.context.rip))
  }

  ghost predicate AllUndisturbed(p: Program, w: World) {
    forall t :: t in w.threads ==> Undisturbed(p, w, t)
  }

  lemma UndisturbedStep(p: Program, w: World, t: nat, keep: bool)
    requires Sound(p) && NoOwnInt3(p) && t in w.threads && ThreadOk(p, w.threads[t]) && Undisturbed(p, w, t)
    ensures Undisturbed(p, Step(p, w, t, keep), t)
  {
    var th := w.threads[t];
    if !th.phase.Rearming? {
      AtPendingHolds(p, th);
    }
  }

  /** Another thread writes a breakpoint only where it holds the breakpoint. */
  lemma UndisturbedByOther(p: Program, w: World, t: nat, u: nat, keep: bool)
    requires Sound(p) && NoOwnInt3(p) && t in w.threads && u in w.threads && u != t && ThreadOk(p, w.threads[u])
    requires Undisturbed(p, w, t) && Alone(p, w)
    ensures Undisturbed(p, Step(p, w, u, keep), t)
  {
    var th, other := w.threads[t], w.threads[u];
    if other.phase.Rearming? && other.phase.next < |other.pending| {
      var x := p.entries[other.pending[other.phase.next]].instruction;
      assert Holds(p, other, x);
      assert th.phase.Rearming? || th.context.rip != x;
    }
  }

  lemma NextUndisturbed(p: Program, w: World, w': World)
    requires Sound(p) && NoOwnInt3(p) && Invariant(p, w) && AllUndisturbed(p, w) && Alone(p, w) && Next(p, w, w')
    ensures AllUndisturbed(p, w')
  {
    var u, keep :| u in w.threads && w' == Step(p, w, u, keep);
    forall t | t in w'.threads ensures Undisturbed(p, w', t) {
      if t == u {
        UndisturbedStep(p, w, t, keep);
      } else {
        UndisturbedByOther(p, w, t, u, keep);
      }
    }
  }

  lemma AloneNotAstray(p: Program, w: World, t: nat)
    requires Invariant(p, w) && AllUndisturbed(p, w) && Alone(p, w)
    ensures !Astray(p, t, w)
  {
    if t in w.threads && !w.threads[t].phase.Rearming? {
      AtPendingHolds(p, w.threads[t]);
    }
  }

  lemma {:induction false} AloneNeverAstray(p: Program, t: nat, ws: seq<World>)
    requires Sound(p) && NoOwnInt3(p) && Execution(p, ws) && Initial(p, ws[0])
    requires forall k :: 0 <= k < |ws| ==> Alone(p, ws[k])
    ensures AllUndisturbed(p, ws[|ws| - 1]) && NeverAstray(p, t, ws)
  {
    if |ws| == 1 {
    } else {
      var front, w := ws[..|ws| - 1], ws[|ws| - 2];
      AloneNeverAstray(p, t, front);
      ExecutionKeepsInvariant(p, front);
      AloneNotAstray(p, w, t);
      NextUndisturbed(p, w, ws[|ws| - 1]);
    }
  }

  /** If no thread ever comes to an instruction another one holds, every thread's callbacks are exact in every state. */
  lemma AloneIsExact(p: Program, t: nat, ws: seq<World>)
    requires Sound(p) && NoOwnInt3(p) && Execution(p, ws) && Initial(p, ws[0]) && t in ws[0].threads
    requires forall k :: 0 <= k < |ws| ==> Alone(p, ws[k])
    ensures forall k :: 0 <= k < |ws| ==> Exact(p, t, ws[k])
  {
    AloneNeverAstray(p, t, ws);
    LogExactly(p, t, ws);
    forall k | 0 <= k < |ws| ensures Exact(p, t, ws[k]) {
      AlwaysExactAt(p, t, ws, k);
    }
  }

  // ---------- Two threads ----------

  /** A program of one-byte instructions, each moving on to the next address, with a breakpoint at 0. */
  function Straight(): Program {
    Program(Isa((v: seq<byte>) => 1, (v: seq<byte>, c: Context, m: Memory) => (c.(rip := c.rip + 1), m)),
            (x: int) => 0x90, [CodeInstrumentation(0, 0x90)])
  }

  /** Threads 0 and 1 about to execute the instrumented instruction. */
  function TwoThreads(): World {
    var th := Thread(Context(0, []), false, [], Running);
    World((x: int) => if x == 0 then INT3 else 0x90, map[0 := th, 1 := th], map[], [], [])
  }

  lemma StraightSound()
    ensures Sound(Straight()) && NoOwnInt3(Straight()) && Initial(Straight(), TwoThreads())
    ensures AtStarts(Straight(), Project(TwoThreads())) && Instrumented(Straight().entries, 0)
    ensures Reaches(Straight(), TwoThreads(), TwoThreads())
  {
    ReachesSelf(Straight(), TwoThreads());
  }

  /** A callback can be missed: thread 1 executes the instrumented instruction and none is made for it, because thread 0
      is between restoring the byte and arming it again. */
  lemma CallbackMissed() returns (w': World)
    ensures Reaches(Straight(), TwoThreads(), w')
    ensures w'.retired == [(1, 0)] && w'.log == [(0, 0)] && Instrumented(Straight().entries, 0)
  {
    var p, w := Straight(), TwoThreads();
    StraightSound();
    ReachesServed(p, w, w, 0);
    var w1 := Served(p, w, 0);
    w' := Execute(p, w1, 1, Running, true);
    assert w1.threads[1] == w.threads[1] && w1.code(0) == 0x90;
    ReachesPhase(p, w, w1, w', 1);
  }

  /** Both threads have trapped and been called back, thread 0 has executed and armed the breakpoint again. */
  lemma RearmedUnderThread1() returns (w: World)
    ensures Reaches(Straight(), TwoThreads(), w) && 1 in w.threads
    ensures w.threads[1] == Thread(Context(0, []), true, [0], Running) && Breaks(w.code, 0)
    ensures w.retired == [(0, 0)] && w.log == [(0, 0), (1, 0)]
  {
    var p, w0 := Straight(), TwoThreads();
    StraightSound();
    // thread 1 traps before thread 0 restores the byte
    var w1 := Step(p, w0, 1, false);
    ReachesStep(p, w0, w0, 1);
    assert w1.threads[0] == w0.threads[0];
    ReachesServed(p, w0, w1, 0);
    var w2 := Served(p, w1, 0);
    assert w2.threads[1] == Thread(Context(0, []), false, [], Trapped) && w2.threads[0].pending == [0];
    var w5 := BothServed(w2);
    w := RearmedFirst(w5);
  }

  lemma BothServed(w2: World) returns (w5: World)
    requires Reaches(Straight(), TwoThreads(), w2) && 0 in w2.threads && 1 in w2.threads
    requires w2.threads[1] == Thread(Context(0, []), false, [], Trapped)
    requires w2.code(0) == 0x90 && w2.retired == [] && w2.log == [(0, 0)]
    ensures Reaches(Straight(), TwoThreads(), w5) && 0 in w5.threads && 1 in w5.threads
    ensures w5.threads[0] == w2.threads[0] && w5.threads[1] == Thread(Context(0, []), true, [0], Running)
    ensures w5.code(0) == 0x90 && w5.retired == [] && w5.log == [(0, 0), (1, 0)]
  {
    var p, w0 := Straight(), TwoThreads();
    var w3 := Step(p, w2, 1, false);
    ReachesStep(p, w0, w2, 1);
    w5 := DisarmedAndPending(w3);
  }

  lemma DisarmedAndPending(w3: World) returns (w5: World)
    requires Reaches(Straight(), TwoThreads(), w3) && 0 in w3.threads && 1 in w3.threads
    requires w3.threads[1] == Thread(Context(0, []), false, [], Notified(0))
    ensures Reaches(Straight(), TwoThreads(), w5) && 0 in w5.threads && 1 in w5.threads
    ensures w5.threads[0] == w3.threads[0] && w5.threads[1] == Thread(Context(0, []), true, [0], Running)
    ensures w5.code(0) == 0x90 && w5.retired == w3.retired && w5.log == w3.log
  {
    var p, w0 := Straight(), TwoThreads();
    var w4 := Step(p, w3, 1, false);
    ReachesStep(p, w0, w3, 1);
    w5 := Step(p, w4, 1, false);
    ReachesStep(p, w0, w4, 1);
  }

  lemma RearmedFirst(w5: World) returns (w: World)
    requires Reaches(Straight(), TwoThreads(), w5) && 0 in w5.threads && 1 in w5.threads
    requires w5.threads[0] == w5.threads[1] == Thread(Context(0, []), true, [0], Running)
    requires w5.code(0) == 0x90 && w5.retired == []
    ensures Reaches(Straight(), TwoThreads(), w) && 1 in w.threads
    ensures w.threads[1] == w5.threads[1] && Breaks(w.code, 0) && w.retired == [(0, 0)] && w.log == w5.log
  {
    var p, w0 := Straight(), TwoThreads();
    var w6 := Step(p, w5, 0, false);
    ReachesStep(p, w0, w5, 0);
    w := ReachesRearmed(p, w0, w6, 0);
    assert w6.threads[0].pending[..0] == [];
  }

  /** A callback can be made twice: thread 0 arms the breakpoint again between thread 1's callback and its single step,
      so thread 1 traps once more and is called back twice for the one instruction it executes. None is missed. */
  lemma CallbackTwice() returns (w': World)
    ensures Reaches(Straight(), TwoThreads(), w')
    ensures w'.retired == [(0, 0), (1, 0)] && w'.log == [(0, 0), (1, 0), (1, 0)]
  {
    var p, w0 := Straight(), TwoThreads();
    var w := RearmedUnderThread1();
    StraightSound();
    ReachesServed(p, w0, w, 1);
    var w1 := Served(p, w, 1);
    assert w1.threads[1].trapFlag && w1.code(0) == 0x90;
    ReachesStep(p, w0, w1, 1);
    w' := Step(p, w1, 1, false);
  }
}
