/** What the callbacks of the breakpoint engine observe when one thread runs, and that every run of the original program
    has its instrumented one. */
module BreakpointLog {
  import opened Common
  import opened Instrumentation
  import opened Breakpoints

  // ---------- One thread ----------

  /** The retired instructions that are instrumented, in order. */
  function Hits(p: Program, retired: seq<(nat, int)>): seq<(nat, int)> {
    if retired == [] then []
    else
      var last := retired[|retired| - 1];
      Hits(p, retired[..|retired| - 1]) + (if Instrumented(p.entries, last.1) then [last] else [])
  }

  lemma HitsAppend(p: Program, retired: seq<(nat, int)>, r: (nat, int))
    ensures Hits(p, retired + [r]) == Hits(p, retired) + if Instrumented(p.entries, r.1) then [r] else []
  {
    assert (retired + [r])[..|retired|] == retired;
  }

  /** Where the one thread is in the round trap, notify, disarm, pend, execute, re-arm. */
  ghost predicate Solo(p: Program, t: nat, w: World) {
    && w.threads.Keys == {t}
    && var th := w.threads[t];
       var here := [(t, th.context.rip)];
       && |th.pending| <= 1
       && match th.phase
          case Running =>
            if th.pending == [] then w.log == Hits(p, w.retired)
            else
              && th.trapFlag && Instrumented(p.entries, th.context.rip) && !Breaks(w.code, th.context.rip)
              && w.log == Hits(p, w.retired) + here
          case Trapped => th.pending == [] && w.log == Hits(p, w.retired)
          case Notified(_) => th.pending == [] && w.log == Hits(p, w.retired) + here
          case Disarmed(_) =>
            && th.pending == [] && Instrumented(p.entries, th.context.rip) && !Breaks(w.code, th.context.rip)
            && w.log == Hits(p, w.retired) + here
          case Rearming(_) => w.log == Hits(p, w.retired)
  }

  /** How far the thread is in that round. */
  function Stage(th: Thread): nat {
    match th.phase
    case Rearming(n) => if n == 0 then 0 else 1
    case Running => if th.pending == [] then 2 else 6
    case Trapped => 3
    case Notified(_) => 4
    case Disarmed(_) => 5
  }

  lemma SoloExecute(p: Program, t: nat, w: World, phase: Phase, keep: bool)
    requires Sound(p) && Invariant(p, w) && Solo(p, t, w)
    requires var th := w.threads[t];
             || (th.phase.Trapped? && phase == Running && !Instrumented(p.entries, th.context.rip))
             || (th.phase.Running? && !Breaks(w.code, th.context.rip)
                 && phase == if th.trapFlag then Rearming(0) else Running)
    ensures Solo(p, t, Execute(p, w, t, phase, keep)) && Progress(t, w, Execute(p, w, t, phase, keep))
  {
    var th := w.threads[t];
    HitsAppend(p, w.retired, (t, th.context.rip));
    assert th.phase.Running? && th.pending == [] ==> !Held(p, w, th.context.rip);
    assert Execute(p, w, t, phase, keep).threads.Keys == {t};
  }

  /** The step retires an instruction or goes on in the round. */
  ghost predicate Progress(t: nat, w: World, w': World) {
    && t in w.threads && t in w'.threads
    && if |w'.retired| == |w.retired| then Stage(w'.threads[t]) > Stage(w.threads[t])
       else |w'.retired| == |w.retired| + 1
  }

  lemma SoloTrap(p: Program, t: nat, w: World, keep: bool)
    requires Solo(p, t, w)
    requires var th := w.threads[t];
             || (th.phase.Running? && Breaks(w.code, th.context.rip))
             || (th.phase.Trapped? && Instrumented(p.entries, th.context.rip))
    ensures Solo(p, t, Step(p, w, t, keep)) && Progress(t, w, Step(p, w, t, keep))
  {
    assert Step(p, w, t, keep).threads.Keys == {t};
  }

  lemma SoloHandler(p: Program, t: nat, w: World, keep: bool)
    requires Sound(p) && NoOwnInt3(p) && Solo(p, t, w) && ThreadOk(p, w.threads[t])
    requires var th := w.threads[t]; !th.phase.Running? && !th.phase.Trapped?
    ensures Solo(p, t, Step(p, w, t, keep)) && Progress(t, w, Step(p, w, t, keep))
  {
    assert Step(p, w, t, keep).threads.Keys == {t};
  }

  lemma SoloStep(p: Program, t: nat, w: World, keep: bool)
    requires Sound(p) && NoOwnInt3(p) && Invariant(p, w) && Solo(p, t, w)
    ensures Solo(p, t, Step(p, w, t, keep)) && Progress(t, w, Step(p, w, t, keep))
  {
    var th := w.threads[t];
    if th.phase.Running? && !Breaks(w.code, th.context.rip) {
      SoloExecute(p, t, w, if th.trapFlag then Rearming(0) else Running, !th.trapFlag || keep);
    } else if th.phase.Trapped? && !Instrumented(p.entries, th.context.rip) {
      SoloExecute(p, t, w, Running, true);
    } else if th.phase.Running? || th.phase.Trapped? {
      SoloTrap(p, t, w, keep);
    } else {
      SoloHandler(p, t, w, keep);
    }
  }

  lemma SoloNext(p: Program, t: nat, w: World, w': World)
    requires Sound(p) && NoOwnInt3(p) && Invariant(p, w) && Solo(p, t, w) && Next(p, w, w')
    ensures Solo(p, t, w')
    ensures 7 * |w'.retired| + Stage(w'.threads[t]) > 7 * |w.retired| + Stage(w.threads[t])
  {
    var u, keep :| u in w.threads && w' == Step(p, w, u, keep);
    SoloStep(p, t, w, keep);
  }

  /** While one thread runs, the log is the list of the instrumented instructions it executed, once each and in order,
      up to the one it is stopped at; and every seven steps it retires an instruction. */
  lemma {:induction false} SoloLog(p: Program, t: nat, ws: seq<World>)
    requires Sound(p) && NoOwnInt3(p) && Execution(p, ws) && Initial(p, ws[0])
    requires ws[0].threads.Keys == {t}
    ensures Solo(p, t, ws[|ws| - 1])
    ensures |ws| - 1 <= 7 * |ws[|ws| - 1].retired| + Stage(ws[|ws| - 1].threads[t])
  {
    if |ws| == 1 {
      assert t in ws[0].threads;
    } else {
      SoloLog(p, t, ws[..|ws| - 1]);
      SoloLast(p, t, ws[..|ws| - 1], ws[|ws| - 1]);
    }
  }

  lemma SoloLast(p: Program, t: nat, ws: seq<World>, w': World)
    requires Sound(p) && NoOwnInt3(p) && Execution(p, ws) && Initial(p, ws[0])
    requires Solo(p, t, ws[|ws| - 1]) && Next(p, ws[|ws| - 1], w')
    ensures Solo(p, t, w')
    ensures 7 * |w'.retired| + Stage(w'.threads[t]) > 7 * |ws[|ws| - 1].retired| + Stage(ws[|ws| - 1].threads[t])
  {
    ExecutionKeepsInvariant(p, ws);
    SoloNext(p, t, ws[|ws| - 1], w');
  }

  // ---------- Every original run is there ----------

  ghost predicate LeadsTo(p: Program, w: World, w': World, ws: seq<World>) {
    Execution(p, ws) && ws[0] == w && ws[|ws| - 1] == w'
  }

  ghost predicate Reaches(p: Program, w: World, w': World) {
    exists ws :: LeadsTo(p, w, w', ws)
  }

  lemma ReachesSelf(p: Program, w: World)
    ensures Reaches(p, w, w)
  {
    assert LeadsTo(p, w, w, [w]);
  }

  lemma ReachesOn(p: Program, w: World, w1: World, w2: World)
    requires Reaches(p, w, w1) && Reaches(p, w1, w2)
    ensures Reaches(p, w, w2)
  {
    var us :| LeadsTo(p, w1, w2, us);
    ReachesAlong(p, w, us);
  }

  lemma ReachesNext(p: Program, w: World, w1: World, w2: World)
    requires Reaches(p, w, w1) && Next(p, w1, w2)
    ensures Reaches(p, w, w2)
  {
    var ws :| LeadsTo(p, w, w1, ws);
    var ws' := ws + [w2];
    assert ws'[..|ws'| - 1] == ws;
    assert LeadsTo(p, w, w2, ws');
  }

  lemma {:induction false} ReachesAlong(p: Program, w: World, us: seq<World>)
    requires Execution(p, us) && Reaches(p, w, us[0])
    ensures Reaches(p, w, us[|us| - 1])
  {
    if |us| == 1 {
    } else {
      ReachesAlong(p, w, us[..|us| - 1]);
      ReachesNext(p, w, us[|us| - 2], us[|us| - 1]);
    }
  }

  lemma ReachesStep(p: Program, w: World, w1: World, t: nat)
    requires Reaches(p, w, w1) && t in w1.threads
    ensures Reaches(p, w, Step(p, w1, t, false))
  {
    ReachesNext(p, w, w1, Step(p, w1, t, false));
  }

  lemma ReachesPhase(p: Program, w: World, w1: World, w2: World, t: nat)
    requires Reaches(p, w, w1) && t in w1.threads && w2 == Step(p, w1, t, false)
    ensures Reaches(p, w, w2)
  {
    ReachesStep(p, w, w1, t);
  }

  /** The state in which thread `t` has an instrumented byte restored and its re-arming pending: the effect of
      Instrumentation's VehHandler on a breakpoint. */
  function Served(p: Program, w: World, t: nat): World
    requires t in w.threads && Instrumented(p.entries, w.threads[t].context.rip)
  {
    var th := w.threads[t];
    var i := FindEntry(p.entries, th.context.rip);
    w.(code := Poke(w.code, th.context.rip, p.entries[i].originalByte),
       threads := w.threads[t := th.(trapFlag := true, pending := th.pending + [i])],
       log := w.log + [(t, th.context.rip)])
  }

  /** Four undisturbed steps serve a breakpoint. */
  lemma ReachesServed(p: Program, w0: World, w: World, t: nat)
    requires Reaches(p, w0, w) && t in w.threads && w.threads[t].phase.Running?
    requires Breaks(w.code, w.threads[t].context.rip) && Instrumented(p.entries, w.threads[t].context.rip)
    ensures Reaches(p, w0, Served(p, w, t))
  {
    var th := w.threads[t];
    var i := FindEntry(p.entries, th.context.rip);
    var w1 := w.(threads := w.threads[t := th.(phase := Trapped)]);
    ReachesPhase(p, w0, w, w1, t);
    var w2 := w.(threads := w.threads[t := th.(phase := Notified(i))], log := w.log + [(t, th.context.rip)]);
    assert w2.threads == w1.threads[t := th.(phase := Notified(i))];
    ReachesPhase(p, w0, w1, w2, t);
    ReachesServedLast(p, w0, w, w2, t);
  }

  lemma ReachesServedLast(p: Program, w0: World, w: World, w2: World, t: nat)
    requires t in w.threads && w.threads[t].phase.Running? && Instrumented(p.entries, w.threads[t].context.rip)
    requires var th := w.threads[t];
             w2 == w.(threads := w.threads[t := th.(phase := Notified(FindEntry(p.entries, th.context.rip)))],
                      log := w.log + [(t, th.context.rip)])
    requires Reaches(p, w0, w2)
    ensures Reaches(p, w0, Served(p, w, t))
  {
    var th := w.threads[t];
    var i := FindEntry(p.entries, th.context.rip);
    var w3 := w2.(code := Poke(w.code, th.context.rip, p.entries[i].originalByte),
                  threads := w.threads[t := th.(phase := Disarmed(i))]);
    assert w3.threads == w2.threads[t := th.(phase := Disarmed(i))];
    ReachesPhase(p, w0, w2, w3, t);
    var w4 := Served(p, w, t);
    assert w4.threads == w3.threads[t := th.(trapFlag := true, pending := th.pending + [i])];
    ReachesPhase(p, w0, w3, w4, t);
  }

  predicate InHandler(p: Program, w: World, t: nat) {
    && t in w.threads && w.threads[t].phase == Rearming(0)
    && forall k :: 0 <= k < |w.threads[t].pending| ==> w.threads[t].pending[k] < |p.entries|
  }

  /** With the first `n` pending callbacks served. */
  function Serving(p: Program, w: World, t: nat, n: nat): World
    requires InHandler(p, w, t) && n <= |w.threads[t].pending|
  {
    w.(code := Rearm(w.code, p.entries, w.threads[t].pending[..n]),
       threads := w.threads[t := w.threads[t].(phase := Rearming(n))])
  }

  lemma ServingNext(p: Program, w: World, t: nat, n: nat)
    requires InHandler(p, w, t) && 0 < n <= |w.threads[t].pending|
    ensures Serving(p, w, t, n) == Step(p, Serving(p, w, t, n - 1), t, false)
  {
    var pending := w.threads[t].pending;
    assert pending[..n][..n - 1] == pending[..n - 1];
    assert Serving(p, w, t, n).threads == Step(p, Serving(p, w, t, n - 1), t, false).threads;
  }

  lemma ServingNone(p: Program, w: World, t: nat)
    requires InHandler(p, w, t)
    ensures Serving(p, w, t, 0) == w
  {
    assert w.threads[t := w.threads[t].(phase := Rearming(0))] == w.threads;
  }

  /** Undisturbed, the single-step handler serves one pending callback after the other ... */
  lemma {:induction false} ReachesServing(p: Program, w0: World, w: World, t: nat, n: nat)
    requires Reaches(p, w0, w) && InHandler(p, w, t) && n <= |w.threads[t].pending|
    ensures Reaches(p, w0, Serving(p, w, t, n))
    decreases n
  {
    if n == 0 {
      ServingNone(p, w, t);
    } else {
      ReachesServing(p, w0, w, t, n - 1);
      ServingNext(p, w, t, n);
      ReachesPhase(p, w0, Serving(p, w, t, n - 1), Serving(p, w, t, n), t);
    }
  }

  /** ... and then is done: the effect of Instrumentation's RunSinglestepCallbacks, whatever was pending. */
  lemma ReachesRearmed(p: Program, w0: World, w: World, t: nat) returns (w': World)
    requires Reaches(p, w0, w) && InHandler(p, w, t)
    ensures Reaches(p, w0, w')
    ensures w' == w.(code := Rearm(w.code, p.entries, w.threads[t].pending),
                     threads := w.threads[t := w.threads[t].(phase := Running, pending := [])])
  {
    var th := w.threads[t];
    ReachesServing(p, w0, w, t, |th.pending|);
    var w1 := Serving(p, w, t, |th.pending|);
    assert th.pending[..|th.pending|] == th.pending;
    w' := w1.(threads := w.threads[t := th.(phase := Running, pending := [])]);
    assert w'.threads == w1.threads[t := th.(phase := Running, pending := [])];
    ReachesPhase(p, w0, w1, w', t);
  }

  /** Every thread is out of the handler and every breakpoint armed. */
  ghost predicate Resting(p: Program, w: World) {
    Quiet(w) && Armed(p, w)
  }

  lemma RestingInvariant(p: Program, w: World)
    requires Resting(p, w)
    ensures Invariant(p, w)
  {}

  /** An uninstrumented instruction, the program's own breakpoints included, executes as such. */
  lemma ReachesExecuted(p: Program, w0: World, w: World, t: nat)
    requires Reaches(p, w0, w) && t in w.threads
    requires w.threads[t].phase.Running? && !w.threads[t].trapFlag
    requires !Instrumented(p.entries, w.threads[t].context.rip)
    ensures Reaches(p, w0, Execute(p, w, t, Running, true))
  {
    var th := w.threads[t];
    var w' := Execute(p, w, t, Running, true);
    if !Breaks(w.code, th.context.rip) {
      ReachesPhase(p, w0, w, w', t);
    } else {
      var w1 := w.(threads := w.threads[t := th.(phase := Trapped)]);
      ReachesPhase(p, w0, w, w1, t);
      assert Execute(p, w1, t, Running, true).threads == w'.threads;
      ReachesPhase(p, w0, w1, w', t);
    }
  }

  lemma PlainStep(p: Program, w: World, t: nat) returns (w': World)
    requires Sound(p) && Resting(p, w) && t in w.threads && Clear(p, w.threads[t].context.rip)
    requires !Instrumented(p.entries, w.threads[t].context.rip)
    ensures Reaches(p, w, w') && Resting(p, w') && w'.threads.Keys == w.threads.Keys
    ensures Project(w') == OriginalStep(p, Project(w), t)
  {
    RestingInvariant(p, w);
    FetchIsOriginal(p, w, t);
    ExecuteProjects(p, w, t, Running, true);
    w' := Execute(p, w, t, Running, true);
    ReachesSelf(p, w);
    ReachesExecuted(p, w, w, t);
  }

  lemma ServedStep(p: Program, w: World, t: nat) returns (w': World)
    requires Sound(p) && NoOwnInt3(p) && Resting(p, w) && t in w.threads && Clear(p, w.threads[t].context.rip)
    requires Instrumented(p.entries, w.threads[t].context.rip)
    ensures Reaches(p, w, w') && Resting(p, w') && w'.threads.Keys == w.threads.Keys
    ensures Project(w') == OriginalStep(p, Project(w), t)
  {
    ReachesSelf(p, w);
    ReachesServed(p, w, w, t);
    var w5 := ServedExecutes(p, w, t);
    ReachesPhase(p, w, Served(p, w, t), w5, t);
    w' := ReachesRearmed(p, w, w5, t);
    SameContextProjects(w5, w', t);
    DisarmRearm(p, w.code, w.threads[t].context.rip);
  }

  /** Restoring an armed byte and arming it again changes nothing. */
  lemma DisarmRearm(p: Program, code: Code, x: int)
    requires Instrumented(p.entries, x) && Breaks(code, x)
    ensures var i := FindEntry(p.entries, x);
            forall y :: Rearm(Poke(code, x, p.entries[i].originalByte), p.entries, [i])(y) == code(y)
  {
    var i := FindEntry(p.entries, x);
    assert [i][..0] == [];
  }

  lemma ServedExecutes(p: Program, w: World, t: nat) returns (w5: World)
    requires Sound(p) && NoOwnInt3(p) && Resting(p, w) && t in w.threads && Clear(p, w.threads[t].context.rip)
    requires Instrumented(p.entries, w.threads[t].context.rip)
    ensures w5 == Step(p, Served(p, w, t), t, false) && Project(w5) == OriginalStep(p, Project(w), t)
    ensures t in w5.threads && w5.threads == w.threads[t := w5.threads[t]]
    ensures var th, i := w5.threads[t], FindEntry(p.entries, w.threads[t].context.rip);
            && th == Thread(th.context, false, [i], Rearming(0))
            && w5.code == Poke(w.code, w.threads[t].context.rip, p.entries[i].originalByte)
  {
    ServedInvariant(p, w, t);
    ServedProjects(p, w, t);
    w5 := ServedShape(p, w, t);
  }

  lemma ServedShape(p: Program, w: World, t: nat) returns (w5: World)
    requires t in w.threads && Instrumented(p.entries, w.threads[t].context.rip)
    requires p.entries[FindEntry(p.entries, w.threads[t].context.rip)].originalByte != 0xCC
    requires w.threads[t].phase.Running? && w.threads[t].pending == []
    ensures w5 == Execute(p, Served(p, w, t), t, Rearming(0), false) == Step(p, Served(p, w, t), t, false)
    ensures t in w5.threads && w5.threads == w.threads[t := w5.threads[t]]
    ensures var th, i := w5.threads[t], FindEntry(p.entries, w.threads[t].context.rip);
            && th == Thread(th.context, false, [i], Rearming(0))
            && w5.code == Poke(w.code, w.threads[t].context.rip, p.entries[i].originalByte)
  {
    w5 := Execute(p, Served(p, w, t), t, Rearming(0), false);
    assert w5.threads == w.threads[t := w5.threads[t]];
  }

  lemma ServedProjects(p: Program, w: World, t: nat)
    requires Sound(p) && NoOwnInt3(p) && t in w.threads && Instrumented(p.entries, w.threads[t].context.rip)
    requires Clear(p, w.threads[t].context.rip) && Invariant(p, Served(p, w, t))
    ensures var w5 := Execute(p, Served(p, w, t), t, Rearming(0), false);
            Project(w5) == OriginalStep(p, Project(w), t)
  {
    var w4 := Served(p, w, t);
    FetchIsOriginal(p, w4, t);
    ExecuteProjects(p, w4, t, Rearming(0), false);
    SameContextProjects(w, w4, t);
  }

  lemma ServedInvariant(p: Program, w: World, t: nat)
    requires Sound(p) && Resting(p, w) && t in w.threads
    requires Instrumented(p.entries, w.threads[t].context.rip)
    ensures Invariant(p, Served(p, w, t))
  {
    var w4 := Served(p, w, t);
    var rip := w.threads[t].context.rip;
    assert w4.threads[t].pending[0] == FindEntry(p.entries, rip);
    assert Holds(p, w4.threads[t], rip);
  }

  /** The converse of Transparent: every run of the original program is the projection of an instrumented one. */
  lemma {:induction false} EveryRunRealised(p: Program, w: World, schedule: seq<nat>) returns (w': World)
    requires Sound(p) && NoOwnInt3(p) && Initial(p, w) && AtStarts(p, Project(w))
    requires forall k :: 0 <= k < |schedule| ==> schedule[k] in w.threads
    ensures Reaches(p, w, w') && Resting(p, w') && w'.threads.Keys == w.threads.Keys
    ensures Project(w') == OriginalRun(p, Project(w), schedule)
  {
    if schedule == [] {
      ReachesSelf(p, w);
      w' := w;
    } else {
      var n := |schedule| - 1;
      var w1 := EveryRunRealised(p, w, schedule[..n]);
      w' := RealiseStep(p, w, w1, schedule[n]);
    }
  }

  lemma RealiseStep(p: Program, w: World, w1: World, t: nat) returns (w': World)
    requires Sound(p) && NoOwnInt3(p) && Resting(p, w1) && t in w1.threads && ClearOf(p, Project(w1))
    requires Reaches(p, w, w1)
    ensures Reaches(p, w, w') && Resting(p, w') && w'.threads.Keys == w1.threads.Keys
    ensures Project(w') == OriginalStep(p, Project(w1), t)
  {
    assert Project(w1).contexts[t] == w1.threads[t].context;
    if Instrumented(p.entries, w1.threads[t].context.rip) {
      w' := ServedStep(p, w1, t);
    } else {
      w' := PlainStep(p, w1, t);
    }
    ReachesOn(p, w, w1, w');
  }
}
