/** The breakpoint engine as a protocol of any number of threads over shared code bytes: trap, callback, restore the
    byte, single-step, re-arm (win_agent/instrumentation/veh.cpp:10-45). Every write of the handler is a step of its
    own, so all interleavings of handlers and program instructions are covered. */
module Breakpoints {
  import opened Common
  import opened Instrumentation

  // ---------- The processor ----------

  /** What an instruction of a thread reads and writes, code bytes apart. */
  datatype Context = Context(rip: int, regs: seq<int>)

  type Memory = map<int, int>

  /** x86-64 instructions are at most 15 bytes long. */
  const WINDOW: nat := 15

  function Window(code: Code, rip: int): (w: seq<byte>)
    ensures |w| == WINDOW && forall k :: 0 <= k < WINDOW ==> w[k] == code(rip + k)
  {
    seq(WINDOW, k => code(rip + k))
  }

  /** The instruction set: how long the instruction at the head of a window is, and what executing it does. */
  datatype Isa = Isa(
    length: seq<byte> -> nat,
    exec: (seq<byte>, Context, Memory) -> (Context, Memory))

  /** An instruction is determined by its own bytes. */
  ghost predicate Local(isa: Isa) {
    && (forall v :: |v| == WINDOW ==> 1 <= isa.length(v) <= WINDOW)
    && (forall v, w, c, m :: SameInstruction(isa, v, w) ==> isa.exec(v, c, m) == isa.exec(w, c, m))
  }

  ghost predicate SameInstruction(isa: Isa, v: seq<byte>, w: seq<byte>) {
    |v| == |w| == WINDOW && forall k :: 0 <= k < isa.length(v) && k < WINDOW ==> v[k] == w[k]
  }

  datatype Program = Program(isa: Isa, original: Code, entries: seq<CodeInstrumentation>)

  /** The first entry for an address has its true byte (Instrumentation.InstrumentAllRecords). */
  ghost predicate Sound(p: Program) {
    && Local(p.isa)
    && (forall x :: Instrumented(p.entries, x) ==>
          p.entries[FindEntry(p.entries, x)].originalByte == p.original(x))
  }

  /** `y` is an address of the instruction at `x`, other than its first. */
  predicate Inside(p: Program, x: int, y: int) {
    x < y < x + p.isa.length(Window(p.original, x))
  }

  /** No breakpoint sits inside the instruction at `x`. */
  ghost predicate Clear(p: Program, x: int) {
    forall y :: Inside(p, x, y) ==> !Instrumented(p.entries, y)
  }

  /** The processor raises the breakpoint exception on the one-byte instruction CC. */
  predicate Breaks(code: Code, x: int) {
    code(x) == 0xCC
  }

  /** No instrumented instruction is a breakpoint of the program's own. */
  ghost predicate NoOwnInt3(p: Program) {
    forall x :: Instrumented(p.entries, x) ==> p.original(x) != 0xCC
  }

  /** Installing breakpoints in any order and repeatedly leads to exactly the situation the engine needs: sound entries,
      and every breakpoint armed. */
  lemma InstalledSound(p: Program, xs: seq<int>, w: World)
    requires p.entries == InstrumentAll(p.original, xs).entries && w.code == InstrumentAll(p.original, xs).code
    requires Local(p.isa)
    ensures Sound(p) && Armed(p, w) && forall x :: Instrumented(p.entries, x) <==> x in xs
  {
    InstrumentAllRecords(p.original, xs);
    forall x
      ensures Instrumented(p.entries, x) <==> x in xs
      ensures Instrumented(p.entries, x) ==> p.entries[FindEntry(p.entries, x)].originalByte == p.original(x)
    {
      InstrumentedAre(p.original, xs, x);
    }
  }

  /** A thread that comes to an installed address raises the breakpoint exception, and its handler calls back for it. */
  lemma InstalledTraps(p: Program, xs: seq<int>, w: World, t: nat, keep: bool)
    requires p.entries == InstrumentAll(p.original, xs).entries && w.code == InstrumentAll(p.original, xs).code
    requires t in w.threads && w.threads[t].phase.Running? && w.threads[t].context.rip in xs
    ensures var w1 := Step(p, w, t, keep);
            && w1 == w.(threads := w.threads[t := w.threads[t].(phase := Trapped)])
            && Step(p, w1, t, keep).log == w.log + [(t, w.threads[t].context.rip)]
  {
    InstrumentAllRecords(p.original, xs);
    InstrumentedAre(p.original, xs, w.threads[t].context.rip);
  }

  // ---------- The uninstrumented machine ----------

  /** `retired` lists the instructions executed so far: thread and address. */
  datatype Machine = Machine(contexts: map<nat, Context>, memory: Memory, retired: seq<(nat, int)>)

  function OriginalStep(p: Program, s: Machine, t: nat): Machine {
    if t !in s.contexts then s
    else
      var c := s.contexts[t];
      var (c', m') := p.isa.exec(Window(p.original, c.rip), c, s.memory);
      Machine(s.contexts[t := c'], m', s.retired + [(t, c.rip)])
  }

  function OriginalRun(p: Program, s: Machine, schedule: seq<nat>): Machine {
    if schedule == [] then s
    else OriginalStep(p, OriginalRun(p, s, schedule[..|schedule| - 1]), schedule[|schedule| - 1])
  }

  ghost predicate ClearOf(p: Program, s: Machine) {
    forall t :: t in s.contexts ==> Clear(p, s.contexts[t].rip)
  }

  /** Breakpoints sit at instruction starts only: whatever the schedule, no thread of the original program comes to an
      instruction with a breakpoint inside. */
  ghost predicate AtStarts(p: Program, s: Machine) {
    forall schedule {:trigger OriginalRun(p, s, schedule)} :: ClearOf(p, OriginalRun(p, s, schedule))
  }

  // ---------- The instrumented machine ----------

  datatype Phase =
    | Running
    | Trapped                // the breakpoint exception was raised
    | Notified(entry: nat)   // the callback was called for the entry
    | Disarmed(entry: nat)   // the original byte is back; not yet pending
    | Rearming(next: nat)    // in the single-step handler, before callback `next`

  datatype Thread = Thread(context: Context, trapFlag: bool, pending: seq<nat>, phase: Phase)

  datatype World = World(
    code: Code,
    threads: map<nat, Thread>,
    memory: Memory,
    log: seq<(nat, int)>,      // callbacks made: thread and address
    retired: seq<(nat, int)>)  // instructions executed: thread and address

  function Execute(p: Program, w: World, t: nat, phase: Phase, keep: bool): World
    requires t in w.threads
  {
    var th := w.threads[t];
    var (c', m') := p.isa.exec(Window(w.code, th.context.rip), th.context, w.memory);
    w.(threads := w.threads[t := th.(context := c', phase := phase, trapFlag := th.trapFlag && keep)],
       memory := m', retired := w.retired + [(t, th.context.rip)])
  }

  /** One step of thread `t`. `keep` leaves open whether reporting a single step clears the trap flag. */
  function Step(p: Program, w: World, t: nat, keep: bool): World
    requires t in w.threads
  {
    var th := w.threads[t];
    var rip := th.context.rip;
    match th.phase
    case Running =>
      if Breaks(w.code, rip) then w.(threads := w.threads[t := th.(phase := Trapped)])
      else if th.trapFlag then Execute(p, w, t, Rearming(0), keep)
      else Execute(p, w, t, Running, true)
    case Trapped =>
      var i := FindEntry(p.entries, rip);
      if i == |p.entries| then
        // EXCEPTION_CONTINUE_SEARCH: the program gets its own breakpoint
        Execute(p, w, t, Running, true)
      else w.(threads := w.threads[t := th.(phase := Notified(i))], log := w.log + [(t, rip)])
    case Notified(i) =>
      if i < |p.entries| then
        w.(code := Poke(w.code, p.entries[i].instruction, p.entries[i].originalByte),
           threads := w.threads[t := th.(phase := Disarmed(i))])
      else w
    case Disarmed(i) =>
      w.(threads := w.threads[t := th.(phase := Running, trapFlag := true, pending := th.pending + [i])])
    case Rearming(n) =>
      if n < |th.pending| then
        if th.pending[n] < |p.entries| then
          w.(code := Poke(w.code, p.entries[th.pending[n]].instruction, INT3),
             threads := w.threads[t := th.(phase := Rearming(n + 1))])
        else w
      else w.(threads := w.threads[t := th.(phase := Running, pending := [])])
  }

  ghost predicate Next(p: Program, w: World, w': World) {
    exists t, keep :: t in w.threads && w' == Step(p, w, t, keep)
  }

  ghost predicate Execution(p: Program, ws: seq<World>) {
    |ws| > 0 && (|ws| == 1 || (Execution(p, ws[..|ws| - 1]) && Next(p, ws[|ws| - 2], ws[|ws| - 1])))
  }

  predicate Quiet(w: World) {
    forall t :: t in w.threads ==> w.threads[t].phase.Running? && w.threads[t].pending == [] && !w.threads[t].trapFlag
  }

  /** All breakpoints are armed, nothing else differs from the original code. */
  ghost predicate Armed(p: Program, w: World) {
    forall x :: if Instrumented(p.entries, x) then Breaks(w.code, x) else w.code(x) == p.original(x)
  }

  ghost predicate Initial(p: Program, w: World) {
    Quiet(w) && Armed(p, w) && w.log == [] && w.retired == []
  }

  // ---------- The invariant ----------

  /** Thread `th` has the duty to arm `x` again: it sits in the unserved part of its pending list, or the thread is
      just about to put it there. */
  predicate Holds(p: Program, th: Thread, x: int) {
    || (th.phase.Disarmed? && th.context.rip == x)
    || exists k :: (if th.phase.Rearming? then th.phase.next else 0) <= k < |th.pending|
                   && th.pending[k] < |p.entries| && p.entries[th.pending[k]].instruction == x
  }

  predicate Held(p: Program, w: World, x: int) {
    exists t :: t in w.threads && Holds(p, w.threads[t], x)
  }

  ghost predicate ThreadOk(p: Program, th: Thread) {
    && (forall k :: 0 <= k < |th.pending| ==> th.pending[k] < |p.entries|)
    && (th.phase.Notified? ==> th.phase.entry == FindEntry(p.entries, th.context.rip) < |p.entries|)
    && (th.phase.Disarmed? ==> th.phase.entry == FindEntry(p.entries, th.context.rip) < |p.entries|)
    && (th.phase.Rearming? ==> th.phase.next <= |th.pending|)
  }

  /** A byte that is not instrumented is the original one. An instrumented byte is a breakpoint, or it is the original
      one and some thread holds it. */
  ghost predicate Invariant(p: Program, w: World) {
    && (forall t :: t in w.threads ==> ThreadOk(p, w.threads[t]))
    && (forall x :: !Instrumented(p.entries, x) ==> w.code(x) == p.original(x))
    && (forall x :: Instrumented(p.entries, x) ==>
          Breaks(w.code, x) || (w.code(x) == p.original(x) && Held(p, w, x)))
  }

  lemma InitialInvariant(p: Program, w: World)
    requires Initial(p, w)
    ensures Invariant(p, w)
  {}

  /** Whatever a thread executes is the original instruction at its address. */
  lemma FetchIsOriginal(p: Program, w: World, t: nat)
    requires Sound(p) && Invariant(p, w) && t in w.threads && Clear(p, w.threads[t].context.rip)
    requires var rip := w.threads[t].context.rip; Breaks(w.code, rip) ==> !Instrumented(p.entries, rip)
    ensures var c := w.threads[t].context;
            p.isa.exec(Window(w.code, c.rip), c, w.memory) == p.isa.exec(Window(p.original, c.rip), c, w.memory)
  {
    var c := w.threads[t].context;
    var v, u := Window(p.original, c.rip), Window(w.code, c.rip);
    forall k | 0 <= k < p.isa.length(v) ensures v[k] == u[k] {
      assert k > 0 ==> Inside(p, c.rip, c.rip + k);
    }
    assert SameInstruction(p.isa, v, u);
  }

  lemma ExecuteKeepsInvariant(p: Program, w: World, t: nat, phase: Phase, keep: bool)
    requires Sound(p) && Invariant(p, w) && t in w.threads
    requires var rip := w.threads[t].context.rip; Breaks(w.code, rip) ==> !Instrumented(p.entries, rip)
    requires w.threads[t].phase.Running? || w.threads[t].phase.Trapped?
    requires phase == Running || phase == Rearming(0)
    ensures Invariant(p, Execute(p, w, t, phase, keep))
  {
    var w' := Execute(p, w, t, phase, keep);
    forall x | Instrumented(p.entries, x) && !Breaks(w'.code, x) ensures Held(p, w', x) {
      var u :| u in w.threads && Holds(p, w.threads[u], x);
      assert Holds(p, w'.threads[u], x);
    }
  }

  lemma DisarmKeepsInvariant(p: Program, w: World, t: nat)
    requires Sound(p) && Invariant(p, w) && t in w.threads && w.threads[t].phase.Notified?
    ensures Invariant(p, Step(p, w, t, false))
  {
    var w' := Step(p, w, t, false);
    var y := w.threads[t].context.rip;
    forall x | Instrumented(p.entries, x) && !Breaks(w'.code, x)
      ensures w'.code(x) == p.original(x) && Held(p, w', x)
    {
      if x == y {
        assert Holds(p, w'.threads[t], x);
      } else {
        var u :| u in w.threads && Holds(p, w.threads[u], x);
        assert Holds(p, w'.threads[u], x);
      }
    }
  }

  lemma PendKeepsInvariant(p: Program, w: World, t: nat)
    requires Sound(p) && Invariant(p, w) && t in w.threads && w.threads[t].phase.Disarmed?
    ensures Invariant(p, Step(p, w, t, false))
  {
    var w' := Step(p, w, t, false);
    var th, th' := w.threads[t], w'.threads[t];
    forall x | Instrumented(p.entries, x) && !Breaks(w'.code, x) ensures Held(p, w', x) {
      var u :| u in w.threads && Holds(p, w.threads[u], x);
      if u == t && th.context.rip == x {
        assert th'.pending[|th.pending|] == th.phase.entry;
      } else if u == t {
        var k :| 0 <= k < |th.pending| && p.entries[th.pending[k]].instruction == x;
        assert th'.pending[k] == th.pending[k];
      }
      assert Holds(p, w'.threads[u], x);
    }
  }

  /** Serving a pending callback takes nobody's duty from an address that is not armed by it. */
  lemma RearmHolds(p: Program, w: World, t: nat, u: nat, x: int)
    requires t in w.threads && u in w.threads && w.threads[t].phase.Rearming? && Holds(p, w.threads[u], x)
    requires !Breaks(Step(p, w, t, false).code, x)
    ensures Holds(p, Step(p, w, t, false).threads[u], x)
  {
    var th, w' := w.threads[t], Step(p, w, t, false);
    if u == t {
      var k :| th.phase.next <= k < |th.pending| && th.pending[k] < |p.entries|
               && p.entries[th.pending[k]].instruction == x;
      assert w'.threads[t].pending[k] == th.pending[k];
    }
  }

  lemma RearmKeepsInvariant(p: Program, w: World, t: nat)
    requires Sound(p) && Invariant(p, w) && t in w.threads && w.threads[t].phase.Rearming?
    ensures Invariant(p, Step(p, w, t, false))
  {
    var w' := Step(p, w, t, false);
    var th := w.threads[t];
    if th.phase.next < |th.pending| {
      assert Instrumented(p.entries, p.entries[th.pending[th.phase.next]].instruction);
    }
    forall x | Instrumented(p.entries, x) && !Breaks(w'.code, x) ensures Held(p, w', x) {
      var u :| u in w.threads && Holds(p, w.threads[u], x);
      RearmHolds(p, w, t, u, x);
    }
  }

  lemma StepKeepsInvariant(p: Program, w: World, t: nat, keep: bool)
    requires Sound(p) && Invariant(p, w) && t in w.threads
    ensures Invariant(p, Step(p, w, t, keep))
  {
    var th, w' := w.threads[t], Step(p, w, t, keep);
    match th.phase
    case Notified(_) => DisarmKeepsInvariant(p, w, t);
    case Disarmed(_) => PendKeepsInvariant(p, w, t);
    case Rearming(_) => RearmKeepsInvariant(p, w, t);
    case Running =>
      if Breaks(w.code, th.context.rip) {
        PhaseKeepsInvariant(p, w, w', t);
      } else {
        ExecuteKeepsInvariant(p, w, t, if th.trapFlag then Rearming(0) else Running, !th.trapFlag || keep);
      }
    case Trapped =>
      if Instrumented(p.entries, th.context.rip) {
        PhaseKeepsInvariant(p, w, w', t);
      } else {
        ExecuteKeepsInvariant(p, w, t, Running, true);
      }
  }

  /** Taking the trap and calling the callback change no byte and no pending list. */
  lemma PhaseKeepsInvariant(p: Program, w: World, w': World, t: nat)
    requires Invariant(p, w) && t in w.threads
    requires w.threads[t].phase.Running? || w.threads[t].phase.Trapped?
    requires w'.code == w.code && t in w'.threads
    requires w'.threads == w.threads[t := w.threads[t].(phase := w'.threads[t].phase)]
    requires w'.threads[t].phase.Trapped? ||
             (w'.threads[t].phase == Notified(FindEntry(p.entries, w.threads[t].context.rip))
              && Instrumented(p.entries, w.threads[t].context.rip))
    ensures Invariant(p, w')
  {
    forall x | Instrumented(p.entries, x) && !Breaks(w'.code, x) ensures Held(p, w', x) {
      var u :| u in w.threads && Holds(p, w.threads[u], x);
      assert Holds(p, w'.threads[u], x);
    }
  }

  // ---------- Transparency ----------

  function Project(w: World): Machine {
    Machine(map t | t in w.threads :: w.threads[t].context, w.memory, w.retired)
  }

  function Schedule(retired: seq<(nat, int)>): seq<nat> {
    seq(|retired|, i requires 0 <= i < |retired| => retired[i].0)
  }

  lemma ExecuteProjects(p: Program, w: World, t: nat, phase: Phase, keep: bool)
    requires Sound(p) && Invariant(p, w) && t in w.threads && Clear(p, w.threads[t].context.rip)
    requires var rip := w.threads[t].context.rip; Breaks(w.code, rip) ==> !Instrumented(p.entries, rip)
    ensures Project(Execute(p, w, t, phase, keep)) == OriginalStep(p, Project(w), t)
  {
    FetchIsOriginal(p, w, t);
    assert Project(Execute(p, w, t, phase, keep)).contexts == OriginalStep(p, Project(w), t).contexts;
  }

  lemma SameContextProjects(w: World, w': World, t: nat)
    requires t in w.threads && w'.threads.Keys == w.threads.Keys
    requires forall u :: u in w.threads ==> w'.threads[u].context == w.threads[u].context
    requires w'.memory == w.memory && w'.retired == w.retired
    ensures Project(w') == Project(w)
  {
    assert Project(w').contexts == Project(w).contexts;
  }

  /** The program does not see the handler. */
  lemma HandlerProjects(p: Program, w: World, t: nat, keep: bool)
    requires t in w.threads
    requires var th := w.threads[t];
             && (th.phase.Running? ==> Breaks(w.code, th.context.rip))
             && (th.phase.Trapped? ==> Instrumented(p.entries, th.context.rip))
    ensures Project(Step(p, w, t, keep)) == Project(w)
  {
    SameContextProjects(w, Step(p, w, t, keep), t);
  }

  /** Seen through the projection, a step is nothing or a step of the original program by the same thread. */
  lemma StepProjects(p: Program, w: World, t: nat, keep: bool)
    requires Sound(p) && Invariant(p, w) && t in w.threads && Clear(p, w.threads[t].context.rip)
    ensures var s := Project(Step(p, w, t, keep));
            s == Project(w) || s == OriginalStep(p, Project(w), t)
  {
    var th := w.threads[t];
    if th.phase.Running? && !Breaks(w.code, th.context.rip) {
      ExecuteProjects(p, w, t, if th.trapFlag then Rearming(0) else Running, !th.trapFlag || keep);
    } else if th.phase.Trapped? && !Instrumented(p.entries, th.context.rip) {
      ExecuteProjects(p, w, t, Running, true);
    } else {
      HandlerProjects(p, w, t, keep);
    }
  }

  /** An execution's last state satisfies the invariant. */
  lemma {:induction false} ExecutionKeepsInvariant(p: Program, ws: seq<World>)
    requires Sound(p) && Execution(p, ws) && Initial(p, ws[0])
    ensures Invariant(p, ws[|ws| - 1])
  {
    if |ws| == 1 {
      InitialInvariant(p, ws[0]);
    } else {
      ExecutionKeepsInvariant(p, ws[..|ws| - 1]);
      NextKeepsInvariant(p, ws[|ws| - 2], ws[|ws| - 1]);
    }
  }

  lemma NextKeepsInvariant(p: Program, w: World, w': World)
    requires Sound(p) && Invariant(p, w) && Next(p, w, w')
    ensures Invariant(p, w')
  {
    var t, keep :| t in w.threads && w' == Step(p, w, t, keep);
    StepKeepsInvariant(p, w, t, keep);
  }

  lemma NextProjects(p: Program, w: World, w': World) returns (t: nat)
    requires Sound(p) && Invariant(p, w) && Next(p, w, w') && ClearOf(p, Project(w))
    ensures t in w.threads
    ensures Project(w') == Project(w) || Project(w') == OriginalStep(p, Project(w), t)
  {
    var u, keep :| u in w.threads && w' == Step(p, w, u, keep);
    t := u;
    assert Project(w).contexts[t] == w.threads[t].context;
    StepProjects(p, w, t, keep);
  }

  /** Instrumentation is transparent: every execution of the instrumented program, whatever the interleaving, is seen
      through the projection the run of the original program under the schedule of its retired instructions. */
  lemma {:induction false} Transparent(p: Program, ws: seq<World>)
    requires Sound(p) && Execution(p, ws) && Initial(p, ws[0]) && AtStarts(p, Project(ws[0]))
    ensures Project(ws[|ws| - 1]) == OriginalRun(p, Project(ws[0]), Schedule(ws[|ws| - 1].retired))
  {
    if |ws| == 1 {
      assert Schedule(ws[0].retired) == [];
    } else {
      var w, w' := ws[|ws| - 2], ws[|ws| - 1];
      var front := ws[..|ws| - 1];
      Transparent(p, front);
      ExecutionKeepsInvariant(p, front);
      var t := NextProjects(p, w, w');
      if Project(w') != Project(w) {
        RunStep(p, Project(ws[0]), Project(w), t);
      }
    }
  }

  lemma RunStep(p: Program, s: Machine, r: Machine, t: nat)
    requires r == OriginalRun(p, s, Schedule(r.retired)) && t in r.contexts
    ensures var r' := OriginalStep(p, r, t); r' == OriginalRun(p, s, Schedule(r'.retired))
  {
    var r' := OriginalStep(p, r, t);
    assert Schedule(r'.retired) == Schedule(r.retired) + [t];
    assert Schedule(r'.retired)[..|r.retired|] == Schedule(r.retired);
  }

  /** In every reachable state an instrumented byte is 0xCC or original, and it is original only while some thread holds
      it; so with every thread out of the handler and nothing pending, every breakpoint is armed, and a thread that
      comes to one traps. */
  lemma {:induction false} ReachableBreakpoints(p: Program, ws: seq<World>)
    requires Sound(p) && Execution(p, ws) && Initial(p, ws[0])
    ensures var w := ws[|ws| - 1];
            && (forall x :: Instrumented(p.entries, x) ==>
                  w.code(x) == 0xCC || (w.code(x) == p.original(x) && Held(p, w, x)))
            && ((forall t :: t in w.threads ==> w.threads[t].phase.Running? && w.threads[t].pending == []) ==>
                && Armed(p, w)
                && forall t, keep :: t in w.threads && Instrumented(p.entries, w.threads[t].context.rip) ==>
                     Step(p, w, t, keep).threads[t].phase.Trapped?)
  {
    ExecutionKeepsInvariant(p, ws);
  }
}
