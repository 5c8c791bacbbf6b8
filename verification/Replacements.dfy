/** Replaced functions still mean what they meant, any number of them at once: the patched program simulates the
    original one, and an exchangeable jump decides only where calls of its function go
    (win_agent/instrumentation/function_replacement.cpp:139-192,
    win_agent/allocation_tracking/crt_instrumentation.cpp:59-73). */
module Replacements {
  import opened Common
  import opened CodeBuffers
  import opened FunctionReplacement
  import opened Trampolines

  // ---------- A patched program ----------

  /** The replacements of functions of `mem` stand in `after`, and nothing else was touched. */
  ghost predicate Installed(isa: Isa, mem: seq<byte>, ts: seq<Trampoline>, after: seq<byte>) {
    && |after| == |mem|
    && (forall c {:trigger InstalledAt(isa, mem, ts, after, c)} ::
          0 <= c < |ts| ==> InstalledAt(isa, mem, ts, after, c))
    && (forall c, e {:trigger ProloguesApart(ts, c, e)} ::
          0 <= c < |ts| && 0 <= e < |ts| && c != e ==> ProloguesApart(ts, c, e))
    && (forall a, b {:trigger Untouched(ts, a, b)} ::
          0 <= a <= b <= |mem| && Untouched(ts, a, b) ==> after[a..b] == mem[a..b])
  }

  ghost predicate InstalledAt(isa: Isa, mem: seq<byte>, ts: seq<Trampoline>, after: seq<byte>, c: nat)
    requires c < |ts|
  {
    ts[c].isa == isa && ts[c].mem == mem && ts[c].Fits() && ts[c].Faithful() && Stands(ts[c], after)
  }

  predicate ProloguesApart(ts: seq<Trampoline>, c: nat, e: nat)
    requires c < |ts| && e < |ts|
  {
    Apart(ts[c].fn, ts[c].fn + ts[c].CopyLen(), ts[e].fn, ts[e].fn + ts[e].CopyLen())
  }

  predicate Untouched(ts: seq<Trampoline>, a: int, b: int) {
    forall c {:trigger Clear(ts[c], a, b)} :: 0 <= c < |ts| ==> Clear(ts[c], a, b)
  }

  // ---------- What is asked of the original run ----------

  /** The state is proper for each replacement. */
  predicate ProperFor(ts: seq<Trampoline>, s: State) {
    forall c {:trigger ts[c].Proper(s)} :: 0 <= c < |ts| ==> ts[c].Proper(s)
  }

  predicate ProperAfter(isa: Isa, mem: seq<byte>, ts: seq<Trampoline>, o: State, i: nat) {
    ProperFor(ts, Steps(isa, mem, o, i))
  }

  ghost predicate ProperRun(isa: Isa, mem: seq<byte>, ts: seq<Trampoline>, o: State, n: nat) {
    forall i: nat {:trigger ProperAfter(isa, mem, ts, o, i)} :: i < n ==> ProperAfter(isa, mem, ts, o, i)
  }

  /** The address is not the beginning of a function whose calls were sent elsewhere. */
  predicate NotExchanged(ts: seq<Trampoline>, x: int) {
    forall c {:trigger ts[c]} :: 0 <= c < |ts| && ts[c].target != ts[c].buf ==> x != ts[c].fn
  }

  predicate AwayAfter(isa: Isa, mem: seq<byte>, ts: seq<Trampoline>, o: State, i: nat) {
    NotExchanged(ts, Steps(isa, mem, o, i).rip)
  }

  /** The original run calls no function whose calls were sent elsewhere, within `n` steps. */
  ghost predicate StaysAway(isa: Isa, mem: seq<byte>, ts: seq<Trampoline>, o: State, n: nat) {
    forall i: nat {:trigger AwayAfter(isa, mem, ts, o, i)} :: 0 < i <= n ==> AwayAfter(isa, mem, ts, o, i)
  }

  // ---------- The relation ----------

  predicate InPrologue(ts: seq<Trampoline>, x: int) {
    exists c :: 0 <= c < |ts| && ts[c].InPrologue(x)
  }

  predicate AtCopy(ts: seq<Trampoline>, o: int, p: int, c: int, k: int) {
    0 <= c < |ts| && ts[c].AtCopy(o, p, k)
  }

  /** The two machines agree: outside the copied instructions they are in the same state; inside, one is at an
      instruction and the other at its copy. */
  ghost predicate Related(ts: seq<Trampoline>, o: State, p: State) {
    && o.data == p.data
    && if InPrologue(ts, o.rip) then exists c, k :: AtCopy(ts, o.rip, p.rip, c, k) else p.rip == o.rip
  }

  // ---------- One step ----------

  /** The address is not inside copied instructions, but at their beginning at most. */
  predicate AtBeginning(ts: seq<Trampoline>, x: int) {
    forall c {:trigger ts[c].InPrologue(x)} :: 0 <= c < |ts| && ts[c].InPrologue(x) ==> x == ts[c].fn
  }

  /** A patched program that stands where the original does, the beginning of a function included, is in relation after
      at most two jumps. */
  lemma Arrive(isa: Isa, mem: seq<byte>, ts: seq<Trampoline>, after: seq<byte>, o: State) returns (m: nat)
    requires Installed(isa, mem, ts, after) && AtBeginning(ts, o.rip) && NotExchanged(ts, o.rip)
    ensures Related(ts, o, Steps(isa, after, o, m))
  {
    if c :| 0 <= c < |ts| && ts[c].InPrologue(o.rip) {
      m := 2;
      var t := ts[c];
      assert InstalledAt(isa, mem, ts, after, c);
      assert o == State(t.fn, o.data);
      EnterFunction(t, after, o.data);
      AtFirstCopy(ts, c, t.fn);
    } else {
      m := 0;
    }
  }

  lemma AtFirstCopy(ts: seq<Trampoline>, c: nat, x: int)
    requires c < |ts| && ts[c].Fits() && x == ts[c].fn
    ensures AtCopy(ts, x, ts[c].buf, c, 0)
  {
    assert ts[c].lens[..0] == [] && ts[c].codes[..0] == [];
  }

  /** What an instruction reads its target from is not patched. */
  lemma ReadsUntouched(isa: Isa, mem: seq<byte>, ts: seq<Trampoline>, after: seq<byte>, c: nat, s: State)
    requires Installed(isa, mem, ts, after) && ProperFor(ts, s) && c < |ts|
    ensures ReadsAlike(mem, after, ts[c].NextAt(s.rip, s.data))
  {
    assert InstalledAt(isa, mem, ts, after, c) && ts[c].Proper(s);
    var next := ts[c].NextAt(s.rip, s.data);
    if next.Through? {
      forall e | 0 <= e < |ts| ensures Clear(ts[e], next.address, next.address + 8) {
        assert InstalledAt(isa, mem, ts, after, e) && ts[e].Proper(s) && ts[e].NextAt(s.rip, s.data) == next;
      }
      assert Untouched(ts, next.address, next.address + 8);
    }
  }

  /** Outside the copied instructions both programs execute the same instruction. */
  lemma OutsideStep(isa: Isa, mem: seq<byte>, ts: seq<Trampoline>, after: seq<byte>, s: State)
    requires ts != [] && Installed(isa, mem, ts, after) && ProperFor(ts, s) && !InPrologue(ts, s.rip)
    ensures FunctionReplacement.Step(isa, after, s) == FunctionReplacement.Step(isa, mem, s)
    ensures AtBeginning(ts, FunctionReplacement.Step(isa, mem, s).rip)
  {
    assert InstalledAt(isa, mem, ts, after, 0) && ts[0].Proper(s);
    var end := s.rip + Decode(isa, mem, s.rip).value;
    forall c | 0 <= c < |ts| ensures Clear(ts[c], s.rip, end) {
      assert InstalledAt(isa, mem, ts, after, c) && ts[c].Proper(s);
    }
    assert Untouched(ts, s.rip, end);
    ReadsUntouched(isa, mem, ts, after, 0, s);
    SameStep(isa, mem, after, s);
    forall c | 0 <= c < |ts| && ts[c].InPrologue(FunctionReplacement.Step(isa, mem, s).rip)
      ensures FunctionReplacement.Step(isa, mem, s).rip == ts[c].fn
    {
      assert InstalledAt(isa, mem, ts, after, c) && ts[c].Proper(s);
      OutsideNext(ts[c], s);
    }
  }

  /** Where a branch out of copied instructions may go. */
  lemma BranchNext(isa: Isa, mem: seq<byte>, ts: seq<Trampoline>, after: seq<byte>, c: nat, s: State)
    requires Installed(isa, mem, ts, after) && ProperFor(ts, s) && c < |ts| && ts[c].Branches(s.rip, s.data)
    ensures AtBeginning(ts, FunctionReplacement.Step(isa, mem, s).rip)
  {
    forall e | 0 <= e < |ts| && ts[e].InPrologue(FunctionReplacement.Step(isa, mem, s).rip)
      ensures FunctionReplacement.Step(isa, mem, s).rip == ts[e].fn
    {
      assert InstalledAt(isa, mem, ts, after, c) && InstalledAt(isa, mem, ts, after, e);
      assert ts[e].Proper(s) && ts[e].Branches(s.rip, s.data);
    }
  }

  /** After the last copied instruction the patched program jumps back behind the originals. */
  lemma CopyEnds(isa: Isa, mem: seq<byte>, ts: seq<Trampoline>, after: seq<byte>, c: nat, k: nat, d: Data)
    returns (m: nat)
    requires Installed(isa, mem, ts, after) && c < |ts| && k < |ts[c].lens| == |ts[c].codes|
    requires NotExchanged(ts, ts[c].Entry(k + 1))
    ensures Related(ts, State(ts[c].Entry(k + 1), d), Steps(isa, after, State(ts[c].Copy(k + 1), d), m))
  {
    var t := ts[c];
    assert InstalledAt(isa, mem, ts, after, c);
    if k + 1 < |t.lens| {
      m := 0;
      assert t.FaithfulAt(k + 1);
      SumNext(t.lens, k + 1);
      SumPrefix(t.lens, k + 2);
      assert t.InPrologue(t.Entry(k + 1));
      assert AtCopy(ts, t.Entry(k + 1), t.Copy(k + 1), c, k + 1);
    } else {
      assert t.lens[..k + 1] == t.lens && t.codes[..k + 1] == t.codes;
      m := JumpBack(isa, mem, ts, after, c, d);
    }
  }

  lemma JumpBack(isa: Isa, mem: seq<byte>, ts: seq<Trampoline>, after: seq<byte>, c: nat, d: Data) returns (m: nat)
    requires Installed(isa, mem, ts, after) && c < |ts| && NotExchanged(ts, ts[c].fn + ts[c].CopyLen())
    ensures Related(ts, State(ts[c].fn + ts[c].CopyLen(), d),
                    Steps(isa, after, State(ts[c].buf + ts[c].CopyLen(), d), m))
  {
    var t := ts[c];
    assert InstalledAt(isa, mem, ts, after, c);
    JmpStep(isa, after, t.buf + t.CopyLen(), t.fn + t.CopyLen(), d);
    EndAtBeginning(isa, mem, ts, after, c);
    var i := Arrive(isa, mem, ts, after, State(t.fn + t.CopyLen(), d));
    m := 1 + i;
    OneStep(isa, after, State(t.buf + t.CopyLen(), d));
    StepsAdd(isa, after, State(t.buf + t.CopyLen(), d), 1, i);
  }

  /** Behind the copied instructions of one function those of another may only begin. */
  lemma EndAtBeginning(isa: Isa, mem: seq<byte>, ts: seq<Trampoline>, after: seq<byte>, c: nat)
    requires Installed(isa, mem, ts, after) && c < |ts|
    ensures AtBeginning(ts, ts[c].fn + ts[c].CopyLen())
  {
    forall e | 0 <= e < |ts| && ts[e].InPrologue(ts[c].fn + ts[c].CopyLen())
      ensures ts[c].fn + ts[c].CopyLen() == ts[e].fn
    {
      assert InstalledAt(isa, mem, ts, after, c) && InstalledAt(isa, mem, ts, after, e);
      assert e != c ==> ProloguesApart(ts, c, e);
    }
  }

  /** A step of the original program from a copied instruction. */
  lemma InsideStep(isa: Isa, mem: seq<byte>, ts: seq<Trampoline>, after: seq<byte>, o: State, p: State, c: nat, k: nat)
    returns (m: nat)
    requires Installed(isa, mem, ts, after) && ProperFor(ts, o) && o.data == p.data && AtCopy(ts, o.rip, p.rip, c, k)
    requires NotExchanged(ts, FunctionReplacement.Step(isa, mem, o).rip)
    ensures Related(ts, FunctionReplacement.Step(isa, mem, o),
                    Steps(isa, after, FunctionReplacement.Step(isa, after, p), m))
  {
    var o', p' := FunctionReplacement.Step(isa, mem, o), FunctionReplacement.Step(isa, after, p);
    assert InstalledAt(isa, mem, ts, after, c);
    assert o == State(ts[c].Entry(k), o.data) && p == State(ts[c].Copy(k), o.data);
    ReadsUntouched(isa, mem, ts, after, c, o);
    CopyStep(ts[c], after, k, o.data);
    if ts[c].Branches(o.rip, o.data) {
      BranchNext(isa, mem, ts, after, c, o);
      assert p' == o';
      m := Arrive(isa, mem, ts, after, o');
    } else {
      assert o' == State(ts[c].Entry(k + 1), o'.data) && p' == State(ts[c].Copy(k + 1), o'.data);
      m := CopyEnds(isa, mem, ts, after, c, k, o'.data);
    }
  }

  /** One step of the original program is at least one of the patched one. */
  lemma SimulateStep(isa: Isa, mem: seq<byte>, ts: seq<Trampoline>, after: seq<byte>, o: State, p: State)
    returns (m: nat)
    requires ts != [] && Installed(isa, mem, ts, after) && ProperFor(ts, o) && Related(ts, o, p)
    requires NotExchanged(ts, FunctionReplacement.Step(isa, mem, o).rip)
    ensures m > 0 && Related(ts, FunctionReplacement.Step(isa, mem, o), Steps(isa, after, p, m))
  {
    if InPrologue(ts, o.rip) {
      var c: int, k: int :| AtCopy(ts, o.rip, p.rip, c, k);
      m := InsideStep(isa, mem, ts, after, o, p, c, k);
    } else {
      OutsideStep(isa, mem, ts, after, o);
      assert p == o;
      m := Arrive(isa, mem, ts, after, FunctionReplacement.Step(isa, mem, o));
    }
    OneStep(isa, after, p);
    StepsAdd(isa, after, p, 1, m);
    m := 1 + m;
  }

  // ---------- Whole runs ----------

  lemma FollowStep(isa: Isa, mem: seq<byte>, ts: seq<Trampoline>, after: seq<byte>, o: State, p: State, n: nat, i: nat)
    returns (m: nat)
    requires ts != [] && Installed(isa, mem, ts, after) && n > 0
    requires ProperAfter(isa, mem, ts, o, n - 1) && AwayAfter(isa, mem, ts, o, n)
    requires Related(ts, Steps(isa, mem, o, n - 1), Steps(isa, after, p, i))
    ensures m > i && Related(ts, Steps(isa, mem, o, n), Steps(isa, after, p, m))
  {
    StepsSnoc(isa, mem, o, n);
    var j := SimulateStep(isa, mem, ts, after, Steps(isa, mem, o, n - 1), Steps(isa, after, p, i));
    StepsAdd(isa, after, p, i, j);
    m := i + j;
  }

  lemma {:induction false} Simulate(isa: Isa, mem: seq<byte>, ts: seq<Trampoline>, after: seq<byte>,
                                    o: State, p: State, n: nat) returns (m: nat)
    requires ts != [] && Installed(isa, mem, ts, after) && Related(ts, o, p)
    requires ProperRun(isa, mem, ts, o, n) && StaysAway(isa, mem, ts, o, n)
    ensures n <= m && Related(ts, Steps(isa, mem, o, n), Steps(isa, after, p, m))
    decreases n
  {
    if n == 0 {
      m := 0;
    } else {
      var i := Simulate(isa, mem, ts, after, o, p, n - 1);
      assert ProperAfter(isa, mem, ts, o, n - 1) && AwayAfter(isa, mem, ts, o, n);
      m := FollowStep(isa, mem, ts, after, o, p, n, i);
    }
  }

  /** Where a patched program may start in the place of the original: in the same state, not inside copied instructions
      and not at a function whose calls were sent elsewhere; or at the copy of any function the original enters. */
  ghost predicate Starts(ts: seq<Trampoline>, o: State, p: State) {
    || (p == o && AtBeginning(ts, o.rip) && NotExchanged(ts, o.rip))
    || exists c {:trigger ts[c]} :: 0 <= c < |ts| && o.rip == ts[c].fn && p == State(ts[c].buf, o.data)
  }

  /** Whatever the targets of the exchangeable jumps, the patched program follows the original's run for as long as that
      calls no function whose calls were sent elsewhere. */
  lemma InstalledPreserves(isa: Isa, mem: seq<byte>, ts: seq<Trampoline>, after: seq<byte>, o: State, p: State, n: nat)
    returns (m: nat)
    requires ts != [] && Installed(isa, mem, ts, after) && Starts(ts, o, p)
    requires ProperRun(isa, mem, ts, o, n) && StaysAway(isa, mem, ts, o, n)
    ensures n <= m && Related(ts, Steps(isa, mem, o, n), Steps(isa, after, p, m))
  {
    var j := Begin(isa, mem, ts, after, o, p);
    var i := Simulate(isa, mem, ts, after, o, Steps(isa, after, p, j), n);
    StepsAdd(isa, after, p, j, i);
    m := j + i;
  }

  lemma Begin(isa: Isa, mem: seq<byte>, ts: seq<Trampoline>, after: seq<byte>, o: State, p: State) returns (j: nat)
    requires Installed(isa, mem, ts, after) && Starts(ts, o, p)
    ensures Related(ts, o, Steps(isa, after, p, j))
  {
    if p == o && AtBeginning(ts, o.rip) && NotExchanged(ts, o.rip) {
      j := Arrive(isa, mem, ts, after, o);
    } else {
      var c :| 0 <= c < |ts| && o.rip == ts[c].fn && p == State(ts[c].buf, o.data);
      assert InstalledAt(isa, mem, ts, after, c) && ts[c].InPrologue(o.rip);
      AtFirstCopy(ts, c, o.rip);
      j := 0;
    }
  }

  // ---------- Replacements made one after the other ----------

  /** Each is made on the memory that the one before it left, its exchangeable jump's target stored already, and has a
      function and a buffer region of its own. */
  ghost predicate Chain(ts: seq<Trampoline>) {
    && (forall k {:trigger Link(ts, k)} :: 0 <= k < |ts| ==> Link(ts, k))
    && (forall k, l {:trigger OwnPlaces(ts, k, l)} ::
          0 <= k < |ts| && 0 <= l < |ts| && k != l ==> OwnPlaces(ts, k, l))
  }

  ghost predicate Link(ts: seq<Trampoline>, k: nat)
    requires k < |ts|
  {
    && ts[k].isa == ts[0].isa && ts[k].Fits() && ts[k].Faithful()
    && (k > 0 ==> ts[k - 1].Fits() && ts[k].mem == ts[k - 1].After())
  }

  predicate OwnPlaces(ts: seq<Trampoline>, k: nat, l: nat)
    requires k < |ts| && l < |ts|
  {
    var t, u := ts[k], ts[l];
    && Apart(t.fn, t.fn + t.CopyLen(), u.fn, u.fn + u.CopyLen())
    && Apart(t.fn, t.fn + t.CopyLen(), u.buf, u.buf + u.CopyLen() + 2 * JMP_SIZE)
    && Apart(t.buf, t.buf + t.CopyLen() + 2 * JMP_SIZE, u.buf, u.buf + u.CopyLen() + 2 * JMP_SIZE)
    && Apart(t.buf, t.buf + t.CopyLen() + 2 * JMP_SIZE, u.fn, u.fn + u.CopyLen())
  }

  /** The replacements as replacements of functions of the original memory. */
  function Rebased(ts: seq<Trampoline>): (rs: seq<Trampoline>)
    ensures |rs| == |ts| && forall k :: 0 <= k < |ts| ==> rs[k] == ts[k].(mem := ts[0].mem)
  {
    seq(|ts|, k requires 0 <= k < |ts| => ts[k].(mem := ts[0].mem))
  }

  /** A replacement keeps its contracts on other memory with the same function. */
  lemma RebaseFaithful(t: Trampoline, mem: seq<byte>)
    requires t.Fits() && t.Faithful() && |mem| == |t.mem|
    requires mem[t.fn..t.fn + t.CopyLen()] == t.mem[t.fn..t.fn + t.CopyLen()]
    ensures t.(mem := mem).Fits() && t.(mem := mem).Faithful()
  {
    var r := t.(mem := mem);
    forall k | 0 <= k < |t.lens| ensures r.FaithfulAt(k) {
      RebaseEntry(t, mem, k);
    }
  }

  lemma RebaseEntry(t: Trampoline, mem: seq<byte>, k: nat)
    requires t.Fits() && t.Faithful() && |mem| == |t.mem| && k < |t.lens|
    requires mem[t.fn..t.fn + t.CopyLen()] == t.mem[t.fn..t.fn + t.CopyLen()]
    ensures t.(mem := mem).Fits() && t.(mem := mem).FaithfulAt(k)
  {
    var ip := t.Entry(k);
    assert t.FaithfulAt(k);
    RebaseBytes(t, mem, k);
    assert t.(mem := mem).Entry(k) == ip && t.(mem := mem).Copy(k) == t.Copy(k);
    var w := Window(t.mem, ip);
    SliceOfSlice(t.mem, ip, ip + |w|, 0, t.lens[k]);
    FetchLike(t.isa, w, t.lens[k], mem, ip);
  }

  lemma RebaseBytes(t: Trampoline, mem: seq<byte>, k: nat)
    requires t.Fits() && |mem| == |t.mem| && k < |t.lens|
    requires mem[t.fn..t.fn + t.CopyLen()] == t.mem[t.fn..t.fn + t.CopyLen()]
    ensures 0 <= t.Entry(k) && t.Entry(k) + t.lens[k] <= |mem|
    ensures mem[t.Entry(k)..t.Entry(k) + t.lens[k]] == t.mem[t.Entry(k)..t.Entry(k) + t.lens[k]]
    ensures Original(mem, t.fn, t.lens, k) == Original(t.mem, t.fn, t.lens, k)
  {
    SumNext(t.lens, k);
    SumPrefix(t.lens, k + 1);
    var from, to := Sum(t.lens[..k]), Sum(t.lens[..k + 1]);
    SliceOfSlice(mem, t.fn, t.fn + t.CopyLen(), from, to);
    SliceOfSlice(t.mem, t.fn, t.fn + t.CopyLen(), from, to);
  }

  /** One replacement more. */
  lemma InstallMore(isa: Isa, mem: seq<byte>, rs: seq<Trampoline>, mid: seq<byte>, t: Trampoline)
    requires Installed(isa, mem, rs, mid) && t.isa == isa && t.mem == mid && t.Fits() && t.Faithful()
    requires forall c {:trigger rs[c]} :: 0 <= c < |rs| ==> OwnPlaces([rs[c], t], 0, 1)
    ensures Installed(isa, mem, rs + [t.(mem := mem)], t.After())
  {
    AfterLaidOut(t);
    MoreFaithful(isa, mem, rs, mid, t);
    var all := rs + [t.(mem := mem)];
    forall c | 0 <= c < |all| ensures InstalledAt(isa, mem, all, t.After(), c) {
      if c < |rs| {
        StaysInstalled(isa, mem, rs, mid, t, c);
      }
    }
    MoreApart(isa, mem, rs, mid, t);
    MoreUntouched(isa, mem, rs, mid, t);
  }

  lemma StaysInstalled(isa: Isa, mem: seq<byte>, rs: seq<Trampoline>, mid: seq<byte>, t: Trampoline, c: nat)
    requires Installed(isa, mem, rs, mid) && t.mem == mid && t.Fits() && c < |rs| && OwnPlaces([rs[c], t], 0, 1)
    ensures InstalledAt(isa, mem, rs, t.After(), c)
  {
    assert InstalledAt(isa, mem, rs, mid, c);
    AfterLaidOut(t);
    LaterReplacementKeeps(rs[c], mid, t, t.After());
  }

  lemma MoreFaithful(isa: Isa, mem: seq<byte>, rs: seq<Trampoline>, mid: seq<byte>, t: Trampoline)
    requires Installed(isa, mem, rs, mid) && t.mem == mid && t.Fits() && t.Faithful()
    requires forall c {:trigger rs[c]} :: 0 <= c < |rs| ==> OwnPlaces([rs[c], t], 0, 1)
    ensures t.(mem := mem).Fits() && t.(mem := mem).Faithful()
  {
    forall c | 0 <= c < |rs| ensures Clear(rs[c], t.fn, t.fn + t.CopyLen()) {
      assert InstalledAt(isa, mem, rs, mid, c) && OwnPlaces([rs[c], t], 0, 1);
    }
    assert Untouched(rs, t.fn, t.fn + t.CopyLen());
    RebaseFaithful(t, mem);
  }

  lemma MoreApart(isa: Isa, mem: seq<byte>, rs: seq<Trampoline>, mid: seq<byte>, t: Trampoline)
    requires Installed(isa, mem, rs, mid)
    requires forall c {:trigger rs[c]} :: 0 <= c < |rs| ==> OwnPlaces([rs[c], t], 0, 1)
    ensures var all := rs + [t.(mem := mem)];
            forall c, e {:trigger ProloguesApart(all, c, e)} ::
              0 <= c < |all| && 0 <= e < |all| && c != e ==> ProloguesApart(all, c, e)
  {
    var all := rs + [t.(mem := mem)];
    forall c, e | 0 <= c < |all| && 0 <= e < |all| && c != e ensures ProloguesApart(all, c, e) {
      if c < |rs| && e < |rs| {
        assert ProloguesApart(rs, c, e);
      } else {
        assert OwnPlaces([rs[if c < |rs| then c else e], t], 0, 1);
      }
    }
  }

  lemma MoreUntouched(isa: Isa, mem: seq<byte>, rs: seq<Trampoline>, mid: seq<byte>, t: Trampoline)
    requires Installed(isa, mem, rs, mid) && t.mem == mid && t.Fits()
    ensures var all := rs + [t.(mem := mem)];
            forall a, b {:trigger Untouched(all, a, b)} ::
              0 <= a <= b <= |mem| && Untouched(all, a, b) ==> t.After()[a..b] == mem[a..b]
  {
    var all := rs + [t.(mem := mem)];
    AfterLaidOut(t);
    forall a, b | 0 <= a <= b <= |mem| && Untouched(all, a, b) ensures t.After()[a..b] == mem[a..b] {
      assert Clear(all[|rs|], a, b);
      ClearKept(t, t.After(), a, b);
      forall c | 0 <= c < |rs| ensures Clear(rs[c], a, b) {
        assert Clear(all[c], a, b);
      }
      assert Untouched(rs, a, b);
    }
  }

  lemma ChainStep(ts: seq<Trampoline>, k: nat, rs: seq<Trampoline>, mid: seq<byte>)
    requires Chain(ts) && k < |ts| && mid == ts[k].mem
    requires |rs| == k && forall c :: 0 <= c < k ==> rs[c] == ts[c].(mem := ts[0].mem)
    requires Installed(ts[0].isa, ts[0].mem, rs, mid)
    ensures ts[k].Fits() && Installed(ts[0].isa, ts[0].mem, rs + [ts[k].(mem := ts[0].mem)], ts[k].After())
  {
    assert Link(ts, k);
    forall c | 0 <= c < |rs| ensures OwnPlaces([rs[c], ts[k]], 0, 1) {
      assert OwnPlaces(ts, c, k);
    }
    InstallMore(ts[0].isa, ts[0].mem, rs, mid, ts[k]);
  }

  lemma {:induction false} ChainInstalls(ts: seq<Trampoline>, n: nat)
    returns (rs: seq<Trampoline>, mid: seq<byte>)
    requires ts != [] && Chain(ts) && n <= |ts|
    ensures rs == Rebased(ts)[..n] && Installed(ts[0].isa, ts[0].mem, rs, mid)
    ensures n == 0 ==> mid == ts[0].mem
    ensures n > 0 ==> ts[n - 1].Fits() && mid == ts[n - 1].After()
    decreases n
  {
    if n == 0 {
      rs, mid := [], ts[0].mem;
    } else {
      rs, mid := ChainInstalls(ts, n - 1);
      assert Link(ts, n - 1);
      ChainStep(ts, n - 1, rs, mid);
      rs, mid := rs + [ts[n - 1].(mem := ts[0].mem)], ts[n - 1].After();
    }
  }

  lemma ChainInstalled(ts: seq<Trampoline>) returns (after: seq<byte>)
    requires ts != [] && Chain(ts)
    ensures ts[|ts| - 1].Fits() && after == ts[|ts| - 1].After()
    ensures Installed(ts[0].isa, ts[0].mem, Rebased(ts), after)
  {
    var rs;
    rs, after := ChainInstalls(ts, |ts|);
    assert rs == Rebased(ts);
  }

  /** Any number of replacements made one after the other, whatever their exchangeable jumps lead to: the program with
      all of them follows the original's run, from the same state or from the copy of a function that the original
      enters, for as long as the original calls no function whose calls were sent elsewhere. So what a hook calls as the
      original function is that, however many others are replaced too. */
  lemma ChainPreserves(ts: seq<Trampoline>, o: State, p: State, n: nat) returns (m: nat)
    requires ts != [] && Chain(ts) && Starts(Rebased(ts), o, p)
    requires ProperRun(ts[0].isa, ts[0].mem, Rebased(ts), o, n) && StaysAway(ts[0].isa, ts[0].mem, Rebased(ts), o, n)
    ensures ts[|ts| - 1].Fits() && n <= m
    ensures Related(Rebased(ts), Steps(ts[0].isa, ts[0].mem, o, n), Steps(ts[0].isa, ts[|ts| - 1].After(), p, m))
  {
    var after := ChainInstalled(ts);
    m := InstalledPreserves(ts[0].isa, ts[0].mem, Rebased(ts), after, o, p, n);
  }

  /** A call of a replaced function goes to its own target, with nothing changed on the way, however many others are
      replaced too. */
  lemma ChainEnters(ts: seq<Trampoline>, c: nat, d: Data)
    requires Chain(ts) && c < |ts|
    ensures ts[|ts| - 1].Fits()
    ensures Steps(ts[0].isa, ts[|ts| - 1].After(), State(ts[c].fn, d), 2) == State(ts[c].target, d)
  {
    var after := ChainInstalled(ts);
    assert InstalledAt(ts[0].isa, ts[0].mem, Rebased(ts), after, c);
    EnterFunction(Rebased(ts)[c], after, d);
  }

  // ---------- A single replacement ----------

  lemma ChainOfOne(t: Trampoline)
    requires t.Fits() && t.Faithful()
    ensures Chain([t]) && Rebased([t]) == [t]
  {}

  /** With the default target, a patched program that starts anywhere the original may start, the patched function
      included, follows the original's run; outside the copied instructions, so at fn + copy_len for one, the two are in
      the same state. */
  lemma TrampolinePreserves(t: Trampoline, o: State, n: nat) returns (m: nat)
    requires t.Fits() && t.Faithful() && t.target == t.buf && (t.InPrologue(o.rip) ==> o.rip == t.fn)
    requires ProperRun(t.isa, t.mem, [t], o, n)
    ensures n <= m && Related([t], Steps(t.isa, t.mem, o, n), Steps(t.isa, t.After(), o, m))
  {
    ChainOfOne(t);
    forall i: nat ensures AwayAfter(t.isa, t.mem, [t], o, i) {}
    m := ChainPreserves([t], o, o, n);
  }

  /** Whatever the exchangeable jump's target, entering the copy is calling the original function, up to a call of the
      function in its turn; and a call of the function goes to the target, with nothing changed on the way. */
  lemma CopiedIsOriginal(t: Trampoline, d: Data, n: nat) returns (m: nat)
    requires t.Fits() && t.Faithful()
    requires ProperRun(t.isa, t.mem, [t], State(t.fn, d), n) && StaysAway(t.isa, t.mem, [t], State(t.fn, d), n)
    ensures n <= m && Related([t], Steps(t.isa, t.mem, State(t.fn, d), n), Steps(t.isa, t.After(), State(t.buf, d), m))
    ensures Steps(t.isa, t.After(), State(t.fn, d), 2) == State(t.target, d)
  {
    ChainOfOne(t);
    ChainEnters([t], 0, d);
    m := ChainPreserves([t], State(t.fn, d), State(t.buf, d), n);
  }
}
