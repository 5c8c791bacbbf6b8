/** Software breakpoints and the exception handler that serves them (win_agent/instrumentation/fault_inducer.cpp and
    win_agent/instrumentation/veh.cpp). Changing page protections always succeeds; whether an address may be
    instrumented at all is a parameter. */
module Instrumentation {
  import opened Common

  /** The code bytes of the process. */
  type Code = int -> byte

  const INT3: byte := 0xCC

  function Poke(code: Code, x: int, v: byte): Code {
    y => if y == x then v else code(y)
  }

  datatype CodeInstrumentation = CodeInstrumentation(instruction: int, originalByte: byte)

  /** find_code_instrumentation: the first entry for `ip`, or `|entries|`. */
  function FindEntry(entries: seq<CodeInstrumentation>, ip: int): (r: nat)
    ensures r <= |entries|
    ensures r < |entries| ==> entries[r].instruction == ip
    ensures forall j :: 0 <= j < r ==> entries[j].instruction != ip
  {
    if entries == [] || entries[0].instruction == ip then 0 else 1 + FindEntry(entries[1..], ip)
  }

  predicate Instrumented(entries: seq<CodeInstrumentation>, x: int) {
    FindEntry(entries, x) < |entries|
  }

  // ---------- Installing breakpoints ----------

  datatype Table = Table(entries: seq<CodeInstrumentation>, code: Code)

  /** The table after `instrument` succeeded for each of `xs`, in order and with repetitions. */
  function InstrumentAll(code: Code, xs: seq<int>): Table {
    if xs == [] then Table([], code)
    else
      var x, before := xs[|xs| - 1], InstrumentAll(code, xs[..|xs| - 1]);
      Table(before.entries + [CodeInstrumentation(x, before.code(x))], Poke(before.code, x, INT3))
  }

  /** Every listed address is armed and nothing else is touched. The first entry for an address has its true byte;
      every later one has recorded the breakpoint itself. */
  ghost predicate Records(t: Table, code: Code, xs: seq<int>) {
    && |t.entries| == |xs|
    && (forall k :: 0 <= k < |xs| ==> t.entries[k].instruction == xs[k])
    && (forall x :: t.code(x) == if Instrumented(t.entries, x) then 0xCC else code(x))
    && (forall k :: 0 <= k < |xs| ==>
          t.entries[k].originalByte == if FindEntry(t.entries, xs[k]) == k then code(xs[k]) else 0xCC)
  }

  lemma RecordsStep(before: Table, code: Code, xs: seq<int>, x: int)
    requires Records(before, code, xs)
    ensures Records(Table(before.entries + [CodeInstrumentation(x, before.code(x))], Poke(before.code, x, INT3)),
                    code, xs + [x])
  {
    var e := CodeInstrumentation(x, before.code(x));
    var t, ys := Table(before.entries + [e], Poke(before.code, x, INT3)), xs + [x];
    forall y ensures t.code(y) == if Instrumented(t.entries, y) then 0xCC else code(y) {
      FindEntryAppend(before.entries, e, y);
    }
    forall k | 0 <= k < |ys|
      ensures t.entries[k].originalByte == if FindEntry(t.entries, ys[k]) == k then code(ys[k]) else 0xCC
    {
      FindEntryAppend(before.entries, e, ys[k]);
    }
  }

  lemma {:induction false} InstrumentAllRecords(code: Code, xs: seq<int>)
    ensures Records(InstrumentAll(code, xs), code, xs)
  {
    if xs == [] {
    } else {
      var n := |xs| - 1;
      InstrumentAllRecords(code, xs[..n]);
      RecordsStep(InstrumentAll(code, xs[..n]), code, xs[..n], xs[n]);
      assert xs[..n] + [xs[n]] == xs;
    }
  }

  /** The instrumented addresses are those listed, and the entry found for one has its true byte. */
  lemma InstrumentedAre(code: Code, xs: seq<int>, x: int)
    ensures var entries := InstrumentAll(code, xs).entries;
            && (Instrumented(entries, x) <==> x in xs)
            && (Instrumented(entries, x) ==> entries[FindEntry(entries, x)].originalByte == code(x))
  {
    InstrumentAllRecords(code, xs);
    var entries := InstrumentAll(code, xs).entries;
    if x in xs {
      var k :| 0 <= k < |xs| && xs[k] == x;
      assert entries[k].instruction == x;
    }
    var i := FindEntry(entries, x);
    assert i < |entries| ==> xs[i] == x;
  }

  lemma FindEntryAppend(entries: seq<CodeInstrumentation>, e: CodeInstrumentation, x: int)
    ensures FindEntry(entries + [e], x) == if Instrumented(entries, x) then FindEntry(entries, x)
                                           else if x == e.instruction then |entries| else |entries| + 1
  {
    var i, j := FindEntry(entries, x), FindEntry(entries + [e], x);
    assert forall k :: 0 <= k < |entries| ==> (entries + [e])[k] == entries[k];
    assert (entries + [e])[|entries|] == e;
    if i < |entries| {
      assert (entries + [e])[i].instruction == x;
    }
  }

  /** Finding the entry for an instrumented address and disabling it restores the true byte, however often the address
      was instrumented. */
  lemma FirstEntryRestores(code: Code, xs: seq<int>, x: int, y: int)
    requires x in xs
    ensures var t := InstrumentAll(code, xs);
            var i := FindEntry(t.entries, x);
            && i < |t.entries|
            && Poke(t.code, x, t.entries[i].originalByte)(y) ==
               (if y == x || !Instrumented(t.entries, y) then code(y) else 0xCC)
  {
    InstrumentAllRecords(code, xs);
    var k :| 0 <= k < |xs| && xs[k] == x;
  }

  // ---------- The handler ----------

  datatype Exception = Breakpoint | SingleStep | AccessViolation | GuardPage | Other

  datatype Disposition = ContinueSearch | ContinueExecution

  function Rearm(code: Code, entries: seq<CodeInstrumentation>, pending: seq<nat>): Code
    requires forall k :: 0 <= k < |pending| ==> pending[k] < |entries|
  {
    if pending == [] then code
    else
      var n := |pending| - 1;
      Poke(Rearm(code, entries, pending[..n]), entries[pending[n]].instruction, INT3)
  }

  /** Running the pending callbacks arms exactly the addresses they stand for. */
  lemma {:induction false} RearmArms(code: Code, entries: seq<CodeInstrumentation>, pending: seq<nat>, x: int)
    requires forall k :: 0 <= k < |pending| ==> pending[k] < |entries|
    ensures Rearm(code, entries, pending)(x) ==
            if exists k :: 0 <= k < |pending| && entries[pending[k]].instruction == x then 0xCC else code(x)
  {
    if pending == [] {
    } else {
      var n := |pending| - 1;
      RearmArms(code, entries, pending[..n], x);
      if exists k :: 0 <= k < n && entries[pending[..n][k]].instruction == x {
        var k :| 0 <= k < n && entries[pending[..n][k]].instruction == x;
        assert pending[k] == pending[..n][k];
      }
      assert forall k :: 0 <= k < n ==> pending[k] == pending[..n][k];
    }
  }

  class InstrumentationHandler {
    var code: Code
    var instrumentedInstructions: seq<CodeInstrumentation>
    var singlestepCallbacks: seq<nat>  // of the thread being served: the entries to enable again
    var log: seq<int>                  // the addresses the callback was called for

    constructor (code: Code)
      ensures this.code == code && instrumentedInstructions == [] && singlestepCallbacks == [] && log == []
    {
      this.code := code;
      instrumentedInstructions, singlestepCallbacks, log := [], [], [];
    }

    predicate Valid()
      reads this
    {
      forall k :: 0 <= k < |singlestepCallbacks| ==> singlestepCallbacks[k] < |instrumentedInstructions|
    }

    method Enable(i: nat)
      requires i < |instrumentedInstructions|
      modifies this`code
      ensures code == Poke(old(code), instrumentedInstructions[i].instruction, 0xCC)
    {
      code := Poke(code, instrumentedInstructions[i].instruction, INT3);
    }

    method Disable(i: nat)
      requires i < |instrumentedInstructions|
      modifies this`code
      ensures code == Poke(old(code), instrumentedInstructions[i].instruction, instrumentedInstructions[i].originalByte)
    {
      code := Poke(code, instrumentedInstructions[i].instruction, instrumentedInstructions[i].originalByte);
    }

    /** Keeps the handler at the table of the addresses instrumented so far, `original` being the code before any. */
    method Instrument(start: int, executable: bool, ghost original: Code, ghost xs: seq<int>) returns (ok: bool)
      requires Table(instrumentedInstructions, code) == InstrumentAll(original, xs)
      modifies this`code, this`instrumentedInstructions
      ensures ok == executable && (ok ==> code(start) == 0xCC)
      ensures Table(instrumentedInstructions, code) == InstrumentAll(original, if ok then xs + [start] else xs)
    {
      if !executable {
        return false;
      }
      assert (xs + [start])[..|xs|] == xs;
      instrumentedInstructions := instrumentedInstructions + [CodeInstrumentation(start, code(start))];
      Enable(|instrumentedInstructions| - 1);
      return true;
    }

    method FindCodeInstrumentation(ip: int) returns (i: nat)
      ensures i == FindEntry(instrumentedInstructions, ip)
    {
      i := 0;
      while i < |instrumentedInstructions| && instrumentedInstructions[i].instruction != ip
        invariant i <= |instrumentedInstructions|
        invariant forall j :: 0 <= j < i ==> instrumentedInstructions[j].instruction != ip
      {
        i := i + 1;
      }
    }

    method RunSinglestepCallbacks()
      requires Valid()
      modifies this`code, this`singlestepCallbacks
      ensures code == Rearm(old(code), instrumentedInstructions, old(singlestepCallbacks))
      ensures singlestepCallbacks == []
    {
      for k := 0 to |singlestepCallbacks|
        invariant singlestepCallbacks == old(singlestepCallbacks)
        invariant code == Rearm(old(code), instrumentedInstructions, singlestepCallbacks[..k])
      {
        assert singlestepCallbacks[..k + 1][..k] == singlestepCallbacks[..k];
        Enable(singlestepCallbacks[k]);
      }
      assert singlestepCallbacks[..|singlestepCallbacks|] == singlestepCallbacks;
      singlestepCallbacks := [];
    }

    /** veh_handler for one thread, undisturbed. */
    method VehHandler(exception: Exception, rip: int, trapFlag: bool)
      returns (disposition: Disposition, trapFlag': bool)
      requires Valid()
      modifies this`code, this`singlestepCallbacks, this`log
      ensures Valid()
      ensures exception.Breakpoint? && Instrumented(instrumentedInstructions, rip) ==>
                var i := FindEntry(instrumentedInstructions, rip);
                && disposition.ContinueExecution? && trapFlag'
                && code == Poke(old(code), rip, instrumentedInstructions[i].originalByte)
                && singlestepCallbacks == old(singlestepCallbacks) + [i]
                && log == old(log) + [rip]
      ensures exception.SingleStep? ==>
                && disposition.ContinueExecution? && trapFlag' == trapFlag
                && code == Rearm(old(code), instrumentedInstructions, old(singlestepCallbacks))
                && singlestepCallbacks == [] && log == old(log)
      ensures !(exception.Breakpoint? && Instrumented(instrumentedInstructions, rip)) && !exception.SingleStep? ==>
                && trapFlag' == trapFlag && code == old(code)
                && singlestepCallbacks == old(singlestepCallbacks) && log == old(log)
                && disposition == if exception.Breakpoint? || exception.Other? then ContinueSearch
                                  else ContinueExecution
    {
      trapFlag' := trapFlag;
      match exception
      case Breakpoint =>
        var i := FindCodeInstrumentation(rip);
        if i == |instrumentedInstructions| {
          return ContinueSearch, trapFlag';
        }
        log := log + [rip];
        Disable(i);
        trapFlag' := true;
        singlestepCallbacks := singlestepCallbacks + [i];
        return ContinueExecution, trapFlag';
      case SingleStep =>
        RunSinglestepCallbacks();
        return ContinueExecution, trapFlag';
      case AccessViolation => return ContinueExecution, trapFlag';
      case GuardPage => return ContinueExecution, trapFlag';
      case Other => return ContinueSearch, trapFlag';
    }
  }
}
