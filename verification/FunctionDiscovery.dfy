/** Finding functions: the listed ones, the leaves they call, the decodable of both, and which of them sit in a dispatch
    table (the loops of win_agent/function_finder and the marking loop of win_agent/rtti/rtti_analyzer.cpp). */
module FunctionDiscovery {
  import opened Common
  import opened Blocks
  import opened DispatchTables

  /** A 64-bit address or size. */
  type Address = n: nat | n < TWO_TO_64

  datatype Kind = Frame | Leaf

  /** `end` and `secondInstruction` are 0 when unknown. */
  datatype Function = Function(start: Address, end: Address, kind: Kind, secondInstruction: Address,
                               dynamicDispatch: bool)
  {
    predicate Contains(p: Address) {
      start <= p < end
    }
  }

  /** An instruction: its length, and the target when it is a call of a computable address. */
  datatype Instruction = Instruction(length: nat, call: Option<Address>)

  /** The disassembler: the instruction at an address, given the number of bytes it may read. */
  type Disassembler = (Address, Address) -> Option<Instruction>

  /** `(u8 *)end - (u8 *)ip` as a size: an unknown end, 0, leaves everything up to the end of the address space. */
  function Avail(ip: Address, end: Address): Address {
    if ip <= end then end - ip else TWO_TO_64 + end - ip
  }

  /** One step of FunctionDisassembler: an instruction has at least one byte and those it has are available. */
  function Decode(dis: Disassembler, ip: Address, avail: Address): (r: Option<Instruction>)
    ensures r.Some? ==> 1 <= r.value.length <= avail
  {
    match dis(ip, avail)
    case None => None
    case Some(i) => if 1 <= i.length <= avail then Some(i) else None
  }

  function After(ip: Address, length: Address): Address {
    if ip + length < TWO_TO_64 then ip + length else ip + length - TWO_TO_64
  }

  /** An unknown end leaves everything up to the end of the address space, a known one what lies before it. */
  lemma AvailIs(ip: Address, end: Address)
    ensures ip > 0 ==> Avail(ip, 0) == 0x1_0000_0000_0000_0000 - ip
    ensures ip <= end ==> Avail(ip, end) == end - ip
    ensures Avail(ip, end) == (end - ip) % 0x1_0000_0000_0000_0000
  {}

  lemma AvailAfter(ip: Address, end: Address, length: Address)
    requires length <= Avail(ip, end)
    ensures Avail(After(ip, length), end) == Avail(ip, end) - length
  {}

  function Target(i: Instruction): set<Address> {
    if i.call.Some? then {i.call.value} else {}
  }

  /** The call targets met by disassembling from `ip` on until decoding fails. */
  function CallTargets(dis: Disassembler, ip: Address, avail: Address): set<Address>
    decreases avail
  {
    match Decode(dis, ip, avail)
    case None => {}
    case Some(i) =>
      Target(i) + CallTargets(dis, After(ip, i.length), avail - i.length)
  }

  function Calls(dis: Disassembler, fn: Function): set<Address> {
    CallTargets(dis, fn.start, Avail(fn.start, fn.end))
  }

  /** find_function: the first function that starts at `p`, or `|list|`. */
  function FindStart(list: seq<Function>, p: Address): (r: nat)
    ensures r <= |list|
    ensures r < |list| ==> list[r].start == p
    ensures forall k :: 0 <= k < r ==> list[k].start != p
  {
    if list == [] || list[0].start == p then 0 else 1 + FindStart(list[1..], p)
  }

  predicate Listed(list: seq<Function>, p: Address) {
    exists k :: 0 <= k < |list| && list[k].start == p
  }

  predicate DistinctStarts(list: seq<Function>) {
    forall k, l :: 0 <= k < l < |list| ==> list[k].start != list[l].start
  }

  /** A listed function whose end is known contains the address. */
  predicate Inside(list: seq<Function>, p: Address) {
    exists k :: 0 <= k < |list| && list[k].end != 0 && list[k].start <= p < list[k].end
  }

  /** One of the first `n` listed functions calls the address. */
  predicate Called(dis: Disassembler, list: seq<Function>, n: int, p: Address) {
    exists k :: 0 <= k < n && k < |list| && p in Calls(dis, list[k])
  }

  function LeafAt(p: Address): Function {
    Function(p, 0, Leaf, 0, false)
  }

  predicate AllLeaves(list: seq<Function>) {
    forall k :: 0 <= k < |list| ==> list[k] == LeafAt(list[k].start)
  }

  /** Of the targets, exactly those that are not listed were added to the collection. */
  ghost predicate Gathered(list: seq<Function>, targets: set<Address>, before: seq<Function>, leaves: seq<Function>) {
    forall p: Address :: Listed(leaves, p) <==> Listed(before, p) || (p in targets && !Listed(list, p))
  }

  lemma GatheredMore(list: seq<Function>, targets: set<Address>, more: set<Address>, before: seq<Function>,
                     had: seq<Function>, leaves: seq<Function>)
    requires Gathered(list, targets, before, had) && Gathered(list, more, had, leaves)
    ensures Gathered(list, targets + more, before, leaves)
  {}

  class FunctionList {
    var functions: seq<Function>

    constructor (listed: seq<Function>)
      ensures functions == listed
    {
      functions := listed;
    }

    method Find(p: Address) returns (r: nat)
      ensures r == FindStart(functions, p)
    {
      r := FindIn(functions, p);
    }

    /** std::find_if over a list of functions, by start. */
    static method FindIn(list: seq<Function>, p: Address) returns (r: nat)
      ensures r == FindStart(list, p)
    {
      r := 0;
      while r < |list| && list[r].start != p
        invariant r <= |list|
        invariant forall k :: 0 <= k < r ==> list[k].start != p
      {
        r := r + 1;
      }
    }

    /** The first loop of find_leaf_functions for one function: its call targets that are neither listed nor collected
        yet join the collection. */
    method CollectFrom(dis: Disassembler, fn: Function, before: seq<Function>) returns (leaves: seq<Function>)
      requires AllLeaves(before) && DistinctStarts(before)
      ensures AllLeaves(leaves) && DistinctStarts(leaves)
      ensures Gathered(functions, Calls(dis, fn), before, leaves)
    {
      leaves := before;
      var ip := fn.start;
      ghost var done := {};
      var step := Decode(dis, ip, Avail(ip, fn.end));
      while step.Some?
        invariant step == Decode(dis, ip, Avail(ip, fn.end))
        invariant done + CallTargets(dis, ip, Avail(ip, fn.end)) == Calls(dis, fn)
        invariant AllLeaves(leaves) && DistinctStarts(leaves)
        invariant Gathered(functions, done, before, leaves)
        decreases Avail(ip, fn.end)
      {
        var i := step.value;
        AvailAfter(ip, fn.end, i.length);
        ghost var had := leaves;
        if i.call.Some? {
          leaves := Collect(i.call.value, leaves);
        }
        GatheredMore(functions, done, Target(i), before, had, leaves);
        ip := After(ip, i.length);
        done := done + Target(i);
        step := Decode(dis, ip, Avail(ip, fn.end));
      }
    }

    /** A call target joins the leaves unless it is listed or collected already. */
    method Collect(addr: Address, before: seq<Function>) returns (leaves: seq<Function>)
      requires AllLeaves(before) && DistinctStarts(before)
      ensures AllLeaves(leaves) && DistinctStarts(leaves)
      ensures Gathered(functions, {addr}, before, leaves)
    {
      leaves := before;
      var it := Find(addr);
      if it == |functions| {
        var seen := FindIn(leaves, addr);
        if seen == |leaves| {
          leaves := leaves + [LeafAt(addr)];
          assert leaves[|before|] == LeafAt(addr);
          assert forall k :: 0 <= k < |before| ==> leaves[k] == before[k];
        }
      }
    }

    /** The first loop of find_leaf_functions. */
    method CollectLeaves(dis: Disassembler) returns (leaves: seq<Function>)
      ensures AllLeaves(leaves) && DistinctStarts(leaves)
      ensures forall p: Address :: Listed(leaves, p) <==>
                Called(dis, functions, |functions|, p) && !Listed(functions, p)
    {
      leaves := [];
      for k := 0 to |functions|
        invariant AllLeaves(leaves) && DistinctStarts(leaves)
        invariant forall p: Address :: Listed(leaves, p) <==> Called(dis, functions, k, p) && !Listed(functions, p)
      {
        leaves := CollectFrom(dis, functions[k], leaves);
        forall p: Address
          ensures Called(dis, functions, k + 1, p) <==> Called(dis, functions, k, p) || p in Calls(dis, functions[k])
        {
          CalledNext(dis, functions, k, p);
        }
      }
    }

    /** std::find_if for a function of known end that contains the address. */
    method FindContaining(p: Address) returns (r: nat)
      ensures r <= |functions| && (r < |functions| <==> Inside(functions, p))
    {
      r := 0;
      while r < |functions| && (functions[r].end == 0 || !functions[r].Contains(p))
        invariant r <= |functions|
        invariant forall k :: 0 <= k < r ==> functions[k].end == 0 || !functions[k].Contains(p)
      {
        r := r + 1;
      }
    }

    /** find_leaf_functions: behind the listed functions come leaves, and these are exactly the call targets that are
        not listed and not inside a listed function of known end. Starts stay distinct. */
    method FindLeafFunctions(dis: Disassembler)
      modifies this
      ensures |old(functions)| <= |functions| && functions[..|old(functions)|] == old(functions)
      ensures forall k :: |old(functions)| <= k < |functions| ==>
                functions[k] == Function(functions[k].start, 0, Leaf, 0, false)
      ensures forall p: Address :: Listed(functions, p) <==>
                || Listed(old(functions), p)
                || (Called(dis, old(functions), |old(functions)|, p) && !Inside(old(functions), p))
      ensures DistinctStarts(old(functions)) ==> DistinctStarts(functions)
    {
      var leaves := CollectLeaves(dis);
      ghost var list, added := functions, [];
      for k := 0 to |leaves|
        invariant functions == list + added && AllLeaves(added)
        invariant forall p: Address :: Listed(added, p) <==> Listed(leaves[..k], p) && !Inside(list, p)
        invariant DistinctStarts(list) ==> DistinctStarts(functions)
      {
        InsideLeaves(list, added, leaves[k].start);
        ListedNext(leaves, k);
        var found := FindContaining(leaves[k].start);
        if found == |functions| {
          NewStart(list, added, leaves, k);
          ListedAppend(added, leaves[k]);
          added := added + [leaves[k]];
          functions := functions + [leaves[k]];
          assert functions == list + added;
        }
      }
      assert leaves[..|leaves|] == leaves;
      forall p: Address ensures Listed(functions, p) <==> Listed(list, p) || Listed(added, p) {
        ListedConcat(list, added, p);
      }
      forall k | |list| <= k < |functions|
        ensures functions[k] == Function(functions[k].start, 0, Leaf, 0, false)
      {
        assert functions[k] == added[k - |list|];
      }
    }

    /** process_functions. */
    method ProcessFunctions(dis: Disassembler)
      modifies this
      ensures functions == Processed(dis, old(functions))
    {
      var k := 0;
      while k < |functions|
        invariant 0 <= k <= |functions|
        invariant Processed(dis, old(functions)) == functions[..k] + Processed(dis, functions[k..])
        decreases |functions| - k
      {
        var fn := functions[k];
        var step := Decode(dis, fn.start, Avail(fn.start, fn.end));
        assert step.Some? <==> Decodable(dis, fn);
        ProcessedNext(dis, functions, k);
        if step.Some? {
          functions := functions[k := fn.(secondInstruction := After(fn.start, step.value.length))];
          k := k + 1;
        } else {
          functions := functions[..k] + functions[k + 1..];
        }
      }
      assert functions[..k] == functions;
    }

    /** find_functions, the unwind table's functions being listed already: the decodable of the list with its leaves. */
    method FindFunctions(dis: Disassembler) returns (ghost found: seq<Function>)
      modifies this
      ensures |old(functions)| <= |found| && found[..|old(functions)|] == old(functions)
      ensures forall k :: |old(functions)| <= k < |found| ==>
                found[k] == Function(found[k].start, 0, Leaf, 0, false)
      ensures forall p: Address :: Listed(found, p) <==>
                || Listed(old(functions), p)
                || (Called(dis, old(functions), |old(functions)|, p) && !Inside(old(functions), p))
      ensures functions == Processed(dis, found)
      ensures forall g :: g in functions <==> exists fn :: fn in found && Keeps(dis, fn, g)
      ensures forall p: Address ::
                Called(dis, old(functions), |old(functions)|, p) && !Inside(old(functions), p)
                && !Listed(old(functions), p) ==>
                  (Listed(functions, p) <==> p > 0 && Gives(dis, p, 0x1_0000_0000_0000_0000 - p))
      ensures forall fn :: fn in old(functions) && fn.start < fn.end ==>
                ((exists g :: g in functions && g == fn.(secondInstruction := g.secondInstruction)) <==>
                 Gives(dis, fn.start, fn.end - fn.start))
      ensures DistinctStarts(old(functions)) ==> DistinctStarts(functions)
    {
      FindLeafFunctions(dis);
      found := functions;
      ghost var listed := old(functions);
      KeptExactly(dis, found);
      forall p: Address | Listed(found, p) && !Listed(listed, p)
        ensures Listed(Processed(dis, found), p) <==> p > 0 && Gives(dis, p, 0x1_0000_0000_0000_0000 - p)
      {
        LeafKept(dis, found, |listed|, p);
      }
      forall fn | fn in listed && fn.start < fn.end
        ensures (exists g :: g in Processed(dis, found) && g == fn.(secondInstruction := g.secondInstruction)) <==>
                Gives(dis, fn.start, fn.end - fn.start)
      {
        ListedKept(dis, found, fn);
      }
      if DistinctStarts(found) {
        ProcessedDistinct(dis, found);
      }
      ProcessFunctions(dis);
    }

    /** find_rtti, its type lists apart: a missing section leaves everything as it was; otherwise the first function of
        a start is marked exactly when that start is a code pointer of .rdata with another one beside it. */
    method FindRtti(text: Option<Block>, rdata: Option<Block>, word: int -> Address)
      requires text.Some? && rdata.Some? ==>
                 rdata.value.start <= rdata.value.end && 8 <= rdata.value.end < 0x1_0000_0000_0000_0000
      modifies this
      ensures text.None? || rdata.None? ==> functions == old(functions)
      ensures text.Some? && rdata.Some? ==>
                && |functions| == |old(functions)|
                && forall k :: 0 <= k < |functions| ==>
                     functions[k] == old(functions)[k].(dynamicDispatch :=
                       || old(functions)[k].dynamicDispatch
                       || (IsFirst(old(functions), k)
                           && VirtualEntry(text.value, rdata.value, word, old(functions)[k].start)))
    {
      if text.None? || rdata.None? {
        return;
      }
      var s := Dispatch(text.value, rdata.value, word);
      ghost var list := functions;
      var tables, wordsRead, rounds := FindPointerTables(s, {});
      MarkTables(word, tables);
      forall p: Address ensures InTables(word, tables, p) <==> VirtualEntry(text.value, rdata.value, word, p) {
        TablesDispatch(s, word, tables, p);
        DispatchedWhen(text.value, rdata.value, word, p);
      }
      SameMarks(list, functions, (p: Address) => InTables(word, tables, p),
                (p: Address) => VirtualEntry(text.value, rdata.value, word, p));
      forall k | 0 <= k < |list| ensures FindStart(list, list[k].start) == k <==> IsFirst(list, k) {}
    }

    /** The marking loop of find_rtti: a function is marked when its start is a word of some table and it is the first
        of the list that starts there. */
    method MarkTables(word: int -> Address, tables: set<Block>)
      modifies this
      ensures Marked(old(functions), functions, (p: Address) => InTables(word, tables, p))
    {
      ghost var list := functions;
      var rest := tables;
      while rest != {}
        invariant rest <= tables
        invariant Marked(list, functions, (p: Address) => InTables(word, tables - rest, p))
        decreases rest
      {
        var t :| t in rest;
        ghost var before, done := functions, tables - rest;
        MarkTable(word, t);
        rest := rest - {t};
        assert tables - rest == done + {t};
        MarkedBoth(list, before, functions, (p: Address) => InTables(word, done, p),
                   (p: Address) => InTable(word, t, p), (p: Address) => InTables(word, tables - rest, p));
      }
      assert tables - rest == tables;
    }

    /** ... for one table. */
    method MarkTable(word: int -> Address, t: Block)
      modifies this
      ensures Marked(old(functions), functions, (p: Address) => InTable(word, t, p))
    {
      ghost var list := functions;
      var at: int := t.start;
      ghost var i := 0;
      while at < t.end
        invariant at == Slot(t, i) && 0 <= i
        invariant Marked(list, functions, (p: Address) => InWords(word, t, i, p))
        decreases t.end - at
      {
        ghost var before := functions;
        var k := Find(word(at));
        if k < |functions| {
          functions := functions[k := functions[k].(dynamicDispatch := true)];
        }
        MarkedBoth(list, before, functions, (p: Address) => InWords(word, t, i, p),
                   (p: Address) => p == word(Slot(t, i)), (p: Address) => InWords(word, t, i + 1, p));
        at := at + WORD;
        i := i + 1;
      }
      forall p: Address ensures InTable(word, t, p) <==> InWords(word, t, i, p) {
        if InTable(word, t, p) {
          var j :| 0 <= j && Slot(t, j) < t.end && word(Slot(t, j)) == p;
          assert j < i;
        }
      }
    }
  }

  // ---------- Lemmas about lists of functions ----------

  lemma CalledNext(dis: Disassembler, list: seq<Function>, k: nat, p: Address)
    requires k < |list|
    ensures Called(dis, list, k + 1, p) <==> Called(dis, list, k, p) || p in Calls(dis, list[k])
  {}

  lemma ListedAppend(list: seq<Function>, fn: Function)
    ensures forall p: Address :: Listed(list + [fn], p) <==> Listed(list, p) || p == fn.start
  {
    forall p: Address ensures Listed(list + [fn], p) <==> Listed(list, p) || p == fn.start {
      ListedConcat(list, [fn], p);
      assert [fn][0] == fn;
    }
  }

  lemma ListedConcat(list: seq<Function>, more: seq<Function>, p: Address)
    ensures Listed(list + more, p) <==> Listed(list, p) || Listed(more, p)
  {
    var all := list + more;
    if Listed(list, p) {
      var k :| 0 <= k < |list| && list[k].start == p;
      assert all[k].start == p;
    }
    if Listed(more, p) {
      var k :| 0 <= k < |more| && more[k].start == p;
      assert all[|list| + k].start == p;
    }
  }

  lemma ListedNext(list: seq<Function>, k: nat)
    requires k < |list|
    ensures forall p: Address :: Listed(list[..k + 1], p) <==> Listed(list[..k], p) || p == list[k].start
  {
    assert list[..k + 1] == list[..k] + [list[k]];
    ListedAppend(list[..k], list[k]);
  }

  /** Leaves have no known end, so they contain nothing. */
  lemma InsideLeaves(list: seq<Function>, added: seq<Function>, p: Address)
    requires AllLeaves(added)
    ensures Inside(list + added, p) <==> Inside(list, p)
  {
    var all := list + added;
    if k :| 0 <= k < |list| && list[k].end != 0 && list[k].start <= p < list[k].end {
      assert all[k] == list[k];
    }
    forall k | |list| <= k < |all| ensures all[k].end == 0 {
      assert all[k] == added[k - |list|];
    }
    if k :| 0 <= k < |all| && all[k].end != 0 && all[k].start <= p < all[k].end {
      assert list[k] == all[k];
    }
  }

  /** A leaf's start is new to the list. */
  lemma NewStart(list: seq<Function>, added: seq<Function>, leaves: seq<Function>, k: nat)
    requires k < |leaves| && DistinctStarts(leaves)
    requires forall p: Address :: Listed(leaves, p) ==> !Listed(list, p)
    requires forall p: Address :: Listed(added, p) ==> Listed(leaves[..k], p)
    ensures DistinctStarts(list + added) ==> DistinctStarts(list + added + [leaves[k]])
  {
    var p := leaves[k].start;
    assert Listed(leaves, p);
    assert !Listed(leaves[..k], p);
    ListedConcat(list, added, p);
    var all := list + added;
    assert !Listed(all, p);
    assert forall i :: 0 <= i < |all| ==> all[i].start != p;
  }

  predicate Decodable(dis: Disassembler, fn: Function) {
    Decode(dis, fn.start, Avail(fn.start, fn.end)).Some?
  }

  /** The function with the address behind its first instruction. */
  function Completed(dis: Disassembler, fn: Function): Function
    requires Decodable(dis, fn)
  {
    fn.(secondInstruction := After(fn.start, Decode(dis, fn.start, Avail(fn.start, fn.end)).value.length))
  }

  /** What process_functions makes of the list: each function is completed, or goes. */
  function Processed(dis: Disassembler, list: seq<Function>): seq<Function> {
    if list == [] then []
    else (if Decodable(dis, list[0]) then [Completed(dis, list[0])] else []) + Processed(dis, list[1..])
  }

  lemma {:induction false} ProcessedConcat(dis: Disassembler, list: seq<Function>, more: seq<Function>)
    ensures Processed(dis, list + more) == Processed(dis, list) + Processed(dis, more)
  {
    if list == [] {
      assert list + more == more;
    } else {
      assert (list + more)[1..] == list[1..] + more;
      ProcessedConcat(dis, list[1..], more);
    }
  }

  /** The loop of process_functions at `k`: the function is completed and kept, or it goes. */
  lemma ProcessedNext(dis: Disassembler, list: seq<Function>, k: nat)
    requires k < |list|
    ensures Decodable(dis, list[k]) ==>
              var next := list[k := Completed(dis, list[k])];
              list[..k] + Processed(dis, list[k..]) == next[..k + 1] + Processed(dis, next[k + 1..])
    ensures !Decodable(dis, list[k]) ==>
              var next := list[..k] + list[k + 1..];
              list[..k] + Processed(dis, list[k..]) == next[..k] + Processed(dis, next[k..])
  {
    assert list[k..][0] == list[k] && list[k..][1..] == list[k + 1..];
    if Decodable(dis, list[k]) {
      var next := list[k := Completed(dis, list[k])];
      assert next[..k + 1] == list[..k] + [next[k]] && next[k + 1..] == list[k + 1..];
    } else {
      var next := list[..k] + list[k + 1..];
      assert next[..k] == list[..k] && next[k..] == list[k + 1..];
    }
  }

  /** Every decodable function is left, completed, at the position given by how many before it are left: order is
      kept. */
  lemma ProcessedAt(dis: Disassembler, list: seq<Function>, i: nat)
    requires i < |list| && Decodable(dis, list[i])
    ensures var at := |Processed(dis, list[..i])|;
            && |Processed(dis, list[..i + 1])| == at + 1
            && at < |Processed(dis, list)| && Processed(dis, list)[at] == Completed(dis, list[i])
  {
    assert list[..i + 1] == list[..i] + [list[i]] && list == list[..i + 1] + list[i + 1..];
    ProcessedConcat(dis, list[..i], [list[i]]);
    ProcessedConcat(dis, list[..i + 1], list[i + 1..]);
  }

  /** ... and nothing else is left: each position is that of a decodable function. */
  lemma {:induction false} ProcessedFrom(dis: Disassembler, list: seq<Function>, at: nat) returns (i: nat)
    requires at < |Processed(dis, list)|
    ensures i < |list| && Decodable(dis, list[i])
    ensures |Processed(dis, list[..i])| == at && Processed(dis, list)[at] == Completed(dis, list[i])
  {
    var n := |list| - 1;
    assert list == list[..n] + [list[n]];
    ProcessedConcat(dis, list[..n], [list[n]]);
    if at < |Processed(dis, list[..n])| {
      i := ProcessedFrom(dis, list[..n], at);
      assert list[..n][..i] == list[..i];
    } else {
      i := n;
    }
  }

  /** The disassembler finds an instruction in the `n` bytes at `p`. */
  predicate Gives(dis: Disassembler, p: Address, n: int) {
    && 0 <= n < 0x1_0000_0000_0000_0000
    && dis(p, n).Some? && 1 <= dis(p, n).value.length <= n
  }

  /** What process_functions makes of one function, in terms of the disassembler alone: it stays, with the address
      behind its first instruction, when there is one in the bytes up to its end, modulo 2^64. */
  predicate Keeps(dis: Disassembler, fn: Function, g: Function) {
    var n := (fn.end - fn.start) % 0x1_0000_0000_0000_0000;
    && Gives(dis, fn.start, n)
    && g == fn.(secondInstruction := (fn.start + dis(fn.start, n).value.length) % 0x1_0000_0000_0000_0000)
  }

  lemma DecodableWhen(dis: Disassembler, fn: Function)
    ensures Decodable(dis, fn) <==> Gives(dis, fn.start, Avail(fn.start, fn.end))
    ensures Decodable(dis, fn) ==> Keeps(dis, fn, Completed(dis, fn))
  {
    AvailIs(fn.start, fn.end);
  }

  lemma KeptExactly(dis: Disassembler, list: seq<Function>)
    ensures forall g :: g in Processed(dis, list) <==> exists fn :: fn in list && Keeps(dis, fn, g)
  {
    var r := Processed(dis, list);
    forall g | g in r ensures exists fn :: fn in list && Keeps(dis, fn, g) {
      var at :| 0 <= at < |r| && r[at] == g;
      var i := ProcessedFrom(dis, list, at);
      DecodableWhen(dis, list[i]);
    }
    forall g | exists fn :: fn in list && Keeps(dis, fn, g) ensures g in r {
      var fn :| fn in list && Keeps(dis, fn, g);
      var i :| 0 <= i < |list| && list[i] == fn;
      DecodableWhen(dis, fn);
      ProcessedAt(dis, list, i);
    }
  }

  /** A leaf stays exactly when the disassembler finds an instruction in everything from it to the end of the address
      space. */
  lemma LeafKept(dis: Disassembler, list: seq<Function>, n: nat, p: Address)
    requires n <= |list| && Listed(list, p) && !Listed(list[..n], p)
    requires forall k :: n <= k < |list| ==> list[k] == Function(list[k].start, 0, Leaf, 0, false)
    ensures Listed(Processed(dis, list), p) <==> p > 0 && Gives(dis, p, 0x1_0000_0000_0000_0000 - p)
  {
    OneLeaf(list, n, p);
    AvailIs(p, 0);
    KeptStart(dis, list, Function(p, 0, Leaf, 0, false));
  }

  /** The one function with the start of a leaf is the leaf. */
  lemma OneLeaf(list: seq<Function>, n: nat, p: Address)
    requires n <= |list| && Listed(list, p) && !Listed(list[..n], p)
    requires forall k :: n <= k < |list| ==> list[k] == Function(list[k].start, 0, Leaf, 0, false)
    ensures var leaf := Function(p, 0, Leaf, 0, false);
            leaf in list && forall fn :: fn in list && fn.start == p ==> fn == leaf
  {
    forall j | 0 <= j < n ensures list[j].start != p {
      assert list[..n][j] == list[j];
    }
    var k :| 0 <= k < |list| && list[k].start == p;
    assert list[k] == Function(p, 0, Leaf, 0, false);
    forall fn | fn in list && fn.start == p ensures fn == Function(p, 0, Leaf, 0, false) {
      var j :| 0 <= j < |list| && list[j] == fn;
    }
  }

  /** A start is left exactly when the one function that has it is. */
  lemma KeptStart(dis: Disassembler, list: seq<Function>, fn: Function)
    requires fn in list && forall f :: f in list && f.start == fn.start ==> f == fn
    ensures Listed(Processed(dis, list), fn.start) <==> Gives(dis, fn.start, Avail(fn.start, fn.end))
  {
    var r := Processed(dis, list);
    KeptExactly(dis, list);
    DecodableWhen(dis, fn);
    if Listed(r, fn.start) {
      var k :| 0 <= k < |r| && r[k].start == fn.start;
      assert r[k] in r;
      var f :| f in list && Keeps(dis, f, r[k]);
    }
    if Decodable(dis, fn) {
      assert Completed(dis, fn) in r;
      var k :| 0 <= k < |r| && r[k] == Completed(dis, fn);
      assert r[k].start == fn.start;
    }
  }

  lemma ListedKept(dis: Disassembler, list: seq<Function>, fn: Function)
    requires fn in list && fn.start < fn.end
    ensures (exists g :: g in Processed(dis, list) && g == fn.(secondInstruction := g.secondInstruction)) <==>
            Gives(dis, fn.start, fn.end - fn.start)
  {
    KeptExactly(dis, list);
    DecodableWhen(dis, fn);
    if g :| g in Processed(dis, list) && g == fn.(secondInstruction := g.secondInstruction) {
      var f :| f in list && Keeps(dis, f, g);
      assert f.start == fn.start && f.end == fn.end;
    }
    if Decodable(dis, fn) {
      assert Completed(dis, fn) in Processed(dis, list);
    }
  }

  lemma ProcessedDistinct(dis: Disassembler, list: seq<Function>)
    requires DistinctStarts(list)
    ensures DistinctStarts(Processed(dis, list))
  {
    var r := Processed(dis, list);
    forall k, l | 0 <= k < l < |r| ensures r[k].start != r[l].start {
      var i := ProcessedFrom(dis, list, k);
      var j := ProcessedFrom(dis, list, l);
      assert i < j || j < i;
    }
  }

  // ---------- Marking ----------

  function Slot(t: Block, i: int): int {
    t.start + WORD * i
  }

  /** `p` is one of the first `n` words of the table. */
  ghost predicate InWords(word: int -> Address, t: Block, n: int, p: Address) {
    exists i :: 0 <= i < n && Slot(t, i) < t.end && word(Slot(t, i)) == p
  }

  /** `p` is a word of the table. */
  ghost predicate InTable(word: int -> Address, t: Block, p: Address) {
    exists i :: 0 <= i && Slot(t, i) < t.end && word(Slot(t, i)) == p
  }

  ghost predicate InTables(word: int -> Address, tables: set<Block>, p: Address) {
    exists t :: t in tables && InTable(word, t, p)
  }

  /** `after` is `before` with the flag set on the first function of each start that satisfies `hit`. */
  ghost predicate Marked(before: seq<Function>, after: seq<Function>, hit: Address -> bool) {
    && |after| == |before|
    && forall k :: 0 <= k < |before| ==>
         after[k] == before[k].(dynamicDispatch := before[k].dynamicDispatch
                                                   || (FindStart(before, before[k].start) == k && hit(before[k].start)))
  }

  predicate IsFirst(list: seq<Function>, k: nat)
    requires k < |list|
  {
    forall j :: 0 <= j < k ==> list[j].start != list[k].start
  }

  /** The k-th word slot of .rdata is one of the scan: it ends strictly before the section. */
  predicate HasWord(rdata: Block, k: int) {
    k >= 0 && rdata.start + 8 * k + 8 < rdata.end
  }

  function WordAt(rdata: Block, word: int -> Address, k: int): Address {
    word(rdata.start + 8 * k)
  }

  predicate PointsInto(text: Block, p: int) {
    text.start <= p < text.end
  }

  /** `p` is a word of .rdata that points into .text, as the word before it or the word behind it does. */
  ghost predicate VirtualEntry(text: Block, rdata: Block, word: int -> Address, p: Address) {
    exists k {:trigger WordAt(rdata, word, k)} ::
      && HasWord(rdata, k) && WordAt(rdata, word, k) == p && PointsInto(text, p)
      && ((HasWord(rdata, k - 1) && PointsInto(text, WordAt(rdata, word, k - 1)))
          || (HasWord(rdata, k + 1) && PointsInto(text, WordAt(rdata, word, k + 1))))
  }

  /** Slots of the scan and words of .rdata are the same. */
  lemma DispatchSlots(text: Block, rdata: Block, word: int -> Address, k: int)
    requires rdata.start <= rdata.end && 8 <= rdata.end < 0x1_0000_0000_0000_0000
    ensures var s := Dispatch(text, rdata, word);
            && s.Proper() && (0 <= k < s.Slots() <==> HasWord(rdata, k))
            && s.word(s.At(k)) == WordAt(rdata, word, k)
            && (s.Points(k) <==> PointsInto(text, WordAt(rdata, word, k)))
  {
    var s := Dispatch(text, rdata, word);
    if k >= 0 {
      SlotsLimit(s, k);
    }
  }

  lemma DispatchedWhen(text: Block, rdata: Block, word: int -> Address, p: Address)
    requires rdata.start <= rdata.end && 8 <= rdata.end < 0x1_0000_0000_0000_0000
    ensures Dispatch(text, rdata, word).Proper()
    ensures Dispatched(Dispatch(text, rdata, word), p) <==> VirtualEntry(text, rdata, word, p)
  {
    var s := Dispatch(text, rdata, word);
    DispatchSlots(text, rdata, word, 0);
    if Dispatched(s, p) {
      var i, j :| s.MaximalRun(i, j) && j - i >= s.minimum && OccursIn(s, i, j, p);
      RunHasNeighbour(text, rdata, word, i, j, p);
    }
    if VirtualEntry(text, rdata, word, p) {
      EntryDispatched(text, rdata, word, p);
    }
  }

  lemma EntryDispatched(text: Block, rdata: Block, word: int -> Address, p: Address)
    requires rdata.start <= rdata.end && 8 <= rdata.end < 0x1_0000_0000_0000_0000
    requires VirtualEntry(text, rdata, word, p)
    ensures Dispatch(text, rdata, word).Proper() && Dispatched(Dispatch(text, rdata, word), p)
  {
    var k :| && HasWord(rdata, k) && WordAt(rdata, word, k) == p && PointsInto(text, p)
             && ((HasWord(rdata, k - 1) && PointsInto(text, WordAt(rdata, word, k - 1)))
                 || (HasWord(rdata, k + 1) && PointsInto(text, WordAt(rdata, word, k + 1))));
    DispatchSlots(text, rdata, word, k - 1);
    DispatchSlots(text, rdata, word, k);
    DispatchSlots(text, rdata, word, k + 1);
    var lo := if HasWord(rdata, k - 1) && PointsInto(text, WordAt(rdata, word, k - 1)) then k - 1 else k;
    PairDispatched(Dispatch(text, rdata, word), lo, k, p);
  }

  lemma RunHasNeighbour(text: Block, rdata: Block, word: int -> Address, i: int, j: int, p: Address)
    requires rdata.start <= rdata.end && 8 <= rdata.end < 0x1_0000_0000_0000_0000
    requires var s := Dispatch(text, rdata, word);
             s.Proper() && s.MaximalRun(i, j) && j - i >= 2 && OccursIn(s, i, j, p)
    ensures VirtualEntry(text, rdata, word, p)
  {
    var s := Dispatch(text, rdata, word);
    var k :| i <= k < j && s.word(s.At(k)) == p;
    var l := if k > i then k - 1 else k + 1;
    DispatchSlots(text, rdata, word, k);
    DispatchSlots(text, rdata, word, l);
    assert s.Points(k) && s.Points(l);
    assert HasWord(rdata, l) && PointsInto(text, WordAt(rdata, word, l));
    assert HasWord(rdata, k) && WordAt(rdata, word, k) == p && PointsInto(text, p);
  }

  /** Two pointers side by side lie in a maximal run of at least two. */
  lemma PairDispatched(s: Scan, lo: int, k: int, p: Address)
    requires s.Proper() && s.minimum == 2 && 0 <= lo <= k <= lo + 1 < s.Slots() && s.Points(lo) && s.Points(lo + 1)
    requires s.word(s.At(k)) == p
    ensures Dispatched(s, p)
  {
    var j := RunEnd(s, lo);
    assert j == s.Slots() || !s.Points(j);
    var i := RunBegin(s, lo, j);
    assert s.MaximalRun(i, j) && OccursIn(s, i, j, p);
  }

  /** The scan find_rtti starts: runs of at least two words of .rdata that point into .text. */
  function Dispatch(text: Block, rdata: Block, word: int -> Address): Scan {
    Scan((x: int) => word(x), rdata, text, 2)
  }

  /** `p` is one of the words from slot i to slot j. */
  ghost predicate OccursIn(s: Scan, i: int, j: int, p: Address) {
    exists k {:trigger s.At(k)} :: i <= k < j && s.word(s.At(k)) == p
  }

  /** `p` is a word of a long enough maximal run of pointers. */
  ghost predicate Dispatched(s: Scan, p: Address)
    requires s.Proper()
  {
    exists i, j :: s.MaximalRun(i, j) && j - i >= s.minimum && OccursIn(s, i, j, p)
  }

  lemma TablesDispatch(s: Scan, word: int -> Address, tables: set<Block>, p: Address)
    requires s.Proper() && forall x :: s.word(x) == word(x)
    requires forall b :: b in tables <==> s.Table(b)
    ensures InTables(word, tables, p) <==> Dispatched(s, p)
  {
    if t :| t in tables && InTable(word, t, p) {
      assert s.Table(t);
      var i, j :| s.MaximalRun(i, j) && j - i >= s.minimum && t.start == s.At(i) && t.end == s.At(j);
      var k :| 0 <= k && Slot(t, k) < t.end && word(Slot(t, k)) == p;
      assert s.At(i + k) == Slot(t, k);
      assert OccursIn(s, i, j, p);
    }
    if i, j :| s.MaximalRun(i, j) && j - i >= s.minimum && OccursIn(s, i, j, p) {
      var t := Block(s.At(i), s.At(j));
      assert s.TableUpTo(t, s.Slots());
      var k :| i <= k < j && s.word(s.At(k)) == p;
      assert Slot(t, k - i) == s.At(k);
      assert InTable(word, t, p) && t in tables;
    }
  }

  lemma SameMarks(before: seq<Function>, after: seq<Function>, hit1: Address -> bool, hit2: Address -> bool)
    requires Marked(before, after, hit1) && forall p :: hit1(p) <==> hit2(p)
    ensures Marked(before, after, hit2)
  {}

  /** Marking twice is marking for both reasons: a flag is never cleared and starts stay as they are. */
  lemma MarkedBoth(list: seq<Function>, before: seq<Function>, after: seq<Function>,
                   hit1: Address -> bool, hit2: Address -> bool, hit: Address -> bool)
    requires Marked(list, before, hit1) && Marked(before, after, hit2)
    requires forall p :: hit(p) <==> hit1(p) || hit2(p)
    ensures Marked(list, after, hit)
  {
    forall k | 0 <= k < |list| ensures FindStart(before, list[k].start) == FindStart(list, list[k].start) {
      var p := list[k].start;
      var i, j := FindStart(before, p), FindStart(list, p);
      assert before[j].start == list[j].start && before[i].start == list[i].start;
    }
  }

  /** With distinct starts, the marked functions are exactly those marked before and those whose start occurs in a
      table. */
  lemma MarkedExactly(before: seq<Function>, after: seq<Function>, word: int -> Address, tables: set<Block>, k: nat)
    requires DistinctStarts(before) && k < |before|
    requires Marked(before, after, (p: Address) => InTables(word, tables, p))
    ensures after[k] == before[k].(dynamicDispatch := after[k].dynamicDispatch)
    ensures after[k].dynamicDispatch <==> before[k].dynamicDispatch || InTables(word, tables, before[k].start)
  {
    var first := FindStart(before, before[k].start);
    assert first == k;
  }
}
