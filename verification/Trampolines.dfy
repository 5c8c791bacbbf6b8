/** What a replaced function looks like in memory and how it executes, instruction by instruction
    (win_agent/instrumentation/function_replacement.cpp:139-192). */
module Trampolines {
  import opened Common
  import opened Words
  import opened CodeBuffers
  import opened FunctionReplacement

  /** A replacement of `fn` in `mem`: instructions of lengths `lens` re-encoded as `codes` at `buf`; `target` is where
      the exchangeable jump goes, initially `buf`. */
  datatype Trampoline = Trampoline(isa: Isa, mem: seq<byte>, fn: nat, buf: nat,
                                   lens: seq<nat>, codes: seq<seq<byte>>, target: nat)
  {
    function CopyLen(): nat {
      Sum(lens)
    }

    /** Everything is in memory, the buffer is not the function, the copy is as long as the original and a jump fits. */
    predicate Fits() {
      && |codes| == |lens| && |Flat(codes)| == CopyLen() && JMP_SIZE <= CopyLen()
      && fn + CopyLen() <= |mem| && buf + CopyLen() + 2 * JMP_SIZE <= |mem| < TWO_TO_64
      && (fn + CopyLen() <= buf || buf + CopyLen() + 2 * JMP_SIZE <= fn)
      && target < TWO_TO_64
    }

    function Entry(k: nat): int
      requires k <= |lens|
    {
      fn + Sum(lens[..k])
    }

    function Copy(k: nat): int
      requires k <= |codes|
    {
      buf + |Flat(codes[..k])|
    }

    function After(): (r: seq<byte>)
      requires Fits()
      ensures |r| == |mem|
    {
      Patched(mem, fn, buf, Flat(codes), CopyLen(), target)
    }

    predicate InPrologue(ip: int) {
      fn <= ip < fn + CopyLen()
    }

    /** The contracts of the processor, the decoder and the encoder: the original instructions decode as they were
        scanned, and each copy is one instruction with the effect of its original. */
    ghost predicate Faithful()
      requires Fits()
    {
      Decodes(isa) && Jumps(isa) && forall k :: 0 <= k < |lens| ==> FaithfulAt(k)
    }

    ghost predicate FaithfulAt(k: nat)
      requires Fits() && k < |lens|
    {
      && Decode(isa, mem, Entry(k)) == Some(lens[k])
      && isa.length(codes[k]) == Some(|codes[k]|) && 1 <= |codes[k]| <= MAX_INSTRUCTION
      && forall d :: isa.effect(codes[k], Copy(k), d) == isa.effect(Original(mem, fn, lens, k), Entry(k), d)
    }

    /** What is asked of an original state that takes a step: outside the copied instructions it decodes, clear of them
        and of the buffer; a branch goes into the copied bytes at `fn` only, and what it reads its target from is
        neither patched nor missing. Where it goes may depend on data. */
    predicate Proper(s: State) {
      && (!InPrologue(s.rip) ==>
            && Decode(isa, mem, s.rip).Some?
            && Apart(s.rip, s.rip + Decode(isa, mem, s.rip).value, fn, fn + CopyLen())
            && Apart(s.rip, s.rip + Decode(isa, mem, s.rip).value, buf, buf + CopyLen() + 2 * JMP_SIZE))
      && (Branches(s.rip, s.data) ==>
            !(fn < FunctionReplacement.Step(isa, mem, s).rip < fn + CopyLen()))
      && (NextAt(s.rip, s.data).Through? ==>
            var a := NextAt(s.rip, s.data).address;
            && 0 <= a && a + 8 <= |mem|
            && Apart(a, a + 8, fn, fn + JMP_SIZE) && Apart(a, a + 8, buf, buf + CopyLen() + 2 * JMP_SIZE))
    }

    function NextAt(s: int, d: Data): Next {
      if Decode(isa, mem, s).None? then Fall
      else isa.effect(mem[s..s + Decode(isa, mem, s).value], s, d).next
    }

    predicate Branches(s: int, d: Data) {
      !NextAt(s, d).Fall?
    }

    /** One machine is at the k-th original instruction, the other at its copy. */
    predicate AtCopy(o: int, p: int, k: int) {
      0 <= k < |lens| <= |codes| && o == Entry(k) && p == Copy(k)
    }
  }

  // ---------- The bytes of patched memory ----------

  lemma {:induction false} FlatSlice(codes: seq<seq<byte>>, k: nat)
    requires k < |codes|
    ensures |Flat(codes[..k + 1])| == |Flat(codes[..k])| + |codes[k]| <= |Flat(codes)|
    ensures Flat(codes)[|Flat(codes[..k])|..|Flat(codes[..k + 1])|] == codes[k]
    decreases k
  {
    if k == 0 {
      assert codes[..1][1..] == [] && codes[..1][0] == codes[0];
      assert Flat(codes[..1]) == codes[0] + Flat(codes[..1][1..]);
    } else {
      FlatSlice(codes[1..], k - 1);
      assert codes[..k][1..] == codes[1..][..k - 1] && codes[..k + 1][1..] == codes[1..][..k];
      var n := |codes[0]|;
      var a, b := |Flat(codes[1..][..k - 1])|, |Flat(codes[1..][..k])|;
      assert Flat(codes)[n + a..n + b] == Flat(codes[1..])[a..b];
    }
  }

  /** What patched memory reads: the three jumps, the copied code, and the rest untouched. The rest includes what lies
      between a short copy and the jump behind `copyLen` bytes. */
  ghost predicate Reads(mem: seq<byte>, fn: nat, buf: nat, code: seq<byte>, copyLen: nat, target: nat,
                        after: seq<byte>)
    requires |code| <= copyLen && buf + copyLen + 2 * JMP_SIZE <= |mem| && fn + JMP_SIZE <= |mem|
  {
    var back, exchange := buf + copyLen, buf + copyLen + JMP_SIZE;
    && |after| == |mem|
    && after[fn..fn + JMP_SIZE] == Jmp(exchange)
    && after[buf..buf + |code|] == code
    && after[back..exchange] == Jmp(fn + |code|)
    && after[exchange..exchange + JMP_SIZE] == Jmp(target)
    && forall a, b {:trigger Elsewhere(|mem|, fn, buf, |code|, back, a, b)} ::
         Elsewhere(|mem|, fn, buf, |code|, back, a, b) ==> after[a..b] == mem[a..b]
  }

  ghost predicate LaidOut(t: Trampoline, after: seq<byte>)
    requires t.Fits()
  {
    Reads(t.mem, t.fn, t.buf, Flat(t.codes), t.CopyLen(), t.target, after)
  }

  /** The bytes of a trampoline and of the jump to it stand in `after`. */
  ghost predicate Stands(t: Trampoline, after: seq<byte>)
    requires t.Fits()
  {
    var back, exchange := t.buf + t.CopyLen(), t.buf + t.CopyLen() + JMP_SIZE;
    && |after| == |t.mem|
    && after[t.fn..t.fn + JMP_SIZE] == Jmp(exchange)
    && after[t.buf..back] == Flat(t.codes)
    && after[back..exchange] == Jmp(t.fn + t.CopyLen())
    && after[exchange..exchange + JMP_SIZE] == Jmp(t.target)
  }

  /** The range meets nothing that a replacement writes. */
  predicate Elsewhere(size: nat, fn: int, buf: int, codeLen: nat, back: int, a: int, b: int) {
    && 0 <= a <= b <= size && Apart(a, b, fn, fn + JMP_SIZE)
    && Apart(a, b, buf, buf + codeLen) && Apart(a, b, back, back + 2 * JMP_SIZE)
  }

  lemma PatchedReads(mem: seq<byte>, fn: nat, buf: nat, code: seq<byte>, copyLen: nat, target: nat)
    requires |code| <= copyLen && buf + copyLen + 2 * JMP_SIZE <= |mem| && fn + JMP_SIZE <= |mem|
    requires fn + JMP_SIZE <= buf || buf + copyLen + 2 * JMP_SIZE <= fn
    ensures Reads(mem, fn, buf, code, copyLen, target, Patched(mem, fn, buf, code, copyLen, target))
  {
    var back, exchange := buf + copyLen, buf + copyLen + JMP_SIZE;
    var copied := Write(mem, buf, code);
    var resumed := Write(copied, back, Jmp(fn + |code|));
    var exchanged := Write(resumed, exchange, Jmp(target));
    var patched := Patched(mem, fn, buf, code, copyLen, target);
    assert patched == Write(exchanged, fn, Jmp(exchange));
    FourWrites(mem, copied, resumed, exchanged, patched, fn, buf, code, copyLen, target, back, exchange);
  }

  lemma FourWrites(m0: seq<byte>, m1: seq<byte>, m2: seq<byte>, m3: seq<byte>, m4: seq<byte>,
                   fn: nat, buf: nat, code: seq<byte>, copyLen: nat, target: nat, back: nat, exchange: nat)
    requires |code| <= copyLen && buf + copyLen == back && back + JMP_SIZE == exchange
    requires exchange + JMP_SIZE <= |m0| && fn + JMP_SIZE <= |m0|
    requires fn + JMP_SIZE <= buf || exchange + JMP_SIZE <= fn
    requires m1 == Write(m0, buf, code) && m2 == Write(m1, back, Jmp(fn + |code|))
    requires m3 == Write(m2, exchange, Jmp(target)) && m4 == Write(m3, fn, Jmp(exchange))
    ensures Reads(m0, fn, buf, code, copyLen, target, m4)
  {
    var x, y, z := Jmp(fn + |code|), Jmp(target), Jmp(exchange);
    var end := buf + |code|;
    ReadWritten(m0, buf, code);
    ReadElsewhere(m1, back, x, buf, end);
    ReadElsewhere(m2, exchange, y, buf, end);
    ReadElsewhere(m3, fn, z, buf, end);
    ReadWritten(m1, back, x);
    ReadElsewhere(m2, exchange, y, back, exchange);
    ReadElsewhere(m3, fn, z, back, exchange);
    ReadWritten(m2, exchange, y);
    ReadElsewhere(m3, fn, z, exchange, exchange + JMP_SIZE);
    ReadWritten(m3, fn, z);
    forall a, b | Elsewhere(|m0|, fn, buf, |code|, back, a, b) ensures m4[a..b] == m0[a..b] {
      ReadElsewhere(m0, buf, code, a, b);
      ReadElsewhere(m1, back, x, a, b);
      ReadElsewhere(m2, exchange, y, a, b);
      ReadElsewhere(m3, fn, z, a, b);
    }
  }

  lemma AfterLaidOut(t: Trampoline)
    requires t.Fits()
    ensures LaidOut(t, t.After())
  {
    PatchedReads(t.mem, t.fn, t.buf, Flat(t.codes), t.CopyLen(), t.target);
  }

  lemma CopyBytes(t: Trampoline, after: seq<byte>, k: nat)
    requires t.Fits() && Stands(t, after) && k < |t.codes|
    ensures 0 <= t.Copy(k) && t.Copy(k + 1) == t.Copy(k) + |t.codes[k]| <= |t.mem|
    ensures after[t.Copy(k)..t.Copy(k + 1)] == t.codes[k]
  {
    FlatSlice(t.codes, k);
    SliceOfSlice(after, t.buf, t.buf + t.CopyLen(), |Flat(t.codes[..k])|, |Flat(t.codes[..k + 1])|);
  }

  lemma SliceOfSlice(m: seq<byte>, a: nat, b: nat, i: nat, j: nat)
    requires a <= b <= |m| && i <= j <= b - a
    ensures m[a..b][i..j] == m[a + i..a + j]
  {
    assert forall k :: 0 <= k < j - i ==> m[a..b][i..j][k] == m[a + i + k];
  }

  // ---------- Executing patched memory ----------

  /** Memory that holds the bytes of an instruction decodes to it. */
  lemma FetchLike(isa: Isa, v: seq<byte>, n: nat, mem: seq<byte>, ip: nat)
    requires Decodes(isa) && isa.length(v) == Some(n) && 1 <= n <= MAX_INSTRUCTION && n <= |v|
    requires ip + n <= |mem| && mem[ip..ip + n] == v[..n]
    ensures Decode(isa, mem, ip) == Some(n)
  {
    var w := Window(mem, ip);
    SliceOfSlice(mem, ip, Min(ip + MAX_INSTRUCTION, |mem|), 0, n);
    assert w[..n] == w[0..n] == v[..n];
    assert SameHead(isa, v, w);
  }

  /** One step at `ip` when `code` stands there. */
  lemma CodeStep(isa: Isa, mem: seq<byte>, ip: nat, code: seq<byte>, d: Data)
    requires Decodes(isa) && isa.length(code) == Some(|code|) && 1 <= |code| <= MAX_INSTRUCTION
    requires ip + |code| <= |mem| && mem[ip..ip + |code|] == code
    ensures var e := isa.effect(code, ip, d);
            FunctionReplacement.Step(isa, mem, State(ip, d)) ==
            match NextRip(mem, e.next, ip + |code|)
            case None => State(ip, d)
            case Some(rip) => State(rip, e.data)
  {
    assert code[..|code|] == code;
    FetchLike(isa, code, |code|, mem, ip);
  }

  /** The 14 bytes of AbsoluteJmp are an indirect jump through the address behind it. */
  lemma JmpBytes(target: nat)
    requires target < TWO_TO_64
    ensures IndirectJump(Jmp(target)[..6]) && Displacement(Jmp(target)[..6][2..6]) == 0
    ensures |Jmp(target)| == 14 && FromBytes(Jmp(target)[6..14]) == target
  {
    assert Jmp(target)[6..14] == Bytes64(target);
    FromBytes64(target);
    assert Jmp(target)[..6][2..6] == [0, 0, 0, 0];
    assert FromBytes([0, 0, 0, 0]) == 0;
  }

  lemma JmpStep(isa: Isa, mem: seq<byte>, at: nat, target: nat, d: Data)
    requires Decodes(isa) && Jumps(isa) && target < TWO_TO_64
    requires at + JMP_SIZE <= |mem| && mem[at..at + JMP_SIZE] == Jmp(target)
    ensures FunctionReplacement.Step(isa, mem, State(at, d)) == State(target, d)
  {
    JmpBytes(target);
    var code := Jmp(target)[..6];
    SliceOfSlice(mem, at, at + JMP_SIZE, 0, 6);
    SliceOfSlice(mem, at, at + JMP_SIZE, 6, 14);
    assert mem[at..at + 6] == code && mem[at + 6..at + 14] == Jmp(target)[6..14];
    assert isa.length(code) == Some(6) && isa.effect(code, at, d) == Effect(Through(at + 6), d);
    CodeStep(isa, mem, at, code, d);
  }

  /** What an instruction reads its target from is the same in both memories. */
  predicate ReadsAlike(mem: seq<byte>, after: seq<byte>, next: Next) {
    next.Through? ==>
      && 0 <= next.address && next.address + 8 <= |mem| == |after|
      && mem[next.address..next.address + 8] == after[next.address..next.address + 8]
  }

  /** Memories that agree on an instruction and on what it reads execute it alike. */
  lemma SameStep(isa: Isa, mem: seq<byte>, after: seq<byte>, s: State)
    requires Decodes(isa) && |mem| == |after| && Decode(isa, mem, s.rip).Some?
    requires var n := Decode(isa, mem, s.rip).value;
             && mem[s.rip..s.rip + n] == after[s.rip..s.rip + n]
             && ReadsAlike(mem, after, isa.effect(mem[s.rip..s.rip + n], s.rip, s.data).next)
    ensures FunctionReplacement.Step(isa, after, s) == FunctionReplacement.Step(isa, mem, s)
  {
    var n := Decode(isa, mem, s.rip).value;
    var w := Window(mem, s.rip);
    assert w[..n] == mem[s.rip..s.rip + n];
    FetchLike(isa, w, n, after, s.rip);
  }

  /** A jump to a jump. */
  lemma TwoJumps(isa: Isa, mem: seq<byte>, fn: nat, exchange: nat, target: nat, d: Data)
    requires Decodes(isa) && Jumps(isa) && |mem| < TWO_TO_64 && target < TWO_TO_64
    requires fn + JMP_SIZE <= |mem| && mem[fn..fn + JMP_SIZE] == Jmp(exchange)
    requires exchange + JMP_SIZE <= |mem| && mem[exchange..exchange + JMP_SIZE] == Jmp(target)
    ensures Steps(isa, mem, State(fn, d), 2) == State(target, d)
  {
    JmpStep(isa, mem, fn, exchange, d);
    JmpStep(isa, mem, exchange, target, d);
    StepsAdd(isa, mem, State(fn, d), 1, 1);
    OneStep(isa, mem, State(fn, d));
    OneStep(isa, mem, State(exchange, d));
  }

  /** Entering the function goes to the exchangeable jump's target in two steps, whatever it is. */
  lemma EnterFunction(t: Trampoline, after: seq<byte>, d: Data)
    requires t.Fits() && t.Faithful() && Stands(t, after)
    ensures Steps(t.isa, after, State(t.fn, d), 2) == State(t.target, d)
  {
    TwoJumps(t.isa, after, t.fn, t.buf + t.CopyLen() + JMP_SIZE, t.target, d);
  }

  lemma OneStep(isa: Isa, mem: seq<byte>, s: State)
    ensures Steps(isa, mem, s, 1) == FunctionReplacement.Step(isa, mem, s)
  {
    assert Steps(isa, mem, FunctionReplacement.Step(isa, mem, s), 0) == FunctionReplacement.Step(isa, mem, s);
  }

  /** The copied instructions are entered from outside at their beginning only. */
  lemma OutsideNext(t: Trampoline, s: State)
    requires t.Proper(s) && !t.InPrologue(s.rip)
    ensures var r := FunctionReplacement.Step(t.isa, t.mem, s).rip; t.InPrologue(r) ==> r == t.fn
  {
    assert t.Branches(s.rip, s.data) ||
           FunctionReplacement.Step(t.isa, t.mem, s).rip == s.rip + Decode(t.isa, t.mem, s.rip).value;
  }

  /** One step of the k-th original instruction. */
  lemma EntryStep(t: Trampoline, k: nat, d: Data)
    requires t.Fits() && t.Faithful() && k < |t.lens|
    ensures t.Entry(k + 1) == t.Entry(k) + t.lens[k]
    ensures var e := CopyEffect(t, k, d);
            && t.NextAt(t.Entry(k), d) == e.next
            && FunctionReplacement.Step(t.isa, t.mem, State(t.Entry(k), d)) ==
               match NextRip(t.mem, e.next, t.Entry(k + 1))
               case None => State(t.Entry(k), d)
               case Some(rip) => State(rip, e.data)
  {
    assert t.FaithfulAt(k);
    SumNext(t.lens, k);
    SumPrefix(t.lens, k + 1);
    assert Original(t.mem, t.fn, t.lens, k) == t.mem[t.Entry(k)..t.Entry(k) + t.lens[k]];
  }

  function CopyEffect(t: Trampoline, k: nat, d: Data): Effect
    requires t.Fits() && k < |t.lens|
  {
    t.isa.effect(t.codes[k], t.Copy(k), d)
  }

  /** A copied instruction does what its original does and goes on to the next copy. */
  lemma CopyStep(t: Trampoline, after: seq<byte>, k: nat, d: Data)
    requires t.Fits() && t.Faithful() && Stands(t, after) && k < |t.lens|
    requires ReadsAlike(t.mem, after, t.NextAt(t.Entry(k), d))
    ensures t.Entry(k + 1) == t.Entry(k) + t.lens[k]
    ensures var o := FunctionReplacement.Step(t.isa, t.mem, State(t.Entry(k), d));
            var p := FunctionReplacement.Step(t.isa, after, State(t.Copy(k), d));
            && o.data == p.data
            && if t.Branches(t.Entry(k), d) then p.rip == o.rip
               else o.rip == t.Entry(k + 1) && p.rip == t.Copy(k + 1)
  {
    EntryStep(t, k, d);
    assert t.FaithfulAt(k);
    CopyBytes(t, after, k);
    CodeStep(t.isa, after, t.Copy(k), t.codes[k], d);
  }

  lemma StepsSnoc(isa: Isa, mem: seq<byte>, s: State, n: nat)
    requires n > 0
    ensures Steps(isa, mem, s, n) == FunctionReplacement.Step(isa, mem, Steps(isa, mem, s, n - 1))
  {
    StepsAdd(isa, mem, s, n - 1, 1);
    OneStep(isa, mem, Steps(isa, mem, s, n - 1));
  }

  // ---------- From replace_function to a trampoline ----------

  /** The scanned lengths are those of the instructions that stand there. */
  lemma {:induction false} ScanDecodes(isa: Isa, mem: seq<byte>, fn: nat, copied: nat, lens: seq<nat>, k: nat)
    returns (at: nat)
    requires Scan(isa, mem, fn, copied) == Some(lens) && k < |lens|
    ensures at == copied + Sum(lens[..k]) && Decode(isa, mem, fn + at) == Some(lens[k])
    decreases k
  {
    var n := Decode(isa, mem, fn + copied).value;
    var rest := Scan(isa, mem, fn, copied + n).value;
    assert lens == [n] + rest;
    if k == 0 {
      at := copied;
      assert lens[..0] == [];
    } else {
      at := ScanDecodes(isa, mem, fn, copied + n, rest, k - 1);
      PrefixCons(n, rest, k);
    }
  }

  lemma PrefixCons(n: nat, rest: seq<nat>, k: nat)
    requires 0 < k <= |rest| + 1
    ensures Sum(([n] + rest)[..k]) == n + Sum(rest[..k - 1])
  {
    assert ([n] + rest)[..k] == [n] + rest[..k - 1];
    SumCons(n, rest[..k - 1]);
  }

  lemma {:induction false} RelocateLength(isa: Isa, mem: seq<byte>, fn: nat, lens: seq<nat>, k: nat, buf: nat,
                                          assembled: nat)
    requires k <= |lens| && fn + Sum(lens) <= |mem| && Relocate(isa, mem, fn, lens, k, buf, assembled).Some?
    ensures |Relocate(isa, mem, fn, lens, k, buf, assembled).value| == |lens| - k
    decreases |lens| - k
  {
    if k == |lens| {
    } else {
      var code := isa.encode(Original(mem, fn, lens, k), buf + assembled).value;
      RelocateLength(isa, mem, fn, lens, k + 1, buf, assembled + |code|);
    }
  }

  /** A successful replace_function makes the trampoline the simulation is about, exactly when the copy came out as long
      as the original and a jump fits into it. */
  lemma ReplacementIsTrampoline(isa: Isa, before: seq<byte>, after: seq<byte>, fn: nat, buf: nat, lens: seq<nat>,
                                codes: seq<seq<byte>>, jmpTo: nat, copied: nat) returns (t: Trampoline)
    requires Scan(isa, before, fn, 0) == Some(lens) && fn + Sum(lens) <= |before| && fn + JMP_SIZE <= |before|
    requires Relocate(isa, before, fn, lens, 0, buf, 0) == Some(codes)
    requires buf + Sum(lens) + 2 * JMP_SIZE <= |before| < TWO_TO_64
    requires fn + Sum(lens) <= buf || buf + Sum(lens) + 2 * JMP_SIZE <= fn
    requires Outcome(Some(codes), before, after, fn, buf, Sum(lens), true, jmpTo, copied)
    ensures t == Trampoline(isa, before, fn, buf, lens, codes, copied)
    ensures t.Fits() <==> |Flat(codes)| == Sum(lens) && JMP_SIZE <= Sum(lens)
    ensures t.Fits() ==> t.After() == after
    ensures forall k :: 0 <= k < |lens| ==> Decode(isa, before, t.Entry(k)) == Some(lens[k])
  {
    t := Trampoline(isa, before, fn, buf, lens, codes, copied);
    RelocateLength(isa, before, fn, lens, 0, buf, 0);
    ScannedEntries(t);
  }

  lemma ScannedEntries(t: Trampoline)
    requires Scan(t.isa, t.mem, t.fn, 0) == Some(t.lens)
    ensures forall k :: 0 <= k < |t.lens| ==> Decode(t.isa, t.mem, t.Entry(k)) == Some(t.lens[k])
  {
    forall k | 0 <= k < |t.lens| ensures Decode(t.isa, t.mem, t.Entry(k)) == Some(t.lens[k]) {
      var at := ScanDecodes(t.isa, t.mem, t.fn, 0, t.lens, k);
    }
  }

  /** Storing an address through the returned pointer is exchanging the target, and nothing else. */
  lemma ExchangeTarget(t: Trampoline, target: nat)
    requires t.Fits() && target < TWO_TO_64
    ensures t.(target := target).Fits()
    ensures Write(t.After(), t.buf + t.CopyLen() + JMP_SIZE + |JMP_PREFIX|, Bytes64(target))
            == t.(target := target).After()
  {
    ExchangePatched(t.mem, t.fn, t.buf, Flat(t.codes), t.CopyLen(), t.target, target);
  }

  lemma ExchangePatched(mem: seq<byte>, fn: nat, buf: nat, code: seq<byte>, copyLen: nat, x: nat, y: nat)
    requires |code| <= copyLen && buf + copyLen + 2 * JMP_SIZE <= |mem| && fn + JMP_SIZE <= |mem|
    requires fn + JMP_SIZE <= buf || buf + copyLen + 2 * JMP_SIZE <= fn
    ensures Write(Patched(mem, fn, buf, code, copyLen, x), buf + copyLen + JMP_SIZE + |JMP_PREFIX|, Bytes64(y))
            == Patched(mem, fn, buf, code, copyLen, y)
  {
    var exchange := buf + copyLen + JMP_SIZE;
    var m2 := Write(Write(mem, buf, code), buf + copyLen, Jmp(fn + |code|));
    ExchangeWrite(m2, exchange, x, y, fn, Jmp(exchange));
    assert Patched(mem, fn, buf, code, copyLen, x) == Write(Write(m2, exchange, Jmp(x)), fn, Jmp(exchange));
    assert Patched(mem, fn, buf, code, copyLen, y) == Write(Write(m2, exchange, Jmp(y)), fn, Jmp(exchange));
  }

  /** Overwriting the address of one jump, with another written elsewhere in between. */
  lemma ExchangeWrite(mem: seq<byte>, exchange: nat, x: nat, y: nat, fn: nat, jmp: seq<byte>)
    requires exchange + JMP_SIZE <= |mem| && fn + |jmp| <= |mem|
    requires fn + |jmp| <= exchange || exchange + JMP_SIZE <= fn
    ensures Write(Write(Write(mem, exchange, Jmp(x)), fn, jmp), exchange + |JMP_PREFIX|, Bytes64(y))
            == Write(Write(mem, exchange, Jmp(y)), fn, jmp)
  {
    WriteCommutes(Write(mem, exchange, Jmp(x)), fn, jmp, exchange + |JMP_PREFIX|, Bytes64(y));
    WritePatch(mem, exchange, JMP_PREFIX, Bytes64(x), Bytes64(y));
  }

  /** The range meets neither a trampoline nor the jump to it. */
  predicate Clear(t: Trampoline, a: int, b: int) {
    Apart(a, b, t.fn, t.fn + JMP_SIZE) && Apart(a, b, t.buf, t.buf + t.CopyLen() + 2 * JMP_SIZE)
  }

  /** Replacing another function later, in its own part of the code buffer, leaves every byte of an earlier replacement
      as it was. `mid` is memory after the first, `after` memory after the second. */
  lemma LaterReplacementKeeps(t: Trampoline, mid: seq<byte>, later: Trampoline, after: seq<byte>)
    requires t.Fits() && |mid| == |t.mem|
    requires later.Fits() && later.mem == mid && LaidOut(later, after)
    requires Clear(later, t.fn, t.fn + JMP_SIZE)
    requires Clear(later, t.buf, t.buf + t.CopyLen() + 2 * JMP_SIZE)
    ensures after[t.fn..t.fn + JMP_SIZE] == mid[t.fn..t.fn + JMP_SIZE]
    ensures var end := t.buf + t.CopyLen() + 2 * JMP_SIZE; after[t.buf..end] == mid[t.buf..end]
    ensures Stands(t, mid) ==> Stands(t, after)
  {
    ClearKept(later, after, t.fn, t.fn + JMP_SIZE);
    ClearKept(later, after, t.buf, t.buf + t.CopyLen() + 2 * JMP_SIZE);
    SameStands(t, mid, after);
  }

  /** Memories with the same bytes there hold the same trampoline. */
  lemma SameStands(t: Trampoline, mem: seq<byte>, after: seq<byte>)
    requires t.Fits() && |after| == |mem| == |t.mem|
    requires after[t.fn..t.fn + JMP_SIZE] == mem[t.fn..t.fn + JMP_SIZE]
    requires var end := t.buf + t.CopyLen() + 2 * JMP_SIZE; after[t.buf..end] == mem[t.buf..end]
    ensures Stands(t, mem) ==> Stands(t, after)
  {
    var n := t.CopyLen();
    SameSlice(mem, after, t.buf, t.buf + n + 2 * JMP_SIZE, 0, n);
    SameSlice(mem, after, t.buf, t.buf + n + 2 * JMP_SIZE, n, n + JMP_SIZE);
    SameSlice(mem, after, t.buf, t.buf + n + 2 * JMP_SIZE, n + JMP_SIZE, n + 2 * JMP_SIZE);
  }

  lemma SameSlice(m: seq<byte>, m': seq<byte>, a: nat, b: nat, i: nat, j: nat)
    requires a <= b <= |m| == |m'| && i <= j <= b - a && m'[a..b] == m[a..b]
    ensures m'[a + i..a + j] == m[a + i..a + j]
  {
    SliceOfSlice(m, a, b, i, j);
    SliceOfSlice(m', a, b, i, j);
  }

  lemma ClearKept(t: Trampoline, after: seq<byte>, a: nat, b: nat)
    requires t.Fits() && LaidOut(t, after) && a <= b <= |t.mem| && Clear(t, a, b)
    ensures after[a..b] == t.mem[a..b]
  {
    assert Elsewhere(|t.mem|, t.fn, t.buf, |Flat(t.codes)|, t.buf + t.CopyLen(), a, b);
  }
}
