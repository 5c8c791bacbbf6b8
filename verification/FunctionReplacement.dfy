/** Replacing a function by patching a jump over its first instructions and keeping a relocated copy of them
    (win_agent/instrumentation/function_replacement.cpp:74-193). Code is a byte memory; the processor and Zydis are
    functions with stated contracts. */
module FunctionReplacement {
  import opened Common
  import opened Words
  import opened CodeBuffers

  // ---------- The processor and the disassembler ----------

  const MAX_INSTRUCTION: nat := 15

  /** Registers and data memory. */
  type Data = map<int, int>

  /** Behind the instruction, at an address, or at the u64 that memory holds at an address. */
  datatype Next = Fall | Goto(target: int) | Through(address: int)

  datatype Effect = Effect(next: Next, data: Data)

  /** `length` decodes the head of a window, `effect` executes an instruction standing at an address, `encodable` says
      whether an encoder request can be made of it, `encode` re-encodes it for another address. */
  datatype Isa = Isa(
    length: seq<byte> -> Option<nat>,
    effect: (seq<byte>, int, Data) -> Effect,
    encodable: seq<byte> -> bool,
    encode: (seq<byte>, int) -> Option<seq<byte>>)

  function Window(mem: seq<byte>, ip: nat): (w: seq<byte>)
    requires ip <= |mem|
    ensures |w| <= MAX_INSTRUCTION
  {
    mem[ip..Min(ip + MAX_INSTRUCTION, |mem|)]
  }

  /** Decoding reads no further than the instruction. */
  ghost predicate Decodes(isa: Isa) {
    forall v, w {:trigger SameHead(isa, v, w)} :: SameHead(isa, v, w) ==> isa.length(w) == isa.length(v)
  }

  ghost predicate SameHead(isa: Isa, v: seq<byte>, w: seq<byte>) {
    && isa.length(v).Some? && isa.length(v).value <= |v| && isa.length(v).value <= |w|
    && v[..isa.length(v).value] == w[..isa.length(v).value]
  }

  const JMP_PREFIX: seq<byte> := [0xFF, 0x25, 0, 0, 0, 0]

  const JMP_SIZE: nat := 14

  /** AbsoluteJmp: jmp [rip+0] with its address behind it. */
  function Jmp(target: nat): (bs: seq<byte>)
    ensures |bs| == JMP_SIZE
  {
    JMP_PREFIX + Bytes64(target)
  }

  /** A signed little-endian doubleword. */
  function Displacement(bs: seq<byte>): int
    requires |bs| == 4
  {
    var v := FromBytes(bs);
    if v < 0x8000_0000 then v else v - 0x1_0000_0000
  }

  /** The processor's indirect jump: FF 25 and a displacement are six bytes that go to the u64 stored at the
      displacement behind them, and change nothing. */
  ghost predicate Jumps(isa: Isa) {
    && (forall v {:trigger isa.length(v)} :: IndirectJump(v) ==> isa.length(v) == Some(6))
    && (forall v, at, d {:trigger isa.effect(v, at, d)} ::
          |v| == 6 && IndirectJump(v) ==> isa.effect(v, at, d) == Effect(Through(at + 6 + Displacement(v[2..6])), d))
  }

  predicate IndirectJump(v: seq<byte>) {
    |v| >= 6 && v[0] == 0xFF && v[1] == 0x25
  }

  datatype State = State(rip: int, data: Data)

  /** The length of the instruction at `ip`: 1 to 15 bytes, inside memory. */
  function Decode(isa: Isa, mem: seq<byte>, ip: int): (n: Option<nat>)
    ensures n.Some? ==> 0 <= ip && 1 <= n.value <= MAX_INSTRUCTION && ip + n.value <= |mem|
  {
    if 0 <= ip <= |mem| then
      match isa.length(Window(mem, ip))
      case None => None
      case Some(n) => if 1 <= n <= |Window(mem, ip)| then Some(n) else None
    else None
  }

  /** Where execution goes on, if it does not fault. */
  function NextRip(mem: seq<byte>, next: Next, behind: int): Option<int> {
    match next
    case Fall => Some(behind)
    case Goto(t) => Some(t)
    case Through(a) => if 0 <= a && a + 8 <= |mem| then Some(FromBytes(mem[a..a + 8])) else None
  }

  /** One instruction; a state that cannot be decoded or faults is stuck. */
  function Step(isa: Isa, mem: seq<byte>, s: State): State {
    match Decode(isa, mem, s.rip)
    case None => s
    case Some(n) =>
      var e := isa.effect(mem[s.rip..s.rip + n], s.rip, s.data);
      match NextRip(mem, e.next, s.rip + n)
      case None => s
      case Some(rip) => State(rip, e.data)
  }

  function Steps(isa: Isa, mem: seq<byte>, s: State, n: nat): State
    decreases n
  {
    if n == 0 then s else Steps(isa, mem, Step(isa, mem, s), n - 1)
  }

  lemma {:induction false} StepsAdd(isa: Isa, mem: seq<byte>, s: State, m: nat, n: nat)
    ensures Steps(isa, mem, s, m + n) == Steps(isa, mem, Steps(isa, mem, s, m), n)
    decreases m
  {
    if m == 0 {
    } else {
      StepsAdd(isa, mem, Step(isa, mem, s), m - 1, n);
    }
  }

  // ---------- What is copied ----------

  /** `rest`, when it succeeds, put behind `xs`. */
  function Prepend<T>(xs: seq<T>, rest: Option<seq<T>>): Option<seq<T>> {
    match rest
    case None => None
    case Some(ys) => Some(xs + ys)
  }

  /** The lengths of the instructions taken from `fn`, `copied` bytes of which are already taken: decoding goes on until
      a jump fits, or until it fails. None when an instruction cannot be turned into a request. */
  function Scan(isa: Isa, mem: seq<byte>, fn: nat, copied: nat): Option<seq<nat>>
    decreases JMP_SIZE - copied
  {
    if copied >= JMP_SIZE then Some([])
    else match Decode(isa, mem, fn + copied)
         case None => Some([])
         case Some(n) =>
           if !isa.encodable(mem[fn + copied..fn + copied + n]) then None
           else Prepend([n], Scan(isa, mem, fn, copied + n))
  }

  /** The re-encoded instructions, from the `k`-th on, `assembled` bytes being written already; encoding may not use
      more room than the originals did. */
  function Relocate(isa: Isa, mem: seq<byte>, fn: nat, lens: seq<nat>, k: nat, buf: nat, assembled: nat)
    : Option<seq<seq<byte>>>
    requires k <= |lens| && fn + Sum(lens) <= |mem|
    decreases |lens| - k
  {
    if k == |lens| then Some([])
    else
      SumPrefix(lens, k + 1);
      SumNext(lens, k);
      match isa.encode(Original(mem, fn, lens, k), buf + assembled)
      case None => None
      case Some(code) =>
        if |code| > Sum(lens) - assembled then None
        else Prepend([code], Relocate(isa, mem, fn, lens, k + 1, buf, assembled + |code|))
  }

  lemma SumNext(sizes: seq<nat>, k: nat)
    requires k < |sizes|
    ensures Sum(sizes[..k + 1]) == Sum(sizes[..k]) + sizes[k]
  {
    assert sizes[..k + 1][..k] == sizes[..k];
  }

  lemma {:induction false} SumPrefix(sizes: seq<nat>, k: nat)
    requires k <= |sizes|
    ensures Sum(sizes[..k]) <= Sum(sizes)
    decreases |sizes| - k
  {
    if k == |sizes| {
      assert sizes[..k] == sizes;
    } else {
      SumNext(sizes, k);
      SumPrefix(sizes, k + 1);
    }
  }

  lemma {:induction false} SumCons(n: nat, sizes: seq<nat>)
    ensures Sum([n] + sizes) == n + Sum(sizes)
  {
    if sizes == [] {
      assert [n] + sizes == [n] && [n][..0] == [];
    } else {
      var front := sizes[..|sizes| - 1];
      assert ([n] + sizes)[..|sizes|] == [n] + front;
      SumCons(n, front);
    }
  }

  /** The bytes of the k-th original instruction. */
  function Original(mem: seq<byte>, fn: nat, lens: seq<nat>, k: nat): seq<byte>
    requires k < |lens| && fn + Sum(lens) <= |mem|
  {
    SumPrefix(lens, k + 1);
    SumNext(lens, k);
    mem[fn + Sum(lens[..k])..fn + Sum(lens[..k + 1])]
  }

  function Flat(codes: seq<seq<byte>>): seq<byte> {
    if codes == [] then [] else codes[0] + Flat(codes[1..])
  }

  /** Memory after a successful replacement: the copy, the jump back behind `copyLen` bytes, the exchangeable jump to
      `target`, and the jump over the function's first bytes. */
  function Patched(mem: seq<byte>, fn: nat, buf: nat, code: seq<byte>, copyLen: nat, target: nat): (r: seq<byte>)
    requires |code| <= copyLen && buf + copyLen + 2 * JMP_SIZE <= |mem| && fn + JMP_SIZE <= |mem|
    ensures |r| == |mem|
  {
    var copied := Write(mem, buf, code);
    var resumed := Write(copied, buf + copyLen, Jmp(fn + |code|));
    var exchanged := Write(resumed, buf + copyLen + JMP_SIZE, Jmp(target));
    Write(exchanged, fn, Jmp(buf + copyLen + JMP_SIZE))
  }

  /** The bytes a scan takes: at least a jump's worth unless decoding failed, at most 28, all inside memory. */
  lemma {:induction false} ScanBounds(isa: Isa, mem: seq<byte>, fn: nat, copied: nat) returns (total: nat)
    requires Scan(isa, mem, fn, copied).Some? && fn + copied <= |mem| && copied <= 28
    ensures total == copied + Sum(Scan(isa, mem, fn, copied).value) <= 28 && fn + total <= |mem|
    ensures total < JMP_SIZE ==> Decode(isa, mem, fn + total).None?
    decreases JMP_SIZE - copied
  {
    total := copied;
    if copied < JMP_SIZE && Decode(isa, mem, fn + copied).Some? {
      var n := Decode(isa, mem, fn + copied).value;
      total := ScanBounds(isa, mem, fn, copied + n);
      SumCons(n, Scan(isa, mem, fn, copied + n).value);
    }
  }

  // ---------- replace_function ----------

  /** The instructions a scan took, each as its bytes. */
  predicate Taken(mem: seq<byte>, fn: nat, lens: seq<nat>, requests: seq<seq<byte>>) {
    && fn + Sum(lens) <= |mem| && |requests| == |lens|
    && forall k {:trigger TakenAt(mem, fn, lens, requests, k)} ::
         0 <= k < |lens| ==> TakenAt(mem, fn, lens, requests, k)
  }

  predicate TakenAt(mem: seq<byte>, fn: nat, lens: seq<nat>, requests: seq<seq<byte>>, k: nat)
    requires k < |lens| == |requests| && fn + Sum(lens) <= |mem|
  {
    requests[k] == Original(mem, fn, lens, k)
  }

  lemma TakenNext(mem: seq<byte>, fn: nat, lens: seq<nat>, requests: seq<seq<byte>>, copied: nat, n: nat,
                  instruction: seq<byte>)
    requires Taken(mem, fn, lens, requests) && copied == Sum(lens) && fn + copied + n <= |mem|
    requires instruction == mem[fn + copied..fn + copied + n]
    ensures Sum(lens + [n]) == copied + n
    ensures Taken(mem, fn, lens + [n], requests + [instruction])
  {
    var lens', requests' := lens + [n], requests + [instruction];
    assert lens'[..|lens|] == lens && lens'[..|lens| + 1] == lens';
    forall k | 0 <= k < |lens'| ensures TakenAt(mem, fn, lens', requests', k) {
      if k < |lens| {
        assert lens'[..k] == lens[..k] && lens'[..k + 1] == lens[..k + 1];
        assert TakenAt(mem, fn, lens, requests, k);
      }
    }
  }

  /** The first loop of replace_function. */
  method TakePrologue(isa: Isa, mem: seq<byte>, fn: nat)
    returns (ok: bool, ghost lens: seq<nat>, requests: seq<seq<byte>>, copyLen: nat)
    requires fn <= |mem|
    ensures ok <==> Scan(isa, mem, fn, 0).Some?
    ensures ok ==> Scan(isa, mem, fn, 0) == Some(lens) && copyLen == Sum(lens)
    ensures ok ==> Taken(mem, fn, lens, requests)
  {
    ok, lens, requests, copyLen := true, [], [], 0;
    assert Taken(mem, fn, [], []);
    ghost var whole := Scan(isa, mem, fn, 0);
    PrependNothing(whole);
    while copyLen < JMP_SIZE
      invariant ok && copyLen == Sum(lens)
      invariant Taken(mem, fn, lens, requests)
      invariant whole == Prepend(lens, Scan(isa, mem, fn, copyLen))
      decreases JMP_SIZE - copyLen
    {
      var more;
      ok, more, lens, requests, copyLen := TakeNext(isa, mem, fn, lens, requests, copyLen, whole);
      if !more {
        return;
      }
    }
    assert lens + [] == lens;
  }

  /** One step of the disassembler and, unless it fails, one more request. */
  method TakeNext(isa: Isa, mem: seq<byte>, fn: nat, ghost lens: seq<nat>, requests: seq<seq<byte>>, copyLen: nat,
                  ghost whole: Option<seq<nat>>)
    returns (ok: bool, more: bool, ghost lens': seq<nat>, requests': seq<seq<byte>>, copyLen': nat)
    requires copyLen < JMP_SIZE && copyLen == Sum(lens) && Taken(mem, fn, lens, requests)
    requires whole == Prepend(lens, Scan(isa, mem, fn, copyLen))
    ensures copyLen' == Sum(lens') && Taken(mem, fn, lens', requests')
    ensures more ==> ok && copyLen' > copyLen && whole == Prepend(lens', Scan(isa, mem, fn, copyLen'))
    ensures !more ==> whole == if ok then Some(lens') else None
  {
    var step := Decode(isa, mem, fn + copyLen);
    ScanNext(isa, mem, fn, lens, copyLen, step, whole);
    ok, more, lens', requests', copyLen' := true, false, lens, requests, copyLen;
    if step.Some? {
      var n := step.value;
      var instruction := mem[fn + copyLen..fn + copyLen + n];
      ok := isa.encodable(instruction);
      if ok {
        TakenNext(mem, fn, lens, requests, copyLen, n, instruction);
        more, lens', requests', copyLen' := true, lens + [n], requests + [instruction], copyLen + n;
      }
    }
  }

  /** The first loop's step: decoding failed and the scan ends, or the whole fails, or the instruction joins. */
  lemma ScanNext(isa: Isa, mem: seq<byte>, fn: nat, lens: seq<nat>, copied: nat, step: Option<nat>,
                 whole: Option<seq<nat>>)
    requires copied < JMP_SIZE && step == Decode(isa, mem, fn + copied)
    requires whole == Prepend(lens, Scan(isa, mem, fn, copied))
    ensures if step.None? then whole == Some(lens)
            else if !isa.encodable(mem[fn + copied..fn + copied + step.value]) then whole.None?
            else whole == Prepend(lens + [step.value], Scan(isa, mem, fn, copied + step.value))
  {
    if step.Some? {
      ScanPrepend(lens, step.value, Scan(isa, mem, fn, copied + step.value));
    } else {
      assert lens + [] == lens;
    }
  }

  lemma PrependNothing<T>(rest: Option<seq<T>>)
    ensures Prepend([], rest) == rest
  {
    if rest.Some? {
      assert [] + rest.value == rest.value;
    }
  }

  lemma ScanPrepend<T>(xs: seq<T>, x: T, rest: Option<seq<T>>)
    ensures Prepend(xs, Prepend([x], rest)) == Prepend(xs + [x], rest)
  {
    if rest.Some? {
      assert xs + ([x] + rest.value) == xs + [x] + rest.value;
    }
  }

  lemma {:induction false} FlatAppend(codes: seq<seq<byte>>, code: seq<byte>)
    ensures Flat(codes + [code]) == Flat(codes) + code
  {
    if codes == [] {
      assert [] + [code] == [code];
      assert Flat([code]) == code + Flat([code][1..]);
    } else {
      assert (codes + [code])[1..] == codes[1..] + [code];
      FlatAppend(codes[1..], code);
    }
  }

  /** The second loop's step: the instruction's encoding joins the codes, or the whole fails. */
  lemma RelocateNext(isa: Isa, mem: seq<byte>, fn: nat, lens: seq<nat>, k: nat, buf: nat, assembled: nat,
                     codes: seq<seq<byte>>, encoded: Option<seq<byte>>, whole: Option<seq<seq<byte>>>)
    requires k < |lens| && fn + Sum(lens) <= |mem|
    requires encoded == isa.encode(Original(mem, fn, lens, k), buf + assembled)
    requires whole == Prepend(codes, Relocate(isa, mem, fn, lens, k, buf, assembled))
    ensures if encoded.None? || |encoded.value| > Sum(lens) - assembled then whole.None?
            else whole == Prepend(codes + [encoded.value],
                                  Relocate(isa, mem, fn, lens, k + 1, buf, assembled + |encoded.value|))
  {
    if encoded.Some? && |encoded.value| <= Sum(lens) - assembled {
      ScanPrepend(codes, encoded.value,
                  Relocate(isa, mem, fn, lens, k + 1, buf, assembled + |encoded.value|));
    }
  }

  /** One re-encoding into the buffer, if it succeeds and fits (ZydisEncoderEncodeInstructionAbsolute). */
  method Encode(isa: Isa, mem: array<byte>, fn: nat, buf: nat, request: seq<byte>, copyLen: nat, assembled: nat,
                ghost before: seq<byte>, ghost lens: seq<nat>, ghost k: nat, ghost codes: seq<seq<byte>>,
                ghost whole: Option<seq<seq<byte>>>)
    returns (ok: bool, ghost codes': seq<seq<byte>>, assembled': nat)
    requires k < |lens| && fn + Sum(lens) <= |before| && request == Original(before, fn, lens, k)
    requires assembled == |Flat(codes)| <= copyLen == Sum(lens) && |before| == mem.Length
    requires buf + copyLen <= mem.Length && mem[..] == Write(before, buf, Flat(codes))
    requires whole == Prepend(codes, Relocate(isa, before, fn, lens, k, buf, assembled))
    modifies mem
    ensures assembled' == |Flat(codes')| <= copyLen && mem[..] == Write(before, buf, Flat(codes'))
    ensures if ok then whole == Prepend(codes', Relocate(isa, before, fn, lens, k + 1, buf, assembled'))
            else whole.None?
  {
    var encoded := isa.encode(request, buf + assembled);
    RelocateNext(isa, before, fn, lens, k, buf, assembled, codes, encoded, whole);
    ok := encoded.Some? && |encoded.value| <= copyLen - assembled;
    codes', assembled' := codes, assembled;
    if ok {
      var code := encoded.value;
      FlatAppend(codes, code);
      WriteAppend(before, buf, Flat(codes), code);
      WriteTo(mem, buf + assembled, code, Write(before, buf, Flat(codes)));
      codes', assembled' := codes + [code], assembled + |code|;
    }
  }

  /** The second loop of replace_function: re-encode into the buffer, as far as it goes. */
  method Reassemble(isa: Isa, mem: array<byte>, fn: nat, buf: nat, requests: seq<seq<byte>>, copyLen: nat,
                    ghost before: seq<byte>, ghost lens: seq<nat>)
    returns (ok: bool, ghost codes: seq<seq<byte>>, assembled: nat)
    requires mem[..] == before && Taken(before, fn, lens, requests) && copyLen == Sum(lens)
    requires buf + copyLen <= mem.Length
    modifies mem
    ensures ok <==> Relocate(isa, before, fn, lens, 0, buf, 0).Some?
    ensures ok ==> Relocate(isa, before, fn, lens, 0, buf, 0) == Some(codes)
    ensures assembled == |Flat(codes)| <= copyLen && mem[..] == Write(before, buf, Flat(codes))
  {
    ok, codes, assembled := true, [], 0;
    ghost var whole := Relocate(isa, before, fn, lens, 0, buf, 0);
    PrependNothing(whole);
    WriteNothing(before, buf);
    for k := 0 to |requests|
      invariant ok && assembled == |Flat(codes)| <= copyLen
      invariant mem[..] == Write(before, buf, Flat(codes))
      invariant whole == Prepend(codes, Relocate(isa, before, fn, lens, k, buf, assembled))
    {
      assert TakenAt(before, fn, lens, requests, k);
      ok, codes, assembled :=
        Encode(isa, mem, fn, buf, requests[k], copyLen, assembled, before, lens, k, codes, whole);
      if !ok {
        return;
      }
    }
    assert codes + [] == codes;
  }

  /** What replace_function must do with what scanning took and re-encoding gave: fail and have touched the buffer only,
      or patch. */
  ghost predicate Outcome(relocated: Option<seq<seq<byte>>>, before: seq<byte>, after: seq<byte>, fn: nat, buf: nat,
                          copyLen: nat, ok: bool, jmpTo: nat, copied: nat)
    requires fn + JMP_SIZE <= |before| && buf + copyLen + 2 * JMP_SIZE <= |before|
  {
    match relocated
    case None => !ok && OnlyIn(before, after, buf, buf + copyLen)
    case Some(codes) =>
      && ok && copied == buf && jmpTo == buf + copyLen + JMP_SIZE + |JMP_PREFIX|
      && |Flat(codes)| <= copyLen
      && after == Patched(before, fn, buf, Flat(codes), copyLen, buf)
  }

  predicate OnlyIn(before: seq<byte>, after: seq<byte>, from: int, to: int) {
    |after| == |before| && forall i :: 0 <= i < |before| && !(from <= i < to) ==> after[i] == before[i]
  }

  lemma WrittenOnlyIn(mem: seq<byte>, at: nat, bs: seq<byte>, to: nat)
    requires at + |bs| <= to <= |mem|
    ensures OnlyIn(mem, Write(mem, at, bs), at, to)
  {}

  /** replace_function. It fails before reserving anything, or it fails in the buffer, giving the reservation back and
      leaving everything else as it was, or it patches; it patches even when decoding stopped before a jump fits. */
  method ReplaceFunction(isa: Isa, mem: array<byte>, cb: CodeBuffer, fn: nat, ghost before: seq<byte>,
                         ghost sizes: seq<nat>)
    returns (ok: bool, jmpTo: nat, copied: nat,
             ghost scanned: Option<seq<nat>>, ghost buf: nat, ghost relocated: Option<seq<seq<byte>>>)
    requires mem[..] == before && cb.reserved == Sum(sizes)
    requires fn + JMP_SIZE <= mem.Length && cb.mem + cb.reserved + 64 + 56 <= mem.Length
    modifies mem, cb
    ensures scanned == Scan(isa, before, fn, 0)
    ensures scanned.None? ==> !ok && mem[..] == before
    ensures scanned.Some? ==>
              && Sum(scanned.value) <= 28 && fn + Sum(scanned.value) <= mem.Length
              && buf == Region(cb.mem, sizes + [64], |sizes|).start == cb.mem + old(cb.reserved) + 64
              && relocated == Relocate(isa, before, fn, scanned.value, 0, buf, 0)
              && Outcome(relocated, before, mem[..], fn, buf, Sum(scanned.value), ok, jmpTo, copied)
    ensures cb.reserved == if ok then Sum(sizes + [64]) else old(cb.reserved)
  {
    ghost var lens;
    var requests, copyLen;
    assert mem[..] == before;
    ok, lens, requests, copyLen := TakePrologue(isa, mem[..], fn);
    scanned, buf, relocated, jmpTo, copied := Scan(isa, before, fn, 0), 0, None, 0, 0;
    if !ok {
      return;
    }
    ghost var total := ScanBounds(isa, before, fn, 0);
    ok, jmpTo, copied, buf, relocated := ReserveAndBuild(isa, mem, cb, fn, requests, copyLen, before, lens, sizes);
  }

  /** replace_function from the reservation on; a failure gives it back. */
  method ReserveAndBuild(isa: Isa, mem: array<byte>, cb: CodeBuffer, fn: nat, requests: seq<seq<byte>>, copyLen: nat,
                         ghost before: seq<byte>, ghost lens: seq<nat>, ghost sizes: seq<nat>)
    returns (ok: bool, jmpTo: nat, copied: nat, ghost buf: nat, ghost relocated: Option<seq<seq<byte>>>)
    requires mem[..] == before && cb.reserved == Sum(sizes)
    requires Taken(before, fn, lens, requests) && copyLen == Sum(lens) <= 28
    requires fn + JMP_SIZE <= mem.Length && cb.mem + cb.reserved + 64 + 56 <= mem.Length
    modifies mem, cb
    ensures buf == Region(cb.mem, sizes + [64], |sizes|).start == cb.mem + old(cb.reserved) + 64
    ensures relocated == Relocate(isa, before, fn, lens, 0, buf, 0)
    ensures Outcome(relocated, before, mem[..], fn, buf, copyLen, ok, jmpTo, copied)
    ensures cb.reserved == if ok then Sum(sizes + [64]) else old(cb.reserved)
  {
    PaddedTrampoline(copyLen + 2 * JMP_SIZE);
    var at := cb.ReserveAligned(copyLen + 2 * JMP_SIZE, 64, sizes);
    buf := at;
    ok, jmpTo, copied, relocated := Build(isa, mem, fn, at, requests, copyLen, before, lens);
    if !ok {
      cb.RevertAllocation();
    }
  }

  /** ... from the second loop on. */
  method Build(isa: Isa, mem: array<byte>, fn: nat, buf: nat, requests: seq<seq<byte>>, copyLen: nat,
               ghost before: seq<byte>, ghost lens: seq<nat>)
    returns (ok: bool, jmpTo: nat, copied: nat, ghost relocated: Option<seq<seq<byte>>>)
    requires mem[..] == before && Taken(before, fn, lens, requests) && copyLen == Sum(lens)
    requires buf + copyLen + 2 * JMP_SIZE <= mem.Length && fn + JMP_SIZE <= mem.Length
    modifies mem
    ensures relocated == Relocate(isa, before, fn, lens, 0, buf, 0)
    ensures Outcome(relocated, before, mem[..], fn, buf, copyLen, ok, jmpTo, copied)
  {
    jmpTo, copied := 0, 0;
    ghost var codes;
    var assembled;
    ok, codes, assembled := Reassemble(isa, mem, fn, buf, requests, copyLen, before, lens);
    relocated := if ok then Some(codes) else None;
    if !ok {
      WrittenOnlyIn(before, buf, Flat(codes), buf + copyLen);
      return;
    }
    copied := buf;
    jmpTo := WriteJumps(mem, fn, assembled, buf, copyLen, before, Flat(codes));
  }

  /** AbsoluteJmp::write_to, three times: behind a copy of `assembled` bytes in `copyLen`, and over the function. */
  method WriteJumps(mem: array<byte>, fn: nat, assembled: nat, buf: nat, copyLen: nat,
                    ghost before: seq<byte>, ghost code: seq<byte>) returns (jmpTo: nat)
    requires |before| == mem.Length && buf + copyLen + 2 * JMP_SIZE <= mem.Length && fn + JMP_SIZE <= mem.Length
    requires assembled == |code| <= copyLen && mem[..] == Write(before, buf, code)
    modifies mem
    ensures mem[..] == Patched(before, fn, buf, code, copyLen, buf)
    ensures jmpTo == buf + copyLen + JMP_SIZE + |JMP_PREFIX|
  {
    ghost var copied := Write(before, buf, code);
    WriteTo(mem, buf + copyLen, Jmp(fn + assembled), copied);
    ghost var resumed := Write(copied, buf + copyLen, Jmp(fn + assembled));
    WriteTo(mem, buf + copyLen + JMP_SIZE, Jmp(buf), resumed);
    ghost var exchanged := Write(resumed, buf + copyLen + JMP_SIZE, Jmp(buf));
    WriteTo(mem, fn, Jmp(buf + copyLen + JMP_SIZE), exchanged);
    jmpTo := buf + copyLen + JMP_SIZE + |JMP_PREFIX|;
  }
}
