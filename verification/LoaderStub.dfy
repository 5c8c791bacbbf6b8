/** The loader stub: 53 bytes of x86-64 that must do what the pseudo-C beside them says
    (win_agent/installer/parameterized_load.hpp). The bytes are run by an interpreter for the opcodes they use, against
    any callee that keeps to the Microsoft x64 calling convention. */
module LoaderStub {
  import opened Common
  import opened Words

  // ---------- Processor state ----------

  type Memory = int -> byte

  const RAX: nat := 0
  const RCX: nat := 1
  const RDX: nat := 2
  const RBX: nat := 3
  const RSP: nat := 4
  const RBP: nat := 5
  const RSI: nat := 6
  const RDI: nat := 7

  function Load64(mem: Memory, a: int): nat {
    FromBytes(seq(8, i => mem(a + i)))
  }

  function Store64(mem: Memory, a: int, v: nat): Memory {
    x => if a <= x < a + 8 then Digit(v, x - a) else mem(x)
  }

  lemma LoadStored(mem: Memory, a: int, v: nat)
    requires v < TWO_TO_64
    ensures Load64(Store64(mem, a, v), a) == v
  {
    var m := Store64(mem, a, v);
    assert seq(8, i => m(a + i)) == Bytes64(v);
    FromBytes64(v);
  }

  lemma LoadSame(mem: Memory, mem': Memory, a: int)
    requires forall x :: a <= x < a + 8 ==> mem'(x) == mem(x)
    ensures Load64(mem', a) == Load64(mem, a)
  {
    assert seq(8, i => mem'(a + i)) == seq(8, i => mem(a + i));
  }

  lemma LoadBound(mem: Memory, a: int)
    ensures Load64(mem, a) < TWO_TO_64
  {
    FromBytesBound(seq(8, i => mem(a + i)));
    PowerOfEight();
  }

  /** A call as the callee saw it on entry, and what it answered. */
  datatype Call = Call(target: nat, rcx: nat, rdx: nat, rsp: nat, answer: Answer)

  datatype Answer = Answer(rax: nat, mem: Memory)

  datatype Cpu = Cpu(rip: nat, regs: seq<nat>, zf: bool, mem: Memory, calls: seq<Call>)
  {
    predicate Valid() {
      |regs| == 8 && rip < TWO_TO_64 && forall r :: 0 <= r < 8 ==> regs[r] < TWO_TO_64
    }
  }

  function Add64(a: nat, b: int): (r: nat)
    ensures r < TWO_TO_64
  {
    (a + b) % TWO_TO_64
  }

  // ---------- Instructions ----------

  datatype Instr =
    | Push(r: nat)
    | Pop(r: nat)
    | AddImm(r: nat, imm: int)
    | SubImm(r: nat, imm: int)
    | Mov(dst: nat, src: nat)
    | Load(dst: nat, base: nat, disp: int)
    | CallMem(base: nat, disp: int)
    | Test(r: nat, q: nat)
    | Je(rel: int)
    | Jmp(r: nat)
    | Ret(pop: nat)

  datatype Decoded = Decoded(instr: Instr, length: nat)

  function Signed(b: byte): int {
    if b < 128 then b as int else b as int - 256
  }

  function Mod(b: byte): nat {
    b as nat / 64
  }

  function Reg(b: byte): nat {
    b as nat / 8 % 8
  }

  function Rm(b: byte): nat {
    b as nat % 8
  }

  /** The instruction at the head of four bytes. REX.W is the only prefix known; of the memory operands, those with a
      register base and no SIB byte, without displacement or with one of 8 bits. */
  function Decode(b: seq<byte>): Option<Decoded>
    requires |b| == 4
  {
    if 0x50 <= b[0] < 0x58 then Some(Decoded(Push(b[0] as nat - 0x50), 1))
    else if 0x58 <= b[0] < 0x60 then Some(Decoded(Pop(b[0] as nat - 0x58), 1))
    else if b[0] == 0x48 then DecodeWide(b)
    else if b[0] == 0xFF && Mod(b[1]) == 1 && Reg(b[1]) == 2 && Rm(b[1]) != RSP then
      Some(Decoded(CallMem(Rm(b[1]), Signed(b[2])), 3))
    else if b[0] == 0xFF && Mod(b[1]) == 3 && Reg(b[1]) == 4 then Some(Decoded(Jmp(Rm(b[1])), 2))
    else if b[0] == 0x74 then Some(Decoded(Je(Signed(b[1])), 2))
    else if b[0] == 0xC2 then Some(Decoded(Ret(b[1] as nat + 256 * b[2] as nat), 3))
    else None
  }

  function DecodeWide(b: seq<byte>): Option<Decoded>
    requires |b| == 4
  {
    var mod, reg, rm := Mod(b[2]), Reg(b[2]), Rm(b[2]);
    if b[1] == 0x83 && mod == 3 && reg == 0 then Some(Decoded(AddImm(rm, Signed(b[3])), 4))
    else if b[1] == 0x83 && mod == 3 && reg == 5 then Some(Decoded(SubImm(rm, Signed(b[3])), 4))
    else if b[1] == 0x89 && mod == 3 then Some(Decoded(Mov(rm, reg), 3))
    else if b[1] == 0x8B && mod == 0 && rm != RSP && rm != RBP then Some(Decoded(Load(reg, rm, 0), 3))
    else if b[1] == 0x8B && mod == 1 && rm != RSP then Some(Decoded(Load(reg, rm, Signed(b[3])), 4))
    else if b[1] == 0x85 && mod == 3 then Some(Decoded(Test(rm, reg), 3))
    else None
  }

  function Fetch(mem: Memory, rip: int): (b: seq<byte>)
    ensures |b| == 4
  {
    [mem(rip), mem(rip + 1), mem(rip + 2), mem(rip + 3)]
  }

  /** What a called function does from its entry to its return, as seen by the caller. */
  type Callee = Cpu -> Cpu

  function Bitand(a: nat, b: nat): nat {
    if a == 0 || b == 0 then 0 else 2 * Bitand(a / 2, b / 2) + (a % 2) * (b % 2)
  }

  lemma {:induction false} BitandSelf(a: nat)
    ensures Bitand(a, a) == a
  {
    if a != 0 {
      BitandSelf(a / 2);
    }
  }

  /** One instruction; `next` is the address behind it. */
  function Execute(callee: Callee, s: Cpu, i: Instr, next: nat): Cpu
    requires |s.regs| == 8
  {
    var reg := (r: nat) => if r < 8 then s.regs[r] else 0;
    var rsp := s.regs[RSP];
    match i
    case Push(r) => Set(s, RSP, Add64(rsp, -8), next).(mem := Store64(s.mem, Add64(rsp, -8), reg(r)))
    case Pop(r) => Set(Set(s, RSP, Add64(rsp, 8), next), r, Load64(s.mem, rsp), next)
    case AddImm(r, imm) => Set(s, r, Add64(reg(r), imm), next).(zf := Add64(reg(r), imm) == 0)
    case SubImm(r, imm) => Set(s, r, Add64(reg(r), -imm), next).(zf := Add64(reg(r), -imm) == 0)
    case Mov(dst, src) => Set(s, dst, reg(src), next)
    case Load(dst, base, disp) => Set(s, dst, Load64(s.mem, Add64(reg(base), disp)), next)
    case Test(r, q) => s.(rip := next, zf := Bitand(reg(r), reg(q)) == 0)
    case Je(rel) => s.(rip := if s.zf then Add64(next, rel) else next)
    case Jmp(r) => s.(rip := reg(r))
    case Ret(pop) => Set(s, RSP, Add64(rsp, 8 + pop), Load64(s.mem, rsp))
    case CallMem(base, disp) =>
      var entry := Set(s, RSP, Add64(rsp, -8), Load64(s.mem, Add64(reg(base), disp)))
                     .(mem := Store64(s.mem, Add64(rsp, -8), next));
      CallOut(callee, entry)
  }

  function Set(s: Cpu, r: nat, v: nat, rip: nat): Cpu
    requires |s.regs| == 8
  {
    s.(rip := rip, regs := if r < 8 then s.regs[r := v] else s.regs)
  }

  function CallOut(callee: Callee, entry: Cpu): Cpu
    requires |entry.regs| == 8
  {
    var back := callee(entry);
    var rax := if |back.regs| == 8 then back.regs[RAX] else 0;
    back.(calls := entry.calls
                 + [Call(entry.rip, entry.regs[RCX], entry.regs[RDX], entry.regs[RSP], Answer(rax, back.mem))])
  }

  function Step(callee: Callee, s: Cpu): Cpu {
    if |s.regs| != 8 then s
    else match Decode(Fetch(s.mem, s.rip))
         case None => s
         case Some(d) => Execute(callee, s, d.instr, s.rip + d.length)
  }

  function Stepper(callee: Callee): Cpu -> Cpu {
    s => Step(callee, s)
  }

  function Iterate(step: Cpu -> Cpu, s: Cpu, n: nat): Cpu
    decreases n
  {
    if n == 0 then s else Iterate(step, step(s), n - 1)
  }

  // ---------- The calling convention ----------

  const STUB_SIZE: nat := 53

  /** What the caller may rely on when a function entered in state `e` comes back: it returns to the address on the
      stack with that address popped, the nonvolatile registers are unchanged, and above its return address and the 32
      bytes of its home area it wrote nothing to the 16 bytes of its caller's frame. Nor does it write to the stub. */
  ghost predicate Respects(callee: Callee, e: Cpu, stub: int)
    requires e.Valid()
  {
    e.regs[RSP] + 56 <= TWO_TO_64 ==>
      var back, rsp := callee(e), e.regs[RSP];
      && back.Valid()
      && back.rip == Load64(e.mem, rsp) && back.regs[RSP] == Add64(rsp, 8)
      && back.regs[RBX] == e.regs[RBX] && back.regs[RBP] == e.regs[RBP]
      && back.regs[RSI] == e.regs[RSI] && back.regs[RDI] == e.regs[RDI]
      && (forall x :: rsp + 40 <= x < rsp + 56 ==> back.mem(x) == e.mem(x))
      && (forall x :: stub <= x < stub + STUB_SIZE ==> back.mem(x) == e.mem(x))
  }

  /** The callee does so whenever it is entered with the stack pointer `rsp`. Below that it may use the stack as it
      likes. */
  ghost predicate KeepsConvention(callee: Callee, stub: int, rsp: int) {
    forall e: Cpu {:trigger Respects(callee, e, stub)} :: e.Valid() && e.regs[RSP] == rsp ==> Respects(callee, e, stub)
  }

  /** A callee that saves rbx on the stack, uses up the register and restores it from there. */
  function SavesRbx(e: Cpu): Cpu {
    if !e.Valid() then e
    else
      var below := Add64(e.regs[RSP], -8);
      var mem := Store64(e.mem, below, e.regs[RBX]);
      e.(rip := Load64(mem, e.regs[RSP]), mem := mem,
         regs := e.regs[RSP := Add64(e.regs[RSP], 8)][RBX := Load64(mem, below)])
  }

  /** It keeps the convention wherever its stack is not the stub's code. */
  lemma SavesRbxKeepsConvention(stub: int, rsp: int)
    requires 8 <= rsp && Apart(rsp - 8, rsp, stub, stub + STUB_SIZE)
    ensures KeepsConvention(SavesRbx, stub, rsp)
  {
    forall e: Cpu | e.Valid() && e.regs[RSP] == rsp ensures Respects(SavesRbx, e, stub) {
      var mem := Store64(e.mem, rsp - 8, e.regs[RBX]);
      LoadStored(e.mem, rsp - 8, e.regs[RBX]);
      StoreElsewhere(e.mem, rsp - 8, e.regs[RBX], rsp);
      LoadBound(mem, rsp);
    }
  }

  // ---------- The stub ----------

  const FIRST_CALL: seq<byte> := [
    0x53,                    // 00: push rbx
    0x48, 0x83, 0xEC, 0x20,  // 01: sub rsp, 0x20
    0x48, 0x89, 0xCB,        // 05: mov rbx, rcx
    0x48, 0x8B, 0x49, 0x10,  // 08: mov rcx, [rcx+0x10]
    0xFF, 0x53, 0x18,        // 0c: call [rbx+0x18]
    0x48, 0x85, 0xC0,        // 0f: test rax, rax
    0x74, 0x19]              // 12: je 2d

  const SECOND_CALL: seq<byte> := [
    0x48, 0x8B, 0x13,        // 14: mov rdx, [rbx]
    0x48, 0x89, 0xC1,        // 17: mov rcx, rax
    0xFF, 0x53, 0x20,        // 1a: call [rbx+0x20]
    0x48, 0x85, 0xC0,        // 1d: test rax, rax
    0x74, 0x0B]              // 20: je 2d

  const EXITS: seq<byte> := [
    0x48, 0x8B, 0x4B, 0x08,  // 22: mov rcx, [rbx+0x8]
    0x48, 0x83, 0xC4, 0x20,  // 26: add rsp, 0x20
    0x5B,                    // 2a: pop rbx
    0xFF, 0xE0,              // 2b: jmp rax
    0x48, 0x83, 0xC4, 0x20,  // 2d: add rsp, 0x20
    0x5B,                    // 31: pop rbx
    0xC2, 0x00, 0x00]        // 32: ret 0

  const STUB: seq<byte> := FIRST_CALL + SECOND_CALL + EXITS

  ghost predicate CodeAt(mem: Memory, base: int) {
    forall k {:trigger StubByte(mem, base, k)} :: 0 <= k < STUB_SIZE ==> StubByte(mem, base, k)
  }

  predicate StubByte(mem: Memory, base: int, k: int)
    requires 0 <= k < STUB_SIZE
  {
    mem(base + k) == STUB[k]
  }

  /** The bytes at `at` decode to the instruction. */
  ghost predicate Stands(mem: Memory, at: int, i: Instr, length: nat) {
    forall b {:trigger IsHead(mem, at, b)} :: IsHead(mem, at, b) ==> Decode(b) == Some(Decoded(i, length))
  }

  predicate IsHead(mem: Memory, at: int, b: seq<byte>) {
    b == Fetch(mem, at)
  }

  lemma StubBytes(mem: Memory, base: int, k: int, n: int)
    requires CodeAt(mem, base) && 0 <= k && 1 <= n <= 4 && k + n <= STUB_SIZE
    ensures mem(base + k) == STUB[k]
    ensures n > 1 ==> mem(base + k + 1) == STUB[k + 1]
    ensures n > 2 ==> mem(base + k + 2) == STUB[k + 2]
    ensures n > 3 ==> mem(base + k + 3) == STUB[k + 3]
  {
    assert StubByte(mem, base, k);
    assert n > 1 ==> StubByte(mem, base, k + 1);
    assert n > 2 ==> StubByte(mem, base, k + 2);
    assert n > 3 ==> StubByte(mem, base, k + 3);
    assert base + k + 1 == base + (k + 1) && base + k + 2 == base + (k + 2) && base + k + 3 == base + (k + 3);
  }

  /** The stub disassembles to what is written beside it: the prologue, ... */
  lemma PrologueDecodes(mem: Memory, base: int)
    requires CodeAt(mem, base)
    ensures Stands(mem, base + 0x00, Push(RBX), 1)
    ensures Stands(mem, base + 0x01, SubImm(RSP, 0x20), 4)
    ensures Stands(mem, base + 0x05, Mov(RBX, RCX), 3)
    ensures Stands(mem, base + 0x08, Load(RCX, RCX, 0x10), 4)
  {
    StubBytes(mem, base, 0x00, 1);
    StubBytes(mem, base, 0x01, 4);
    StubBytes(mem, base, 0x05, 3);
    StubBytes(mem, base, 0x08, 4);
  }

  /** ... the first call and its check, ... */
  lemma FirstCallDecodes(mem: Memory, base: int)
    requires CodeAt(mem, base)
    ensures Stands(mem, base + 0x0C, CallMem(RBX, 0x18), 3)
    ensures Stands(mem, base + 0x0F, Test(RAX, RAX), 3)
    ensures Stands(mem, base + 0x12, Je(0x19), 2)
  {
    StubBytes(mem, base, 0x0C, 3);
    StubBytes(mem, base, 0x0F, 3);
    StubBytes(mem, base, 0x12, 2);
  }

  /** ... the arguments of the second, ... */
  lemma ArgumentsDecode(mem: Memory, base: int)
    requires CodeAt(mem, base)
    ensures Stands(mem, base + 0x14, Load(RDX, RBX, 0), 3)
    ensures Stands(mem, base + 0x17, Mov(RCX, RAX), 3)
  {
    StubBytes(mem, base, 0x14, 3);
    StubBytes(mem, base, 0x17, 3);
  }

  /** ... the second call and its check, ... */
  lemma SecondCallDecodes(mem: Memory, base: int)
    requires CodeAt(mem, base)
    ensures Stands(mem, base + 0x1A, CallMem(RBX, 0x20), 3)
    ensures Stands(mem, base + 0x1D, Test(RAX, RAX), 3)
    ensures Stands(mem, base + 0x20, Je(0x0B), 2)
  {
    StubBytes(mem, base, 0x1A, 3);
    StubBytes(mem, base, 0x1D, 3);
    StubBytes(mem, base, 0x20, 2);
  }

  /** ... and the two exits. */
  lemma SuccessDecodes(mem: Memory, base: int)
    requires CodeAt(mem, base)
    ensures Stands(mem, base + 0x22, Load(RCX, RBX, 0x08), 4)
    ensures Stands(mem, base + 0x26, AddImm(RSP, 0x20), 4)
    ensures Stands(mem, base + 0x2A, Pop(RBX), 1)
    ensures Stands(mem, base + 0x2B, Jmp(RAX), 2)
  {
    StubBytes(mem, base, 0x22, 4);
    StubBytes(mem, base, 0x26, 4);
    StubBytes(mem, base, 0x2A, 1);
    StubBytes(mem, base, 0x2B, 2);
  }

  lemma FailureDecodes(mem: Memory, base: int)
    requires CodeAt(mem, base)
    ensures Stands(mem, base + 0x2D, AddImm(RSP, 0x20), 4)
    ensures Stands(mem, base + 0x31, Pop(RBX), 1)
    ensures Stands(mem, base + 0x32, Ret(0), 3)
  {
    StubBytes(mem, base, 0x2D, 4);
    StubBytes(mem, base, 0x31, 1);
    StubBytes(mem, base, 0x32, 3);
  }

  // ---------- The pseudo-C ----------

  const EXP: nat := 0x00
  const PARAM: nat := 0x08
  const PATH: nat := 0x10
  const LOADLIB: nat := 0x18
  const GETPROCADDR: nat := 0x20
  const LOAD_DATA_SIZE: nat := 40

  datatype Outcome =
    | Returned(value: nat)
    | TailCall(target: nat, arg: nat)

  /** The calls made, each with its arguments, and how the function ended. */
  datatype Run = Run(calls: seq<(nat, seq<nat>)>, outcome: Outcome)

  /** LoadDllAndSetParameters in memory `mem`, given what its two calls answer: a value and the memory they leave. */
  function PseudoC(data: nat, mem: Memory, first: Answer, second: Answer): Run {
    var loadlib := (Load64(mem, data + LOADLIB), [Load64(mem, data + PATH)]);
    if first.rax == 0 then Run([loadlib], Returned(0))
    else
      var getproc := (Load64(first.mem, data + GETPROCADDR), [first.rax, Load64(first.mem, data + EXP)]);
      if second.rax == 0 then Run([loadlib, getproc], Returned(0))
      else Run([loadlib, getproc], TailCall(second.rax, Load64(second.mem, data + PARAM)))
  }

  // ---------- Refinement ----------

  /** A thread enters the stub as any function is entered: the stack pointer 8 off a 16-byte boundary with the return
      address on top. The 48 bytes of stack the stub uses are neither its code nor its data. */
  ghost predicate Entered(s: Cpu, base: nat, data: nat) {
    && s.Valid() && s.rip == base && s.regs[RCX] == data && CodeAt(s.mem, base)
    && base + STUB_SIZE < TWO_TO_64 && data + LOAD_DATA_SIZE <= TWO_TO_64
    && 0x30 <= s.regs[RSP] && s.regs[RSP] + 8 < TWO_TO_64 && s.regs[RSP] % 16 == 8
    && Apart(s.regs[RSP] - 0x30, s.regs[RSP], base, base + STUB_SIZE)
    && Apart(s.regs[RSP] - 0x30, s.regs[RSP], data, data + LOAD_DATA_SIZE)
  }

  /** Between prologue and exit of a stub entered in state `s0`. */
  ghost predicate InBody(s0: Cpu, s: Cpu, base: nat, data: nat)
    requires Entered(s0, base, data)
  {
    var top := s0.regs[RSP];
    && s.Valid() && s.regs[RSP] == top - 0x28 && s.regs[RBX] == data
    && s.regs[RBP] == s0.regs[RBP] && s.regs[RSI] == s0.regs[RSI] && s.regs[RDI] == s0.regs[RDI]
    && CodeAt(s.mem, base)
    && Load64(s.mem, top - 8) == s0.regs[RBX] && Load64(s.mem, top) == Load64(s0.mem, top)
  }

  ghost predicate Leads(callee: Callee, s: Cpu, s': Cpu) {
    exists n: nat :: Iterate(Stepper(callee), s, n) == s'
  }

  lemma {:induction false} IterateLast(step: Cpu -> Cpu, s: Cpu, n: nat)
    ensures Iterate(step, s, n + 1) == step(Iterate(step, s, n))
    decreases n
  {
    if n == 0 {
      assert Iterate(step, step(s), 0) == step(s);
    } else {
      IterateLast(step, step(s), n - 1);
    }
  }

  lemma StepIs(callee: Callee, s: Cpu, i: Instr, length: nat)
    requires s.Valid() && Stands(s.mem, s.rip, i, length)
    ensures Step(callee, s) == Execute(callee, s, i, s.rip + length)
  {
    assert IsHead(s.mem, s.rip, Fetch(s.mem, s.rip));
  }

  lemma LeadsStep(callee: Callee, s0: Cpu, s: Cpu)
    requires Leads(callee, s0, s)
    ensures Leads(callee, s0, Step(callee, s))
  {
    var n: nat :| Iterate(Stepper(callee), s0, n) == s;
    IterateLast(Stepper(callee), s0, n);
  }

  /** The instruction standing where the run has got to is executed next. */
  lemma LeadsOn(callee: Callee, s0: Cpu, s: Cpu, i: Instr, length: nat, s': Cpu)
    requires Leads(callee, s0, s) && s.Valid() && Stands(s.mem, s.rip, i, length)
    requires s' == Execute(callee, s, i, s.rip + length)
    ensures Leads(callee, s0, s')
  {
    StepIs(callee, s, i, length);
    LeadsStep(callee, s0, s);
  }

  lemma LoadStep(callee: Callee, s0: Cpu, s: Cpu, dst: nat, from: nat, disp: nat, length: nat) returns (s': Cpu)
    requires Leads(callee, s0, s) && s.Valid() && Stands(s.mem, s.rip, Load(dst, from, disp), length)
    requires dst < 8 && from < 8 && s.regs[from] + disp < TWO_TO_64 && s.rip + length < TWO_TO_64
    ensures Leads(callee, s0, s') && s'.Valid()
    ensures s' == s.(rip := s.rip + length, regs := s.regs[dst := Load64(s.mem, s.regs[from] + disp)])
  {
    LoadBound(s.mem, s.regs[from] + disp);
    s' := s.(rip := s.rip + length, regs := s.regs[dst := Load64(s.mem, s.regs[from] + disp)]);
    LeadsOn(callee, s0, s, Load(dst, from, disp), length, s');
  }

  lemma MovStep(callee: Callee, s0: Cpu, s: Cpu, dst: nat, src: nat) returns (s': Cpu)
    requires Leads(callee, s0, s) && s.Valid() && Stands(s.mem, s.rip, Mov(dst, src), 3)
    requires dst < 8 && src < 8 && s.rip + 3 < TWO_TO_64
    ensures Leads(callee, s0, s') && s'.Valid()
    ensures s' == s.(rip := s.rip + 3, regs := s.regs[dst := s.regs[src]])
  {
    s' := s.(rip := s.rip + 3, regs := s.regs[dst := s.regs[src]]);
    LeadsOn(callee, s0, s, Mov(dst, src), 3, s');
  }

  lemma PopStep(callee: Callee, s0: Cpu, s: Cpu, r: nat) returns (s': Cpu)
    requires Leads(callee, s0, s) && s.Valid() && Stands(s.mem, s.rip, Pop(r), 1)
    requires r < 8 && s.regs[RSP] + 8 < TWO_TO_64 && s.rip + 1 < TWO_TO_64
    ensures Leads(callee, s0, s') && s'.Valid()
    ensures s' == s.(rip := s.rip + 1, regs := s.regs[RSP := s.regs[RSP] + 8][r := Load64(s.mem, s.regs[RSP])])
  {
    LoadBound(s.mem, s.regs[RSP]);
    s' := s.(rip := s.rip + 1, regs := s.regs[RSP := s.regs[RSP] + 8][r := Load64(s.mem, s.regs[RSP])]);
    LeadsOn(callee, s0, s, Pop(r), 1, s');
  }

  lemma StoreElsewhere(mem: Memory, a: int, v: nat, b: int)
    requires Apart(a, a + 8, b, b + 8)
    ensures Load64(Store64(mem, a, v), b) == Load64(mem, b)
  {
    LoadSame(mem, Store64(mem, a, v), b);
  }

  lemma Prologue(callee: Callee, s: Cpu, base: nat, data: nat) returns (p: Cpu)
    requires Entered(s, base, data)
    ensures Leads(callee, s, p) && InBody(s, p, base, data) && p.rip == base + 0x0C && p.calls == s.calls
    ensures p.regs[RCX] == Load64(s.mem, data + PATH)
    ensures Load64(p.mem, data + LOADLIB) == Load64(s.mem, data + LOADLIB)
  {
    var top := s.regs[RSP];
    var m := Pushed(s, base, data);
    var s2 := Saved(callee, s, base, data, m);
    PrologueDecodes(m, base);
    var s3 := s2.(rip := base + 0x08, regs := s2.regs[RBX := data]);
    LeadsOn(callee, s, s2, Mov(RBX, RCX), 3, s3);
    p := FirstArgument(callee, s, s3, base, data);
  }

  lemma FirstArgument(callee: Callee, s: Cpu, s3: Cpu, base: nat, data: nat) returns (p: Cpu)
    requires s3.Valid() && CodeAt(s3.mem, base) && s3.rip == base + 0x08 && Leads(callee, s, s3)
    requires s3.regs[RCX] == data && data + LOAD_DATA_SIZE <= TWO_TO_64 && base + STUB_SIZE < TWO_TO_64
    ensures Leads(callee, s, p) && p.Valid()
    ensures p == s3.(rip := base + 0x0C, regs := s3.regs[RCX := Load64(s3.mem, data + PATH)])
  {
    PrologueDecodes(s3.mem, base);
    p := LoadStep(callee, s, s3, RCX, RCX, 0x10, 4);
  }

  lemma Saved(callee: Callee, s: Cpu, base: nat, data: nat, m: Memory) returns (s2: Cpu)
    requires Entered(s, base, data) && m == Store64(s.mem, s.regs[RSP] - 8, s.regs[RBX]) && CodeAt(m, base)
    ensures s2 == s.(rip := base + 0x05, regs := s.regs[RSP := s.regs[RSP] - 0x28], zf := s2.zf, mem := m)
    ensures Leads(callee, s, s2)
  {
    var top := s.regs[RSP];
    PrologueDecodes(s.mem, base);
    PrologueDecodes(m, base);
    assert Iterate(Stepper(callee), s, 0) == s;
    var s1 := s.(rip := base + 0x01, regs := s.regs[RSP := top - 8], mem := m);
    LeadsOn(callee, s, s, Push(RBX), 1, s1);
    s2 := s1.(rip := base + 0x05, regs := s.regs[RSP := top - 0x28], zf := top == 0x28);
    LeadsOn(callee, s, s1, SubImm(RSP, 0x20), 4, s2);
  }

  /** Memory once rbx is saved. */
  lemma Pushed(s: Cpu, base: nat, data: nat) returns (m: Memory)
    requires Entered(s, base, data)
    ensures m == Store64(s.mem, s.regs[RSP] - 8, s.regs[RBX]) && CodeAt(m, base)
    ensures Load64(m, s.regs[RSP] - 8) == s.regs[RBX]
    ensures Load64(m, s.regs[RSP]) == Load64(s.mem, s.regs[RSP])
    ensures Load64(m, data + PATH) == Load64(s.mem, data + PATH) < TWO_TO_64
    ensures Load64(m, data + LOADLIB) == Load64(s.mem, data + LOADLIB)
  {
    var top := s.regs[RSP];
    m := Store64(s.mem, top - 8, s.regs[RBX]);
    forall k | 0 <= k < STUB_SIZE ensures StubByte(m, base, k) {
      assert StubByte(s.mem, base, k);
    }
    LoadStored(s.mem, top - 8, s.regs[RBX]);
    StoreElsewhere(s.mem, top - 8, s.regs[RBX], top);
    StoreElsewhere(s.mem, top - 8, s.regs[RBX], data + PATH);
    StoreElsewhere(s.mem, top - 8, s.regs[RBX], data + LOADLIB);
    LoadBound(m, data + PATH);
  }

  /** The state in which the callee of a call through the data is entered. */
  function CalleeEntry(p: Cpu, data: nat, disp: nat): Cpu
    requires |p.regs| == 8
  {
    var rsp := Add64(p.regs[RSP], -8);
    p.(rip := Load64(p.mem, data + disp), regs := p.regs[RSP := rsp], mem := Store64(p.mem, rsp, p.rip + 3))
  }

  /** What is on the stack and in the code when the callee is entered. */
  lemma EntryMemory(s0: Cpu, p: Cpu, base: nat, data: nat, disp: nat) returns (e: Cpu)
    requires Entered(s0, base, data) && InBody(s0, p, base, data) && p.rip + 3 < TWO_TO_64
    ensures e == CalleeEntry(p, data, disp) && e.Valid() && e.regs[RSP] == s0.regs[RSP] - 0x30
    ensures Load64(e.mem, s0.regs[RSP] - 0x30) == p.rip + 3
    ensures Load64(e.mem, s0.regs[RSP] - 8) == s0.regs[RBX]
    ensures Load64(e.mem, s0.regs[RSP]) == Load64(s0.mem, s0.regs[RSP])
    ensures CodeAt(e.mem, base)
  {
    var top := s0.regs[RSP];
    e := CalleeEntry(p, data, disp);
    LoadBound(p.mem, data + disp);
    LoadStored(p.mem, top - 0x30, p.rip + 3);
    StoreElsewhere(p.mem, top - 0x30, p.rip + 3, top - 8);
    StoreElsewhere(p.mem, top - 0x30, p.rip + 3, top);
    forall k | 0 <= k < STUB_SIZE ensures StubByte(e.mem, base, k) {
      assert StubByte(p.mem, base, k);
    }
  }

  /** A call through the data comes back into the body with everything the stub needs intact. */
  lemma CallReturns(callee: Callee, s0: Cpu, p: Cpu, base: nat, data: nat, disp: nat) returns (a: Cpu)
    requires Entered(s0, base, data) && KeepsConvention(callee, base, s0.regs[RSP] - 0x30) && InBody(s0, p, base, data)
    requires base <= p.rip && p.rip + 3 <= base + STUB_SIZE
    ensures a == CallOut(callee, CalleeEntry(p, data, disp)) && InBody(s0, a, base, data) && a.rip == p.rip + 3
    ensures a.calls == p.calls + [Call(Load64(p.mem, data + disp), p.regs[RCX], p.regs[RDX], s0.regs[RSP] - 0x30,
                                       Answer(a.regs[RAX], a.mem))]
  {
    var top := s0.regs[RSP];
    var e := EntryMemory(s0, p, base, data, disp);
    assert Respects(callee, e, base);
    a := CallOut(callee, e);
    LoadSame(e.mem, a.mem, top - 8);
    LoadSame(e.mem, a.mem, top);
    forall k | 0 <= k < STUB_SIZE ensures StubByte(a.mem, base, k) {
      assert StubByte(e.mem, base, k);
    }
  }

  /** The call as an instruction of the stub. */
  lemma CallStep(callee: Callee, s0: Cpu, p: Cpu, base: nat, data: nat, disp: nat) returns (a: Cpu)
    requires Entered(s0, base, data) && KeepsConvention(callee, base, s0.regs[RSP] - 0x30) && InBody(s0, p, base, data)
    requires Leads(callee, s0, p) && Stands(p.mem, p.rip, CallMem(RBX, disp), 3)
    requires base <= p.rip && p.rip + 3 <= base + STUB_SIZE && disp < LOAD_DATA_SIZE
    ensures Leads(callee, s0, a) && InBody(s0, a, base, data) && a.rip == p.rip + 3
    ensures a.calls == p.calls + [Call(Load64(p.mem, data + disp), p.regs[RCX], p.regs[RDX], s0.regs[RSP] - 0x30,
                                       Answer(a.regs[RAX], a.mem))]
  {
    a := CallReturns(callee, s0, p, base, data, disp);
    LeadsOn(callee, s0, p, CallMem(RBX, disp), 3, a);
  }

  /** test rax, rax; je: the answer 0 goes to the failure exit, any other on. */
  lemma TestStep(callee: Callee, s0: Cpu, a: Cpu, base: nat, data: nat, rel: int) returns (t: Cpu)
    requires Entered(s0, base, data) && InBody(s0, a, base, data) && Leads(callee, s0, a)
    requires Stands(a.mem, a.rip, Test(RAX, RAX), 3) && Stands(a.mem, a.rip + 3, Je(rel), 2)
    requires base <= a.rip && a.rip + 5 + rel == base + 0x2D && a.rip + 5 <= base + STUB_SIZE
    ensures Leads(callee, s0, t) && InBody(s0, t, base, data)
    ensures t.regs == a.regs && t.mem == a.mem && t.calls == a.calls
    ensures t.rip == if a.regs[RAX] == 0 then base + 0x2D else a.rip + 5
  {
    BitandSelf(a.regs[RAX]);
    var u := a.(rip := a.rip + 3, zf := a.regs[RAX] == 0);
    LeadsOn(callee, s0, a, Test(RAX, RAX), 3, u);
    t := u.(rip := if a.regs[RAX] == 0 then base + 0x2D else a.rip + 5);
    LeadsOn(callee, s0, u, Je(rel), 2, t);
  }

  /** mov rdx, [rbx]; mov rcx, rax: the arguments of the second call. */
  lemma SecondArguments(callee: Callee, s0: Cpu, t: Cpu, base: nat, data: nat) returns (p: Cpu)
    requires Entered(s0, base, data) && InBody(s0, t, base, data) && Leads(callee, s0, t) && t.rip == base + 0x14
    ensures Leads(callee, s0, p) && InBody(s0, p, base, data) && p.rip == base + 0x1A
    ensures p.regs[RCX] == t.regs[RAX] && p.regs[RDX] == Load64(t.mem, data + EXP)
    ensures p.mem == t.mem && p.calls == t.calls
  {
    ArgumentsDecode(t.mem, base);
    var u := LoadStep(callee, s0, t, RDX, RBX, EXP, 3);
    p := MovStep(callee, s0, u, RCX, RAX);
  }

  /** add rsp, 0x20; pop rbx: the frame is gone, rbx is back, and the return address is on top. */
  lemma Epilogue(callee: Callee, s0: Cpu, s: Cpu, base: nat, data: nat) returns (f: Cpu)
    requires Entered(s0, base, data) && InBody(s0, s, base, data) && Leads(callee, s0, s)
    requires Stands(s.mem, s.rip, AddImm(RSP, 0x20), 4) && Stands(s.mem, s.rip + 4, Pop(RBX), 1)
    requires base <= s.rip && s.rip + 5 <= base + STUB_SIZE
    ensures Leads(callee, s0, f) && f.Valid() && f.rip == s.rip + 5 && f.mem == s.mem && f.calls == s.calls
    ensures f.regs == s.regs[RSP := s0.regs[RSP]][RBX := s0.regs[RBX]]
  {
    var top := s0.regs[RSP];
    var u := s.(rip := s.rip + 4, regs := s.regs[RSP := top - 8], zf := top == 8);
    LeadsOn(callee, s0, s, AddImm(RSP, 0x20), 4, u);
    f := PopStep(callee, s0, u, RBX);
  }

  /** The nonvolatile registers are as they were. */
  predicate Restored(s0: Cpu, f: Cpu)
    requires |s0.regs| == 8
  {
    && |f.regs| == 8
    && f.regs[RBX] == s0.regs[RBX] && f.regs[RBP] == s0.regs[RBP]
    && f.regs[RSI] == s0.regs[RSI] && f.regs[RDI] == s0.regs[RDI]
  }

  /** How the machine shows an outcome to the stub's caller. */
  predicate Shows(s0: Cpu, f: Cpu, outcome: Outcome)
    requires |s0.regs| == 8
  {
    var top := s0.regs[RSP];
    && Restored(s0, f)
    && match outcome
       case Returned(v) => f.rip == Load64(s0.mem, top) && f.regs[RSP] == top + 8 && f.regs[RAX] == v
       case TailCall(target, arg) =>
         && f.rip == target && f.regs[RCX] == arg
         && f.regs[RSP] == top && Load64(f.mem, top) == Load64(s0.mem, top)
  }

  lemma FailureExit(callee: Callee, s0: Cpu, s: Cpu, base: nat, data: nat) returns (f: Cpu)
    requires Entered(s0, base, data) && InBody(s0, s, base, data) && Leads(callee, s0, s)
    requires s.rip == base + 0x2D && s.regs[RAX] == 0
    ensures Leads(callee, s0, f) && Shows(s0, f, Returned(0)) && f.calls == s.calls
  {
    FailureDecodes(s.mem, base);
    var u := Epilogue(callee, s0, s, base, data);
    var top := s0.regs[RSP];
    f := u.(rip := Load64(s.mem, top), regs := u.regs[RSP := top + 8]);
    LeadsOn(callee, s0, u, Ret(0), 3, f);
  }

  lemma SuccessExit(callee: Callee, s0: Cpu, s: Cpu, base: nat, data: nat) returns (f: Cpu)
    requires Entered(s0, base, data) && InBody(s0, s, base, data) && Leads(callee, s0, s) && s.rip == base + 0x22
    ensures Leads(callee, s0, f) && f.calls == s.calls
    ensures Shows(s0, f, TailCall(s.regs[RAX], Load64(s.mem, data + PARAM)))
  {
    SuccessDecodes(s.mem, base);
    var u := LoadStep(callee, s0, s, RCX, RBX, PARAM, 4);
    var v := Epilogue(callee, s0, u, base, data);
    f := v.(rip := s.regs[RAX]);
    LeadsOn(callee, s0, v, Jmp(RAX), 2, f);
  }

  /** The calls the machine made are those of the pseudo-C, in order, with the same arguments, entered with the stack
      aligned to 16 bytes before the return address was pushed. */
  predicate Made(calls: seq<Call>, run: Run) {
    && |calls| == |run.calls|
    && forall i :: 0 <= i < |calls| ==>
         && calls[i].target == run.calls[i].0
         && (forall k :: 0 <= k < |run.calls[i].1| ==> k < 2 && [calls[i].rcx, calls[i].rdx][k] == run.calls[i].1[k])
         && (calls[i].rsp + 8) % 16 == 0
  }

  /** The stub refines its pseudo-C: entered anywhere, with any data and any callees that keep the calling convention,
      it makes the same calls and ends the same way, all nonvolatile registers restored. */
  lemma StubRefines(callee: Callee, s: Cpu, base: nat, data: nat) returns (f: Cpu, calls: seq<Call>,
                                                                           first: Answer, second: Answer)
    requires Entered(s, base, data) && KeepsConvention(callee, base, s.regs[RSP] - 0x30)
    ensures Leads(callee, s, f) && f.calls == s.calls + calls
    ensures Made(calls, PseudoC(data, s.mem, first, second))
    ensures Shows(s, f, PseudoC(data, s.mem, first, second).outcome)
    ensures |calls| > 0 && calls[0].answer == first && (|calls| > 1 ==> calls[1].answer == second)
  {
    var t, call := FirstHalf(callee, s, base, data);
    first := call.answer;
    if first.rax == 0 {
      f := FailureExit(callee, s, t, base, data);
      calls, second := [call], first;
    } else {
      var more;
      f, more, second := SecondHalf(callee, s, t, base, data);
      calls := [call, more];
      assert t.calls + [more] == s.calls + calls;
    }
  }

  lemma FirstHalf(callee: Callee, s: Cpu, base: nat, data: nat) returns (t: Cpu, call: Call)
    requires Entered(s, base, data) && KeepsConvention(callee, base, s.regs[RSP] - 0x30)
    ensures Leads(callee, s, t) && InBody(s, t, base, data) && t.calls == s.calls + [call]
    ensures call.answer == Answer(t.regs[RAX], t.mem) && (call.rsp + 8) % 16 == 0
    ensures call.target == Load64(s.mem, data + LOADLIB) && call.rcx == Load64(s.mem, data + PATH)
    ensures t.rip == if t.regs[RAX] == 0 then base + 0x2D else base + 0x14
  {
    var p := Prologue(callee, s, base, data);
    FirstCallDecodes(p.mem, base);
    var a := CallStep(callee, s, p, base, data, LOADLIB);
    FirstCallDecodes(a.mem, base);
    t := TestStep(callee, s, a, base, data, 0x19);
    call := a.calls[|p.calls|];
  }

  lemma SecondHalf(callee: Callee, s0: Cpu, t: Cpu, base: nat, data: nat)
    returns (f: Cpu, call: Call, second: Answer)
    requires Entered(s0, base, data) && KeepsConvention(callee, base, s0.regs[RSP] - 0x30)
    requires InBody(s0, t, base, data) && Leads(callee, s0, t) && t.rip == base + 0x14
    ensures Leads(callee, s0, f) && f.calls == t.calls + [call]
    ensures call == Call(Load64(t.mem, data + GETPROCADDR), t.regs[RAX], Load64(t.mem, data + EXP),
                         s0.regs[RSP] - 0x30, second)
    ensures Shows(s0, f, if second.rax == 0 then Returned(0)
                         else TailCall(second.rax, Load64(second.mem, data + PARAM)))
  {
    var p := SecondArguments(callee, s0, t, base, data);
    SecondCallDecodes(p.mem, base);
    var a := CallStep(callee, s0, p, base, data, GETPROCADDR);
    SecondCallDecodes(a.mem, base);
    var u := TestStep(callee, s0, a, base, data, 0x0B);
    second := Answer(a.regs[RAX], a.mem);
    call := a.calls[|p.calls|];
    if a.regs[RAX] == 0 {
      f := FailureExit(callee, s0, u, base, data);
    } else {
      f := SuccessExit(callee, s0, u, base, data);
    }
  }
}
