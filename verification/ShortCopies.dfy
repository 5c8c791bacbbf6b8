/** Copies that are too short (win_agent/instrumentation/function_replacement.cpp:119-166): replace_function goes
    through with fewer than a jump's worth of instructions when decoding fails, and with fewer bytes than it copied when
    re-encoding shortens an instruction. When the copy still resumes the original, and two programs for which it does
    not. */
module ShortCopies {
  import opened Common
  import opened Words
  import opened CodeBuffers
  import opened FunctionReplacement
  import opened Trampolines

  /** Function and buffer region are in memory and apart. */
  predicate Room(size: nat, fn: nat, buf: nat, copyLen: nat) {
    && fn + JMP_SIZE <= size && fn + copyLen <= size && buf + copyLen + 2 * JMP_SIZE <= size < TWO_TO_64
    && Apart(fn, fn + copyLen, buf, buf + copyLen + 2 * JMP_SIZE)
    && Apart(fn, fn + JMP_SIZE, buf, buf + copyLen + 2 * JMP_SIZE)
  }

  // ---------- Behind the copied instructions ----------

  /** The bytes between the end of the copy and the jump back are those the buffer held before, and instructions among
      them are executed as they stand, unless they read their target from patched bytes. */
  lemma GapIsStale(isa: Isa, mem: seq<byte>, fn: nat, buf: nat, code: seq<byte>, copyLen: nat, target: nat, s: State)
    requires Decodes(isa) && Room(|mem|, fn, buf, copyLen) && |code| <= copyLen
    ensures var from, to := buf + |code|, buf + copyLen;
            Patched(mem, fn, buf, code, copyLen, target)[from..to] == mem[from..to]
    ensures buf + |code| <= s.rip && Decode(isa, mem, s.rip).Some?
            && s.rip + Decode(isa, mem, s.rip).value <= buf + copyLen
            && ReadsAlike(mem, Patched(mem, fn, buf, code, copyLen, target),
                          isa.effect(mem[s.rip..s.rip + Decode(isa, mem, s.rip).value], s.rip, s.data).next) ==>
              FunctionReplacement.Step(isa, Patched(mem, fn, buf, code, copyLen, target), s)
              == FunctionReplacement.Step(isa, mem, s)
  {
    var after, back := Patched(mem, fn, buf, code, copyLen, target), buf + copyLen;
    PatchedReads(mem, fn, buf, code, copyLen, target);
    assert Elsewhere(|mem|, fn, buf, |code|, back, buf + |code|, back);
    if buf + |code| <= s.rip && Decode(isa, mem, s.rip).Some? && s.rip + Decode(isa, mem, s.rip).value <= back
       && ReadsAlike(mem, after, isa.effect(mem[s.rip..s.rip + Decode(isa, mem, s.rip).value], s.rip, s.data).next)
    {
      assert Elsewhere(|mem|, fn, buf, |code|, back, s.rip, s.rip + Decode(isa, mem, s.rip).value);
      SameStep(isa, mem, after, s);
    }
  }

  /** The jump back goes behind as many bytes of the function as the copy has. */
  lemma JumpsBack(isa: Isa, mem: seq<byte>, fn: nat, buf: nat, code: seq<byte>, copyLen: nat, target: nat, d: Data)
    requires Decodes(isa) && Jumps(isa) && Room(|mem|, fn, buf, copyLen) && |code| <= copyLen
    ensures FunctionReplacement.Step(isa, Patched(mem, fn, buf, code, copyLen, target), State(buf + copyLen, d))
            == State(fn + |code|, d)
  {
    PatchedReads(mem, fn, buf, code, copyLen, target);
    JmpStep(isa, Patched(mem, fn, buf, code, copyLen, target), buf + copyLen, fn + |code|, d);
  }

  // ---------- When the copy resumes the original ----------

  /** From the end of the copied instructions, execution comes to fn + copy_len. */
  ghost predicate Reaches(isa: Isa, after: seq<byte>, from: int, to: int) {
    forall d {:trigger Arrives(isa, after, from, to, d)} :: Arrives(isa, after, from, to, d)
  }

  ghost predicate Arrives(isa: Isa, after: seq<byte>, from: int, to: int, d: Data) {
    exists n: nat :: Steps(isa, after, State(from, d), n) == State(to, d)
  }

  /** ... and finds the function's own code there. */
  ghost predicate Resumes(isa: Isa, mem: seq<byte>, fn: nat, buf: nat, code: seq<byte>, copyLen: nat, target: nat)
    requires Room(|mem|, fn, buf, copyLen) && |code| <= copyLen
  {
    var after := Patched(mem, fn, buf, code, copyLen, target);
    && Reaches(isa, after, buf + |code|, fn + copyLen)
    && forall x {:trigger after[x]} :: fn + copyLen <= x < fn + JMP_SIZE ==> after[x] == mem[x]
  }

  /** A byte no instruction begins with, as 0x06 in 64-bit mode. */
  const INVALID: byte := 0x06

  ghost predicate Invalid(isa: Isa) {
    forall w {:trigger isa.length(w)} :: |w| > 0 && w[0] == INVALID ==> isa.length(w).None?
  }

  lemma {:induction false} Stuck(isa: Isa, mem: seq<byte>, s: State, n: nat)
    requires Decode(isa, mem, s.rip).None?
    ensures Steps(isa, mem, s, n) == s
    decreases n
  {
    if n == 0 {
    } else {
      Stuck(isa, mem, s, n - 1);
    }
  }

  lemma FullCopyResumes(isa: Isa, mem: seq<byte>, fn: nat, buf: nat, code: seq<byte>, copyLen: nat, target: nat)
    requires Decodes(isa) && Jumps(isa) && Room(|mem|, fn, buf, copyLen)
    requires |code| == copyLen && KeepsTail(mem, fn, buf, copyLen)
    ensures Resumes(isa, mem, fn, buf, code, copyLen, target)
  {
    var after, from, to := Patched(mem, fn, buf, code, copyLen, target), buf + copyLen, fn + copyLen;
    forall d ensures Arrives(isa, after, from, to, d) {
      JumpsBack(isa, mem, fn, buf, code, copyLen, target, d);
      OneStep(isa, after, State(from, d));
    }
    forall x | fn + copyLen <= x < fn + JMP_SIZE ensures after[x] == mem[x] {
      PatchBytes(mem, fn, buf, code, copyLen, target, x);
    }
  }

  lemma ShortCopyStuck(isa: Isa, mem: seq<byte>, fn: nat, buf: nat, code: seq<byte>, copyLen: nat, target: nat, d: Data)
    requires Decodes(isa) && Invalid(isa) && Room(|mem|, fn, buf, copyLen) && 0 < |code| < copyLen
    requires mem[buf + |code|] == INVALID
    ensures !Arrives(isa, Patched(mem, fn, buf, code, copyLen, target), buf + |code|, fn + copyLen, d)
  {
    var after, s := Patched(mem, fn, buf, code, copyLen, target), State(buf + |code|, d);
    GapIsStale(isa, mem, fn, buf, code, copyLen, target, s);
    assert after[buf + |code|] == after[buf + |code|..buf + copyLen][0] == mem[buf + |code|..buf + copyLen][0];
    assert Window(after, s.rip)[0] == INVALID;
    forall n: nat ensures Steps(isa, after, s, n) != State(fn + copyLen, d) {
      Stuck(isa, after, s, n);
    }
  }

  lemma PatchBytes(mem: seq<byte>, fn: nat, buf: nat, code: seq<byte>, copyLen: nat, target: nat, x: nat)
    requires Room(|mem|, fn, buf, copyLen) && |code| <= copyLen && fn <= x < fn + JMP_SIZE
    ensures Patched(mem, fn, buf, code, copyLen, target)[x] == Jmp(buf + copyLen + JMP_SIZE)[x - fn]
  {
    PatchedReads(mem, fn, buf, code, copyLen, target);
    var after := Patched(mem, fn, buf, code, copyLen, target);
    assert after[fn..fn + JMP_SIZE][x - fn] == after[x];
  }

  /** The patch changes nothing behind what was copied: what was copied is as long as a jump, or the function happens to
      have the jump's own bytes there. */
  predicate KeepsTail(mem: seq<byte>, fn: nat, buf: nat, copyLen: nat)
    requires Room(|mem|, fn, buf, copyLen)
  {
    forall x :: fn + copyLen <= x < fn + JMP_SIZE ==> mem[x] == Jmp(buf + copyLen + JMP_SIZE)[x - fn]
  }

  /** The same memory up to what the buffer region held before. */
  predicate SameOutside(mem: seq<byte>, other: seq<byte>, buf: nat, copyLen: nat) {
    && |other| == |mem|
    && forall x :: 0 <= x < |mem| && !(buf <= x < buf + copyLen + 2 * JMP_SIZE) ==> other[x] == mem[x]
  }

  /** The copy of a function resumes the original whatever the buffer held before, if and only if re-encoding kept the
      length and the patch keeps what follows the copied instructions. */
  lemma ResumesExactly(isa: Isa, mem: seq<byte>, fn: nat, buf: nat, code: seq<byte>, copyLen: nat, target: nat)
    requires Decodes(isa) && Jumps(isa) && Invalid(isa) && Room(|mem|, fn, buf, copyLen)
    requires |code| <= copyLen && (copyLen > 0 ==> |code| > 0)
    ensures (forall other {:trigger Resumes(isa, other, fn, buf, code, copyLen, target)} ::
               SameOutside(mem, other, buf, copyLen) ==> Resumes(isa, other, fn, buf, code, copyLen, target))
            <==> |code| == copyLen && KeepsTail(mem, fn, buf, copyLen)
    ensures JMP_SIZE <= copyLen ==> KeepsTail(mem, fn, buf, copyLen)
  {
    if |code| == copyLen && KeepsTail(mem, fn, buf, copyLen) {
      forall other | SameOutside(mem, other, buf, copyLen)
        ensures Resumes(isa, other, fn, buf, code, copyLen, target)
      {
        FullCopyResumes(isa, other, fn, buf, code, copyLen, target);
      }
    } else {
      AdverseBuffer(isa, mem, fn, buf, code, copyLen, target);
    }
  }

  /** Memory that decides against any other copy: a byte no instruction begins with behind the copied instructions. */
  lemma AdverseBuffer(isa: Isa, mem: seq<byte>, fn: nat, buf: nat, code: seq<byte>, copyLen: nat, target: nat)
    requires Decodes(isa) && Invalid(isa) && Room(|mem|, fn, buf, copyLen)
    requires |code| <= copyLen && (copyLen > 0 ==> |code| > 0)
    requires |code| < copyLen || !KeepsTail(mem, fn, buf, copyLen)
    ensures exists other {:trigger Resumes(isa, other, fn, buf, code, copyLen, target)} ::
              SameOutside(mem, other, buf, copyLen) && !Resumes(isa, other, fn, buf, code, copyLen, target)
  {
    var other := if |code| < copyLen then mem[buf + |code| := INVALID] else mem;
    if |code| < copyLen {
      ShortCopyStuck(isa, other, fn, buf, code, copyLen, target, map[]);
    } else {
      var x :| fn + copyLen <= x < fn + JMP_SIZE && mem[x] != Jmp(buf + copyLen + JMP_SIZE)[x - fn];
      PatchBytes(mem, fn, buf, code, copyLen, target, x);
      var after := Patched(mem, fn, buf, code, copyLen, target);
      assert after[x] != mem[x];
    }
    assert !Resumes(isa, other, fn, buf, code, copyLen, target);
  }

  // ---------- Two programs that lose their meaning ----------

  /** A small instruction set: the indirect jump; 0x0F, a no-operation of 15 bytes that re-encodes as one of a single
      byte; the invalid byte; 0xEB, a jump to itself; 0x00, which sets a cell; and no-operations of one byte. */
  function ToyLength(v: seq<byte>): Option<nat> {
    if v == [] || v[0] == INVALID then None
    else if v[0] == 0xFF then if IndirectJump(v) then Some(6) else None
    else if v[0] == 0x0F then Some(MAX_INSTRUCTION)
    else Some(1)
  }

  function ToyEffect(code: seq<byte>, at: int, d: Data): Effect {
    if |code| == 6 && IndirectJump(code) then Effect(Through(at + 6 + Displacement(code[2..6])), d)
    else if code != [] && code[0] == 0xEB then Effect(Goto(at), d)
    else if code != [] && code[0] == 0x00 then Effect(Fall, d[0 := 1])
    else Effect(Fall, d)
  }

  function ToyEncode(code: seq<byte>, at: int): Option<seq<byte>> {
    if code != [] && code[0] == 0x0F then Some([0x90]) else Some(code)
  }

  function Toy(): Isa {
    Isa(ToyLength, ToyEffect, code => true, ToyEncode)
  }

  lemma ToyKeepsContracts()
    ensures Decodes(Toy()) && Jumps(Toy()) && Invalid(Toy())
  {
    forall v, w | SameHead(Toy(), v, w) ensures ToyLength(w) == ToyLength(v) {
      var n := ToyLength(v).value;
      assert v[0] == v[..n][0] == w[..n][0] == w[0];
      if v[0] == 0xFF {
        assert v[1] == v[..n][1] == w[..n][1] == w[1];
      }
    }
  }

  /** A one-byte instruction of the toy set continues a run. */
  lemma ToyNext(mem: seq<byte>, s: State, n: nat, ip: nat, d: Data)
    requires ip < |mem| && mem[ip] !in {0xFF, 0x0F, INVALID} && Steps(Toy(), mem, s, n) == State(ip, d)
    ensures Steps(Toy(), mem, s, n + 1)
            == if mem[ip] == 0xEB then State(ip, d) else State(ip + 1, if mem[ip] == 0 then d[0 := 1] else d)
  {
    ToyKeepsContracts();
    CodeStep(Toy(), mem, ip, [mem[ip]], d);
    StepsSnoc(Toy(), mem, s, n + 1);
  }

  lemma ToyJmpNext(mem: seq<byte>, s: State, n: nat, ip: nat, target: nat, d: Data)
    requires ip + JMP_SIZE <= |mem| && target < TWO_TO_64 && mem[ip..ip + JMP_SIZE] == Jmp(target)
    requires Steps(Toy(), mem, s, n) == State(ip, d)
    ensures Steps(Toy(), mem, s, n + 1) == State(target, d)
  {
    ToyKeepsContracts();
    JmpStep(Toy(), mem, ip, target, d);
    StepsSnoc(Toy(), mem, s, n + 1);
  }

  /** The original program never changes its data; the patched one, from the same state, does. */
  ghost predicate LosesMeaning(mem: seq<byte>, after: seq<byte>, fn: int, n: nat, d: Data) {
    && (forall i: nat {:trigger DataAfter(mem, fn, d, i)} :: DataAfter(mem, fn, d, i) == d)
    && DataAfter(after, fn, d, n) == d[0 := 1] != d
  }

  function DataAfter(mem: seq<byte>, fn: int, d: Data, i: nat): Data {
    Steps(Toy(), mem, State(fn, d), i).data
  }

  /** A function of one 15-byte instruction at 0, followed by a jump to itself, and an empty buffer at 16. */
  function LongNop(): (mem: seq<byte>)
    ensures |mem| == 59 && mem[0] == 0x0F && mem[15] == 0xEB && mem[17] == 0
  {
    seq(59, x => if x == 0 then 0x0F as byte else if x == 15 then 0xEB else 0)
  }

  lemma SumOne(n: nat)
    ensures [n][..0] == [] && [n][..1] == [n] && Sum([n]) == n
  {
    SumCons(n, []);
    assert [n] + [] == [n];
  }

  /** One instruction is taken and re-encoded as a no-operation. */
  lemma OneTaken(mem: seq<byte>, n: nat, buf: nat)
    requires Decode(Toy(), mem, 0) == Some(n) && (n >= JMP_SIZE || Decode(Toy(), mem, n).None?)
    requires ToyEncode(mem[0..n], buf) == Some([0x90])
    ensures Scan(Toy(), mem, 0, 0) == Some([n]) && Sum([n]) == n
    ensures Relocate(Toy(), mem, 0, [n], 0, buf, 0) == Some([[0x90]])
  {
    SumOne(n);
    assert Scan(Toy(), mem, 0, n) == Some([]);
    assert [n] + [] == [n] && [[0x90 as byte]] + [] == [[0x90]];
    assert Original(mem, 0, [n], 0) == mem[0..n];
    assert Relocate(Toy(), mem, 0, [n], 1, buf, 1) == Some([]);
  }

  lemma {:induction false} LongNopRuns(d: Data, n: nat)
    ensures n > 0 ==> Steps(Toy(), LongNop(), State(0, d), n) == State(15, d)
    ensures DataAfter(LongNop(), 0, d, n) == d
    decreases n
  {
    var mem := LongNop();
    if n == 0 {
    } else if n == 1 {
      ToyKeepsContracts();
      CodeStep(Toy(), mem, 0, mem[0..15], d);
      OneStep(Toy(), mem, State(0, d));
    } else {
      LongNopRuns(d, n - 1);
      ToyNext(mem, State(0, d), n - 1, 15, d);
    }
  }

  /** Re-encoding shortens the function's one instruction to a byte. What the buffer held behind it, here zeros, runs as
      code before the jump back is ever reached. */
  lemma ShortEncodingLosesMeaning(d: Data)
    requires 0 in d ==> d[0] != 1
    ensures Scan(Toy(), LongNop(), 0, 0) == Some([15]) && Sum([15]) == 15
    ensures Relocate(Toy(), LongNop(), 0, [15], 0, 16, 0) == Some([[0x90]])
    ensures LosesMeaning(LongNop(), Patched(LongNop(), 0, 16, [0x90], 15, 16), 0, 4, d)
  {
    var mem := LongNop();
    assert Decode(Toy(), mem, 0) == Some(15) && mem[0..15][0] == 0x0F;
    OneTaken(mem, 15, 16);
    var after := Patched(mem, 0, 16, [0x90], 15, 16);
    forall i: nat ensures DataAfter(mem, 0, d, i) == d {
      LongNopRuns(d, i);
    }
    LongNopAfter(after, d);
  }

  lemma LongNopBytes(after: seq<byte>)
    requires after == Patched(LongNop(), 0, 16, [0x90], 15, 16)
    ensures |after| == 59 && after[0..14] == Jmp(45) && after[45..59] == Jmp(16) && after[16] == 0x90 && after[17] == 0
  {
    PatchedReads(LongNop(), 0, 16, [0x90], 15, 16);
    assert Elsewhere(59, 0, 16, 1, 31, 17, 18);
    assert after[16..17][0] == 0x90 && after[17..18][0] == LongNop()[17..18][0];
  }

  /** The patched program: two jumps, the copied byte, and the first byte behind it. */
  lemma LongNopAfter(after: seq<byte>, d: Data)
    requires after == Patched(LongNop(), 0, 16, [0x90], 15, 16)
    ensures DataAfter(after, 0, d, 4) == d[0 := 1]
  {
    LongNopBytes(after);
    var s := State(0, d);
    ToyJmpNext(after, s, 0, 0, 45, d);
    ToyJmpNext(after, s, 1, 45, 16, d);
    ToyNext(after, s, 2, 16, d);
    ToyNext(after, s, 3, 17, d);
  }

  /** A function whose second byte does not decode, and a buffer at 14. */
  function ShortScan(): (mem: seq<byte>)
    ensures |mem| == 43 && mem[0] == 0x90 && mem[1] == INVALID
  {
    seq(43, x => if x == 0 then 0x90 as byte else if x == 1 then INVALID else 0)
  }

  lemma ShortScanRuns(d: Data, n: nat)
    ensures DataAfter(ShortScan(), 0, d, n) == d
  {
    var mem, s := ShortScan(), State(0, d);
    ToyNext(mem, s, 0, 0, d);
    assert Decode(Toy(), mem, 1) == None;
    if n == 0 {
    } else {
      Stuck(Toy(), mem, State(1, d), n - 1);
      StepsAdd(Toy(), mem, s, 1, n - 1);
    }
  }

  /** Decoding stops after one byte, and the function is patched all the same. The original cannot go on behind that
      byte; the copy jumps back into the patch and goes on there. */
  lemma ShortScanLosesMeaning(d: Data)
    requires 0 in d ==> d[0] != 1
    ensures Scan(Toy(), ShortScan(), 0, 0) == Some([1]) && Sum([1]) == 1
    ensures Relocate(Toy(), ShortScan(), 0, [1], 0, 14, 0) == Some([[0x90]])
    ensures LosesMeaning(ShortScan(), Patched(ShortScan(), 0, 14, [0x90], 1, 14), 0, 6, d)
  {
    var mem := ShortScan();
    assert Decode(Toy(), mem, 0) == Some(1) && Decode(Toy(), mem, 1) == None && mem[0..1] == [0x90];
    OneTaken(mem, 1, 14);
    var after := Patched(mem, 0, 14, [0x90], 1, 14);
    forall i: nat ensures DataAfter(mem, 0, d, i) == d {
      ShortScanRuns(d, i);
    }
    ShortScanAfter(after, d);
  }

  lemma ShortScanBytes(after: seq<byte>)
    requires after == Patched(ShortScan(), 0, 14, [0x90], 1, 14)
    ensures |after| == 43 && after[0..14] == Jmp(29) && after[29..43] == Jmp(14) && after[15..29] == Jmp(1)
    ensures after[14] == 0x90 && after[1] == 0x25 && after[2] == 0
  {
    PatchedReads(ShortScan(), 0, 14, [0x90], 1, 14);
    assert after[14..15][0] == 0x90;
    assert after[0..14][1] == JMP_PREFIX[1] && after[0..14][2] == JMP_PREFIX[2];
  }

  /** The patched program: two jumps, the copied byte, the jump back, and the second and third byte of the patch. */
  lemma ShortScanAfter(after: seq<byte>, d: Data)
    requires after == Patched(ShortScan(), 0, 14, [0x90], 1, 14)
    ensures DataAfter(after, 0, d, 6) == d[0 := 1]
  {
    ShortScanBytes(after);
    var s := State(0, d);
    ToyJmpNext(after, s, 0, 0, 29, d);
    ToyJmpNext(after, s, 1, 29, 14, d);
    ToyNext(after, s, 2, 14, d);
    ToyJmpNext(after, s, 3, 15, 1, d);
    ToyNext(after, s, 4, 1, d);
    ToyNext(after, s, 5, 2, d);
  }
}
