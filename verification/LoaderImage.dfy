/** The byte image the installer writes into the target: stub, LoadData and three strings
    (ParameterizedAgentLoadSettings::load, win_agent/installer/main.cpp:97-139). */
module LoaderImage {
  import opened Common
  import opened Words
  import opened LoaderStub

  const TWO_TO_32: nat := 0x1_0000_0000

  /** A C string without its terminator. */
  predicate NoNul(s: seq<byte>) {
    forall i :: 0 <= i < |s| ==> s[i] != 0
  }

  /** Where the strings begin. Offsets are kept in u32 variables (ImageConsistent says what that costs). */
  function PathOffset(): nat {
    STUB_SIZE + LOAD_DATA_SIZE
  }

  function ExportOffset(path: seq<byte>): nat {
    PathOffset() + |path| + 1
  }

  function ParamOffset(path: seq<byte>, exp: seq<byte>): nat {
    ExportOffset(path) + |exp| + 1
  }

  function Strings(path: seq<byte>, exp: seq<byte>, param: seq<byte>): seq<byte> {
    path + [0] + exp + [0] + param + [0]
  }

  function Field(bytes: seq<byte>, field: nat): nat
    requires STUB_SIZE + field + 8 <= |bytes|
  {
    FromBytes(bytes[STUB_SIZE + field..STUB_SIZE + field + 8])
  }

  /** The image: consecutive regions for stub, LoadData and strings, and the five fields. */
  ghost predicate Image(bytes: seq<byte>, path: seq<byte>, exp: seq<byte>, param: seq<byte>,
                        base: nat, loadlib: nat, getprocaddr: nat) {
    && |bytes| == PathOffset() + |path| + |exp| + |param| + 3
    && bytes[..STUB_SIZE] == STUB
    && bytes[PathOffset()..] == Strings(path, exp, param)
    && Field(bytes, LOADLIB) == loadlib && Field(bytes, GETPROCADDR) == getprocaddr
    && Field(bytes, PATH) == base + PathOffset() % TWO_TO_32
    && Field(bytes, EXP) == base + ExportOffset(path) % TWO_TO_32
    && Field(bytes, PARAM) == base + ParamOffset(path, exp) % TWO_TO_32
  }

  lemma StubLength()
    ensures |STUB| == STUB_SIZE
  {}

  /** Setting a field leaves the stub, the strings and the other fields alone. */
  lemma SetField(bytes: seq<byte>, field: nat, v: nat, r: seq<byte>)
    requires PathOffset() <= |bytes| && field in {EXP, PARAM, PATH, LOADLIB, GETPROCADDR} && v < TWO_TO_64
    requires r == Write(bytes, STUB_SIZE + field, Bytes64(v))
    ensures r[..STUB_SIZE] == bytes[..STUB_SIZE] && r[PathOffset()..] == bytes[PathOffset()..]
    ensures Field(r, field) == v
    ensures forall other :: other in {EXP, PARAM, PATH, LOADLIB, GETPROCADDR} && other != field ==>
              Field(r, other) == Field(bytes, other)
  {
    FromBytes64(v);
    ReadWritten(bytes, STUB_SIZE + field, Bytes64(v));
    ReadElsewhere(bytes, STUB_SIZE + field, Bytes64(v), 0, STUB_SIZE);
    ReadElsewhere(bytes, STUB_SIZE + field, Bytes64(v), PathOffset(), |bytes|);
    assert r[PathOffset()..] == r[PathOffset()..|r|] && bytes[PathOffset()..] == bytes[PathOffset()..|bytes|];
    forall other | other in {EXP, PARAM, PATH, LOADLIB, GETPROCADDR} && other != field
      ensures Field(r, other) == Field(bytes, other)
    {
      ReadElsewhere(bytes, STUB_SIZE + field, Bytes64(v), STUB_SIZE + other, STUB_SIZE + other + 8);
    }
  }

  /** The part of load that builds the image, `base` being the address the target's memory was allocated at. */
  method Pack(path: seq<byte>, exp: seq<byte>, param: seq<byte>, base: nat, loadlib: nat, getprocaddr: nat)
    returns (bytes: seq<byte>)
    requires base + PathOffset() + |path| + |exp| + |param| + 3 <= TWO_TO_64
    requires loadlib < TWO_TO_64 && getprocaddr < TWO_TO_64
    ensures Image(bytes, path, exp, param, base, loadlib, getprocaddr)
    ensures |bytes| == 93 + |path| + |exp| + |param| + 3 && bytes[93..] == path + [0] + exp + [0] + param + [0]
    ensures FromBytes(bytes[53..61]) == base + (94 + |path|) % 0x1_0000_0000
    ensures FromBytes(bytes[61..69]) == base + (95 + |path| + |exp|) % 0x1_0000_0000
    ensures FromBytes(bytes[69..77]) == base + 93
    ensures FromBytes(bytes[77..85]) == loadlib && FromBytes(bytes[85..93]) == getprocaddr
  {
    StubLength();
    bytes := STUB;
    var offsStruct := |bytes| % TWO_TO_32;
    bytes := bytes + seq(LOAD_DATA_SIZE, i => 0);
    ghost var head := bytes;
    var offsPath := |bytes| % TWO_TO_32;
    bytes := bytes + path + [0];
    var offsExport := |bytes| % TWO_TO_32;
    bytes := bytes + exp + [0];
    var offsParam := |bytes| % TWO_TO_32;
    bytes := bytes + param + [0];
    Behind(head, path, exp, param);
    bytes := WriteStruct(bytes, offsStruct, base, offsPath, offsExport, offsParam, loadlib, getprocaddr);
  }

  lemma Behind(head: seq<byte>, path: seq<byte>, exp: seq<byte>, param: seq<byte>)
    requires |head| == PathOffset() && head[..STUB_SIZE] == STUB
    ensures var bytes := head + path + [0] + exp + [0] + param + [0];
            bytes[..STUB_SIZE] == STUB && bytes[PathOffset()..] == Strings(path, exp, param)
  {
    assert head + path + [0] + exp + [0] + param + [0] == head + Strings(path, exp, param);
  }

  /** The five assignments to the struct in place. */
  method WriteStruct(image: seq<byte>, offsStruct: nat, base: nat, offsPath: nat, offsExport: nat, offsParam: nat,
                     loadlib: nat, getprocaddr: nat) returns (bytes: seq<byte>)
    requires offsStruct == STUB_SIZE && PathOffset() <= |image|
    requires loadlib < TWO_TO_64 && getprocaddr < TWO_TO_64
    requires base + offsPath < TWO_TO_64 && base + offsExport < TWO_TO_64 && base + offsParam < TWO_TO_64
    ensures |bytes| == |image| && bytes[..STUB_SIZE] == image[..STUB_SIZE]
    ensures bytes[PathOffset()..] == image[PathOffset()..]
    ensures Field(bytes, LOADLIB) == loadlib && Field(bytes, GETPROCADDR) == getprocaddr
    ensures Field(bytes, PATH) == base + offsPath && Field(bytes, EXP) == base + offsExport
    ensures Field(bytes, PARAM) == base + offsParam
  {
    bytes := SetFieldTo(image, LOADLIB, loadlib);
    bytes := SetFieldTo(bytes, GETPROCADDR, getprocaddr);
    bytes := SetFieldTo(bytes, PATH, base + offsPath);
    bytes := SetFieldTo(bytes, EXP, base + offsExport);
    bytes := SetFieldTo(bytes, PARAM, base + offsParam);
  }

  method SetFieldTo(image: seq<byte>, field: nat, v: nat) returns (bytes: seq<byte>)
    requires PathOffset() <= |image| && field in {EXP, PARAM, PATH, LOADLIB, GETPROCADDR} && v < TWO_TO_64
    ensures |bytes| == |image|
    ensures bytes[..STUB_SIZE] == image[..STUB_SIZE] && bytes[PathOffset()..] == image[PathOffset()..]
    ensures Field(bytes, field) == v
    ensures forall other :: other in {EXP, PARAM, PATH, LOADLIB, GETPROCADDR} && other != field ==>
              Field(bytes, other) == Field(image, other)
  {
    bytes := Write(image, STUB_SIZE + field, Bytes64(v));
    SetField(image, field, v, bytes);
  }

  // ---------- Reading the image back ----------

  ghost predicate Loaded(mem: Memory, base: nat, bytes: seq<byte>) {
    forall i :: 0 <= i < |bytes| ==> mem(base + i) == bytes[i]
  }

  /** The NUL-terminated string at `p` is `s`. */
  ghost predicate StringAt(mem: Memory, p: int, s: seq<byte>) {
    NoNul(s) && mem(p + |s|) == 0 && forall i :: 0 <= i < |s| ==> mem(p + i) == s[i]
  }

  function ByteAt(mem: Memory, p: int, i: int): byte {
    mem(p + i)
  }

  /** A string ends at the first NUL, so no other string there is longer. */
  lemma NotLonger(mem: Memory, p: int, s: seq<byte>, t: seq<byte>)
    requires StringAt(mem, p, s) && StringAt(mem, p, t)
    ensures |t| <= |s|
  {
    forall i | 0 <= i < |t| ensures ByteAt(mem, p, i) != 0 {
      assert mem(p + i) == t[i];
    }
    assert ByteAt(mem, p, |s|) == 0;
  }

  /** It cannot be another one as well. */
  lemma StringAtUnique(mem: Memory, p: int, s: seq<byte>, t: seq<byte>)
    requires StringAt(mem, p, s) && StringAt(mem, p, t)
    ensures s == t
  {
    NotLonger(mem, p, s, t);
    NotLonger(mem, p, t, s);
  }

  lemma LoadedField(mem: Memory, base: nat, bytes: seq<byte>, field: nat)
    requires Loaded(mem, base, bytes) && STUB_SIZE + field + 8 <= |bytes|
    ensures Load64(mem, base + STUB_SIZE + field) == Field(bytes, field)
  {
    var at := base + STUB_SIZE + field;
    var stored := bytes[STUB_SIZE + field..STUB_SIZE + field + 8];
    forall i | 0 <= i < 8 ensures mem(at + i) == stored[i] {
      assert mem(base + (STUB_SIZE + field + i)) == bytes[STUB_SIZE + field + i];
    }
    assert seq(8, i => mem(at + i)) == stored;
  }

  lemma LoadedString(mem: Memory, base: nat, bytes: seq<byte>, at: nat, s: seq<byte>)
    requires Loaded(mem, base, bytes) && NoNul(s) && at + |s| < |bytes|
    requires bytes[at..at + |s|] == s && bytes[at + |s|] == 0
    ensures StringAt(mem, base + at, s)
  {
    forall i | 0 <= i < |s| ensures mem(base + at + i) == s[i] {
      assert mem(base + (at + i)) == bytes[at + i] == bytes[at..at + |s|][i];
    }
    assert mem(base + (at + |s|)) == 0;
  }

  lemma ImageStrings(bytes: seq<byte>, path: seq<byte>, exp: seq<byte>, param: seq<byte>,
                     base: nat, loadlib: nat, getprocaddr: nat, mem: Memory)
    requires Image(bytes, path, exp, param, base, loadlib, getprocaddr) && Loaded(mem, base, bytes)
    requires NoNul(path) && NoNul(exp) && NoNul(param)
    ensures StringAt(mem, base + PathOffset(), path)
    ensures StringAt(mem, base + ExportOffset(path), exp)
    ensures StringAt(mem, base + ParamOffset(path, exp), param)
  {
    var all := Strings(path, exp, param);
    StringsParts(path, exp, param);
    LoadedPart(mem, base, bytes, all, 0, path);
    LoadedPart(mem, base, bytes, all, |path| + 1, exp);
    LoadedPart(mem, base, bytes, all, |path| + 1 + |exp| + 1, param);
  }

  lemma StringsParts(path: seq<byte>, exp: seq<byte>, param: seq<byte>)
    ensures var all, e, p := Strings(path, exp, param), |path| + 1, |path| + 1 + |exp| + 1;
            && all[..|path|] == path && all[|path|] == 0
            && all[e..e + |exp|] == exp && all[e + |exp|] == 0
            && all[p..p + |param|] == param && all[p + |param|] == 0
  {}

  lemma LoadedPart(mem: Memory, base: nat, bytes: seq<byte>, all: seq<byte>, off: nat, s: seq<byte>)
    requires Loaded(mem, base, bytes) && NoNul(s) && PathOffset() <= |bytes| && bytes[PathOffset()..] == all
    requires off + |s| < |all| && all[off..off + |s|] == s && all[off + |s|] == 0
    ensures StringAt(mem, base + PathOffset() + off, s)
  {
    assert bytes[PathOffset()..][off..off + |s|] == bytes[PathOffset() + off..PathOffset() + off + |s|];
    assert bytes[PathOffset()..][off + |s|] == bytes[PathOffset() + off + |s|];
    LoadedString(mem, base, bytes, PathOffset() + off, s);
  }

  lemma LoadedStub(bytes: seq<byte>, base: nat, mem: Memory)
    requires STUB_SIZE <= |bytes| && bytes[..STUB_SIZE] == STUB && Loaded(mem, base, bytes)
    ensures CodeAt(mem, base)
  {
    forall k | 0 <= k < STUB_SIZE ensures StubByte(mem, base, k) {
      assert mem(base + k) == bytes[k] == bytes[..STUB_SIZE][k];
    }
  }

  lemma LoadedFields(bytes: seq<byte>, base: nat, mem: Memory)
    requires PathOffset() <= |bytes| && Loaded(mem, base, bytes)
    ensures forall field :: field in {EXP, PARAM, PATH, LOADLIB, GETPROCADDR} ==>
              Load64(mem, base + STUB_SIZE + field) == Field(bytes, field)
  {
    forall field | field in {EXP, PARAM, PATH, LOADLIB, GETPROCADDR}
      ensures Load64(mem, base + STUB_SIZE + field) == Field(bytes, field)
    {
      LoadedField(mem, base, bytes, field);
    }
  }

  /** Where a pointer leads that was computed with a 32-bit offset: to `p` if and only if the offset is below 2^32. */
  predicate Leads32(pointer: int, base: nat, offset: nat) {
    pointer == base + offset <==> offset < TWO_TO_32
  }

  lemma OffsetIs(base: nat, offset: nat)
    ensures Leads32(base + offset % TWO_TO_32, base, offset)
    ensures offset < TWO_TO_32 ==> offset % TWO_TO_32 == offset
  {}

  /** Loaded at any address, the image is the stub with a LoadData behind it. The path pointer always leads to the path;
      the other two lead to their strings' places exactly when the image before them is shorter than 4 GiB. */
  lemma ImageConsistent(bytes: seq<byte>, path: seq<byte>, exp: seq<byte>, param: seq<byte>,
                        base: nat, loadlib: nat, getprocaddr: nat, mem: Memory)
    requires Image(bytes, path, exp, param, base, loadlib, getprocaddr) && Loaded(mem, base, bytes)
    requires NoNul(path) && NoNul(exp) && NoNul(param)
    ensures CodeAt(mem, base)
    ensures var data := base + STUB_SIZE;
            && Load64(mem, data + LOADLIB) == loadlib && Load64(mem, data + GETPROCADDR) == getprocaddr
            && StringAt(mem, Load64(mem, data + PATH), path)
            && Leads32(Load64(mem, data + EXP), base, ExportOffset(path))
            && (ExportOffset(path) < TWO_TO_32 ==> StringAt(mem, Load64(mem, data + EXP), exp))
            && Leads32(Load64(mem, data + PARAM), base, ParamOffset(path, exp))
            && (ParamOffset(path, exp) < TWO_TO_32 ==> StringAt(mem, Load64(mem, data + PARAM), param))
  {
    ImageStrings(bytes, path, exp, param, base, loadlib, getprocaddr, mem);
    LoadedStub(bytes, base, mem);
    LoadedFields(bytes, base, mem);
    OffsetIs(base, ExportOffset(path));
    OffsetIs(base, ParamOffset(path, exp));
  }

  /** Stub and image together: the remote thread's first call is the loader on the given path. If the callees leave the
      image alone and it is shorter than 4 GiB, the second looks up the given export in what the first returned, and the
      stub ends in a tail call of what that found, on the given parameter. At the first answer of 0 it returns 0. */
  lemma InjectedThread(callee: Callee, s: Cpu, bytes: seq<byte>, path: seq<byte>, exp: seq<byte>, param: seq<byte>,
                       base: nat, loadlib: nat, getprocaddr: nat)
    returns (f: Cpu, calls: seq<Call>)
    requires Image(bytes, path, exp, param, base, loadlib, getprocaddr) && Loaded(s.mem, base, bytes)
    requires NoNul(path) && NoNul(exp) && NoNul(param)
    requires Entered(s, base, base + STUB_SIZE) && KeepsConvention(callee, base, s.regs[RSP] - 0x30)
    ensures Leads(callee, s, f) && f.calls == s.calls + calls && 1 <= |calls| <= 2 && Restored(s, f)
    ensures calls[0].target == loadlib && StringAt(s.mem, calls[0].rcx, path)
    ensures |calls| == 2 <==> calls[0].answer.rax != 0
    ensures calls[|calls| - 1].answer.rax == 0 ==> Shows(s, f, Returned(0))
    ensures |calls| == 2 && ParamOffset(path, exp) < TWO_TO_32
            && Loaded(calls[0].answer.mem, base, bytes) && Loaded(calls[1].answer.mem, base, bytes) ==>
              && calls[1].target == getprocaddr && calls[1].rcx == calls[0].answer.rax
              && StringAt(calls[0].answer.mem, calls[1].rdx, exp)
              && (calls[1].answer.rax != 0 ==>
                    f.rip == calls[1].answer.rax && StringAt(calls[1].answer.mem, f.regs[RCX], param))
  {
    ImageConsistent(bytes, path, exp, param, base, loadlib, getprocaddr, s.mem);
    var first, second;
    f, calls, first, second := StubRefines(callee, s, base, base + STUB_SIZE);
    MadeArguments(calls, PseudoC(base + STUB_SIZE, s.mem, first, second));
    if |calls| == 2 && Loaded(first.mem, base, bytes) && Loaded(second.mem, base, bytes) {
      ImageConsistent(bytes, path, exp, param, base, loadlib, getprocaddr, first.mem);
      ImageConsistent(bytes, path, exp, param, base, loadlib, getprocaddr, second.mem);
    }
  }

  /** What Made says of the registers. */
  lemma MadeArguments(calls: seq<Call>, run: Run)
    requires Made(calls, run)
    ensures forall i :: 0 <= i < |calls| && |run.calls[i].1| >= 1 ==> calls[i].rcx == run.calls[i].1[0]
    ensures forall i :: 0 <= i < |calls| && |run.calls[i].1| >= 2 ==> calls[i].rdx == run.calls[i].1[1]
  {
    forall i | 0 <= i < |calls| && |run.calls[i].1| >= 1 ensures calls[i].rcx == run.calls[i].1[0] {
      assert [calls[i].rcx, calls[i].rdx][0] == run.calls[i].1[0];
    }
    forall i | 0 <= i < |calls| && |run.calls[i].1| >= 2 ensures calls[i].rdx == run.calls[i].1[1] {
      assert [calls[i].rcx, calls[i].rdx][1] == run.calls[i].1[1];
    }
  }
}
