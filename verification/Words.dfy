/** Little-endian words and byte memory as a sequence: what the patching code and the loader image share. */
module Words {
  import opened Common

  /** Byte `i` of a word, the lowest first. */
  function Digit(v: nat, i: nat): byte
    decreases i
  {
    if i == 0 then (v % 256) as byte else Digit(v / 256, i - 1)
  }

  function ToBytes(v: nat, n: nat): (bs: seq<byte>)
    ensures |bs| == n
  {
    seq(n, i requires 0 <= i < n => Digit(v, i))
  }

  function FromBytes(bs: seq<byte>): nat {
    if bs == [] then 0 else bs[0] as nat + 256 * FromBytes(bs[1..])
  }

  function Pow256(n: nat): nat {
    if n == 0 then 1 else 256 * Pow256(n - 1)
  }

  lemma {:induction false} FromToBytes(v: nat, n: nat)
    requires v < Pow256(n)
    ensures FromBytes(ToBytes(v, n)) == v
    decreases n
  {
    if n == 0 {
    } else {
      var bs := ToBytes(v, n);
      assert bs[1..] == ToBytes(v / 256, n - 1);
      assert v / 256 < Pow256(n - 1);
      FromToBytes(v / 256, n - 1);
      assert bs[0] as nat == v % 256;
    }
  }

  /** The eight bytes of a u64. */
  function Bytes64(v: nat): (bs: seq<byte>)
    ensures |bs| == 8
  {
    ToBytes(v, 8)
  }

  lemma PowerOfEight()
    ensures Pow256(8) == TWO_TO_64
  {
    assert Pow256(2) == 0x1_0000;
    assert Pow256(4) == 0x1_0000_0000;
    assert Pow256(6) == 0x1_0000_0000_0000;
  }

  lemma FromBytes64(v: nat)
    requires v < TWO_TO_64
    ensures FromBytes(Bytes64(v)) == v
  {
    PowerOfEight();
    FromToBytes(v, 8);
  }

  lemma {:induction false} FromBytesBound(bs: seq<byte>)
    ensures FromBytes(bs) < Pow256(|bs|)
  {
    if bs == [] {
    } else {
      FromBytesBound(bs[1..]);
    }
  }

  /** Memory with `bs` written at `at`. */
  function Write(mem: seq<byte>, at: nat, bs: seq<byte>): (r: seq<byte>)
    requires at + |bs| <= |mem|
    ensures |r| == |mem|
  {
    mem[..at] + bs + mem[at + |bs|..]
  }

  lemma ReadElsewhere(mem: seq<byte>, at: nat, bs: seq<byte>, from: nat, to: nat)
    requires at + |bs| <= |mem| && from <= to <= |mem|
    requires to <= at || at + |bs| <= from
    ensures Write(mem, at, bs)[from..to] == mem[from..to]
  {}

  lemma ReadWritten(mem: seq<byte>, at: nat, bs: seq<byte>)
    requires at + |bs| <= |mem|
    ensures Write(mem, at, bs)[at..at + |bs|] == bs
  {}

  /** Writing one stretch behind the other is writing both. */
  lemma WriteAppend(mem: seq<byte>, at: nat, x: seq<byte>, y: seq<byte>)
    requires at + |x| + |y| <= |mem|
    ensures Write(Write(mem, at, x), at + |x|, y) == Write(mem, at, x + y)
  {}

  lemma WriteCommutes(mem: seq<byte>, a: nat, x: seq<byte>, b: nat, y: seq<byte>)
    requires a + |x| <= |mem| && b + |y| <= |mem| && (a + |x| <= b || b + |y| <= a)
    ensures Write(Write(mem, a, x), b, y) == Write(Write(mem, b, y), a, x)
  {}

  /** Overwriting the tail of what was written. */
  lemma WritePatch(mem: seq<byte>, at: nat, head: seq<byte>, x: seq<byte>, y: seq<byte>)
    requires |x| == |y| && at + |head| + |x| <= |mem|
    ensures Write(Write(mem, at, head + x), at + |head|, y) == Write(mem, at, head + y)
  {}

  lemma WriteNothing(mem: seq<byte>, at: nat)
    requires at <= |mem|
    ensures Write(mem, at, []) == mem
  {}

  /** memcpy into memory that holds `before`. */
  method WriteTo(mem: array<byte>, at: nat, bs: seq<byte>, ghost before: seq<byte>)
    requires at + |bs| <= mem.Length && mem[..] == before
    modifies mem
    ensures mem[..] == Write(before, at, bs)
  {
    for k := 0 to |bs|
      invariant mem[..] == Write(before, at, bs[..k])
    {
      mem[at + k] := bs[k];
      assert bs[..k + 1] == bs[..k] + [bs[k]];
    }
  }
}
