/** The bump allocator for trampolines (win_agent/instrumentation/function_replacement.cpp:23-72). It returns the offset
    after adding the size. */
module CodeBuffers {
  import opened Blocks

  const BUFFER_SIZE: nat := 0x8000

  /** What reserve_aligned makes of a size: the next multiple of the alignment, and never the size itself, even when it
      is one already. */
  function Padded(size: nat, align: nat): (r: nat)
    requires align > 0
    ensures r == (size / align + 1) * align && size < r <= size + align
  {
    size + (align - size % align)
  }

  function Sum(sizes: seq<nat>): nat {
    if sizes == [] then 0 else Sum(sizes[..|sizes| - 1]) + sizes[|sizes| - 1]
  }

  /** The memory the k-th reservation hands out: it begins only after its own size. */
  function Region(mem: nat, sizes: seq<nat>, k: nat): Block
    requires k < |sizes|
  {
    var start := mem + Sum(sizes[..k + 1]);
    Block(start, start + sizes[k])
  }

  predicate PairwiseDisjoint(mem: nat, sizes: seq<nat>) {
    forall i, j :: 0 <= i < j < |sizes| ==> !Region(mem, sizes, i).Overlaps(Region(mem, sizes, j))
  }

  ghost predicate NonDecreasing(sizes: seq<nat>) {
    forall i, j :: 0 <= i < j < |sizes| && j == i + 1 ==> sizes[i] <= sizes[j]
  }

  lemma RegionStep(mem: nat, sizes: seq<nat>, k: nat)
    requires k + 1 < |sizes|
    ensures Region(mem, sizes, k + 1).start == Region(mem, sizes, k).start + sizes[k + 1]
  {
    assert sizes[..k + 2][..k + 1] == sizes[..k + 1];
  }

  lemma {:induction false} LaterStart(mem: nat, sizes: seq<nat>, i: nat, j: nat)
    requires i <= j < |sizes|
    ensures Region(mem, sizes, i).start <= Region(mem, sizes, j).start
    decreases j
  {
    if i < j {
      LaterStart(mem, sizes, i, j - 1);
      RegionStep(mem, sizes, j - 1);
    }
  }

  /** Consecutive reservations are disjoint exactly when the later size is not smaller. */
  lemma ConsecutiveDisjoint(mem: nat, sizes: seq<nat>, k: nat)
    requires k + 1 < |sizes| && sizes[k] > 0 && sizes[k + 1] > 0
    ensures !Region(mem, sizes, k).Overlaps(Region(mem, sizes, k + 1)) <==> sizes[k] <= sizes[k + 1]
  {
    RegionStep(mem, sizes, k);
  }

  /** All reservations are pairwise disjoint exactly when their sizes never decrease. */
  lemma DisjointIffNonDecreasing(mem: nat, sizes: seq<nat>)
    requires forall k :: 0 <= k < |sizes| ==> sizes[k] > 0
    ensures PairwiseDisjoint(mem, sizes) <==> NonDecreasing(sizes)
  {
    if PairwiseDisjoint(mem, sizes) {
      forall i, j | 0 <= i < j < |sizes| && j == i + 1 ensures sizes[i] <= sizes[j] {
        ConsecutiveDisjoint(mem, sizes, i);
      }
    }
    if NonDecreasing(sizes) {
      forall i, j | 0 <= i < j < |sizes| ensures !Region(mem, sizes, i).Overlaps(Region(mem, sizes, j)) {
        var next := i + 1;
        assert sizes[i] <= sizes[next];
        RegionStep(mem, sizes, i);
        LaterStart(mem, sizes, i + 1, j);
      }
    }
  }

  lemma {:induction false} SumOf64(sizes: seq<nat>)
    requires forall k :: 0 <= k < |sizes| ==> sizes[k] == 64
    ensures Sum(sizes) == 64 * |sizes|
  {
    if sizes == [] {
    } else {
      SumOf64(sizes[..|sizes| - 1]);
    }
  }

  lemma PaddedTrampoline(size: nat)
    requires 28 <= size <= 56
    ensures Padded(size, 64) == 64
  {}

  /** Trampolines, 28 to 56 bytes each, all take 64: they never overlap, and the k-th (from 0) lies in the buffer
      exactly when k < 511. Nothing stops the 512th from being written behind the buffer. */
  lemma TrampolinesFit(mem: nat, requests: seq<nat>, k: nat)
    requires k < |requests| && forall i :: 0 <= i < |requests| ==> 28 <= requests[i] <= 56
    ensures var sizes := seq(|requests|, i requires 0 <= i < |requests| => Padded(requests[i], 64));
            && PairwiseDisjoint(mem, sizes)
            && (Region(mem, sizes, k).Within(Block(mem, mem + BUFFER_SIZE)) <==> k < 511)
  {
    var sizes := seq(|requests|, i requires 0 <= i < |requests| => Padded(requests[i], 64));
    assert forall i :: 0 <= i < |sizes| ==> sizes[i] == 64;
    DisjointIffNonDecreasing(mem, sizes);
    SumOf64(sizes[..k + 1]);
  }

  class CodeBuffer {
    const mem: nat
    const size: nat
    var reserved: nat
    var lastReservedSize: nat

    constructor Allocate(mem: nat, size: nat)
      ensures this.mem == mem && this.size == size && reserved == 0 && lastReservedSize == 0
    {
      this.mem, this.size := mem, size;
      reserved, lastReservedSize := 0, 0;
    }

    method ReserveUnaligned(size: nat) returns (at: nat)
      modifies this
      ensures reserved == old(reserved) + size && lastReservedSize == size
      ensures at == mem + reserved
    {
      reserved := reserved + size;
      lastReservedSize := size;
      at := mem + reserved;
    }

    method Rewind(size: nat)
      requires size <= reserved
      modifies this`reserved
      ensures reserved == old(reserved) - size
    {
      reserved := reserved - size;
    }

    method RevertAllocation()
      requires lastReservedSize <= reserved
      modifies this`reserved
      ensures reserved == old(reserved) - lastReservedSize
    {
      Rewind(lastReservedSize);
    }

    /** One reservation more: `at` is where Region says it is, given the sizes reserved so far. */
    method ReserveAligned(size: nat, align: nat, ghost sizes: seq<nat>) returns (at: nat)
      requires align > 0 && reserved == Sum(sizes)
      modifies this
      ensures reserved == Sum(sizes + [Padded(size, align)]) && lastReservedSize == Padded(size, align)
      ensures reserved == old(reserved) + Padded(size, align)
      ensures at == mem + reserved == Region(mem, sizes + [Padded(size, align)], |sizes|).start
    {
      var pad := align - size % align;
      ghost var all := sizes + [Padded(size, align)];
      assert all[..|sizes|] == sizes && all[..|sizes| + 1] == all;
      at := ReserveUnaligned(size + pad);
    }
  }
}
