/** Whole runs of the malloc and free hooks (win_agent/allocation_tracking/crt_instrumentation.cpp) against the history
    of the heap, and the use-after-free check that reads the tracker (win_agent/allocation_tracking/track_usage.cpp).
    Each hook, the real call together with its tracker call, is one event. */
module HeapHistory {
  import opened Common
  import opened Blocks
  import opened AllocationTracker

  datatype Event =
    | Malloc(result: nat, size: nat, callsite: nat)
    | Free(ptr: nat)
  {
    function Memory(): Block
      requires Malloc?
    {
      Block(result, result + size)
    }

    function Entry(): Allocation
      requires Malloc?
    {
      Allocation(Memory(), callsite, {}, Allocated)
    }
  }

  type History = seq<Event>

  // ---------- What the history says ----------

  /** The last allocation whose memory covers `p`, or -1. */
  function LastCover(h: History, p: int): (i: int)
    ensures -1 <= i < |h|
    ensures i >= 0 ==> h[i].Malloc? && h[i].Memory().Contains(p)
    ensures forall j :: i < j < |h| && h[j].Malloc? ==> !h[j].Memory().Contains(p)
  {
    if h == [] then -1
    else
      var n := |h| - 1;
      if h[n].Malloc? && h[n].Memory().Contains(p) then n else LastCover(h[..n], p)
  }

  /** Allocation `i` has not been returned to the heap. */
  predicate Live(h: History, i: int) {
    && 0 <= i < |h| && h[i].Malloc?
    && forall k :: i < k < |h| && h[k].Free? ==> h[k].ptr != h[i].result
  }

  /** The heap never hands out memory that overlaps a live block. */
  predicate Disciplined(h: History) {
    forall j :: 0 <= j < |h| && h[j].Malloc? ==>
      forall i :: 0 <= i < j && Live(h[..j], i) ==> !h[i].Memory().Overlaps(h[j].Memory())
  }

  /** Every address from `x` to `p` was last covered by the same allocation, or by none. */
  ghost predicate Piece(h: History, x: int, p: int) {
    forall y :: Min(x, p) <= y <= Max(x, p) ==> LastCover(h, y) == LastCover(h, p)
  }

  /** Event `j` freed the piece around `p`: it was given an address of the piece that was there then. */
  ghost predicate FreedAt(h: History, p: int, j: int) {
    LastCover(h, p) < j < |h| && h[j].Free? && Piece(h[..j], h[j].ptr, p)
  }

  ghost predicate FreedPiece(h: History, p: int) {
    exists j :: FreedAt(h, p, j)
  }

  /** The answer a lookup of `p` must give after history `h`: what is left around `p` of the last allocation to cover
      it, FREED exactly when that piece was freed. */
  ghost predicate Agrees(h: History, p: int, answer: Option<Allocation>) {
    var i := LastCover(h, p);
    if i < 0 then answer.None?
    else
      && answer.Some?
      && answer.value.callsite == h[i].callsite && answer.value.reallocationSites == {}
      && answer.value.status == (if FreedPiece(h, p) then Freed else Allocated)
      && forall x {:trigger Piece(h, x, p)} {:trigger answer.value.memory.Contains(x)} ::
           answer.value.memory.Contains(x) <==> Piece(h, x, p)
  }

  // ---------- What the hooks do ----------

  predicate Returning(c: Collision, h: History)
    decreases |h|, 0
  {
    h == [] ||
    (var n := |h| - 1;
     Returning(c, h[..n]) && (h[n].Malloc? ==> Settles(c, Tracker(c, h[..n]), h[n].Memory())))
  }

  /** The tracker's list after the hooks of `h` ran. */
  function Tracker(c: Collision, h: History): (list: seq<Allocation>)
    requires Returning(c, h)
    ensures ValidBlocks(list) && Disjoint(list)
    decreases |h|, 1
  {
    if h == [] then []
    else
      var n := |h| - 1;
      var before := Tracker(c, h[..n]);
      match h[n]
      case Malloc(_, _, _) => TrackNewOverwrites(c, before, h[n].Entry()); Tracked(c, before, h[n].Entry())
      case Free(ptr) => MarkFreeLookup(before, ptr); MarkedFree(before, ptr)
  }

  /** With half-open overlap every history returns. */
  lemma {:induction false} HalfOpenReturning(h: History)
    ensures Returning(HalfOpen, h)
  {
    if h == [] {
    } else {
      HalfOpenReturning(h[..|h| - 1]);
    }
  }

  lemma {:induction false} ReturningPrefix(c: Collision, h: History, n: nat)
    requires Returning(c, h) && n <= |h|
    ensures Returning(c, h[..n])
  {
    if n == |h| {
      assert h[..n] == h;
    } else {
      ReturningPrefix(c, h[..|h| - 1], n);
      assert h[..|h| - 1][..n] == h[..n];
    }
  }

  // ---------- One more event ----------

  lemma CoverAfter(h: History, ev: Event, p: int)
    ensures LastCover(h + [ev], p) == if ev.Malloc? && ev.Memory().Contains(p) then |h| else LastCover(h, p)
  {
    assert (h + [ev])[..|h|] == h;
  }

  lemma FreedPieceAfter(h: History, ev: Event, p: int)
    requires LastCover(h + [ev], p) == LastCover(h, p) >= 0
    ensures FreedPiece(h + [ev], p) <==> FreedPiece(h, p) || (ev.Free? && Piece(h, ev.ptr, p))
  {
    var h' := h + [ev];
    assert h'[|h|] == ev && h'[..|h|] == h;
    forall j | 0 <= j < |h| ensures h'[..j] == h[..j] && h'[j] == h[j] {}
    if FreedPiece(h, p) {
      var j :| FreedAt(h, p, j);
      assert FreedAt(h', p, j);
    }
    if FreedPiece(h', p) {
      var j :| FreedAt(h', p, j);
      assert j < |h| ==> FreedAt(h, p, j);
    }
    if ev.Free? && Piece(h, ev.ptr, p) {
      assert FreedAt(h', p, |h|);
    }
  }

  /** A new block takes its own addresses, and cuts pieces where it lies between. */
  lemma PieceAfter(h: History, ev: Event, x: int, p: int)
    ensures ev.Free? ==> (Piece(h + [ev], x, p) <==> Piece(h, x, p))
    ensures ev.Malloc? && ev.Memory().Contains(p) ==> (Piece(h + [ev], x, p) <==> ev.Memory().Contains(x))
    ensures ev.Malloc? && !ev.Memory().Contains(p) ==>
              (Piece(h + [ev], x, p) <==>
               Piece(h, x, p) && forall y :: Min(x, p) <= y <= Max(x, p) ==> !ev.Memory().Contains(y))
  {
    forall y ensures LastCover(h + [ev], y)
                  == if ev.Malloc? && ev.Memory().Contains(y) then |h| else LastCover(h, y) {
      CoverAfter(h, ev, y);
    }
    if ev.Malloc? && ev.Memory().Contains(p) && Piece(h + [ev], x, p) {
      assert LastCover(h + [ev], x) == |h|;
    }
  }

  lemma MallocAgrees(h: History, ev: Event, p: int, answer: Option<Allocation>)
    requires ev.Malloc? && !ev.Memory().Contains(p) && Agrees(h, p, answer)
    ensures Agrees(h + [ev], p, if answer.None? then None else Some(Trim(answer.value, ev.Memory(), p)))
  {
    CoverAfter(h, ev, p);
    if answer.Some? {
      var e, a := answer.value.memory, ev.Memory();
      assert Piece(h, p, p);
      FreedPieceAfter(h, ev, p);
      forall x ensures Trim(answer.value, a, p).memory.Contains(x) <==> Piece(h + [ev], x, p) {
        PieceAfter(h, ev, x, p);
        TrimContains(e, a, x, p);
        assert e.Contains(x) <==> Piece(h, x, p);
      }
    }
  }

  /** Trimming keeps the addresses from which the window does not cut `p` off. */
  lemma TrimContains(e: Block, a: Block, x: int, p: int)
    requires e.Contains(p) && !a.Contains(p)
    ensures Trim(Allocation(e, 0, {}, Freed), a, p).memory.Contains(x) <==>
            e.Contains(x) && forall y :: Min(x, p) <= y <= Max(x, p) ==> !a.Contains(y)
  {
    if e.Overlaps(a) && e.Contains(x) && !Trim(Allocation(e, 0, {}, Freed), a, p).memory.Contains(x) {
      assert a.Contains(if p < a.start then a.start else a.end - 1);
    }
  }

  lemma EntryAgrees(h: History, ev: Event, p: int)
    requires ev.Malloc? && ev.Memory().Contains(p)
    ensures Agrees(h + [ev], p, Some(ev.Entry()))
  {
    CoverAfter(h, ev, p);
    assert (h + [ev])[|h|] == ev;
    forall x ensures ev.Memory().Contains(x) <==> Piece(h + [ev], x, p) {
      PieceAfter(h, ev, x, p);
    }
  }

  lemma FreeAgrees(h: History, ev: Event, p: int, answer: Option<Allocation>)
    requires ev.Free? && Agrees(h, p, answer)
    ensures Agrees(h + [ev], p,
                   match answer
                   case None => None
                   case Some(e) => Some(if e.memory.Contains(ev.ptr) then e.(status := Freed) else e))
  {
    CoverAfter(h, ev, p);
    if answer.Some? {
      FreedPieceAfter(h, ev, p);
      assert answer.value.memory.Contains(ev.ptr) <==> Piece(h, ev.ptr, p);
      forall x ensures answer.value.memory.Contains(x) <==> Piece(h + [ev], x, p) {
        PieceAfter(h, ev, x, p);
        assert answer.value.memory.Contains(x) <==> Piece(h, x, p);
      }
    }
  }

  // ---------- The main result ----------

  /** After any run of the hooks that returns, whatever the heap hands out and whatever is freed, every lookup agrees
      with the history. */
  lemma {:induction false} TrackerAgreesWithHistory(c: Collision, h: History, p: int)
    requires Returning(c, h)
    ensures Agrees(h, p, Lookup(Tracker(c, h), p))
  {
    if h == [] {
    } else {
      var g, ev := h[..|h| - 1], h[|h| - 1];
      assert h == g + [ev];
      TrackerAgreesWithHistory(c, g, p);
      var before := Tracker(c, g);
      match ev
      case Malloc(_, _, _) =>
        TrackNewOverwrites(c, before, ev.Entry());
        assert Lookup(Tracker(c, h), p) == Overwritten(before, ev.Entry(), p);
        if ev.Memory().Contains(p) {
          EntryAgrees(g, ev, p);
        } else {
          MallocAgrees(g, ev, p, Lookup(before, p));
        }
      case Free(ptr) =>
        MarkFreeLookup(before, ptr);
        FreeAgrees(g, ev, p, Lookup(before, p));
    }
  }

  /** The block of malloc `j` ends where no address is covered then. */
  predicate EndFree(h: History, j: int) {
    0 <= j < |h| && h[j].Malloc? ==> LastCover(h[..j], h[j].Memory().end) < 0
  }

  /** With the test as written, a run returns if and only if every malloc's block ends where no address is covered. */
  lemma {:induction false} ReturningWhen(h: History)
    ensures Returning(AsWritten, h) <==> forall j :: EndFree(h, j)
  {
    if h == [] {
    } else {
      var n := |h| - 1;
      ReturningWhen(h[..n]);
      EndsFreeNext(h, h[..n]);
      if Returning(AsWritten, h[..n]) && h[n].Malloc? {
        SettlesWhen(h[..n], h[n].Memory());
      }
    }
  }

  lemma EndsFreeNext(h: History, g: History)
    requires h != [] && g == h[..|h| - 1]
    ensures (forall j :: EndFree(h, j)) <==> (forall j :: EndFree(g, j)) && EndFree(h, |h| - 1)
  {
    forall j | 0 <= j < |g| ensures EndFree(g, j) <==> EndFree(h, j) {
      assert g[..j] == h[..j];
    }
  }

  lemma SettlesWhen(h: History, a: Block)
    requires Returning(AsWritten, h)
    ensures Settles(AsWritten, Tracker(AsWritten, h), a) <==> LastCover(h, a.end) < 0
  {
    TrackerAgreesWithHistory(AsWritten, h, a.end);
  }

  /** A use after free is seen exactly when the piece around the address was freed after it was last allocated. */
  lemma UseAfterFreeSeen(c: Collision, h: History, p: int)
    requires Returning(c, h)
    ensures Dangling(Tracker(c, h), p) <==> LastCover(h, p) >= 0 && FreedPiece(h, p)
  {
    TrackerAgreesWithHistory(c, h, p);
  }

  // ---------- Pieces and whole allocations ----------

  /** Event `j` was a free of an address that allocation `i` was the last to cover. */
  predicate Frees(h: History, i: int, j: int) {
    0 <= i < j < |h| && h[j].Free? && LastCover(h[..j], h[j].ptr) == i
  }

  /** Between allocation `i` and event `j` some block was handed out that lies between the freed address and `p`. */
  predicate CutOff(h: History, i: int, j: int, p: int)
    requires 0 <= i < j < |h| && h[j].Free?
  {
    exists k, y :: i < k < j && h[k].Malloc? && Min(h[j].ptr, p) <= y <= Max(h[j].ptr, p) && h[k].Memory().Contains(y)
  }

  lemma {:induction false} CoverOfPrefix(h: History, n: nat, p: int)
    requires n <= |h| && LastCover(h, p) < n
    ensures LastCover(h[..n], p) == LastCover(h, p)
  {
    if n == |h| {
      assert h[..n] == h;
    } else {
      var g := h[..|h| - 1];
      CoverOfPrefix(g, n, p);
      assert g[..n] == h[..n];
    }
  }

  /** An allocation that a later one covers nowhere is all of one piece. */
  lemma Untouched(h: History, i: nat, x: int)
    requires i < |h| && h[i].Malloc? && h[i].Memory().Contains(x)
    requires forall k :: i < k < |h| && h[k].Malloc? ==> !h[k].Memory().Contains(x)
    ensures LastCover(h, x) == i
  {}

  /** What frees a piece: a free of its allocation from which no later block cuts it off. So the tracker misses that an
      allocation was freed exactly at the addresses that were cut off by then. */
  lemma FreedPieceWhen(h: History, p: int)
    requires LastCover(h, p) >= 0
    ensures var i := LastCover(h, p);
            FreedPiece(h, p) <==> exists j :: Frees(h, i, j) && !CutOff(h, i, j, p)
  {
    var i := LastCover(h, p);
    forall j | i < j < |h| && h[j].Free?
      ensures Piece(h[..j], h[j].ptr, p) <==> Frees(h, i, j) && !CutOff(h, i, j, p)
    {
      PieceWhen(h, i, j, p);
    }
    if FreedPiece(h, p) {
      var j :| FreedAt(h, p, j);
      assert Frees(h, i, j) && !CutOff(h, i, j, p);
    }
    if j :| Frees(h, i, j) && !CutOff(h, i, j, p) {
      assert FreedAt(h, p, j);
    }
  }

  lemma PieceWhen(h: History, i: int, j: int, p: int)
    requires LastCover(h, p) == i >= 0 && i < j < |h| && h[j].Free?
    ensures Piece(h[..j], h[j].ptr, p) <==> Frees(h, i, j) && !CutOff(h, i, j, p)
  {
    var g, q := h[..j], h[j].ptr;
    CoverOfPrefix(h, j, p);
    if Piece(g, q, p) {
      assert LastCover(g, q) == i;
      forall k, y | i < k < j && h[k].Malloc? && Min(q, p) <= y <= Max(q, p) ensures !h[k].Memory().Contains(y) {
        assert LastCover(g, y) == i && g[k] == h[k];
      }
    }
    if Frees(h, i, j) && !CutOff(h, i, j, p) {
      forall y | Min(q, p) <= y <= Max(q, p) ensures LastCover(g, y) == i {
        assert g[i] == h[i] && h[i].Memory().Contains(q) && h[i].Memory().Contains(p);
        assert forall k :: i < k < |g| ==> g[k] == h[k];
        Untouched(g, i, y);
      }
    }
  }

  /** Allocation `i` was freed: a later free was given an address it was the last to cover. */
  ghost predicate FreedLater(h: History, i: int) {
    exists j :: Frees(h, i, j)
  }

  /** The two notions differ, and a use after free is missed, exactly at addresses that every free of the allocation was
      cut off from. */
  lemma FreedButNotHere(h: History, p: int)
    requires LastCover(h, p) >= 0
    ensures var i := LastCover(h, p);
            && (FreedPiece(h, p) ==> FreedLater(h, i))
            && (FreedLater(h, i) && !FreedPiece(h, p) <==>
                (exists j :: Frees(h, i, j)) && forall j :: Frees(h, i, j) ==> CutOff(h, i, j, p))
  {
    FreedPieceWhen(h, p);
  }

  /** It takes a heap that hands out live memory: a block inside a live one, which is then freed at its beginning. Its
      far end goes on counting as allocated. */
  lemma FarEndMissed(outer: Event, inner: Event)
    requires outer.Malloc? && inner.Malloc? && inner.size > 0
    requires outer.result < inner.result && inner.result + inner.size < outer.result + outer.size
    ensures var h, p := [outer, inner, Free(outer.result)], inner.result + inner.size;
            LastCover(h, p) == 0 && FreedLater(h, 0) && !FreedPiece(h, p) && FreedPiece(h, outer.result)
  {
    var h, p := [outer, inner, Free(outer.result)], inner.result + inner.size;
    Untouched(h, 0, p);
    Untouched(h, 0, outer.result);
    Untouched(h[..2], 0, outer.result);
    assert Frees(h, 0, 2) && inner.Memory().Contains(inner.result) && h[1] == inner;
    FreedPieceWhen(h, p);
    FreedPieceWhen(h, outer.result);
    assert CutOff(h, 0, 2, p);
    assert !CutOff(h, 0, 2, outer.result);
  }

  // ---------- The ASSERT in track_new ----------

  /** No block after allocation `i` overlaps it. */
  predicate Alone(h: History, i: int)
    requires 0 <= i < |h| && h[i].Malloc?
  {
    forall k :: i < k < |h| && h[k].Malloc? ==> !h[i].Memory().Overlaps(h[k].Memory())
  }

  /** A piece that a new block cuts in two or trims was freed before. */
  ghost predicate CutsFreedPieces(h: History, a: Block) {
    forall p, x {:trigger Piece(h, x, p), a.Contains(p)} ::
      LastCover(h, p) >= 0 && a.Contains(p) && !a.Contains(x) && Piece(h, x, p) ==> FreedPiece(h, p)
  }

  /** The ASSERT met while event `j` is tracked. */
  ghost predicate AssertHolds(c: Collision, h: History, j: int)
    requires 0 <= j < |h|
  {
    h[j].Malloc? ==> Returning(c, h[..j]) && CutsFreed(c, Tracker(c, h[..j]), h[j].Memory())
  }

  /** An entry that is cut and leaves a piece has an address in the window and one outside. */
  lemma CutStraddles(c: Collision, e: Block, a: Block) returns (p: int, x: int)
    requires e.Valid() && a.Valid() && (c.HalfOpen? || !e.Contains(a.end))
    requires Collides(c, e, a) && Cut(e, a) != []
    ensures e.Contains(p) && a.Contains(p) && e.Contains(x) && !a.Contains(x)
  {
    p := Max(e.start, a.start);
    x := if e.start < a.start then e.start else a.end;
  }

  lemma StraddlesCut(c: Collision, e: Block, a: Block, p: int, x: int)
    requires e.Contains(p) && a.Contains(p) && e.Contains(x) && !a.Contains(x)
    ensures Collides(c, e, a) && Cut(e, a) != []
  {}

  /** The ASSERT in terms of the history. */
  lemma AssertWhen(c: Collision, h: History, a: Block)
    requires Returning(c, h) && a.Valid() && Settles(c, Tracker(c, h), a)
    ensures CutsFreed(c, Tracker(c, h), a) <==> CutsFreedPieces(h, a)
  {
    var list := Tracker(c, h);
    if CutsFreed(c, list, a) {
      forall p, x | LastCover(h, p) >= 0 && a.Contains(p) && !a.Contains(x) && Piece(h, x, p)
        ensures FreedPiece(h, p)
      {
        TrackerAgreesWithHistory(c, h, p);
        var e := list[Find(list, p)];
        assert e.memory.Contains(x);
        StraddlesCut(c, e.memory, a, p, x);
      }
    }
    if CutsFreedPieces(h, a) {
      forall k | 0 <= k < |list| && Collides(c, list[k].memory, a) && Cut(list[k].memory, a) != []
        ensures list[k].status.Freed?
      {
        var p, x := CutStraddles(c, list[k].memory, a);
        LookupIs(list, k, p);
        TrackerAgreesWithHistory(c, h, p);
        assert Piece(h, x, p);
      }
    }
  }

  /** While no later block overlaps an allocation that was not freed, a block handed out next misses or covers it. */
  ghost predicate Spared(h: History) {
    forall i, j {:trigger SparedAt(h, i, j)} :: SparedAt(h, i, j)
  }

  ghost predicate SparedAt(h: History, i: int, j: int) {
    0 <= i < j < |h| && h[i].Malloc? && h[j].Malloc? && Alone(h[..j], i) && !FreedLater(h[..j], i) ==>
      !h[i].Memory().Overlaps(h[j].Memory()) || h[i].Memory().Within(h[j].Memory())
  }

  /** The first block after allocation `i` to overlap it, if there is one at `j` or before. */
  lemma {:induction false} FirstOverlap(h: History, i: nat, j: nat) returns (k: nat)
    requires i < j < |h| && h[i].Malloc? && h[j].Malloc? && h[i].Memory().Overlaps(h[j].Memory())
    ensures i < k <= j && h[k].Malloc? && h[i].Memory().Overlaps(h[k].Memory()) && Alone(h[..k], i)
    decreases j
  {
    if Alone(h[..j], i) {
      k := j;
    } else {
      var l :| i < l < j && h[..j][l].Malloc? && h[i].Memory().Overlaps(h[..j][l].Memory());
      k := FirstOverlap(h, i, l);
    }
  }

  /** A free of an allocation nothing overlaps frees all of it, for every address it still covers later. */
  lemma WholeFreed(h: History, p: int, k: nat)
    requires k <= |h| && 0 <= LastCover(h, p) < k
    requires Alone(h[..k], LastCover(h, p)) && FreedLater(h[..k], LastCover(h, p))
    ensures FreedPiece(h, p)
  {
    var i, g := LastCover(h, p), h[..k];
    var j :| Frees(g, i, j);
    assert h[..j] == g[..j] && h[j] == g[j];
    forall l, y | i < l < j && h[l].Malloc? && Min(h[j].ptr, p) <= y <= Max(h[j].ptr, p)
      ensures !h[l].Memory().Contains(y)
    {
      assert g[l] == h[l] && h[i].Memory().Contains(y);
    }
    assert Frees(h, i, j) && !CutOff(h, i, j, p);
    FreedPieceWhen(h, p);
  }

  lemma SparedGivesAssert(h: History, j: nat)
    requires j < |h| && h[j].Malloc? && Spared(h)
    ensures CutsFreedPieces(h[..j], h[j].Memory())
  {
    var g, a := h[..j], h[j].Memory();
    forall p, x | LastCover(g, p) >= 0 && a.Contains(p) && !a.Contains(x) && Piece(g, x, p) ensures FreedPiece(g, p) {
      var i := LastCover(g, p);
      var k := FirstOverlap(h, i, j);
      assert LastCover(g, x) == i;
      assert g[..k] == h[..k] && SparedAt(h, i, k) && (k < j ==> g[k] == h[k]);
      var outside := if k == j then x else p;
      assert h[i].Memory().Contains(outside) && !h[k].Memory().Contains(outside);
      WholeFreed(g, p, k);
    }
  }

  lemma AssertGivesSpared(h: History, i: nat, j: nat)
    requires i < j < |h| && h[i].Malloc? && h[j].Malloc? && CutsFreedPieces(h[..j], h[j].Memory())
    ensures SparedAt(h, i, j)
  {
    var g, e, a := h[..j], h[i].Memory(), h[j].Memory();
    if Alone(g, i) && e.Overlaps(a) && !e.Within(a) {
      var p := Max(e.start, a.start);
      var x := if e.start < a.start then e.start else a.end;
      forall y | e.Contains(y) ensures LastCover(g, y) == i {
        assert forall k :: i < k < |g| && g[k].Malloc? ==> !e.Overlaps(g[k].Memory());
        Untouched(g, i, y);
      }
      assert Piece(g, x, p) && a.Contains(p);
      FreedPieceWhen(g, p);
    }
  }

  /** Every ASSERT of a run holds if and only if no block handed out takes a proper part of an allocation that was not
      freed and is still whole. */
  lemma AssertsExactly(c: Collision, h: History)
    requires Returning(c, h)
    ensures (forall j :: 0 <= j < |h| ==> AssertHolds(c, h, j)) <==> Spared(h)
  {
    forall j: nat | j < |h| && h[j].Malloc?
      ensures AssertHolds(c, h, j) <==> CutsFreedPieces(h[..j], h[j].Memory())
    {
      AssertOfEvent(c, h, j);
    }
    if Spared(h) {
      forall j | 0 <= j < |h| ensures AssertHolds(c, h, j) {
        if h[j].Malloc? {
          SparedGivesAssert(h, j);
        }
      }
    }
    if forall j :: 0 <= j < |h| ==> AssertHolds(c, h, j) {
      forall i, j ensures SparedAt(h, i, j) {
        if 0 <= i < j < |h| && h[i].Malloc? && h[j].Malloc? {
          assert AssertHolds(c, h, j);
          AssertGivesSpared(h, i, j);
        }
      }
    }
  }

  lemma AssertOfEvent(c: Collision, h: History, j: nat)
    requires Returning(c, h) && j < |h| && h[j].Malloc?
    ensures AssertHolds(c, h, j) <==> CutsFreedPieces(h[..j], h[j].Memory())
  {
    ReturningPrefix(c, h, j + 1);
    assert h[..j + 1][..j] == h[..j];
    AssertWhen(c, h[..j], h[j].Memory());
  }

  // ---------- A disciplined heap ----------

  /** A heap that never hands out live memory spares its blocks, ... */
  lemma DisciplinedSpares(h: History)
    requires Disciplined(h)
    ensures Spared(h)
  {
    forall i, j ensures SparedAt(h, i, j) {
      if 0 <= i < j < |h| && h[i].Malloc? && h[j].Malloc? && Alone(h[..j], i) && !FreedLater(h[..j], i) {
        if h[i].size > 0 {
          NotFreedLives(h[..j], i);
        }
      }
    }
  }

  /** An allocation nothing overlaps is live unless it was freed. */
  lemma NotFreedLives(h: History, i: nat)
    requires i < |h| && h[i].Malloc? && h[i].size > 0 && Alone(h, i)
    ensures FreedLater(h, i) || Live(h, i)
  {
    if k :| i < k < |h| && h[k].Free? && h[k].ptr == h[i].result {
      var g := h[..k];
      assert forall l :: i < l < |g| && g[l].Malloc? ==> !h[i].Memory().Overlaps(g[l].Memory());
      Untouched(g, i, h[i].result);
      assert Frees(h, i, k);
    }
  }

  /** ... so the ASSERT holds at every malloc. */
  lemma AssertAlwaysHolds(c: Collision, h: History, j: nat)
    requires Returning(c, h) && Disciplined(h) && j < |h| && h[j].Malloc?
    ensures AssertHolds(c, h, j)
  {
    DisciplinedSpares(h);
    AssertsExactly(c, h);
  }

  /** In a disciplined run a piece was freed exactly when its allocation was, and while it was not it is all of it. */
  lemma DisciplinedPieces(h: History, p: int)
    requires Disciplined(h) && LastCover(h, p) >= 0
    ensures FreedPiece(h, p) <==> FreedLater(h, LastCover(h, p))
    ensures !FreedPiece(h, p) ==> forall x :: Piece(h, x, p) <==> h[LastCover(h, p)].Memory().Contains(x)
  {
    var i := LastCover(h, p);
    FreedPieceWhen(h, p);
    if Alone(h, i) {
      AlonePieces(h, p);
    } else {
      DisciplinedFreed(h, p);
    }
  }

  lemma AlonePiece(h: History, i: nat, x: int, p: int)
    requires i < |h| && h[i].Malloc? && h[i].Memory().Contains(p) && Alone(h, i)
    ensures LastCover(h, p) == i && (Piece(h, x, p) <==> h[i].Memory().Contains(x))
  {
    forall y | h[i].Memory().Contains(y) ensures LastCover(h, y) == i {
      Untouched(h, i, y);
    }
    if Piece(h, x, p) {
      assert LastCover(h, x) == i;
    }
  }

  lemma AlonePieces(h: History, p: int)
    requires LastCover(h, p) >= 0 && Alone(h, LastCover(h, p))
    ensures FreedLater(h, LastCover(h, p)) ==> FreedPiece(h, p)
    ensures forall x :: Piece(h, x, p) <==> h[LastCover(h, p)].Memory().Contains(x)
  {
    forall x ensures Piece(h, x, p) <==> h[LastCover(h, p)].Memory().Contains(x) {
      AlonePiece(h, LastCover(h, p), x, p);
    }
    assert h[..|h|] == h;
    if FreedLater(h, LastCover(h, p)) {
      WholeFreed(h, p, |h|);
    }
  }

  /** What a later block overlaps was freed before. */
  lemma DisciplinedFreed(h: History, p: int)
    requires Disciplined(h) && LastCover(h, p) >= 0 && !Alone(h, LastCover(h, p))
    ensures FreedPiece(h, p)
  {
    var i := LastCover(h, p);
    var j :| i < j < |h| && h[j].Malloc? && h[i].Memory().Overlaps(h[j].Memory());
    var k := FirstOverlap(h, i, j);
    NotFreedLives(h[..k], i);
    WholeFreed(h, p, k);
  }

  // ---------- Where the assumptions are needed ----------

  lemma TrackerOfOneMalloc(ev: Event)
    requires ev.Malloc?
    ensures Returning(HalfOpen, [ev]) && Tracker(HalfOpen, [ev]) == [ev.Entry()]
  {
    HalfOpenReturning([ev]);
    assert [ev][..0] == [];
    assert Tracker(HalfOpen, []) == [];
  }

  /** malloc returning NULL is tracked like any block. Two failing calls, the second asking for less, already break the
      ASSERT: the first "block" [0, large) is cut while it still counts as allocated. */
  lemma FailedMallocsBreakAssert(large: nat, small: nat, site: nat)
    requires 0 < small < large
    ensures var h := [Malloc(0, large, site)];
            Returning(HalfOpen, h) && !CutsFreed(HalfOpen, Tracker(HalfOpen, h), Malloc(0, small, site).Memory())
  {
    TrackerOfOneMalloc(Malloc(0, large, site));
    var list := Tracker(HalfOpen, [Malloc(0, large, site)]);
    assert Cut(list[0].memory, Block(0, small)) == [Block(small, large)];
    assert Collides(HalfOpen, list[0].memory, Block(0, small));
  }

  /** A single failing malloc can be worse without any ASSERT failing: when it asks for enough it covers live blocks,
      and every lookup of theirs gives the failed call from then on. */
  lemma FailedMallocSwallows(h: History, i: nat, large: nat, site: nat)
    requires Returning(HalfOpen, h) && Live(h, i)
    requires forall k :: 0 <= k < |h| && h[k].Malloc? ==> h[k].Memory().Within(Block(0, large))
    ensures var failed := Malloc(0, large, site);
            && Returning(HalfOpen, h + [failed]) && Live(h + [failed], i) && AssertHolds(HalfOpen, h + [failed], |h|)
            && forall p :: h[i].Memory().Contains(p) ==>
                 Lookup(Tracker(HalfOpen, h + [failed]), p) == Some(failed.Entry())
  {
    var failed := Malloc(0, large, site);
    var h' := h + [failed];
    assert h'[..|h|] == h && h'[|h|] == failed;
    HalfOpenReturning(h');
    LiveAfter(h, failed, i);
    CoversAll(h, failed.Memory());
    AssertOfEvent(HalfOpen, h', |h|);
    forall p | h[i].Memory().Contains(p) ensures Lookup(Tracker(HalfOpen, h'), p) == Some(failed.Entry()) {
      LookupNew(h, failed, p);
    }
  }

  /** Nothing is cut by a block that covers everything. */
  lemma CoversAll(h: History, a: Block)
    requires forall k :: 0 <= k < |h| && h[k].Malloc? ==> h[k].Memory().Within(a)
    ensures CutsFreedPieces(h, a)
  {
    forall p, x | LastCover(h, p) >= 0 && Piece(h, x, p) ensures a.Contains(x) {
      assert LastCover(h, x) == LastCover(h, p);
    }
  }

  lemma LookupNew(h: History, ev: Event, p: int)
    requires Returning(HalfOpen, h) && Returning(HalfOpen, h + [ev]) && ev.Malloc? && ev.Memory().Contains(p)
    ensures Lookup(Tracker(HalfOpen, h + [ev]), p) == Some(ev.Entry())
  {
    assert (h + [ev])[..|h|] == h;
    TrackNewOverwrites(HalfOpen, Tracker(HalfOpen, h), ev.Entry());
    assert Lookup(Tracker(HalfOpen, h + [ev]), p) == Overwritten(Tracker(HalfOpen, h), ev.Entry(), p);
  }

  lemma LiveAfter(h: History, ev: Event, i: nat)
    requires Live(h, i) && ev.Malloc?
    ensures Live(h + [ev], i)
  {
    assert forall k :: 0 <= k < |h| ==> (h + [ev])[k] == h[k];
  }

  /** A failing realloc leaves the block where it is, but its entry moves to 0: the live block is no longer tracked. */
  lemma FailedReallocLosesLive(block: Event, size: nat, site: nat)
    requires block.Malloc? && block.size > 0 && size <= block.result
    ensures Returning(HalfOpen, [block]) && Live([block], 0)
    ensures var list := MarkedReallocated(Tracker(HalfOpen, [block]), block.result, Block(0, size), site);
            Lookup(list, block.result) == None
  {
    TrackerOfOneMalloc(block);
    LookupIs([block.Entry()], 0, block.result);
    MarkReallocatedLookup([block.Entry()], block.result, Block(0, size), site, block.result);
  }

  /** Nor does a realloc that moves a block respect what is tracked at its new place. A block moved to where an earlier,
      freed one was is reported as used after free although it is live. */
  lemma ReallocReportsLive(first: Event, second: Event, size: nat, site: nat)
    requires first.Malloc? && second.Malloc? && first.size > 0 && second.size > 0 && size > 0
    requires !first.Memory().Overlaps(second.Memory())
    ensures var h := [first, second, Free(first.result)];
            && Disciplined(h) && Returning(HalfOpen, h) && Live(h, 1) && !Live(h, 0)
            && var target := Block(first.result, first.result + size);
               Dangling(MarkedReallocated(Tracker(HalfOpen, h), second.result, target, site), first.result)
  {
    var h := [first, second, Free(first.result)];
    HalfOpenReturning(h);
    TwoMallocs(first, second);
    assert h[..2] == [first, second] && h[2].ptr == h[0].result;
    var before := [first.Entry(), second.Entry()];
    LookupIs(before, 0, first.result);
    var list := [first.Entry().(status := Freed), second.Entry()];
    assert MarkedFree(before, first.result) == list;
    assert Tracker(HalfOpen, h) == list;
    LookupIs(list, 1, second.result);
    var moved := MarkedReallocated(list, second.result, Block(first.result, first.result + size), site);
    assert moved[0] == list[0] && list[0].memory.Contains(first.result);
  }

  lemma TwoMallocs(first: Event, second: Event)
    requires first.Malloc? && second.Malloc? && !first.Memory().Overlaps(second.Memory())
    ensures Returning(HalfOpen, [first, second])
    ensures Tracker(HalfOpen, [first, second]) == [first.Entry(), second.Entry()]
    ensures Disciplined([first, second, Free(first.result)])
  {
    HalfOpenReturning([first, second]);
    TrackerOfOneMalloc(first);
    assert [first, second][..1] == [first];
    assert Settle(HalfOpen, [first.Entry()], 1, second.Memory()) == [first.Entry()];
  }

  /** The free hook as the two steps it is: the real free, then the tracker's. */
  datatype SplitEvent =
    | Step(event: Event)   // a malloc hook, or a whole free hook
    | RealFree(ptr: nat)   // the heap takes the block back ...
    | MarkFree(ptr: nat)   // ... and only later the tracker learns of it

  /** The tracker learns of a split free only at its second step. */
  function TrackerSees(h: seq<SplitEvent>): History {
    if h == [] then []
    else
      (match h[0] case Step(ev) => [ev] case RealFree(_) => [] case MarkFree(ptr) => [Free(ptr)]) + TrackerSees(h[1..])
  }

  /** The heap knows of it at the first. */
  function HeapSees(h: seq<SplitEvent>): History {
    if h == [] then []
    else
      (match h[0] case Step(ev) => [ev] case RealFree(ptr) => [Free(ptr)] case MarkFree(_) => []) + HeapSees(h[1..])
  }

  lemma SplitViews(first: Event, second: Event)
    requires first.Malloc? && second.Malloc?
    ensures HeapSees([Step(first), RealFree(first.result), Step(second)]) == [first, Free(first.result), second]
    ensures TrackerSees([Step(first), RealFree(first.result)]) == [first]
  {
    var all, run := [Step(first), RealFree(first.result), Step(second)], [Step(first), RealFree(first.result)];
    assert all[1..] == [RealFree(first.result), Step(second)] && all[1..][1..] == [Step(second)];
    assert [Step(second)][1..] == [] && HeapSees([Step(second)]) == [second];
    assert HeapSees(all[1..]) == [Free(first.result)] + HeapSees(all[1..][1..]);
    assert run[1..] == [RealFree(first.result)] && run[1..][1..] == [];
    assert TrackerSees(run[1..]) == [];
  }

  /** Between the two steps another thread may be given the block. Such a run respects the heap's discipline whatever
      it is given, and its malloc fails the ASSERT exactly when it takes a proper part of the block being freed. */
  lemma SplitFreeBreaksAssert(first: Event, second: Event)
    requires first.Malloc? && second.Malloc? && first.size > 0
    ensures Disciplined(HeapSees([Step(first), RealFree(first.result), Step(second)]))
    ensures var seen := TrackerSees([Step(first), RealFree(first.result)]);
            Returning(HalfOpen, seen) &&
            (CutsFreed(HalfOpen, Tracker(HalfOpen, seen), second.Memory()) <==>
             !first.Memory().Overlaps(second.Memory()) || first.Memory().Within(second.Memory()))
  {
    SplitViews(first, second);
    TrackerOfOneMalloc(first);
    var heap := [first, Free(first.result), second];
    assert heap[..2] == [first, Free(first.result)];
    assert heap[..2][1].ptr == heap[..2][0].result;
    assert !Live(heap[..2], 0);
    assert [first.Entry()][0].memory == first.Memory();
  }

  // ---------- The hooks and the check as code ----------

  predicate Dangling(list: seq<Allocation>, p: int) {
    Lookup(list, p).Some? && Lookup(list, p).value.status.Freed?
  }

  /** The tracking half of the malloc hook: one event of the history. Its ASSERTs hold exactly when no piece is cut that
      was not freed; so they do while the heap is disciplined. */
  method MallocHook(tracker: AllocationList, c: Collision, result: nat, size: nat, callsite: nat, ghost h: History)
    returns (asserted: bool)
    requires Returning(c, h) && tracker.allocations == Tracker(c, h)
    requires Returning(c, h + [Malloc(result, size, callsite)])
    modifies tracker
    ensures tracker.allocations == Tracker(c, h + [Malloc(result, size, callsite)])
    ensures asserted <==> CutsFreedPieces(h, Block(result, result + size))
    ensures Disciplined(h + [Malloc(result, size, callsite)]) ==> asserted
  {
    ghost var h' := h + [Malloc(result, size, callsite)];
    assert h'[..|h|] == h && h'[|h|] == Malloc(result, size, callsite);
    AssertOfEvent(c, h', |h|);
    if Disciplined(h') {
      AssertAlwaysHolds(c, h', |h|);
    }
    asserted := tracker.TrackNew(c, Allocation(Block(result, result + size), callsite, {}, Allocated));
  }

  /** The tracking half of the free hook. */
  method FreeHook(tracker: AllocationList, ptr: nat, ghost c: Collision, ghost h: History)
    requires Returning(c, h + [Free(ptr)]) && Returning(c, h) && tracker.allocations == Tracker(c, h)
    modifies tracker
    ensures tracker.allocations == Tracker(c, h + [Free(ptr)])
  {
    assert (h + [Free(ptr)])[..|h|] == h;
    var status := tracker.MarkFree(ptr);
  }

  const PARAMETER_COUNT_UNKNOWN: nat := 0xFFFF_FFFF

  /** check_use_after_free: the indices of the arguments it prints a report for. A function whose parameter count is
      unknown is taken to have four. */
  method CheckUseAfterFree(tracker: AllocationList, parameterCount: nat, arg: nat -> nat,
                           ghost c: Collision, ghost h: History)
    returns (reported: seq<nat>)
    ensures forall i: nat :: i in reported <==>
              && i < (if parameterCount == 0xFFFF_FFFF then 4 else parameterCount)
              && Dangling(tracker.allocations, arg(i))
    ensures Returning(c, h) && tracker.allocations == Tracker(c, h) ==>
              forall i: nat :: i in reported <==>
                && i < (if parameterCount == 0xFFFF_FFFF then 4 else parameterCount)
                && LastCover(h, arg(i)) >= 0 && FreedPiece(h, arg(i))
    ensures forall k, l :: 0 <= k < l < |reported| ==> reported[k] < reported[l]
  {
    var n := if parameterCount == PARAMETER_COUNT_UNKNOWN then 4 else parameterCount;
    reported := [];
    for i := 0 to n
      invariant forall j: nat :: j in reported <==> j < i && Dangling(tracker.allocations, arg(j))
      invariant forall k :: 0 <= k < |reported| ==> reported[k] in reported && reported[k] < i
      invariant forall k, l :: 0 <= k < l < |reported| ==> reported[k] < reported[l]
    {
      var allocation := tracker.LookupAlloc(arg(i));
      if allocation.Some? && allocation.value.status.Freed? {
        reported := reported + [i];
      }
    }
    if Returning(c, h) && tracker.allocations == Tracker(c, h) {
      forall i: nat ensures Dangling(tracker.allocations, arg(i)) <==>
                            LastCover(h, arg(i)) >= 0 && FreedPiece(h, arg(i)) {
        UseAfterFreeSeen(c, h, arg(i));
      }
    }
  }
}
