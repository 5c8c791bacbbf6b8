/** Whole runs of all three hooks (win_agent/allocation_tracking/crt_instrumentation.cpp:12-53): when a realloc leaves
    the tracker's list disjoint, and what every lookup gives after runs in which all do. */
module ReallocRuns {
  import opened Common
  import opened Blocks
  import opened AllocationTracker
  import H = HeapHistory

  datatype Event =
    | Heap(event: H.Event)
    | Realloc(ptr: nat, result: nat, size: nat, from: nat)
  {
    predicate Frees() {
      Heap? && event.Free?
    }

    function Target(): Block
      requires Realloc?
    {
      Block(result, result + size)
    }
  }

  type Run = seq<Event>

  // ---------- What the run says ----------

  /** The event that last gave out `p`, or -1 when none did or a realloc moved away what `p` was part of. */
  ghost function Cover(h: Run, p: int): (i: int)
    ensures -1 <= i < |h|
    decreases |h|, 0
  {
    if h == [] then -1
    else
      var n := |h| - 1;
      match h[n]
      case Heap(ev) => if ev.Malloc? && ev.Memory().Contains(p) then n else Cover(h[..n], p)
      case Realloc(ptr, _, _, _) =>
        if Cover(h[..n], ptr) < 0 then Cover(h[..n], p)
        else if h[n].Target().Contains(p) then n
        else if Piece(h[..n], ptr, p) then -1
        else Cover(h[..n], p)
  }

  /** Every address from `x` to `p` was last given out by the same event, or by none. */
  ghost predicate Piece(h: Run, x: int, p: int)
    decreases |h|, 1
  {
    forall y :: Min(x, p) <= y <= Max(x, p) ==> Cover(h, y) == Cover(h, p)
  }

  /** The call sites of an allocation: where it was made, and where it was reallocated since. */
  ghost function Callsite(h: Run, i: int): nat
    decreases |h|, 0
  {
    if !(0 <= i < |h|) then 0
    else match h[i]
         case Heap(ev) => if ev.Malloc? then ev.callsite else 0
         case Realloc(ptr, _, _, _) => Callsite(h[..i], Cover(h[..i], ptr))
  }

  ghost function ReallocationSites(h: Run, i: int): set<nat>
    decreases |h|, 0
  {
    if !(0 <= i < |h|) || h[i].Heap? then {}
    else ReallocationSites(h[..i], Cover(h[..i], h[i].ptr)) + {h[i].from}
  }

  ghost predicate FreedAt(h: Run, p: int, j: int) {
    Cover(h, p) < j < |h| && h[j].Frees() && Piece(h[..j], h[j].event.ptr, p)
  }

  ghost predicate FreedPiece(h: Run, p: int) {
    exists j :: FreedAt(h, p, j)
  }

  ghost function Status(h: Run, p: int): Status
    requires Cover(h, p) >= 0
  {
    if FreedPiece(h, p) then Freed else if h[Cover(h, p)].Realloc? then Reallocated else Allocated
  }

  /** The answer a lookup of `p` must give after the run. */
  ghost predicate Agrees(h: Run, p: int, answer: Option<Allocation>) {
    var i := Cover(h, p);
    if i < 0 then answer.None?
    else
      && answer.Some?
      && answer.value.callsite == Callsite(h, i) && answer.value.reallocationSites == ReallocationSites(h, i)
      && answer.value.status == Status(h, p)
      && forall x {:trigger Piece(h, x, p)} {:trigger answer.value.memory.Contains(x)} ::
           answer.value.memory.Contains(x) <==> Piece(h, x, p)
  }

  /** The new place is clear: whatever was given out there is part of the block being reallocated. */
  ghost predicate ClearPlace(h: Run, ev: Event)
    requires ev.Realloc?
  {
    Cover(h, ev.ptr) >= 0 ==>
      forall y :: ev.Target().Contains(y) ==> Cover(h, y) < 0 || Piece(h, ev.ptr, y)
  }

  ghost predicate AllClear(h: Run) {
    h == [] || (AllClear(h[..|h| - 1]) && (h[|h| - 1].Realloc? ==> ClearPlace(h[..|h| - 1], h[|h| - 1])))
  }

  // ---------- What the hooks do ----------

  predicate Returning(c: Collision, h: Run)
    decreases |h|, 0
  {
    h == [] ||
    (var n := |h| - 1;
     && Returning(c, h[..n])
     && (h[n].Heap? && h[n].event.Malloc? ==> Settles(c, Tracker(c, h[..n]), h[n].event.Memory())))
  }

  /** The tracker's list after the hooks of `h` ran. */
  function Tracker(c: Collision, h: Run): (list: seq<Allocation>)
    requires Returning(c, h)
    ensures ValidBlocks(list)
    decreases |h|, 1
  {
    if h == [] then []
    else
      var n := |h| - 1;
      var before := Tracker(c, h[..n]);
      match h[n]
      case Heap(Malloc(_, _, _)) => TrackedValid(c, before, h[n].event.Entry()); Tracked(c, before, h[n].event.Entry())
      case Heap(Free(ptr)) => MarkedFree(before, ptr)
      case Realloc(ptr, _, _, from) => MarkedReallocated(before, ptr, h[n].Target(), from)
  }

  // ---------- One more event ----------

  lemma PieceJoins(h: Run, x: int, y: int, p: int)
    requires Piece(h, x, y) && Piece(h, y, p)
    ensures Piece(h, x, p) && Piece(h, p, x)
  {
    assert Cover(h, x) == Cover(h, y) == Cover(h, p);
    forall z | Min(x, p) <= z <= Max(x, p) ensures Cover(h, z) == Cover(h, y) {
      assert Min(x, y) <= z <= Max(x, y) || Min(y, p) <= z <= Max(y, p);
    }
  }

  /** The event leaves what covers `p` as it is. */
  lemma SitesAfter(h: Run, ev: Event, i: int)
    requires 0 <= i < |h|
    ensures Callsite(h + [ev], i) == Callsite(h, i) && ReallocationSites(h + [ev], i) == ReallocationSites(h, i)
  {
    assert (h + [ev])[..i] == h[..i] && (h + [ev])[i] == h[i];
  }

  lemma FreedPieceAfter(h: Run, ev: Event, p: int)
    requires Cover(h + [ev], p) == Cover(h, p) >= 0
    ensures FreedPiece(h + [ev], p) <==> FreedPiece(h, p) || (ev.Frees() && Piece(h, ev.event.ptr, p))
  {
    var h' := h + [ev];
    assert h'[|h|] == ev && h'[..|h|] == h;
    forall j | 0 <= j < |h| ensures h'[..j] == h[..j] && h'[j] == h[j] {}
    if FreedPiece(h, p) {
      var j :| FreedAt(h, p, j);
      assert FreedAt(h', p, j);
    }
    if FreedPiece(h', p) {
      var j :| FreedAt(h', p, j);
      assert j < |h| ==> FreedAt(h, p, j);
    }
    if ev.Frees() && Piece(h, ev.event.ptr, p) {
      assert FreedAt(h', p, |h|);
    }
  }

  /** An answer stays right for an address whose piece the event leaves alone. */
  lemma StillAgrees(h: Run, ev: Event, p: int, answer: Option<Allocation>)
    requires Agrees(h, p, answer) && !ev.Frees() && Cover(h + [ev], p) == Cover(h, p)
    requires forall x :: Piece(h + [ev], x, p) <==> Piece(h, x, p)
    ensures Agrees(h + [ev], p, answer)
  {
    if Cover(h, p) >= 0 {
      SitesAfter(h, ev, Cover(h, p));
      FreedPieceAfter(h, ev, p);
      assert (h + [ev])[Cover(h, p)] == h[Cover(h, p)];
    }
  }

  lemma MallocCovers(h: Run, ev: Event, p: int)
    requires ev.Heap? && ev.event.Malloc?
    ensures Cover(h + [ev], p) == if ev.event.Memory().Contains(p) then |h| else Cover(h, p)
  {
    assert (h + [ev])[..|h|] == h;
  }

  lemma MallocPiece(h: Run, ev: Event, x: int, p: int)
    requires ev.Heap? && ev.event.Malloc?
    ensures ev.event.Memory().Contains(p) ==> (Piece(h + [ev], x, p) <==> ev.event.Memory().Contains(x))
    ensures !ev.event.Memory().Contains(p) ==>
              (Piece(h + [ev], x, p) <==>
               Piece(h, x, p) && forall y :: Min(x, p) <= y <= Max(x, p) ==> !ev.event.Memory().Contains(y))
  {
    forall y ensures Cover(h + [ev], y) == if ev.event.Memory().Contains(y) then |h| else Cover(h, y) {
      MallocCovers(h, ev, y);
    }
    if ev.event.Memory().Contains(p) && Piece(h + [ev], x, p) {
      assert Cover(h + [ev], x) == |h|;
    }
  }

  lemma MallocAgrees(h: Run, ev: Event, p: int, answer: Option<Allocation>)
    requires ev.Heap? && ev.event.Malloc? && Agrees(h, p, answer)
    ensures var a := ev.event.Entry();
            Agrees(h + [ev], p, if a.memory.Contains(p) then Some(a)
                                else if answer.None? then None else Some(Trim(answer.value, a.memory, p)))
  {
    var a := ev.event.Memory();
    MallocCovers(h, ev, p);
    assert (h + [ev])[|h|] == ev && (h + [ev])[..|h|] == h;
    if a.Contains(p) {
      forall x ensures a.Contains(x) <==> Piece(h + [ev], x, p) {
        MallocPiece(h, ev, x, p);
      }
    } else if answer.Some? {
      MallocTrims(h, ev, p, answer.value);
    }
  }

  lemma MallocTrims(h: Run, ev: Event, p: int, e: Allocation)
    requires ev.Heap? && ev.event.Malloc? && !ev.event.Memory().Contains(p) && Agrees(h, p, Some(e))
    ensures Agrees(h + [ev], p, Some(Trim(e, ev.event.Memory(), p)))
  {
    var a := ev.event.Memory();
    MallocCovers(h, ev, p);
    assert Piece(h, p, p);
    SitesAfter(h, ev, Cover(h, p));
    FreedPieceAfter(h, ev, p);
    assert (h + [ev])[Cover(h, p)] == h[Cover(h, p)];
    forall x ensures Trim(e, a, p).memory.Contains(x) <==> Piece(h + [ev], x, p) {
      MallocPiece(h, ev, x, p);
      H.TrimContains(e.memory, a, x, p);
      assert e.memory.Contains(x) <==> Piece(h, x, p);
    }
  }

  lemma FreeAgrees(h: Run, ev: Event, p: int, answer: Option<Allocation>)
    requires ev.Frees() && Agrees(h, p, answer)
    ensures Agrees(h + [ev], p,
                   match answer
                   case None => None
                   case Some(e) => Some(if e.memory.Contains(ev.event.ptr) then e.(status := Freed) else e))
  {
    assert (h + [ev])[..|h|] == h && forall y :: Cover(h + [ev], y) == Cover(h, y);
    if answer.Some? {
      SitesAfter(h, ev, Cover(h, p));
      FreedPieceAfter(h, ev, p);
      assert (h + [ev])[Cover(h, p)] == h[Cover(h, p)];
      assert answer.value.memory.Contains(ev.event.ptr) <==> Piece(h, ev.event.ptr, p);
      forall x ensures answer.value.memory.Contains(x) <==> Piece(h + [ev], x, p) {
        assert answer.value.memory.Contains(x) <==> Piece(h, x, p);
        assert Piece(h + [ev], x, p) <==> Piece(h, x, p);
      }
    }
  }

  // ---------- A realloc ----------

  lemma ReallocCovers(h: Run, ev: Event, p: int)
    requires ev.Realloc?
    ensures Cover(h + [ev], p) ==
            if Cover(h, ev.ptr) < 0 then Cover(h, p)
            else if ev.Target().Contains(p) then |h|
            else if Piece(h, ev.ptr, p) then -1
            else Cover(h, p)
  {
    assert (h + [ev])[..|h|] == h;
  }

  /** A realloc of a pointer into no tracked block changes nothing. */
  lemma UntrackedRealloc(h: Run, ev: Event, p: int, answer: Option<Allocation>)
    requires ev.Realloc? && Cover(h, ev.ptr) < 0 && Agrees(h, p, answer)
    ensures Agrees(h + [ev], p, answer)
  {
    forall y ensures Cover(h + [ev], y) == Cover(h, y) {
      ReallocCovers(h, ev, y);
    }
    forall x ensures Piece(h + [ev], x, p) <==> Piece(h, x, p) {}
    StillAgrees(h, ev, p, answer);
  }

  /** The new place belongs to the entry, with its call site, the new site, and status REALLOCATED. */
  lemma NewPlaceAgrees(h: Run, ev: Event, p: int, e: Allocation)
    requires ev.Realloc? && Cover(h, ev.ptr) >= 0 && ev.Target().Contains(p) && Agrees(h, ev.ptr, Some(e))
    ensures Agrees(h + [ev], p, Some(Allocation(ev.Target(), e.callsite, e.reallocationSites + {ev.from}, Reallocated)))
  {
    var h' := h + [ev];
    assert h'[..|h|] == h && h'[|h|] == ev;
    forall y ensures ev.Target().Contains(y) <==> Cover(h', y) == |h| {
      ReallocCovers(h, ev, y);
    }
    forall x ensures ev.Target().Contains(x) <==> Piece(h', x, p) {
      if Piece(h', x, p) {
        assert Cover(h', x) == Cover(h', p);
      }
    }
  }

  /** Other pieces stay as they are. */
  lemma OtherPiece(h: Run, ev: Event, x: int, p: int)
    requires ev.Realloc? && Cover(h, ev.ptr) >= 0 && ClearPlace(h, ev)
    requires !ev.Target().Contains(p) && !Piece(h, ev.ptr, p) && Cover(h, p) >= 0
    ensures Cover(h + [ev], p) == Cover(h, p) && (Piece(h + [ev], x, p) <==> Piece(h, x, p))
  {
    ReallocCovers(h, ev, p);
    if Piece(h, x, p) {
      forall y | Min(x, p) <= y <= Max(x, p) ensures Cover(h + [ev], y) == Cover(h, p) {
        ReallocCovers(h, ev, y);
        assert Piece(h, y, p);
        if Piece(h, ev.ptr, y) {
          PieceJoins(h, ev.ptr, y, p);
        }
      }
    }
    if Piece(h + [ev], x, p) {
      forall y | Min(x, p) <= y <= Max(x, p) ensures Cover(h, y) == Cover(h, p) {
        ReallocCovers(h, ev, y);
        assert Cover(h + [ev], y) == Cover(h, p);
      }
    }
  }

  lemma ReallocAgrees(h: Run, ev: Event, p: int, list: seq<Allocation>)
    requires ev.Realloc? && ValidBlocks(list) && Disjoint(list) && forall q :: Agrees(h, q, Lookup(list, q))
    requires ClearPlace(h, ev) && Disjoint(MarkedReallocated(list, ev.ptr, ev.Target(), ev.from))
    ensures Agrees(h + [ev], p, Lookup(MarkedReallocated(list, ev.ptr, ev.Target(), ev.from), p))
  {
    assert Agrees(h, ev.ptr, Lookup(list, ev.ptr)) && Agrees(h, p, Lookup(list, p));
    if Cover(h, ev.ptr) < 0 {
      UntrackedRealloc(h, ev, p, Lookup(list, p));
    } else {
      var e := list[Find(list, ev.ptr)];
      MarkReallocatedLookup(list, ev.ptr, ev.Target(), ev.from, p);
      ReallocCovers(h, ev, p);
      if ev.Target().Contains(p) {
        NewPlaceAgrees(h, ev, p, e);
      } else if e.memory.Contains(p) {
        assert Piece(h, p, ev.ptr);
        PieceTurns(h, p, ev.ptr);
      } else {
        if Piece(h, ev.ptr, p) {
          PieceTurns(h, ev.ptr, p);
        }
        OtherAgrees(h, ev, p, Lookup(list, p));
      }
    }
  }

  lemma PieceTurns(h: Run, x: int, p: int)
    requires Piece(h, x, p)
    ensures Piece(h, p, x)
  {
    assert Cover(h, x) == Cover(h, p);
  }

  lemma OtherAgrees(h: Run, ev: Event, p: int, answer: Option<Allocation>)
    requires ev.Realloc? && Cover(h, ev.ptr) >= 0 && ClearPlace(h, ev)
    requires !ev.Target().Contains(p) && !Piece(h, ev.ptr, p) && Agrees(h, p, answer)
    ensures Agrees(h + [ev], p, answer)
  {
    ReallocCovers(h, ev, p);
    if Cover(h, p) >= 0 {
      forall x ensures Piece(h + [ev], x, p) <==> Piece(h, x, p) {
        OtherPiece(h, ev, x, p);
      }
      StillAgrees(h, ev, p, answer);
    }
  }

  /** The list stays disjoint if and only if the new place is clear: mark_reallocated's exact condition, in terms of the
      run. */
  lemma DisjointWhenClear(h: Run, ev: Event, list: seq<Allocation>)
    requires ev.Realloc? && ValidBlocks(list) && Disjoint(list) && forall q :: Agrees(h, q, Lookup(list, q))
    ensures Disjoint(MarkedReallocated(list, ev.ptr, ev.Target(), ev.from)) <==> ClearPlace(h, ev)
  {
    assert Agrees(h, ev.ptr, Lookup(list, ev.ptr));
    if Cover(h, ev.ptr) >= 0 {
      var i := Find(list, ev.ptr);
      MarkReallocatedDisjoint(list, ev.ptr, ev.Target(), ev.from);
      if ClearPlace(h, ev) {
        forall j | 0 <= j < |list| && j != i ensures !list[j].memory.Overlaps(ev.Target()) {
          if list[j].memory.Overlaps(ev.Target()) {
            OverlapUnclear(h, ev, list, j);
          }
        }
      }
      if forall j :: 0 <= j < |list| && j != i ==> !list[j].memory.Overlaps(ev.Target()) {
        forall y | ev.Target().Contains(y) && Cover(h, y) >= 0 ensures Piece(h, ev.ptr, y) {
          assert Agrees(h, y, Lookup(list, y));
          assert Find(list, y) == i;
          assert list[i].memory.Contains(y);
          PieceTurns(h, y, ev.ptr);
        }
      }
    }
  }

  lemma OverlapUnclear(h: Run, ev: Event, list: seq<Allocation>, j: nat)
    requires ev.Realloc? && ValidBlocks(list) && Disjoint(list) && forall q :: Agrees(h, q, Lookup(list, q))
    requires Cover(h, ev.ptr) >= 0 && j < |list| && j != Find(list, ev.ptr) && list[j].memory.Overlaps(ev.Target())
    ensures !ClearPlace(h, ev)
  {
    var y := Max(list[j].memory.start, ev.Target().start);
    LookupIs(list, j, y);
    assert Agrees(h, y, Lookup(list, y)) && Agrees(h, ev.ptr, Lookup(list, ev.ptr));
    if Piece(h, ev.ptr, y) {
      assert list[j].memory.Contains(ev.ptr);
      LookupIs(list, j, ev.ptr);
    }
    assert ev.Target().Contains(y);
  }

  /** A new place inside the block itself, as for an in-place shrink, is always clear. */
  lemma ShrinkIsClear(h: Run, ev: Event)
    requires ev.Realloc? && forall y :: ev.Target().Contains(y) ==> Piece(h, ev.ptr, y)
    ensures ClearPlace(h, ev)
  {}

  // ---------- The main result ----------

  /** After any run of malloc, free and realloc that returns and whose reallocs move to clear places, the list is
      disjoint and every lookup agrees with the run. */
  lemma {:induction false} TrackerAgreesWithRun(c: Collision, h: Run)
    requires Returning(c, h) && AllClear(h)
    ensures Disjoint(Tracker(c, h)) && forall p :: Agrees(h, p, Lookup(Tracker(c, h), p))
  {
    if h == [] {
    } else {
      var g, ev := h[..|h| - 1], h[|h| - 1];
      assert h == g + [ev];
      TrackerAgreesWithRun(c, g);
      EventAgrees(c, g, ev, Tracker(c, g));
    }
  }

  function Tracks(c: Collision, list: seq<Allocation>, ev: Event): seq<Allocation>
    requires ValidBlocks(list) && (ev.Heap? && ev.event.Malloc? ==> Settles(c, list, ev.event.Memory()))
  {
    match ev
    case Heap(Malloc(_, _, _)) => Tracked(c, list, ev.event.Entry())
    case Heap(Free(ptr)) => MarkedFree(list, ptr)
    case Realloc(ptr, _, _, from) => MarkedReallocated(list, ptr, ev.Target(), from)
  }

  lemma EventAgrees(c: Collision, h: Run, ev: Event, list: seq<Allocation>)
    requires ValidBlocks(list) && Disjoint(list) && forall p :: Agrees(h, p, Lookup(list, p))
    requires ev.Heap? && ev.event.Malloc? ==> Settles(c, list, ev.event.Memory())
    requires ev.Realloc? ==> ClearPlace(h, ev)
    ensures Disjoint(Tracks(c, list, ev)) && forall p :: Agrees(h + [ev], p, Lookup(Tracks(c, list, ev), p))
  {
    match ev
    case Heap(Malloc(_, _, _)) =>
      TrackNewOverwrites(c, list, ev.event.Entry());
      forall p ensures Agrees(h + [ev], p, Lookup(Tracks(c, list, ev), p)) {
        assert Lookup(Tracks(c, list, ev), p) == Overwritten(list, ev.event.Entry(), p);
        MallocAgrees(h, ev, p, Lookup(list, p));
      }
    case Heap(Free(ptr)) =>
      MarkFreeLookup(list, ptr);
      forall p ensures Agrees(h + [ev], p, Lookup(Tracks(c, list, ev), p)) {
        FreeAgrees(h, ev, p, Lookup(list, p));
      }
    case Realloc(_, _, _, _) =>
      DisjointWhenClear(h, ev, list);
      forall p ensures Agrees(h + [ev], p, Lookup(Tracks(c, list, ev), p)) {
        ReallocAgrees(h, ev, p, list);
      }
  }

  /** After a realloc of a tracked pointer to a clear place, the reallocated allocation is found at exactly the `size`
      addresses from `result` on, what else was of its piece is no longer tracked, and nothing else changes. */
  lemma AfterRealloc(c: Collision, h: Run, ptr: nat, result: nat, size: nat, from: nat, p: int)
    requires Returning(c, h) && AllClear(h) && Cover(h, ptr) >= 0
    requires forall y :: result <= y < result + size ==> Cover(h, y) < 0 || Piece(h, ptr, y)
    ensures var h' := h + [Realloc(ptr, result, size, from)];
            && Returning(c, h') && Lookup(Tracker(c, h), ptr).Some?
            && var e := Lookup(Tracker(c, h), ptr).value;
               Lookup(Tracker(c, h'), p) ==
               if result <= p < result + size then
                 Some(Allocation(Block(result, result + size), e.callsite, e.reallocationSites + {from}, Reallocated))
               else if Piece(h, ptr, p) then None
               else Lookup(Tracker(c, h), p)
  {
    var ev, list := Realloc(ptr, result, size, from), Tracker(c, h);
    assert (h + [ev])[..|h|] == h;
    TrackerAgreesWithRun(c, h);
    assert ev.Target() == Block(result, result + size);
    DisjointWhenClear(h, ev, list);
    InPiece(h, list, ptr, p);
    MarkReallocatedLookup(list, ptr, Block(result, result + size), from, p);
  }

  lemma InPiece(h: Run, list: seq<Allocation>, ptr: int, p: int)
    requires Cover(h, ptr) >= 0 && Agrees(h, ptr, Lookup(list, ptr))
    ensures Lookup(list, ptr).Some? && (Lookup(list, ptr).value.memory.Contains(p) <==> Piece(h, ptr, p))
  {
    if Piece(h, ptr, p) {
      PieceTurns(h, ptr, p);
    }
    if Piece(h, p, ptr) {
      PieceTurns(h, p, ptr);
    }
    assert Lookup(list, ptr).value.memory.Contains(p) <==> Piece(h, p, ptr);
  }

  /** The tracking half of the realloc hook: one event of the run. */
  method ReallocHook(tracker: AllocationList, ptr: nat, result: nat, size: nat, from: nat, ghost c: Collision,
                     ghost h: Run)
    requires Returning(c, h) && tracker.allocations == Tracker(c, h)
    modifies tracker
    ensures Returning(c, h + [Realloc(ptr, result, size, from)])
    ensures tracker.allocations == Tracker(c, h + [Realloc(ptr, result, size, from)])
  {
    assert (h + [Realloc(ptr, result, size, from)])[..|h|] == h;
    tracker.MarkReallocated(ptr, result, from, size);
  }

  ghost predicate AlwaysDisjoint(c: Collision, h: Run)
    requires Returning(c, h)
  {
    Disjoint(Tracker(c, h)) && (h == [] || AlwaysDisjoint(c, h[..|h| - 1]))
  }

  /** The list stays disjoint throughout a run if and only if every realloc moves to a clear place. */
  lemma {:induction false} DisjointExactly(c: Collision, h: Run)
    requires Returning(c, h)
    ensures AlwaysDisjoint(c, h) <==> AllClear(h)
  {
    if h == [] {
    } else {
      var g, ev := h[..|h| - 1], h[|h| - 1];
      assert h == g + [ev];
      DisjointExactly(c, g);
      if AllClear(g) {
        TrackerAgreesWithRun(c, g);
        if ev.Realloc? {
          DisjointWhenClear(g, ev, Tracker(c, g));
        } else {
          TrackerAgreesWithRun(c, h);
        }
      }
    }
  }

  /** After such a run a use after free is seen exactly where the piece was freed since it was given out. */
  lemma UseAfterFreeSeen(c: Collision, h: Run, p: int)
    requires Returning(c, h) && AllClear(h)
    ensures H.Dangling(Tracker(c, h), p) <==> Cover(h, p) >= 0 && FreedPiece(h, p)
  {
    TrackerAgreesWithRun(c, h);
    assert Agrees(h, p, Lookup(Tracker(c, h), p));
  }

  // ---------- Runs without realloc ----------

  function Lifted(h: H.History): (r: Run)
    ensures |r| == |h| && forall k :: 0 <= k < |h| ==> r[k] == Heap(h[k])
  {
    seq(|h|, k requires 0 <= k < |h| => Heap(h[k]))
  }

  /** Without reallocs this is what the history of the heap says. */
  lemma {:induction false} CoverIsLastCover(h: H.History, p: int)
    ensures Cover(Lifted(h), p) == H.LastCover(h, p)
  {
    if h == [] {
    } else {
      CoverIsLastCover(h[..|h| - 1], p);
      assert Lifted(h)[..|h| - 1] == Lifted(h[..|h| - 1]);
    }
  }
}
