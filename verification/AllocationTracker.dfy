/** The list of tracked allocations (win_agent/allocation_tracking/allocation_tracker.cpp). */
module AllocationTracker {
  import opened Common
  import opened Blocks

  datatype Status = Allocated | Reallocated | Freed

  datatype Allocation = Allocation(memory: Block, callsite: nat, reallocationSites: set<nat>, status: Status)

  datatype FreeStatus = OK | DoubleFree | InvalidFree

  /** Which test decides that a tracked block collides with a new one: the code's own, or the evident intent. */
  datatype Collision = AsWritten | HalfOpen

  predicate Collides(c: Collision, e: Block, a: Block) {
    match c
    case AsWritten => e.Intersect(a)
    case HalfOpen => e.Overlaps(a)
  }

  predicate ValidBlocks(list: seq<Allocation>) {
    forall i :: 0 <= i < |list| ==> list[i].memory.Valid()
  }

  predicate Disjoint(list: seq<Allocation>) {
    forall i, j :: 0 <= i < j < |list| ==> !list[i].memory.Overlaps(list[j].memory)
  }

  predicate NoneContains(list: seq<Allocation>, n: int) {
    forall i :: 0 <= i < |list| ==> !list[i].memory.Contains(n)
  }

  // ---------- Looking an address up ----------

  /** AllocationList::find: the first entry that contains `p`, or `|list|`. */
  function Find(list: seq<Allocation>, p: int): (r: nat)
    ensures r <= |list|
    ensures r < |list| ==> list[r].memory.Contains(p)
    ensures forall j :: 0 <= j < r ==> !list[j].memory.Contains(p)
  {
    if |list| == 0 || list[0].memory.Contains(p) then 0 else 1 + Find(list[1..], p)
  }

  function Lookup(list: seq<Allocation>, p: int): Option<Allocation> {
    var i := Find(list, p);
    if i < |list| then Some(list[i]) else None
  }

  /** Among disjoint blocks the order of the list does not matter to a lookup. */
  lemma {:induction false} LookupIs(list: seq<Allocation>, i: nat, p: int)
    requires Disjoint(list) && i < |list| && list[i].memory.Contains(p)
    ensures Find(list, p) == i
  {
    var j := Find(list, p);
    if j < i {
      assert list[j].memory.Overlaps(list[i].memory);
    }
  }

  // ---------- Cutting one entry ----------

  function Leftovers(e: Allocation, window: Block): seq<Allocation> {
    var pieces := Cut(e.memory, window);
    seq(|pieces|, i requires 0 <= i < |pieces| => e.(memory := pieces[i]))
  }

  /** Entry `i` replaced by what the window leaves of it, appended at the end. */
  function Recut(list: seq<Allocation>, i: nat, window: Block): seq<Allocation>
    requires i < |list|
  {
    list[..i] + list[i + 1..] + Leftovers(list[i], window)
  }

  function Collisions(c: Collision, list: seq<Allocation>, window: Block): nat {
    if list == [] then 0
    else (if Collides(c, list[0].memory, window) then 1 else 0) + Collisions(c, list[1..], window)
  }

  lemma {:induction false} CollisionsAppend(c: Collision, x: seq<Allocation>, y: seq<Allocation>, window: Block)
    ensures Collisions(c, x + y, window) == Collisions(c, x, window) + Collisions(c, y, window)
  {
    if x == [] {
      assert x + y == y;
    } else {
      assert (x + y)[1..] == x[1..] + y;
      CollisionsAppend(c, x[1..], y, window);
    }
  }

  lemma {:induction false} NoCollisions(c: Collision, x: seq<Allocation>, window: Block)
    requires forall i :: 0 <= i < |x| ==> !Collides(c, x[i].memory, window)
    ensures Collisions(c, x, window) == 0
  {
    if x == [] {
    } else {
      NoCollisions(c, x[1..], window);
    }
  }

  /** When the scan comes to an end: always for half-open overlap, and for the code's test while no block holds the
      new block's end. */
  predicate Settles(c: Collision, list: seq<Allocation>, window: Block) {
    c.HalfOpen? || NoneContains(list, window.end)
  }

  lemma LeftoversDoNotCollide(c: Collision, e: Allocation, window: Block)
    requires e.memory.Valid() && window.Valid()
    requires c.HalfOpen? || !e.memory.Contains(window.end)
    ensures forall k :: 0 <= k < |Leftovers(e, window)| ==>
              var m := Leftovers(e, window)[k].memory;
              && m.start < m.end && m.Within(e.memory) && !Collides(c, m, window)
  {}

  /** Cutting a colliding entry removes one collision and introduces none. */
  lemma RecutCollisions(c: Collision, list: seq<Allocation>, i: nat, window: Block)
    requires ValidBlocks(list) && window.Valid() && Settles(c, list, window)
    requires i < |list| && Collides(c, list[i].memory, window)
    ensures Collisions(c, Recut(list, i, window), window) == Collisions(c, list, window) - 1
    ensures ValidBlocks(Recut(list, i, window)) && Settles(c, Recut(list, i, window), window)
  {
    var left := Leftovers(list[i], window);
    LeftoversDoNotCollide(c, list[i], window);
    NoCollisions(c, left, window);
    assert list == list[..i] + ([list[i]] + list[i + 1..]);
    CollisionsAppend(c, list[..i], [list[i]] + list[i + 1..], window);
    CollisionsAppend(c, [list[i]], list[i + 1..], window);
    CollisionsAppend(c, list[..i] + list[i + 1..], left, window);
    CollisionsAppend(c, list[..i], list[i + 1..], window);
    assert Collisions(c, [list[i]], window) == 1;
  }

  /** Every entry of the recut list is an untouched one or a piece of entry `i`. */
  lemma RecutOrigin(list: seq<Allocation>, i: nat, window: Block, k: nat) returns (j: nat)
    requires i < |list| && k < |Recut(list, i, window)|
    ensures j < |list|
    ensures k < |list| - 1 ==> j != i && Recut(list, i, window)[k] == list[j] && j == (if k < i then k else k + 1)
    ensures k >= |list| - 1 ==> j == i && Recut(list, i, window)[k] == Leftovers(list[i], window)[k - (|list| - 1)]
  {
    j := if k < i then k else if k < |list| - 1 then k + 1 else i;
  }

  lemma {:induction false} RecutDisjoint(list: seq<Allocation>, i: nat, window: Block)
    requires ValidBlocks(list) && Disjoint(list) && window.Valid() && i < |list|
    ensures Disjoint(Recut(list, i, window))
  {
    var r := Recut(list, i, window);
    CutPieces(list[i].memory, window);
    forall k, l | 0 <= k < l < |r| ensures !r[k].memory.Overlaps(r[l].memory) {
      var j := RecutOrigin(list, i, window, k);
      var m := RecutOrigin(list, i, window, l);
      if l < |list| - 1 {
        assert !list[j].memory.Overlaps(list[m].memory);
      } else if k < |list| - 1 {
        assert r[l].memory.Within(list[i].memory);
        assert if j < i then !list[j].memory.Overlaps(list[i].memory) else !list[i].memory.Overlaps(list[j].memory);
      }
    }
  }

  // ---------- The scan of track_new ----------

  /** The loop of track_new: cut the first colliding entry from `i` on, then start over. */
  function Settle(c: Collision, list: seq<Allocation>, i: nat, window: Block): seq<Allocation>
    requires ValidBlocks(list) && window.Valid() && Settles(c, list, window) && i <= |list|
    decreases Collisions(c, list, window), |list| - i
  {
    if i == |list| then list
    else if Collides(c, list[i].memory, window) then
      RecutCollisions(c, list, i, window);
      Settle(c, Recut(list, i, window), 0, window)
    else Settle(c, list, i + 1, window)
  }

  function Tracked(c: Collision, list: seq<Allocation>, a: Allocation): seq<Allocation>
    requires ValidBlocks(list) && a.memory.Valid() && Settles(c, list, a.memory)
  {
    Settle(c, list, 0, a.memory) + [a]
  }

  /** What an entry that covers `p` becomes when `window`, which does not cover `p`, is cut out of it. */
  function Trim(e: Allocation, window: Block, p: int): Allocation
    requires e.memory.Contains(p) && !window.Contains(p)
  {
    if !e.memory.Overlaps(window) then e
    else if p < window.start then e.(memory := Block(e.memory.start, window.start))
    else e.(memory := Block(window.end, e.memory.end))
  }

  /** The answer a lookup of `p` must give once `a` is tracked: pointwise overwriting. */
  function Overwritten(list: seq<Allocation>, a: Allocation, p: int): Option<Allocation> {
    if a.memory.Contains(p) then Some(a)
    else match Lookup(list, p)
         case None => None
         case Some(e) => Some(Trim(e, a.memory, p))
  }

  /** Whatever the entries overlap, those left by the scan are valid blocks clear of the window. */
  lemma {:induction false} SettleClears(c: Collision, list: seq<Allocation>, i: nat, window: Block)
    requires ValidBlocks(list) && window.Valid() && Settles(c, list, window)
    requires i <= |list| && CleanUpTo(c, list, i, window)
    ensures ValidBlocks(Settle(c, list, i, window))
    ensures CleanUpTo(c, Settle(c, list, i, window), |Settle(c, list, i, window)|, window)
    decreases Collisions(c, list, window), |list| - i
  {
    if i == |list| {
    } else if Collides(c, list[i].memory, window) {
      RecutCollisions(c, list, i, window);
      SettleClears(c, Recut(list, i, window), 0, window);
    } else {
      SettleClears(c, list, i + 1, window);
    }
  }

  lemma TrackedValid(c: Collision, list: seq<Allocation>, a: Allocation)
    requires ValidBlocks(list) && a.memory.Valid() && Settles(c, list, a.memory)
    ensures ValidBlocks(Tracked(c, list, a))
  {
    SettleClears(c, list, 0, a.memory);
  }

  predicate CleanUpTo(c: Collision, list: seq<Allocation>, i: nat, window: Block)
    requires i <= |list|
  {
    forall j :: 0 <= j < i ==> !Collides(c, list[j].memory, window)
  }

  /** Cutting an entry trims it at the addresses outside the window and leaves every other lookup alone. */
  lemma RecutLookup(c: Collision, list: seq<Allocation>, i: nat, window: Block, p: int)
    requires ValidBlocks(list) && Disjoint(list) && window.Valid() && Settles(c, list, window)
    requires i < |list| && Collides(c, list[i].memory, window) && !window.Contains(p)
    ensures Lookup(Recut(list, i, window), p) ==
            match Lookup(list, p)
            case None => None
            case Some(e) => if list[i].memory.Contains(p) then Some(Trim(e, window, p)) else Some(e)
  {
    var r := Recut(list, i, window);
    RecutDisjoint(list, i, window);
    var j := Find(list, p);
    if list[i].memory.Contains(p) {
      LookupIs(list, i, p);
      var pieces := Cut(list[i].memory, window);
      CutIsDifference(list[i].memory, window);
      var k := if p < window.start then 0 else |pieces| - 1;
      assert Covered(pieces, p);
      assert pieces[k].Contains(p);
      assert r[|list| - 1 + k] == list[i].(memory := pieces[k]);
      LookupIs(r, |list| - 1 + k, p);
    } else if j < |list| {
      var k := if j < i then j else j - 1;
      assert r[k] == list[j];
      LookupIs(r, k, p);
    } else {
      CutPieces(list[i].memory, window);
      forall k | 0 <= k < |r| ensures !r[k].memory.Contains(p) {
        var o := RecutOrigin(list, i, window, k);
        assert !list[o].memory.Contains(p);
      }
    }
  }

  /** The scan's result: still disjoint, clear of the window, and trimmed pointwise. */
  lemma {:induction false} SettleLookup(c: Collision, list: seq<Allocation>, i: nat, window: Block)
    requires ValidBlocks(list) && Disjoint(list) && window.Valid() && Settles(c, list, window)
    requires i <= |list| && CleanUpTo(c, list, i, window)
    ensures ValidBlocks(Settle(c, list, i, window)) && Disjoint(Settle(c, list, i, window))
    ensures forall k :: 0 <= k < |Settle(c, list, i, window)| ==> !Settle(c, list, i, window)[k].memory.Overlaps(window)
    ensures forall p :: !window.Contains(p) ==>
              Lookup(Settle(c, list, i, window), p) ==
              match Lookup(list, p) case None => None case Some(e) => Some(Trim(e, window, p))
    decreases Collisions(c, list, window), |list| - i
  {
    if i == |list| {
    } else if Collides(c, list[i].memory, window) {
      RecutCollisions(c, list, i, window);
      RecutDisjoint(list, i, window);
      SettleLookup(c, Recut(list, i, window), 0, window);
      forall p | !window.Contains(p)
        ensures Lookup(Settle(c, list, i, window), p) ==
                match Lookup(list, p) case None => None case Some(e) => Some(Trim(e, window, p))
      {
        RecutLookup(c, list, i, window, p);
      }
    } else {
      SettleLookup(c, list, i + 1, window);
    }
  }

  /** track_new keeps the list disjoint and is a pointwise overwrite, under either collision test. */
  lemma TrackNewOverwrites(c: Collision, list: seq<Allocation>, a: Allocation)
    requires ValidBlocks(list) && Disjoint(list) && a.memory.Valid() && Settles(c, list, a.memory)
    ensures ValidBlocks(Tracked(c, list, a)) && Disjoint(Tracked(c, list, a))
    ensures forall p :: Lookup(Tracked(c, list, a), p) == Overwritten(list, a, p)
  {
    SettleLookup(c, list, 0, a.memory);
    var kept := Settle(c, list, 0, a.memory);
    var r := Tracked(c, list, a);
    assert Disjoint(r);
    forall p ensures Lookup(r, p) == Overwritten(list, a, p) {
      if a.memory.Contains(p) {
        LookupIs(r, |kept|, p);
      } else {
        var k := Find(kept, p);
        if k < |kept| {
          assert r[k] == kept[k];
          LookupIs(r, k, p);
        } else {
          assert forall l :: 0 <= l < |kept| ==> r[l] == kept[l];
        }
      }
    }
  }

  // ---------- The ASSERT in track_new ----------

  /** Every entry that collides and leaves a piece is FREED: what the ASSERT demands. */
  predicate CutsFreed(c: Collision, list: seq<Allocation>, window: Block) {
    forall i :: 0 <= i < |list| && Collides(c, list[i].memory, window) && Cut(list[i].memory, window) != []
                ==> list[i].status.Freed?
  }

  lemma RecutCutsFreed(c: Collision, list: seq<Allocation>, i: nat, window: Block)
    requires ValidBlocks(list) && window.Valid() && Settles(c, list, window)
    requires i < |list| && Collides(c, list[i].memory, window)
    ensures CutsFreed(c, list, window) <==>
            (Cut(list[i].memory, window) == [] || list[i].status.Freed?) && CutsFreed(c, Recut(list, i, window), window)
  {
    var r := Recut(list, i, window);
    LeftoversDoNotCollide(c, list[i], window);
    if CutsFreed(c, list, window) {
      forall k | 0 <= k < |r| && Collides(c, r[k].memory, window) && Cut(r[k].memory, window) != []
        ensures r[k].status.Freed?
      {
        var j := RecutOrigin(list, i, window, k);
        assert list[j].status.Freed?;
      }
    }
    if (Cut(list[i].memory, window) == [] || list[i].status.Freed?) && CutsFreed(c, r, window) {
      forall j | 0 <= j < |list| && Collides(c, list[j].memory, window) && Cut(list[j].memory, window) != []
        ensures list[j].status.Freed?
      {
        if j != i {
          var k := if j < i then j else j - 1;
          assert r[k] == list[j];
        }
      }
    }
  }

  // ---------- Termination of track_new ----------

  /** The state between two rounds of the loop of track_new: the list, the scan position, and whether every ASSERT
      met so far held. */
  datatype Scan =
    | Scanning(list: seq<Allocation>, next: nat, asserted: bool)
    | Returned(list: seq<Allocation>, asserted: bool)

  function ScanStep(c: Collision, a: Allocation, s: Scan): Scan {
    match s
    case Returned(_, _) => s
    case Scanning(list, next, asserted) =>
      if next >= |list| then Returned(list + [a], asserted)
      else if Collides(c, list[next].memory, a.memory) then
        Scanning(Recut(list, next, a.memory), 0,
                 asserted && (Cut(list[next].memory, a.memory) == [] || list[next].status.Freed?))
      else Scanning(list, next + 1, asserted)
  }

  function Scans(c: Collision, a: Allocation, s: Scan, n: nat): Scan
    decreases n
  {
    if n == 0 then s else Scans(c, a, ScanStep(c, a, s), n - 1)
  }

  ghost predicate Returns(c: Collision, list: seq<Allocation>, a: Allocation) {
    exists n: nat :: Scans(c, a, Scanning(list, 0, true), n).Returned?
  }

  lemma ScansNext(c: Collision, a: Allocation, s: Scan, n: nat) returns (m: nat)
    ensures m == n + 1 && Scans(c, a, s, m) == Scans(c, a, ScanStep(c, a, s), n)
  {
    m := n + 1;
  }

  /** A scan that settles returns the settled list, and its ASSERTs held exactly when every cut entry was FREED. */
  lemma {:induction false} ScansSettle(c: Collision, a: Allocation, list: seq<Allocation>, i: nat, asserted: bool)
    returns (n: nat)
    requires ValidBlocks(list) && a.memory.Valid() && Settles(c, list, a.memory)
    requires i <= |list| && CleanUpTo(c, list, i, a.memory)
    ensures Scans(c, a, Scanning(list, i, asserted), n)
            == Returned(Settle(c, list, i, a.memory) + [a], asserted && CutsFreed(c, list, a.memory))
    decreases Collisions(c, list, a.memory), |list| - i
  {
    var s := Scanning(list, i, asserted);
    if i == |list| {
      n := 0;
    } else if Collides(c, list[i].memory, a.memory) {
      var held := Cut(list[i].memory, a.memory) == [] || list[i].status.Freed?;
      RecutCollisions(c, list, i, a.memory);
      RecutCutsFreed(c, list, i, a.memory);
      n := ScansSettle(c, a, Recut(list, i, a.memory), 0, asserted && held);
    } else {
      n := ScansSettle(c, a, list, i + 1, asserted);
    }
    n := ScansNext(c, a, s, n);
  }

  predicate HoldsFrom(list: seq<Allocation>, i: nat, p: int) {
    exists j :: i <= j < |list| && list[j].memory.Contains(p)
  }

  /** With the code's test, a block that holds the new block's end leaves a piece that holds it again: the scan never
      gets past it. */
  lemma {:induction false} ScansForever(a: Allocation, s: Scan, n: nat)
    requires s.Scanning? && HoldsFrom(s.list, s.next, a.memory.end)
    ensures Scans(AsWritten, a, s, n).Scanning?
    decreases n
  {
    if n == 0 {
    } else {
      var list, i, end := s.list, s.next, a.memory.end;
      var j :| i <= j < |list| && list[j].memory.Contains(end);
      var s' := ScanStep(AsWritten, a, s);
      if list[i].memory.Intersect(a.memory) {
        if list[i].memory.Contains(end) {
          var pieces := Cut(list[i].memory, a.memory);
          assert pieces[|pieces| - 1] == Block(end, list[i].memory.end);
          assert s'.list[|s'.list| - 1].memory.Contains(end);
        } else {
          assert s'.list[j - 1] == list[j];
        }
      } else {
        assert s'.list[j].memory.Contains(end);
      }
      assert HoldsFrom(s'.list, s'.next, end);
      ScansForever(a, s', n - 1);
    }
  }

  lemma {:induction false} ReturnedStays(c: Collision, a: Allocation, s: Scan, n: nat, m: nat)
    requires Scans(c, a, s, n).Returned? && n <= m
    ensures Scans(c, a, s, m) == Scans(c, a, s, n)
    decreases n, m
  {
    if m == 0 {
    } else if n > 0 {
      ReturnedStays(c, a, ScanStep(c, a, s), n - 1, m - 1);
    } else {
      ReturnedStays(c, a, ScanStep(c, a, s), 0, m - 1);
    }
  }

  /** Exact termination of track_new as written: it returns if and only if no tracked block contains the new block's
      end. */
  lemma AsWrittenReturns(list: seq<Allocation>, a: Allocation)
    requires ValidBlocks(list) && a.memory.Valid()
    ensures Returns(AsWritten, list, a) <==> NoneContains(list, a.memory.end)
  {
    if NoneContains(list, a.memory.end) {
      var n := ScansSettle(AsWritten, a, list, 0, true);
    } else {
      forall n: nat ensures !Scans(AsWritten, a, Scanning(list, 0, true), n).Returned? {
        ScansForever(a, Scanning(list, 0, true), n);
      }
    }
  }

  /** With half-open overlap track_new always returns. */
  lemma HalfOpenReturns(list: seq<Allocation>, a: Allocation)
    requires ValidBlocks(list) && a.memory.Valid()
    ensures Returns(HalfOpen, list, a)
  {
    var n := ScansSettle(HalfOpen, a, list, 0, true);
  }

  /** Whatever the loop returns is Tracked's list, and no ASSERT failed exactly when every cut entry was FREED. */
  lemma ReturnsTracked(c: Collision, list: seq<Allocation>, a: Allocation, n: nat)
    requires ValidBlocks(list) && a.memory.Valid()
    requires Scans(c, a, Scanning(list, 0, true), n).Returned?
    ensures Settles(c, list, a.memory)
    ensures Scans(c, a, Scanning(list, 0, true), n)
            == Returned(Tracked(c, list, a), CutsFreed(c, list, a.memory))
  {
    if c.AsWritten? {
      assert Returns(c, list, a);
      AsWrittenReturns(list, a);
    }
    var m := ScansSettle(c, a, list, 0, true);
    if n <= m {
      ReturnedStays(c, a, Scanning(list, 0, true), n, m);
    } else {
      ReturnedStays(c, a, Scanning(list, 0, true), m, n);
    }
  }

  /** A tracked block right behind the new one is enough: malloc(16) twice, the later block below the earlier, and
      track_new does not return although the blocks are disjoint. */
  lemma AdjacentBlockNeverReturns(low: nat, size: nat, upper: nat, callsite: nat)
    requires size > 0 && upper > 0
    ensures var list := [Allocation(Block(low + size, low + size + upper), callsite, {}, Freed)];
            var a := Allocation(Block(low, low + size), callsite, {}, Allocated);
            !list[0].memory.Overlaps(a.memory) && !Returns(AsWritten, list, a)
  {
    var list := [Allocation(Block(low + size, low + size + upper), callsite, {}, Freed)];
    var a := Allocation(Block(low, low + size), callsite, {}, Allocated);
    AsWrittenReturns(list, a);
    assert list[0].memory.Contains(a.memory.end);
  }

  // ---------- mark_free and mark_reallocated ----------

  function MarkedFree(list: seq<Allocation>, p: int): seq<Allocation> {
    var i := Find(list, p);
    if i < |list| then list[i := list[i].(status := Freed)] else list
  }

  function MarkedReallocated(list: seq<Allocation>, block: int, target: Block, from: nat): seq<Allocation> {
    var i := Find(list, block);
    if i < |list| then
      list[i := Allocation(target, list[i].callsite, list[i].reallocationSites + {from}, Reallocated)]
    else list
  }

  /** Freeing marks the one block around `p` and changes no other lookup. */
  lemma {:induction false} MarkFreeLookup(list: seq<Allocation>, p: int)
    requires ValidBlocks(list) && Disjoint(list)
    ensures ValidBlocks(MarkedFree(list, p)) && Disjoint(MarkedFree(list, p))
    ensures forall q :: Lookup(MarkedFree(list, p), q) ==
              match Lookup(list, q)
              case None => None
              case Some(e) => Some(if e.memory.Contains(p) then e.(status := Freed) else e)
  {
    var r := MarkedFree(list, p);
    assert |r| == |list| && forall i :: 0 <= i < |r| ==> r[i].memory == list[i].memory;
    forall q ensures Lookup(r, q) == match Lookup(list, q)
                                     case None => None
                                     case Some(e) => Some(if e.memory.Contains(p) then e.(status := Freed) else e)
    {
      var i := Find(list, q);
      if i < |list| {
        LookupIs(r, i, q);
        if list[i].memory.Contains(p) {
          LookupIs(list, i, p);
        }
      }
    }
  }

  /** mark_reallocated keeps disjointness exactly when the new range overlaps no other entry. */
  lemma MarkReallocatedDisjoint(list: seq<Allocation>, block: int, target: Block, from: nat)
    requires ValidBlocks(list) && Disjoint(list) && target.Valid() && Find(list, block) < |list|
    ensures Disjoint(MarkedReallocated(list, block, target, from)) <==>
            forall j :: 0 <= j < |list| && j != Find(list, block) ==> !list[j].memory.Overlaps(target)
  {
    var i := Find(list, block);
    var r := MarkedReallocated(list, block, target, from);
    if Disjoint(r) {
      forall j | 0 <= j < |list| && j != i ensures !list[j].memory.Overlaps(target) {
        assert r[j] == list[j] && r[i].memory == target;
        assert if j < i then !r[j].memory.Overlaps(r[i].memory) else !r[i].memory.Overlaps(r[j].memory);
      }
    }
  }

  /** ... and then the old range is forgotten, the new range maps to the entry with the site added, and nothing else
      changes. In particular an address of the old range outside the new one is no longer tracked. */
  lemma MarkReallocatedLookup(list: seq<Allocation>, block: int, target: Block, from: nat, p: int)
    requires ValidBlocks(list) && Disjoint(list) && target.Valid() && Find(list, block) < |list|
    requires Disjoint(MarkedReallocated(list, block, target, from))
    ensures var e := list[Find(list, block)];
            Lookup(MarkedReallocated(list, block, target, from), p) ==
            if target.Contains(p) then
              Some(Allocation(target, e.callsite, e.reallocationSites + {from}, Reallocated))
            else if e.memory.Contains(p) then None
            else Lookup(list, p)
  {
    var i := Find(list, block);
    var r := MarkedReallocated(list, block, target, from);
    if target.Contains(p) {
      LookupIs(r, i, p);
    } else if list[i].memory.Contains(p) {
      LookupIs(list, i, p);
      forall k | 0 <= k < |r| ensures !r[k].memory.Contains(p) {
        if k != i && list[k].memory.Contains(p) {
          LookupIs(list, k, p);
          assert false;
        }
      }
    } else {
      var k := Find(list, p);
      if k < |list| {
        LookupIs(r, k, p);
      } else {
        assert forall j :: 0 <= j < |r| && j != i ==> r[j] == list[j];
      }
    }
  }

  /** Without that condition: a lookup in the new range finds the reallocated entry exactly when no earlier entry, a
      freed one for instance, contains the address. */
  lemma MarkReallocatedSeen(list: seq<Allocation>, block: int, target: Block, from: nat, p: int)
    requires Find(list, block) < |list| && target.Contains(p)
    ensures var i := Find(list, block);
            Find(MarkedReallocated(list, block, target, from), p) == i <==>
            forall j :: 0 <= j < i ==> !list[j].memory.Contains(p)
  {
    var i, r := Find(list, block), MarkedReallocated(list, block, target, from);
    var k := Find(r, p);
    assert r[i].memory == target && forall j :: 0 <= j < i ==> r[j] == list[j];
    assert k < i ==> list[k].memory.Contains(p);
  }

  /** An in-place shrink always keeps disjointness. */
  lemma {:induction false} ShrinkKeepsDisjoint(list: seq<Allocation>, block: int, target: Block, from: nat)
    requires ValidBlocks(list) && Disjoint(list) && target.Valid() && Find(list, block) < |list|
    requires target.Within(list[Find(list, block)].memory)
    ensures Disjoint(MarkedReallocated(list, block, target, from))
  {
    var i := Find(list, block);
    forall j | 0 <= j < |list| && j != i ensures !list[j].memory.Overlaps(target) {
      assert if j < i then !list[j].memory.Overlaps(list[i].memory) else !list[i].memory.Overlaps(list[j].memory);
    }
    MarkReallocatedDisjoint(list, block, target, from);
  }

  // ---------- The class ----------

  class AllocationList {
    var allocations: seq<Allocation>

    constructor ()
      ensures allocations == []
    {
      allocations := [];
    }

    method FindIndex(p: int) returns (i: nat)
      ensures i == Find(allocations, p)
    {
      i := 0;
      while i < |allocations| && !allocations[i].memory.Contains(p)
        invariant i <= |allocations|
        invariant forall j :: 0 <= j < i ==> !allocations[j].memory.Contains(p)
      {
        i := i + 1;
      }
    }

    method LookupAlloc(p: int) returns (r: Option<Allocation>)
      ensures r == Lookup(allocations, p)
    {
      var i := FindIndex(p);
      r := if i < |allocations| then Some(allocations[i]) else None;
    }

    /** The body of the loop of track_new for a colliding entry: append its left-overs, then erase it. */
    method Replace(i: nat, window: Block) returns (asserted: bool)
      requires i < |allocations|
      modifies this
      ensures allocations == Recut(old(allocations), i, window)
      ensures asserted <==> Cut(old(allocations)[i].memory, window) == [] || old(allocations)[i].status.Freed?
    {
      asserted := true;
      var cuts := Cut(allocations[i].memory, window);
      for k := 0 to |cuts|
        invariant allocations == old(allocations) + Leftovers(old(allocations)[i], window)[..k]
        invariant asserted <==> k == 0 || old(allocations)[i].status.Freed?
      {
        asserted := asserted && allocations[i].status.Freed?;
        allocations := allocations + [allocations[i].(memory := cuts[k])];
      }
      allocations := allocations[..i] + allocations[i + 1..];
    }

    /** Tracks `a`. `asserted` tells whether every ASSERT met on the way held. The precondition is exactly what the
        code needs to return (AsWrittenReturns); with half-open overlap there is none. */
    method TrackNew(c: Collision, a: Allocation) returns (asserted: bool)
      requires ValidBlocks(allocations) && a.memory.Valid()
      requires c.AsWritten? ==> NoneContains(allocations, a.memory.end)
      modifies this
      ensures allocations == Tracked(c, old(allocations), a) && ValidBlocks(allocations)
      ensures old(Disjoint(allocations)) ==>
                Disjoint(allocations) && forall p :: Lookup(allocations, p) == Overwritten(old(allocations), a, p)
      ensures asserted <==> CutsFreed(c, old(allocations), a.memory)
    {
      asserted := true;
      var i := 0;
      while i < |allocations|
        invariant 0 <= i <= |allocations| && ValidBlocks(allocations) && Settles(c, allocations, a.memory)
        invariant Settle(c, allocations, i, a.memory) == Settle(c, old(allocations), 0, a.memory)
        invariant CutsFreed(c, old(allocations), a.memory) <==> asserted && CutsFreed(c, allocations, a.memory)
        invariant CleanUpTo(c, allocations, i, a.memory)
        decreases Collisions(c, allocations, a.memory), |allocations| - i
      {
        if Collides(c, allocations[i].memory, a.memory) {
          RecutCollisions(c, allocations, i, a.memory);
          RecutCutsFreed(c, allocations, i, a.memory);
          var held := Replace(i, a.memory);
          asserted := asserted && held;
          i := 0;
        } else {
          i := i + 1;
        }
      }
      allocations := allocations + [a];
      TrackedValid(c, old(allocations), a);
      if old(Disjoint(allocations)) {
        TrackNewOverwrites(c, old(allocations), a);
      }
    }

    /** In whatever order and however overlapping, the first entry that contains `p` decides. */
    method MarkFree(p: int) returns (r: FreeStatus)
      modifies this
      ensures allocations == MarkedFree(old(allocations), p)
      ensures r == match Lookup(old(allocations), p)
                   case None => InvalidFree
                   case Some(e) => if e.status.Freed? then DoubleFree else OK
    {
      var i := FindIndex(p);
      if i == |allocations| {
        return InvalidFree;
      }
      if allocations[i].status.Freed? {
        assert allocations[i].(status := Freed) == allocations[i];
        return DoubleFree;
      }
      allocations := allocations[i := allocations[i].(status := Freed)];
      return OK;
    }

    /** Disjointness survives exactly when the new range is clear of the other entries (MarkReallocatedDisjoint). */
    method MarkReallocated(block: int, newBlock: nat, from: nat, newSize: nat)
      modifies this
      ensures allocations ==
              MarkedReallocated(old(allocations), block, Block(newBlock, newBlock + newSize), from)
    {
      var i := FindIndex(block);
      if i == |allocations| {
        return;
      }
      allocations := allocations[i := allocations[i].(status := Reallocated)];
      allocations := allocations[i := allocations[i].(memory := Block(newBlock, newBlock + newSize))];
      allocations := allocations[i := allocations[i].(reallocationSites := allocations[i].reallocationSites + {from})];
    }
  }
}
