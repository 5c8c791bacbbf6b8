/** Finding runs of code pointers in a data section (win_agent/rtti/rtti_analyzer.cpp:12-38). */
module DispatchTables {
  import opened Common
  import opened Blocks

  const WORD: nat := 8

  /** What is scanned: the u64 at every address, the containing section and the section pointed into. */
  datatype Scan = Scan(word: int -> nat, containing: Block, pointing: Block, minimum: nat) {
    /** `containing_section.end - sizeof(u64)`: a u64, so a section ending below 8 has no proper limit. */
    predicate Proper() {
      containing.Valid() && WORD <= containing.end < TWO_TO_64
    }

    function Limit(): nat
      requires Proper()
    {
      containing.end - WORD
    }

    /** The number of word slots that begin strictly below the limit. */
    function Slots(): nat
      requires Proper()
    {
      if Limit() <= containing.start then 0 else (Limit() - containing.start + WORD - 1) / WORD
    }

    function At(k: int): int {
      containing.start + WORD * k
    }

    predicate Points(k: int) {
      pointing.Contains(word(At(k)))
    }

    /** Slots i to j, j excluded, all point and neither neighbour does. */
    predicate MaximalRun(i: int, j: int)
      requires Proper()
    {
      && 0 <= i < j <= Slots()
      && (forall k :: i <= k < j ==> Points(k))
      && (i == 0 || !Points(i - 1))
      && (j == Slots() || !Points(j))
    }

    /** A table ending at slot `n` or before: a maximal run of at least the minimum size. */
    ghost predicate TableUpTo(b: Block, n: int)
      requires Proper()
    {
      exists i, j :: MaximalRun(i, j) && j <= n && j - i >= minimum && b.start == At(i) && b.end == At(j)
    }

    ghost predicate Table(b: Block)
      requires Proper()
    {
      TableUpTo(b, Slots())
    }

    /** Every maximal run that begins before slot `n` has been passed, or is too short. */
    predicate Passed(n: int)
      requires Proper()
    {
      forall i, j :: 0 <= i < n && i < j <= Slots() && MaximalRun(i, j) ==> j <= n || j - i < minimum
    }
  }

  /** A std::set ordered by the start of a block turns away a block with the start of one it has. */
  predicate HasStart(tables: set<Block>, start: int) {
    exists x :: x in tables && x.start == start
  }

  function Emplace(tables: set<Block>, b: Block): set<Block> {
    if HasStart(tables, b.start) then tables else tables + {b}
  }

  /** Slots and addresses: the scan stands on slot k exactly when k is below the number of slots. */
  lemma SlotsLimit(s: Scan, k: nat)
    requires s.Proper()
    ensures s.At(k) < s.Limit() <==> k < s.Slots()
  {}

  /** Two maximal runs are the same or have a slot between them that belongs to neither. */
  lemma RunsApart(s: Scan, i: int, j: int, k: int, l: int)
    requires s.Proper() && s.MaximalRun(i, j) && s.MaximalRun(k, l)
    ensures (i == k && j == l) || j < k || l < i
  {
    assert (i > 0 ==> !s.Points(i - 1)) && (k > 0 ==> !s.Points(k - 1));
    assert (j < s.Slots() ==> !s.Points(j)) && (l < s.Slots() ==> !s.Points(l));
  }

  /** So tables are disjoint and have distinct starts: the set never turns one away. */
  lemma TablesApart(s: Scan, a: Block, b: Block)
    requires s.Proper() && s.Table(a) && s.Table(b) && a != b
    ensures !a.Overlaps(b) && a.start != b.start
  {
    var i, j :| s.MaximalRun(i, j) && j <= s.Slots() && a.start == s.At(i) && a.end == s.At(j);
    var k, l :| s.MaximalRun(k, l) && l <= s.Slots() && b.start == s.At(k) && b.end == s.At(l);
    RunsApart(s, i, j, k, l);
    assert (i == k && j == l) || s.At(j) < s.At(k) || s.At(l) < s.At(i);
  }

  /** A long enough run of pointers from slot i to j, met by the scan, is a maximal one: a longer run around it would
      have been passed. */
  lemma RunStarts(s: Scan, i: int, j: int)
    requires s.Proper() && s.Passed(i) && 0 <= i < j <= s.Slots() && j - i >= s.minimum
    requires (forall k :: i <= k < j ==> s.Points(k)) && (j == s.Slots() || !s.Points(j))
    ensures s.MaximalRun(i, j)
  {
    if i > 0 && s.Points(i - 1) {
      var a := RunBegin(s, i - 1, j);
      assert s.MaximalRun(a, j);
      assert false;
    }
  }

  lemma {:induction false} RunBegin(s: Scan, i: int, j: int) returns (a: int)
    requires s.Proper() && 0 <= i < j <= s.Slots()
    requires forall k :: i <= k < j ==> s.Points(k)
    ensures 0 <= a <= i && (a == 0 || !s.Points(a - 1)) && forall k :: a <= k < j ==> s.Points(k)
    decreases i
  {
    if i == 0 || !s.Points(i - 1) {
      a := i;
    } else {
      a := RunBegin(s, i - 1, j);
    }
  }

  /** After the run from i to j: a table if it is long enough, and nothing else ends in between. */
  lemma PassLong(s: Scan, i: int, j: int, b: Block)
    requires s.Proper() && s.Passed(i) && s.MaximalRun(i, j) && j - i >= s.minimum
    ensures s.Passed(j)
    ensures s.TableUpTo(b, j) <==> s.TableUpTo(b, i) || (b.start == s.At(i) && b.end == s.At(j))
  {
    forall k, l | 0 <= k < j && k < l <= s.Slots() && s.MaximalRun(k, l) ensures l <= j || l - k < s.minimum {
      RunsApart(s, i, j, k, l);
    }
    if s.TableUpTo(b, j) {
      var k, l :| s.MaximalRun(k, l) && l <= j && l - k >= s.minimum && b.start == s.At(k) && b.end == s.At(l);
      RunsApart(s, i, j, k, l);
    }
  }

  lemma PassShort(s: Scan, i: int, j: int, b: Block)
    requires s.Proper() && s.Passed(i) && 0 <= i < s.Slots() && i <= j <= s.Slots() && j - i < s.minimum
    requires j == s.Slots() || !s.Points(j)
    ensures s.Passed(i + 1)
    ensures s.TableUpTo(b, i + 1) <==> s.TableUpTo(b, i)
  {
    assert j < s.Slots() ==> !s.Points(j);
    forall k, l | 0 <= k < i + 1 && k < l <= s.Slots() && s.MaximalRun(k, l) ensures l <= i + 1 || l - k < s.minimum
    {}
    if s.TableUpTo(b, i + 1) {
      var k, l :| s.MaximalRun(k, l) && l <= i + 1 && l - k >= s.minimum && b.start == s.At(k) && b.end == s.At(l);
      assert l <= i;
    }
  }

  /** What may be read for `n` slots. */
  function Allowance(m: nat, n: nat): nat {
    if n == 0 then 0 else Allowance(m, n - 1) + Max(2, m)
  }

  lemma {:induction false} AllowanceIs(m: nat, n: nat)
    ensures Allowance(m, n) == Max(2, m) * n
  {
    if n == 0 {
    } else {
      AllowanceIs(m, n - 1);
    }
  }

  /** A run long enough may be read to its end and one word further. */
  lemma {:induction false} AllowanceLong(m: nat, i: nat, found: nat)
    ensures Allowance(m, i) + 2 * found <= Allowance(m, i + found)
    decreases found
  {
    if found == 0 {
    } else {
      AllowanceLong(m, i, found - 1);
    }
  }

  /** The inner loop of find_pointer_tables, from the slot `i` at `addr`. */
  method FollowRun(s: Scan, addr: nat, ghost i: nat) returns (inside: nat, found: nat, wordsRead: nat)
    requires s.Proper() && i < s.Slots() && addr == s.At(i)
    ensures inside == s.At(i + found) && i + found <= s.Slots()
    ensures forall k :: i <= k < i + found ==> s.Points(k)
    ensures i + found == s.Slots() || !s.Points(i + found)
    ensures wordsRead <= found + 1
  {
    inside, found, wordsRead := addr, 0, 0;
    while inside < s.containing.end - WORD
      invariant inside == s.At(i + found) && i + found <= s.Slots()
      invariant forall k :: i <= k < i + found ==> s.Points(k)
      invariant wordsRead == found
      decreases s.Slots() - i - found
    {
      SlotsLimit(s, i + found);
      wordsRead := wordsRead + 1;
      if !s.pointing.Contains(s.word(inside)) {
        return;
      }
      found := found + 1;
      inside := inside + WORD;
    }
    SlotsLimit(s, i + found);
  }

  /** The set is the one given and the tables that end by slot `n`, without those whose start it had. */
  ghost predicate Exact(s: Scan, before: set<Block>, tables: set<Block>, n: int)
    requires s.Proper()
  {
    forall b {:trigger ExactAt(s, before, tables, n, b)} :: ExactAt(s, before, tables, n, b)
  }

  ghost predicate ExactAt(s: Scan, before: set<Block>, tables: set<Block>, n: int, b: Block)
    requires s.Proper()
  {
    b in tables <==> b in before || (s.TableUpTo(b, n) && !HasStart(before, b.start))
  }

  /** The u64 at `a` is read by the scan and points into the section. */
  predicate PointerAt(word: int -> nat, containing: Block, pointing: Block, a: int) {
    containing.start <= a && a + 8 < containing.end && pointing.start <= word(a) < pointing.end
  }

  /** A table, in addresses: at least the minimum of pointers side by side, and none before or behind them. */
  ghost predicate IsTable(word: int -> nat, containing: Block, pointing: Block, minimum: nat, b: Block) {
    && containing.start <= b.start < b.end && (b.start - containing.start) % 8 == 0
    && (b.end - b.start) % 8 == 0 && b.end - b.start >= 8 * minimum
    && (forall a {:trigger PointerAt(word, containing, pointing, a)} ::
          b.start <= a < b.end && (a - b.start) % 8 == 0 ==> PointerAt(word, containing, pointing, a))
    && !PointerAt(word, containing, pointing, b.start - 8) && !PointerAt(word, containing, pointing, b.end)
  }

  lemma SlotPoints(s: Scan, k: int)
    requires s.Proper() && -1 <= k
    ensures PointerAt(s.word, s.containing, s.pointing, s.At(k)) <==> 0 <= k < s.Slots() && s.Points(k)
  {
    if k >= 0 {
      SlotsLimit(s, k);
    }
  }

  lemma RunIsTable(s: Scan, b: Block, i: int, j: int)
    requires s.Proper() && 0 <= i < j && b.start == s.At(i) && b.end == s.At(j)
    ensures s.MaximalRun(i, j) && j - i >= s.minimum <==> IsTable(s.word, s.containing, s.pointing, s.minimum, b)
  {
    SlotPoints(s, i - 1);
    SlotPoints(s, j);
    assert s.At(i - 1) == b.start - 8;
    if s.MaximalRun(i, j) {
      forall a | b.start <= a < b.end && (a - b.start) % 8 == 0
        ensures PointerAt(s.word, s.containing, s.pointing, a)
      {
        SlotPoints(s, i + (a - b.start) / 8);
      }
    }
    if IsTable(s.word, s.containing, s.pointing, s.minimum, b) {
      forall k | i <= k < j ensures k < s.Slots() && s.Points(k) {
        assert PointerAt(s.word, s.containing, s.pointing, s.At(k));
        SlotPoints(s, k);
      }
      assert s.Points(j - 1) && j - 1 < s.Slots();
    }
  }

  /** Tables by slots and tables by addresses are the same. */
  lemma TableIs(s: Scan, b: Block)
    requires s.Proper() && s.minimum >= 1
    ensures IsTable(s.word, s.containing, s.pointing, s.minimum, b) <==> s.Table(b)
  {
    if s.Table(b) {
      var i, j :| s.MaximalRun(i, j) && j <= s.Slots() && j - i >= s.minimum && b.start == s.At(i) && b.end == s.At(j);
      RunIsTable(s, b, i, j);
    }
    if IsTable(s.word, s.containing, s.pointing, s.minimum, b) {
      var i, j := (b.start - s.containing.start) / 8, (b.end - s.containing.start) / 8;
      RunIsTable(s, b, i, j);
    }
  }

  /** find_pointer_tables, for a minimum size of at least 1: exactly the maximal runs of that size are added, except one
      whose start the set already has. `wordsRead` counts the words read. */
  method FindPointerTables(s: Scan, before: set<Block>)
    returns (tables: set<Block>, wordsRead: nat, ghost rounds: nat)
    requires s.Proper() && s.minimum >= 1
    ensures forall b :: b in tables <==> b in before || (s.Table(b) && !HasStart(before, b.start))
    ensures forall b :: b in tables && b !in before ==>
              IsTable(s.word, s.containing, s.pointing, s.minimum, b) && forall x :: x in before ==> x.start != b.start
    ensures forall b :: IsTable(s.word, s.containing, s.pointing, s.minimum, b) ==>
              b in tables || exists x :: x in before && x.start == b.start
    ensures wordsRead <= Max(2, s.minimum) * s.Slots()
    ensures Rounds(s, 0, rounds) == s.Slots()
  {
    tables, wordsRead, rounds := before, 0, 0;
    var addr := s.containing.start;
    ghost var i: nat := 0;
    SlotsLimit(s, 0);
    while addr < s.containing.end - WORD
      invariant addr == s.At(i) && i <= s.Slots() && s.Passed(i)
      invariant Exact(s, before, tables, i)
      invariant wordsRead <= Allowance(s.minimum, i)
      invariant Rounds(s, 0, rounds) == i
      decreases s.Slots() - i
    {
      SlotsLimit(s, i);
      var inside, found, more := FollowRun(s, addr, i);
      RoundIs(s, i, i + found);
      RoundsNext(s, 0, rounds);
      rounds := rounds + 1;
      wordsRead := wordsRead + more;
      if found >= s.minimum {
        AddLong(s, before, tables, i, i + found);
        AllowanceLong(s.minimum, i, found);
        tables := Emplace(tables, Block(addr, inside));
        addr := inside;
        i := i + found;
      } else {
        AddShort(s, before, tables, i, i + found);
        addr := addr + WORD;
        i := i + 1;
      }
      SlotsLimit(s, i);
    }
    AllowanceIs(s.minimum, s.Slots());
    forall b ensures b in tables <==> b in before || (s.Table(b) && !HasStart(before, b.start)) {
      assert ExactAt(s, before, tables, s.Slots(), b);
    }
    forall b ensures IsTable(s.word, s.containing, s.pointing, s.minimum, b) <==> s.Table(b) {
      TableIs(s, b);
    }
  }

  lemma AddShort(s: Scan, before: set<Block>, tables: set<Block>, i: nat, j: nat)
    requires s.Proper() && s.Passed(i) && i < s.Slots() && i <= j <= s.Slots() && j - i < s.minimum
    requires j == s.Slots() || !s.Points(j)
    requires Exact(s, before, tables, i)
    ensures s.Passed(i + 1) && Exact(s, before, tables, i + 1)
  {
    var next := i + 1;
    PassShort(s, i, j, Block(0, 0));
    forall b ensures ExactAt(s, before, tables, next, b) {
      PassShort(s, i, j, b);
      assert ExactAt(s, before, tables, i, b);
    }
  }

  /** Adding the table from slot i to slot j keeps the set exact. */
  lemma AddLong(s: Scan, before: set<Block>, tables: set<Block>, i: nat, j: nat)
    requires s.Proper() && s.minimum >= 1 && s.Passed(i) && i < j <= s.Slots() && j - i >= s.minimum
    requires (forall k :: i <= k < j ==> s.Points(k)) && (j == s.Slots() || !s.Points(j))
    requires Exact(s, before, tables, i)
    ensures s.Passed(j) && Exact(s, before, Emplace(tables, Block(s.At(i), s.At(j))), j)
  {
    RunStarts(s, i, j);
    var added := Block(s.At(i), s.At(j));
    PassLong(s, i, j, added);
    EmplaceTable(s, before, tables, i, j);
    forall b ensures ExactAt(s, before, Emplace(tables, added), j, b) {
      PassLong(s, i, j, b);
      assert ExactAt(s, before, tables, i, b);
    }
  }

  /** The set turns a table away exactly when it had the start before the scan. */
  lemma EmplaceTable(s: Scan, before: set<Block>, tables: set<Block>, i: int, j: int)
    requires s.Proper() && s.MaximalRun(i, j)
    requires Exact(s, before, tables, i)
    ensures HasStart(tables, s.At(i)) <==> HasStart(before, s.At(i))
  {
    forall x | x in tables && x !in before ensures x.start != s.At(i) {
      assert ExactAt(s, before, tables, i, x);
      var k, l :| s.MaximalRun(k, l) && l <= i && x.start == s.At(k);
    }
    if HasStart(before, s.At(i)) {
      var x :| x in before && x.start == s.At(i);
      assert ExactAt(s, before, tables, i, x);
    }
  }

  // ---------- Termination for every minimum size ----------

  /** The end of the run of pointers that begins at slot i. */
  function RunEnd(s: Scan, i: nat): (j: nat)
    requires s.Proper() && i <= s.Slots()
    ensures i <= j <= s.Slots() && (forall k :: i <= k < j ==> s.Points(k)) && (j == s.Slots() || !s.Points(j))
    decreases s.Slots() - i
  {
    if i == s.Slots() || !s.Points(i) then i else RunEnd(s, i + 1)
  }

  /** One round of the outer loop, by slots. */
  function Round(s: Scan, i: nat): (j: nat)
    requires s.Proper() && i <= s.Slots()
    ensures i <= j <= s.Slots()
  {
    if i == s.Slots() then i
    else if RunEnd(s, i) - i >= s.minimum then RunEnd(s, i) else i + 1
  }

  function Rounds(s: Scan, i: nat, n: nat): (j: nat)
    requires s.Proper() && i <= s.Slots()
    ensures i <= j <= s.Slots()
    decreases n
  {
    if n == 0 then i else Rounds(s, Round(s, i), n - 1)
  }

  /** Round is what the method's outer loop does. */
  lemma RoundIs(s: Scan, i: nat, j: nat)
    requires s.Proper() && i < s.Slots() && i <= j <= s.Slots()
    requires (forall k :: i <= k < j ==> s.Points(k)) && (j == s.Slots() || !s.Points(j))
    ensures Round(s, i) == if j - i >= s.minimum then j else i + 1
  {
    var end := RunEnd(s, i);
    assert j < end ==> s.Points(j);
    assert end < j ==> s.Points(end);
  }

  lemma {:induction false} RoundsNext(s: Scan, i: nat, n: nat)
    requires s.Proper() && i <= s.Slots()
    ensures Rounds(s, i, n + 1) == Round(s, Rounds(s, i, n))
    decreases n
  {
    if n == 0 {
      assert Rounds(s, Round(s, i), 0) == Round(s, i);
    } else {
      RoundsNext(s, Round(s, i), n - 1);
    }
  }

  ghost predicate Terminates(s: Scan)
    requires s.Proper()
  {
    exists n :: Rounds(s, 0, n) == s.Slots()
  }

  lemma {:induction false} RoundsAdvance(s: Scan, i: nat) returns (n: nat)
    requires s.Proper() && i <= s.Slots()
    requires forall k :: i <= k < s.Slots() ==> Round(s, k) > k
    ensures Rounds(s, i, n) == s.Slots()
    decreases s.Slots() - i
  {
    if i == s.Slots() {
      n := 0;
    } else {
      n := RoundsAdvance(s, Round(s, i));
      n := n + 1;
    }
  }

  lemma {:induction false} RoundsStay(s: Scan, i: nat, stuck: nat, n: nat)
    requires s.Proper() && i <= stuck < s.Slots() && s.minimum == 0 && !s.Points(stuck)
    ensures Rounds(s, i, n) <= stuck
    decreases n
  {
    if n == 0 {
    } else {
      RoundsStay(s, Round(s, i), stuck, n - 1);
    }
  }

  /** The scan terminates for every minimum size of at least 1; for 0 exactly when every slot points, since a slot that
      does not is an empty table over and over. */
  lemma TerminatesExactly(s: Scan)
    requires s.Proper()
    ensures Terminates(s) <==> s.minimum >= 1 || forall k :: 0 <= k < s.Slots() ==> s.Points(k)
  {
    if s.minimum >= 1 || forall k :: 0 <= k < s.Slots() ==> s.Points(k) {
      forall k: nat | k < s.Slots() ensures Round(s, k) > k {
        assert RunEnd(s, k) < s.Slots() ==> !s.Points(RunEnd(s, k));
      }
      var n := RoundsAdvance(s, 0);
    } else {
      var stuck :| 0 <= stuck < s.Slots() && !s.Points(stuck);
      forall n: nat ensures Rounds(s, 0, n) <= stuck {
        RoundsStay(s, 0, stuck, n);
      }
    }
  }
}
