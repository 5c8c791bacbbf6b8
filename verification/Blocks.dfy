/** Address ranges and the pieces one range leaves of another (shared/memory_block.hpp). */
module Blocks {
  import opened Common

  datatype Block = Block(start: nat, end: nat) {
    predicate Valid() {
      start <= end
    }

    /** A block is half-open: `end` is not in it. */
    predicate Contains(n: int) {
      start <= n < end
    }

    /** The collision test as the code has it. It asks `Contains(other.end)`, although `other.end` is not in `other`. */
    predicate Intersect(other: Block) {
      || Contains(other.start)
      || Contains(other.end)
      || (other.start <= start && other.end >= end)
    }

    /** Half-open overlap: the two blocks share an address (lemma OverlapsMeansShared). */
    predicate Overlaps(other: Block) {
      Max(start, other.start) < Min(end, other.end)
    }

    predicate Within(other: Block) {
      other.start <= start && end <= other.end
    }
  }

  predicate Covered(pieces: seq<Block>, n: int) {
    exists i :: 0 <= i < |pieces| && pieces[i].Contains(n)
  }

  /** BlockCut::from_intersection: what `window` leaves of `full`, pieces of size 0 filtered out. */
  function Cut(full: Block, window: Block): seq<Block> {
    (if full.start <= window.start <= full.end then Piece(full.start, window.start) else [])
    + (if full.start <= window.end <= full.end then Piece(window.end, full.end) else [])
  }

  function Piece(start: nat, end: nat): seq<Block> {
    if start != end then [Block(start, end)] else []
  }

  lemma OverlapsMeansShared(a: Block, b: Block)
    ensures a.Overlaps(b) <==> exists n :: a.Contains(n) && b.Contains(n)
  {
    if a.Overlaps(b) {
      var n := Max(a.start, b.start);
      assert a.Contains(n) && b.Contains(n);
    }
  }

  /** Exactly when the code's test is wider than half-open overlap. */
  lemma IntersectVersusOverlaps(e: Block, a: Block)
    requires e.Valid() && a.Valid()
    ensures e.Overlaps(a) ==> e.Intersect(a)
    ensures e.Intersect(a) && !e.Overlaps(a) <==>
            || (e.Contains(a.end) && (a.start == a.end || a.end == e.start))
            || (e.start == e.end && a.start <= e.start <= a.end)
  {}

  /** The pieces are non-empty, at most two, inside `full`, outside `window` and apart from each other. */
  lemma CutPieces(full: Block, window: Block)
    requires full.Valid() && window.Valid()
    ensures |Cut(full, window)| <= 2
    ensures forall i :: 0 <= i < |Cut(full, window)| ==>
              var piece := Cut(full, window)[i];
              piece.start < piece.end && piece.Within(full) && !piece.Overlaps(window)
    ensures forall i, j :: 0 <= i < j < |Cut(full, window)| ==> !Cut(full, window)[i].Overlaps(Cut(full, window)[j])
  {}

  /** The pieces make up the set difference exactly when the blocks touch (or `full` is empty). */
  lemma CutIsDifference(full: Block, window: Block)
    requires full.Valid() && window.Valid()
    ensures (forall n :: Covered(Cut(full, window), n) <==> full.Contains(n) && !window.Contains(n))
            <==> full.start == full.end || (window.start <= full.end && full.start <= window.end)
  {
    var pieces := Cut(full, window);
    if full.start == full.end {
      CutPieces(full, window);
    } else if window.start <= full.end && full.start <= window.end {
      forall n ensures Covered(pieces, n) <==> full.Contains(n) && !window.Contains(n) {
        CutPieces(full, window);
        if full.Contains(n) && !window.Contains(n) {
          if n < window.start {
            assert pieces[0].Contains(n);
          } else {
            assert pieces[|pieces| - 1].Contains(n);
          }
        }
      }
    } else {
      assert full.Contains(full.start) && !window.Contains(full.start);
      assert pieces == [];
      assert !Covered(pieces, full.start);
    }
  }
}
