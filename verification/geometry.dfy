/**
  Cell geometry of tagged rectangles: which grid cells a rectangle covers,
  the cells a list of rectangles covers, total area, and overlap.
 */
module Geometry {
  import opened TaggedRectangles

  type Rect = TaggedRectangle

  /** A grid cell as (column, row). */
  type Cell = (int, int)

  /** Width and height are at least one cell, so the rectangle is never degenerate. */
  predicate WellFormed(r: Rect)
  {
    r.width >= 1 && r.height >= 1
  }

  predicate AllWellFormed(s: seq<Rect>)
  {
    forall i :: 0 <= i < |s| ==> WellFormed(s[i])
  }

  /** The cells inside the rectangle. */
  function Cells(r: Rect): (c: set<Cell>)
    ensures forall p :: p in c <==> r.x <= p.0 < r.x + r.width && r.y <= p.1 < r.y + r.height
  {
    set x, y | r.x <= x < r.x + r.width && r.y <= y < r.y + r.height :: (x, y)
  }

  /** The cells covered by at least one rectangle of the list. */
  function Cover(s: seq<Rect>): (c: set<Cell>)
    ensures forall p :: p in c <==> exists i :: 0 <= i < |s| && p in Cells(s[i])
  {
    set i, p | 0 <= i < |s| && p in Cells(s[i]) :: p
  }

  function RectArea(r: Rect): int
  {
    r.width * r.height
  }

  /** Sum of width times height over the list. */
  function Area(s: seq<Rect>): int
  {
    if |s| == 0 then 0 else RectArea(s[0]) + Area(s[1..])
  }

  /** The interiors of the two rectangles intersect. */
  predicate Overlap(a: Rect, b: Rect)
  {
    a.x < b.x + b.width && b.x < a.x + a.width && a.y < b.y + b.height && b.y < a.y + a.height
  }

  /** No two rectangles at different positions of the list overlap. */
  predicate Disjoint(s: seq<Rect>)
  {
    forall i, j :: 0 <= i < |s| && 0 <= j < |s| && i != j ==> !Overlap(s[i], s[j])
  }

  /** For well-formed rectangles, overlapping means sharing a cell. */
  lemma OverlapIsSharedCell(a: Rect, b: Rect)
    requires WellFormed(a) && WellFormed(b)
    ensures Overlap(a, b) <==> Cells(a) * Cells(b) != {}
  {
    if Overlap(a, b) {
      var p := (if a.x < b.x then b.x else a.x, if a.y < b.y then b.y else a.y);
      assert p in Cells(a) * Cells(b);
    }
    if Cells(a) * Cells(b) != {} {
      var p :| p in Cells(a) * Cells(b);
      assert p in Cells(a) && p in Cells(b);
    }
  }

  /** Disjointness of a list is pairwise disjointness of its cell sets. */
  lemma DisjointMeansNoSharedCell(s: seq<Rect>)
    requires AllWellFormed(s)
    ensures Disjoint(s) <==> forall i, j :: 0 <= i < |s| && 0 <= j < |s| && i != j ==> Cells(s[i]) !! Cells(s[j])
  {
    forall i, j | 0 <= i < |s| && 0 <= j < |s| && i != j
      ensures Overlap(s[i], s[j]) <==> !(Cells(s[i]) !! Cells(s[j]))
    {
      OverlapIsSharedCell(s[i], s[j]);
    }
  }

  lemma {:induction false} AreaConcat(a: seq<Rect>, b: seq<Rect>)
    ensures Area(a + b) == Area(a) + Area(b)
    decreases |a|
  {
    if |a| == 0 {
      assert a + b == b;
    } else {
      assert (a + b)[0] == a[0];
      assert (a + b)[1..] == a[1..] + b;
      AreaConcat(a[1..], b);
    }
  }

  /** The area of a list splits around any one element. */
  lemma {:induction false} AreaAround(s: seq<Rect>, i: nat)
    requires i < |s|
    ensures Area(s) == Area(s[..i]) + RectArea(s[i]) + Area(s[i+1..])
  {
    assert s == s[..i] + ([s[i]] + s[i+1..]);
    AreaConcat(s[..i], [s[i]] + s[i+1..]);
    assert ([s[i]] + s[i+1..])[1..] == s[i+1..];
  }

  /** Every well-formed rectangle covers at least one cell, so the area bounds the length. */
  lemma {:induction false} AreaAtLeastLength(s: seq<Rect>)
    requires AllWellFormed(s)
    ensures Area(s) >= |s|
    decreases |s|
  {
    if |s| > 0 {
      assert WellFormed(s[0]);
      assert RectArea(s[0]) >= 1 by {
        var r := s[0];
        assert r.width * r.height >= r.width * 1;
      }
      AreaAtLeastLength(s[1..]);
    }
  }
}
