/**
  The coalescer: seeds one 1x1 rectangle per labelled cell, then repeats a
  horizontal and a vertical merge pass over the work list until a round
  merges nothing.
 */
module Coalescer {
  import opened TaggedRectangles
  import opened Geometry
  import opened Merging
  import opened Seeding
  import opened Labelling
  import opened Options

  /** No ordered pair of the list, a rectangle with itself included, would merge on `axis`. */
  predicate NoCombinablePair(axis: Axis, s: seq<Rect>)
  {
    forall i, j :: 0 <= i < |s| && 0 <= j < |s| ==> !Combinable(axis, s[i], s[j])
  }

  /** Neither pass finds anything to merge. */
  predicate Fixpoint(s: seq<Rect>)
  {
    NoCombinablePair(Horizontal, s) && NoCombinablePair(Vertical, s)
  }

  /**
    One merge pass. For each slot `k` the rectangle there becomes `current`
    and is compared with every slot `h` of the list as it now is; when `other`
    can be merged into `current`, `current` grows and `other` is removed.

    As in ImageToText's loop over an `ArrayList`: `h` still advances after a
    removal, so the element that shifts into slot `h` is not compared with
    `current`; `current` keeps its identity while elements before it are
    removed (its slot `ci` drops by one), but `k` does not, so later elements
    can be skipped.

    The pass keeps the list well formed and disjoint, covering the same cells
    with the same area, and shortens it by the number of merges. It merges
    nothing exactly when no pair of its input is combinable, and then returns
    its input unchanged. Rectangles that carry the labels of an image still do
    afterwards when the pass is vertical, or when no two side-by-side cells of
    a row of that image have different labels.
   */
  method Pass(axis: Axis, rects: seq<Rect>) returns (work: seq<Rect>, combinations: nat)
    requires AllWellFormed(rects) && Disjoint(rects)
    ensures AllWellFormed(work) && Disjoint(work)
    ensures Cover(work) == Cover(rects)
    ensures Area(work) == Area(rects)
    ensures |work| + combinations == |rects|
    ensures combinations == 0 <==> NoCombinablePair(axis, rects)
    ensures combinations == 0 ==> work == rects
    ensures forall grid :: TagsAgree(grid, rects) && (axis == Vertical || RowsUniform(grid)) ==> TagsAgree(grid, work)
  {
    work := rects;
    combinations := 0;
    var k := 0;
    while k < |work|
      invariant k <= |rects|
      invariant AllWellFormed(work) && Disjoint(work)
      invariant Cover(work) == Cover(rects) && Area(work) == Area(rects)
      invariant |work| + combinations == |rects|
      invariant combinations == 0 ==> work == rects
      invariant combinations == 0 ==>
                  forall i, j :: 0 <= i < k && 0 <= j < |rects| ==> !Combinable(axis, rects[i], rects[j])
      invariant NoCombinablePair(axis, rects) ==> combinations == 0
      invariant forall grid :: TagsAgree(grid, rects) && (axis == Vertical || RowsUniform(grid)) ==> TagsAgree(grid, work)
      decreases |rects| - k
    {
      var current := work[k];
      var ci := k;
      var h := 0;
      while h < |work|
        invariant ci < |work| && work[ci] == current && ci <= k
        invariant h <= |work| + 1
        invariant AllWellFormed(work) && Disjoint(work)
        invariant Cover(work) == Cover(rects) && Area(work) == Area(rects)
        invariant |work| + combinations == |rects|
        invariant combinations == 0 ==> work == rects && ci == k
        invariant combinations == 0 ==>
                    forall i, j :: 0 <= i < k && 0 <= j < |rects| ==> !Combinable(axis, rects[i], rects[j])
        invariant combinations == 0 ==> forall j :: 0 <= j < h && j < |rects| ==> !Combinable(axis, rects[k], rects[j])
        invariant NoCombinablePair(axis, rects) ==> combinations == 0
        invariant forall grid :: TagsAgree(grid, rects) && (axis == Vertical || RowsUniform(grid)) ==> TagsAgree(grid, work)
        decreases |work| + 1 - h
      {
        var other := work[h];
        match Merge(axis, current, other) {
          case Some(merged) =>
            AbsorbPreserves(axis, work, ci, h);
            forall grid | TagsAgree(grid, work) && (axis == Vertical || RowsUniform(grid))
              ensures TagsAgree(grid, Absorb(axis, work, ci, h))
            {
              AbsorbAgrees(axis, grid, work, ci, h);
            }
            work := Remove(work[ci := merged], h);
            if h < ci {
              ci := ci - 1;
            }
            current := merged;
            combinations := combinations + 1;
          case None =>
        }
        h := h + 1;
      }
      k := k + 1;
    }
  }

  /**
    One round of the fixpoint loop: a horizontal pass, then a vertical pass over
    its result. `combinations` counts the merges of both passes; it is zero
    exactly when the input is a fixpoint, and then the input comes back
    unchanged.
   */
  method Round(rects: seq<Rect>) returns (work: seq<Rect>, combinations: nat)
    requires AllWellFormed(rects) && Disjoint(rects)
    ensures AllWellFormed(work) && Disjoint(work)
    ensures Cover(work) == Cover(rects)
    ensures Area(work) == Area(rects)
    ensures |work| + combinations == |rects|
    ensures combinations == 0 <==> Fixpoint(rects)
    ensures combinations == 0 ==> work == rects
    ensures forall grid :: TagsAgree(grid, rects) && RowsUniform(grid) ==> TagsAgree(grid, work)
  {
    var afterHorizontal, horizontalCombinations := Pass(Horizontal, rects);
    var verticalCombinations;
    work, verticalCombinations := Pass(Vertical, afterHorizontal);
    combinations := horizontalCombinations + verticalCombinations;
  }

  /**
    Rounds of a horizontal then a vertical pass, until a round merges nothing.
    The result covers the same cells with the same area, still disjoint and
    well formed, and no pair in it is combinable on either axis; a list that is
    already a fixpoint comes back unchanged. Labels of an image carried by the
    input are still carried by the result when no two side-by-side cells of a
    row of that image have different labels.
   */
  method Coalesce(rects: seq<Rect>) returns (work: seq<Rect>)
    requires AllWellFormed(rects) && Disjoint(rects)
    ensures AllWellFormed(work) && Disjoint(work)
    ensures Cover(work) == Cover(rects)
    ensures Area(work) == Area(rects)
    ensures |work| <= |rects|
    ensures Fixpoint(work)
    ensures Fixpoint(rects) ==> work == rects
    ensures forall grid :: TagsAgree(grid, rects) && RowsUniform(grid) ==> TagsAgree(grid, work)
  {
    var combinations;
    work, combinations := Round(rects);
    while combinations > 0
      invariant AllWellFormed(work) && Disjoint(work)
      invariant Cover(work) == Cover(rects) && Area(work) == Area(rects)
      invariant |work| <= |rects|
      invariant combinations == 0 ==> Fixpoint(work)
      invariant Fixpoint(rects) ==> work == rects && combinations == 0
      invariant forall grid :: TagsAgree(grid, rects) && RowsUniform(grid) ==> TagsAgree(grid, work)
      decreases |work| + combinations
    {
      work, combinations := Round(work);
    }
  }

  /**
    The whole conversion of one image: the resulting rectangles are disjoint,
    cover exactly the labelled cells, have total area equal to the number of
    labelled cells, and cannot be merged further. An image without labelled
    cells gives no rectangles. When no two side-by-side cells of a row have
    different labels, every rectangle's tag is the label of each of its cells.
   */
  method ImageToRectangles(grid: Grid) returns (rects: seq<Rect>)
    ensures AllWellFormed(rects) && Disjoint(rects)
    ensures Cover(rects) == LabelledCells(grid)
    ensures Area(rects) == LabelCount(grid)
    ensures |rects| <= LabelCount(grid)
    ensures Fixpoint(rects)
    ensures LabelCount(grid) == 0 <==> rects == []
    ensures RowsUniform(grid) ==> TagsAgree(grid, rects)
  {
    var seeds := Seed(grid);
    SeedsAgree(grid, seeds);
    rects := Coalesce(seeds);
    AreaAtLeastLength(rects);
  }

  /**
    The horizontal pass does not compare tags: on the one-row image `a b`
    the two cells end up in one rectangle, so one of them loses its label.
   */
  method MixedRowImage() returns (rects: seq<Rect>)
    ensures !TagsAgree([[Some("a"), Some("b")]], rects)
  {
    rects := ImageToRectangles([[Some("a"), Some("b")]]);
    assert forall i, j :: 0 <= i < |rects| && 0 <= j < |rects| ==> !Combinable(Horizontal, rects[i], rects[j]);
    MixedRowLosesLabel(rects);
  }
}
