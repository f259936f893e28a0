/**
  Whether rectangles carry the labels of the cells they cover. The vertical
  pass only merges equal tags, so it keeps this; the horizontal pass does not
  compare tags, so it keeps it only on images where no two side-by-side
  labelled cells of a row differ.
 */
module Labelling {
  import opened Options
  import opened TaggedRectangles
  import opened Geometry
  import opened Merging
  import opened Seeding

  /** Every cell of `r` is a labelled cell of the image whose label is `r`'s tag. */
  predicate Agrees(grid: Grid, r: Rect)
  {
    forall p :: p in Cells(r) ==> IsLabelled(grid, p.0, p.1) && grid[p.1][p.0] == Some(r.tag)
  }

  predicate TagsAgree(grid: Grid, s: seq<Rect>)
  {
    forall i :: 0 <= i < |s| ==> Agrees(grid, s[i])
  }

  /** Two labelled cells next to each other in a row always have the same label. */
  predicate RowsUniform(grid: Grid)
  {
    forall y, x :: 0 <= y < |grid| && 1 <= x < |grid[y]| && grid[y][x].Some? && grid[y][x - 1].Some? ==>
      grid[y][x - 1] == grid[y][x]
  }

  /** Seeds carry the label of their cell. */
  lemma SeedsAgree(grid: Grid, rects: seq<Rect>)
    requires forall i :: 0 <= i < |rects| ==> IsSeed(grid, rects[i])
    ensures TagsAgree(grid, rects)
  {
    forall i | 0 <= i < |rects|
      ensures Agrees(grid, rects[i])
    {
      assert IsSeed(grid, rects[i]);
      forall p | p in Cells(rects[i])
        ensures IsLabelled(grid, p.0, p.1) && grid[p.1][p.0] == Some(rects[i].tag)
      {
        assert p == (rects[i].x, rects[i].y);
      }
    }
  }

  /** On a uniform-row image two side-by-side rectangles that agree with it have the same tag. */
  lemma SideBySideSameTag(grid: Grid, a: Rect, b: Rect)
    requires WellFormed(a) && WellFormed(b) && SideBySide(a, b)
    requires Agrees(grid, a) && Agrees(grid, b) && RowsUniform(grid)
    ensures a.tag == b.tag
  {
    var y := a.y;
    var left := if a.x == b.x + b.width then b else a;
    var right := if a.x == b.x + b.width then a else b;
    var x := right.x;
    assert (x, y) in Cells(right);
    assert (x - 1, y) in Cells(left);
    assert grid[y][x] == Some(right.tag);
    assert grid[y][x - 1] == Some(left.tag);
  }

  /** A merge that joins equal tags keeps agreement with the image. */
  lemma MergeAgrees(axis: Axis, grid: Grid, a: Rect, b: Rect)
    requires WellFormed(a) && WellFormed(b) && Combinable(axis, a, b)
    requires Agrees(grid, a) && Agrees(grid, b)
    requires axis == Vertical || RowsUniform(grid)
    ensures Agrees(grid, Merge(axis, a, b).value)
  {
    MergeIsUnion(axis, a, b);
    if axis == Horizontal {
      SideBySideSameTag(grid, a, b);
    }
  }

  lemma AbsorbAgrees(axis: Axis, grid: Grid, s: seq<Rect>, ci: nat, h: nat)
    requires ci < |s| && h < |s| && ci != h
    requires AllWellFormed(s) && Combinable(axis, s[ci], s[h])
    requires TagsAgree(grid, s)
    requires axis == Vertical || RowsUniform(grid)
    ensures TagsAgree(grid, Absorb(axis, s, ci, h))
  {
    var u := s[ci := Merge(axis, s[ci], s[h]).value];
    MergeAgrees(axis, grid, s[ci], s[h]);
    assert TagsAgree(grid, u);
    var t := Absorb(axis, s, ci, h);
    forall j | 0 <= j < |t|
      ensures Agrees(grid, t[j])
    {
      assert t[j] == u[Before(j, h)];
    }
  }

  /**
    Without a tag check in the horizontal pass, the row `a b` cannot come out
    labelled correctly: any disjoint, merge-free cover of its two cells is a
    single rectangle, and its one tag is wrong for one of the cells.
   */
  lemma MixedRowLosesLabel(rects: seq<Rect>)
    requires AllWellFormed(rects) && Disjoint(rects)
    requires Cover(rects) == LabelledCells([[Some("a"), Some("b")]])
    requires forall i, j :: 0 <= i < |rects| && 0 <= j < |rects| ==> !SideBySide(rects[i], rects[j])
    ensures !TagsAgree([[Some("a"), Some("b")]], rects)
  {
    var grid: Grid := [[Some("a"), Some("b")]];
    assert IsLabelled(grid, 0, 0) && IsLabelled(grid, 1, 0);
    assert (0, 0) in Cover(rects) && (1, 0) in Cover(rects);
    var i :| 0 <= i < |rects| && (0, 0) in Cells(rects[i]);
    var j :| 0 <= j < |rects| && (1, 0) in Cells(rects[j]);
    if TagsAgree(grid, rects) {
      var a, b := rects[i], rects[j];
      assert Agrees(grid, a) && Agrees(grid, b);
      assert WellFormed(a) && WellFormed(b);
      assert grid[0][0] == Some(a.tag) && grid[0][1] == Some(b.tag);
      UnitRectInRow(grid, a);
      UnitRectInRow(grid, b);
      assert false;
    }
  }

  /** In the row `a b`, a rectangle that agrees with the image is one of its two cells. */
  lemma UnitRectInRow(grid: Grid, r: Rect)
    requires grid == [[Some("a"), Some("b")]]
    requires WellFormed(r) && Agrees(grid, r)
    ensures r.y == 0 && r.height == 1 && r.width == 1 && 0 <= r.x <= 1
  {
    var first := (r.x, r.y);
    var last := (r.x + r.width - 1, r.y + r.height - 1);
    assert first in Cells(r) && last in Cells(r);
    assert IsLabelled(grid, first.0, first.1) && IsLabelled(grid, last.0, last.1);
    assert grid[first.1][first.0] == grid[last.1][last.0];
  }
}
