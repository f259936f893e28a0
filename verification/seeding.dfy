/**
  Seeding: every labelled cell of the image becomes a 1x1 tagged rectangle,
  scanning rows top to bottom and each row left to right. The colour-to-label
  lookup has already been applied: a cell holds `Some(label)` when its colour
  is defined, and `None` otherwise.
 */
module Seeding {
  import opened Options
  import opened TaggedRectangles
  import opened Geometry

  /** `grid[row][column]`: the label of each cell of the image, if any. */
  type Grid = seq<seq<Option<string>>>

  predicate IsLabelled(grid: Grid, x: int, y: int)
  {
    0 <= y < |grid| && 0 <= x < |grid[y]| && grid[y][x].Some?
  }

  /** The labelled cells, as (column, row). */
  function LabelledCells(grid: Grid): set<Cell>
  {
    set y, x | 0 <= y < |grid| && 0 <= x < |grid[y]| && grid[y][x].Some? :: (x, y)
  }

  /** Number of labelled cells in a row. */
  function RowCount(row: seq<Option<string>>): nat
  {
    if |row| == 0 then 0
    else RowCount(row[..|row| - 1]) + (if row[|row| - 1].Some? then 1 else 0)
  }

  /** Number of labelled cells in the grid. */
  function LabelCount(grid: Grid): nat
  {
    if |grid| == 0 then 0
    else LabelCount(grid[..|grid| - 1]) + RowCount(grid[|grid| - 1])
  }

  /** `a` comes strictly before `b` in a row-major scan. */
  predicate RowMajorBefore(a: Rect, b: Rect)
  {
    a.y < b.y || (a.y == b.y && a.x < b.x)
  }

  /** The seed a labelled cell produces. */
  predicate IsSeed(grid: Grid, r: Rect)
  {
    && IsLabelled(grid, r.x, r.y)
    && grid[r.y][r.x] == Some(r.tag)
    && r.width == 1 && r.height == 1
  }

  /**
    One 1x1 rectangle per labelled cell, at (column, row) and tagged with the
    cell's label, in row-major order; unlabelled cells produce nothing. The seeds
    are disjoint, cover exactly the labelled cells, and their area is their number.
   */
  method Seed(grid: Grid) returns (rects: seq<Rect>)
    ensures forall i :: 0 <= i < |rects| ==> IsSeed(grid, rects[i])
    ensures forall y, x :: 0 <= y < |grid| && 0 <= x < |grid[y]| && grid[y][x].Some? ==>
              New(grid[y][x].value, x, y, 1, 1) in rects
    ensures forall i, j :: 0 <= i < j < |rects| ==> RowMajorBefore(rects[i], rects[j])
    ensures |rects| == LabelCount(grid)
    ensures AllWellFormed(rects) && Disjoint(rects)
    ensures Cover(rects) == LabelledCells(grid)
    ensures Area(rects) == LabelCount(grid)
  {
    rects := [];
    var r := 0;
    while r < |grid|
      invariant 0 <= r <= |grid|
      invariant forall i :: 0 <= i < |rects| ==> IsSeed(grid, rects[i]) && rects[i].y < r
      invariant forall y, x :: 0 <= y < r && 0 <= x < |grid[y]| && grid[y][x].Some? ==>
                  New(grid[y][x].value, x, y, 1, 1) in rects
      invariant forall i, j :: 0 <= i < j < |rects| ==> RowMajorBefore(rects[i], rects[j])
      invariant |rects| == LabelCount(grid[..r])
    {
      var c := 0;
      while c < |grid[r]|
        invariant 0 <= c <= |grid[r]|
        invariant forall i :: 0 <= i < |rects| ==>
                    IsSeed(grid, rects[i]) && (rects[i].y < r || (rects[i].y == r && rects[i].x < c))
        invariant forall y, x :: 0 <= y < |grid| && 0 <= x < |grid[y]| && grid[y][x].Some? && (y < r || (y == r && x < c)) ==>
                    New(grid[y][x].value, x, y, 1, 1) in rects
        invariant forall i, j :: 0 <= i < j < |rects| ==> RowMajorBefore(rects[i], rects[j])
        invariant |rects| == LabelCount(grid[..r]) + RowCount(grid[r][..c])
      {
        assert grid[r][..c + 1][..c] == grid[r][..c];
        match grid[r][c] {
          case Some(keyword) =>
            rects := rects + [New(keyword, c, r, 1, 1)];
          case None =>
        }
        c := c + 1;
      }
      assert grid[r][..c] == grid[r];
      assert grid[..r + 1][..r] == grid[..r];
      r := r + 1;
    }
    assert grid[..r] == grid;
    SeedsPartition(grid, rects);
  }

  /** Seeds in strict row-major order tile exactly the labelled cells. */
  lemma SeedsPartition(grid: Grid, rects: seq<Rect>)
    requires forall i :: 0 <= i < |rects| ==> IsSeed(grid, rects[i])
    requires forall y, x :: 0 <= y < |grid| && 0 <= x < |grid[y]| && grid[y][x].Some? ==>
               New(grid[y][x].value, x, y, 1, 1) in rects
    requires forall i, j :: 0 <= i < j < |rects| ==> RowMajorBefore(rects[i], rects[j])
    ensures AllWellFormed(rects) && Disjoint(rects)
    ensures Cover(rects) == LabelledCells(grid)
    ensures Area(rects) == |rects|
  {
    SeedsDisjoint(grid, rects);
    SeedsCover(grid, rects);
    UnitArea(rects);
  }

  lemma SeedsDisjoint(grid: Grid, rects: seq<Rect>)
    requires forall i :: 0 <= i < |rects| ==> IsSeed(grid, rects[i])
    requires forall i, j :: 0 <= i < j < |rects| ==> RowMajorBefore(rects[i], rects[j])
    ensures AllWellFormed(rects) && Disjoint(rects)
  {
    forall i, j | 0 <= i < |rects| && 0 <= j < |rects| && i != j
      ensures !Overlap(rects[i], rects[j])
    {
      assert IsSeed(grid, rects[i]) && IsSeed(grid, rects[j]);
      if i < j {
        assert RowMajorBefore(rects[i], rects[j]);
      } else {
        assert RowMajorBefore(rects[j], rects[i]);
      }
    }
  }

  lemma SeedsCover(grid: Grid, rects: seq<Rect>)
    requires forall i :: 0 <= i < |rects| ==> IsSeed(grid, rects[i])
    requires forall y, x :: 0 <= y < |grid| && 0 <= x < |grid[y]| && grid[y][x].Some? ==>
               New(grid[y][x].value, x, y, 1, 1) in rects
    ensures Cover(rects) == LabelledCells(grid)
  {
    forall p | p in Cover(rects)
      ensures p in LabelledCells(grid)
    {
      var i :| 0 <= i < |rects| && p in Cells(rects[i]);
      assert IsSeed(grid, rects[i]);
      assert p == (rects[i].x, rects[i].y);
      assert IsLabelled(grid, p.0, p.1);
    }
    forall p | p in LabelledCells(grid)
      ensures p in Cover(rects)
    {
      var x, y := p.0, p.1;
      assert 0 <= y < |grid| && 0 <= x < |grid[y]| && grid[y][x].Some?;
      var seed := New(grid[y][x].value, x, y, 1, 1);
      assert seed in rects;
      var i :| 0 <= i < |rects| && rects[i] == seed;
      assert p in Cells(rects[i]);
    }
  }

  lemma {:induction false} UnitArea(rects: seq<Rect>)
    requires forall i :: 0 <= i < |rects| ==> rects[i].width == 1 && rects[i].height == 1
    ensures Area(rects) == |rects|
    decreases |rects|
  {
    if |rects| > 0 {
      UnitArea(rects[1..]);
    }
  }
}
