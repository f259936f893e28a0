/**
  Merging one pair of rectangles, and the removal of the absorbed one from the
  work list. `current` absorbs `other`: it grows to cover both and keeps its own
  tag, and `other` leaves the list.
 */
module Merging {
  import opened Options
  import opened TaggedRectangles
  import opened Geometry

  /** The direction a merge pass works in. */
  datatype Axis = Horizontal | Vertical

  /** Same rows, and the left edge of one touches the right edge of the other. */
  predicate SideBySide(a: Rect, b: Rect)
  {
    a.y == b.y && a.height == b.height && (a.x == b.x + b.width || b.x == a.x + a.width)
  }

  /** Same columns, and the top edge of one touches the bottom edge of the other. */
  predicate Stacked(a: Rect, b: Rect)
  {
    a.x == b.x && a.width == b.width && (a.y == b.y + b.height || b.y == a.y + a.height)
  }

  /**
    When a pass on `axis` merges `other` into `current`. The horizontal pass
    ignores the tags; the vertical pass requires them to be equal.
   */
  predicate Combinable(axis: Axis, current: Rect, other: Rect)
  {
    match axis
    case Horizontal => SideBySide(current, other)
    case Vertical => current.tag == other.tag && Stacked(current, other)
  }

  function Min(a: int, b: int): int
  {
    if a <= b then a else b
  }

  /**
    One step of the horizontal pass. `None` when the pair is left alone,
    otherwise the new value of `current`.
   */
  function HorizontalMerge(current: Rect, other: Rect): (r: Option<Rect>)
    ensures r.Some? <==> SideBySide(current, other)
    ensures r.Some? ==> r.value.tag == current.tag && r.value.y == current.y && r.value.height == current.height
    ensures r.Some? ==> r.value.width == current.width + other.width
    ensures r.Some? && WellFormed(current) && WellFormed(other) ==> r.value.x == Min(current.x, other.x)
  {
    if current.y == other.y && current.height == other.height then
      if current.x == other.x + other.width then
        Some(SetX(SetWidth(current, current.width + other.width), other.x))
      else if other.x == current.x + current.width then
        Some(SetWidth(current, current.width + other.width))
      else
        None
    else
      None
  }

  /**
    One step of the vertical pass. `None` when the pair is left alone,
    otherwise the new value of `current`.
   */
  function VerticalMerge(current: Rect, other: Rect): (r: Option<Rect>)
    ensures r.Some? <==> current.tag == other.tag && Stacked(current, other)
    ensures r.Some? ==> r.value.tag == current.tag && r.value.x == current.x && r.value.width == current.width
    ensures r.Some? ==> r.value.height == current.height + other.height
    ensures r.Some? && WellFormed(current) && WellFormed(other) ==> r.value.y == Min(current.y, other.y)
  {
    if !HasSameTag(other, current) then
      None
    else if current.x == other.x && current.width == other.width then
      if current.y == other.y + other.height then
        Some(SetY(SetHeight(current, current.height + other.height), other.y))
      else if other.y == current.y + current.height then
        Some(SetHeight(current, current.height + other.height))
      else
        None
    else
      None
  }

  function Merge(axis: Axis, current: Rect, other: Rect): (r: Option<Rect>)
    ensures r.Some? <==> Combinable(axis, current, other)
  {
    match axis
    case Horizontal => HorizontalMerge(current, other)
    case Vertical => VerticalMerge(current, other)
  }

  /** A well-formed rectangle never merges with itself. */
  lemma NoSelfMerge(axis: Axis, r: Rect)
    requires WellFormed(r)
    ensures Merge(axis, r, r) == None
  {
  }

  /**
    A merge replaces two disjoint rectangles by exactly their union: the cells,
    and so the area, are those of the two parts, and the tag is the absorbing one's.
   */
  lemma MergeIsUnion(axis: Axis, a: Rect, b: Rect)
    requires WellFormed(a) && WellFormed(b) && Combinable(axis, a, b)
    ensures WellFormed(Merge(axis, a, b).value)
    ensures Merge(axis, a, b).value.tag == a.tag
    ensures Cells(Merge(axis, a, b).value) == Cells(a) + Cells(b)
    ensures Cells(a) !! Cells(b)
    ensures RectArea(Merge(axis, a, b).value) == RectArea(a) + RectArea(b)
  {
    var m := Merge(axis, a, b).value;
    forall p
      ensures p in Cells(m) <==> p in Cells(a) || p in Cells(b)
    {
    }
    match axis
    case Horizontal =>
      calc {
        RectArea(m);
        (a.width + b.width) * a.height;
        a.width * a.height + b.width * a.height;
        { assert b.height == a.height; }
        RectArea(a) + RectArea(b);
      }
    case Vertical =>
      calc {
        RectArea(m);
        a.width * (a.height + b.height);
        a.width * a.height + a.width * b.height;
        { assert b.width == a.width; }
        RectArea(a) + RectArea(b);
      }
  }

  /** A rectangle overlaps the merged one exactly when it overlaps one of its two parts. */
  lemma MergeOverlap(axis: Axis, a: Rect, b: Rect, c: Rect)
    requires WellFormed(a) && WellFormed(b) && WellFormed(c) && Combinable(axis, a, b)
    ensures Overlap(Merge(axis, a, b).value, c) <==> Overlap(a, c) || Overlap(b, c)
    ensures Overlap(c, Merge(axis, a, b).value) <==> Overlap(c, a) || Overlap(c, b)
  {
    var m := Merge(axis, a, b).value;
    match axis
    case Horizontal =>
      assert m.y == a.y && m.height == a.height && m.width == a.width + b.width;
      if a.x == b.x + b.width {
        assert m.x == b.x;
      } else {
        assert m.x == a.x;
      }
    case Vertical =>
      assert m.x == a.x && m.width == a.width && m.height == a.height + b.height;
      if a.y == b.y + b.height {
        assert m.y == b.y;
      } else {
        assert m.y == a.y;
      }
  }

  /** `ArrayList.remove(i)`: drop the element at `i`, later elements shift down by one. */
  function Remove<T>(s: seq<T>, i: nat): (t: seq<T>)
    requires i < |s|
    ensures |t| == |s| - 1
    ensures forall j :: 0 <= j < i ==> t[j] == s[j]
    ensures forall j :: i <= j < |t| ==> t[j] == s[j + 1]
  {
    s[..i] + s[i+1..]
  }

  /** The work list after the rectangle at `ci` absorbs the one at `h`. */
  function Absorb(axis: Axis, s: seq<Rect>, ci: nat, h: nat): seq<Rect>
    requires ci < |s| && h < |s| && Combinable(axis, s[ci], s[h])
  {
    Remove(s[ci := Merge(axis, s[ci], s[h]).value], h)
  }

  /**
    One merge keeps the list well formed and disjoint, covers the same cells
    with the same total area, and shortens the list by exactly one. The absorbing
    rectangle is never the absorbed one, and it moves down one slot when the
    removed element lay before it.
   */
  lemma AbsorbPreserves(axis: Axis, s: seq<Rect>, ci: nat, h: nat)
    requires ci < |s| && h < |s|
    requires AllWellFormed(s) && Disjoint(s)
    requires Combinable(axis, s[ci], s[h])
    ensures ci != h
    ensures |Absorb(axis, s, ci, h)| == |s| - 1
    ensures AllWellFormed(Absorb(axis, s, ci, h))
    ensures Disjoint(Absorb(axis, s, ci, h))
    ensures Cover(Absorb(axis, s, ci, h)) == Cover(s)
    ensures Area(Absorb(axis, s, ci, h)) == Area(s)
    ensures Absorb(axis, s, ci, h)[if h < ci then ci - 1 else ci] == Merge(axis, s[ci], s[h]).value
  {
    if ci == h {
      NoSelfMerge(axis, s[ci]);
      assert false;
    }
    var m := Merge(axis, s[ci], s[h]).value;
    var u := s[ci := m];
    var t := Absorb(axis, s, ci, h);
    MergeIsUnion(axis, s[ci], s[h]);
    AbsorbCover(s, ci, h, m);
    AbsorbDisjoint(axis, s, ci, h);
    // area
    AreaAround(s, ci);
    AreaAround(u, ci);
    assert u[..ci] == s[..ci];
    assert u[ci+1..] == s[ci+1..];
    AreaAround(u, h);
    assert t == u[..h] + u[h+1..];
    AreaConcat(u[..h], u[h+1..]);
  }

  /** Index in the list before removing slot `h` of index `j` after it. */
  function Before(j: nat, h: nat): nat
  {
    if j < h then j else j + 1
  }

  lemma InCover(s: seq<Rect>, i: nat, p: Cell)
    requires i < |s| && p in Cells(s[i])
    ensures p in Cover(s)
  {
  }

  lemma AbsorbCover(s: seq<Rect>, ci: nat, h: nat, m: Rect)
    requires ci < |s| && h < |s| && ci != h
    requires Cells(m) == Cells(s[ci]) + Cells(s[h])
    ensures Cover(Remove(s[ci := m], h)) == Cover(s)
  {
    var u := s[ci := m];
    var t := Remove(u, h);
    var cj := if h < ci then ci - 1 else ci;
    assert t[cj] == m;
    forall p | p in Cover(s)
      ensures p in Cover(t)
    {
      var i :| 0 <= i < |s| && p in Cells(s[i]);
      if i == ci || i == h {
        InCover(t, cj, p);
      } else {
        var j := if i < h then i else i - 1;
        assert t[j] == s[i];
        InCover(t, j, p);
      }
    }
    forall p | p in Cover(t)
      ensures p in Cover(s)
    {
      var j :| 0 <= j < |t| && p in Cells(t[j]);
      var i := Before(j, h);
      assert t[j] == u[i];
      if i == ci {
        if p in Cells(s[ci]) {
          InCover(s, ci, p);
        } else {
          InCover(s, h, p);
        }
      } else {
        assert u[i] == s[i];
        InCover(s, i, p);
      }
    }
  }

  lemma AbsorbDisjoint(axis: Axis, s: seq<Rect>, ci: nat, h: nat)
    requires ci < |s| && h < |s| && ci != h
    requires AllWellFormed(s) && Disjoint(s)
    requires Combinable(axis, s[ci], s[h])
    ensures AllWellFormed(Absorb(axis, s, ci, h))
    ensures Disjoint(Absorb(axis, s, ci, h))
  {
    var m := Merge(axis, s[ci], s[h]).value;
    var u := s[ci := m];
    var t := Absorb(axis, s, ci, h);
    MergeIsUnion(axis, s[ci], s[h]);
    forall j | 0 <= j < |t|
      ensures WellFormed(t[j])
    {
      assert t[j] == u[Before(j, h)];
    }
    forall j1, j2 | 0 <= j1 < |t| && 0 <= j2 < |t| && j1 != j2
      ensures !Overlap(t[j1], t[j2])
    {
      var i1, i2 := Before(j1, h), Before(j2, h);
      assert t[j1] == u[i1] && t[j2] == u[i2];
      assert i1 != i2 && i1 != h && i2 != h;
      if i1 == ci {
        MergeOverlap(axis, s[ci], s[h], s[i2]);
      } else if i2 == ci {
        MergeOverlap(axis, s[ci], s[h], s[i1]);
      }
    }
  }
}
