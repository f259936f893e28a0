/**
  The value type of the coalescer: an axis-aligned rectangle of grid cells that
  carries a keyword tag. `x`/`y` is the column/row of its top-left cell and
  `width`/`height` its extent in cells.

  The Java class is a mutable subclass of `java.awt.Rectangle`; here each setter
  is a function that returns the updated value, and the tag has no setter at all.
 */
module TaggedRectangles {

  datatype TaggedRectangle = TaggedRectangle(tag: string, x: int, y: int, width: int, height: int)

  /** The constructor stores exactly the given tag, position and size. */
  function New(tag: string, x: int, y: int, width: int, height: int): (r: TaggedRectangle)
    ensures GetTag(r) == tag
    ensures r.x == x && r.y == y && r.width == width && r.height == height
  {
    TaggedRectangle(tag, x, y, width, height)
  }

  function GetTag(r: TaggedRectangle): string
  {
    r.tag
  }

  /** Changes the width and nothing else. */
  function SetWidth(r: TaggedRectangle, w: int): (r': TaggedRectangle)
    ensures r'.width == w
    ensures r'.tag == r.tag && r'.x == r.x && r'.y == r.y && r'.height == r.height
  {
    r.(width := w)
  }

  /** Changes the height and nothing else. */
  function SetHeight(r: TaggedRectangle, h: int): (r': TaggedRectangle)
    ensures r'.height == h
    ensures r'.tag == r.tag && r'.x == r.x && r'.y == r.y && r'.width == r.width
  {
    r.(height := h)
  }

  /** Moves the left edge and changes nothing else. */
  function SetX(r: TaggedRectangle, x: int): (r': TaggedRectangle)
    ensures r'.x == x
    ensures r'.tag == r.tag && r'.y == r.y && r'.width == r.width && r'.height == r.height
  {
    r.(x := x)
  }

  /** Moves the top edge and changes nothing else. */
  function SetY(r: TaggedRectangle, y: int): (r': TaggedRectangle)
    ensures r'.y == y
    ensures r'.tag == r.tag && r'.x == r.x && r'.width == r.width && r'.height == r.height
  {
    r.(y := y)
  }

  /** `self.hasSameTag(other)`: the other rectangle's tag equals this one's. */
  predicate HasSameTag(self: TaggedRectangle, other: TaggedRectangle)
  {
    GetTag(other) == self.tag
  }

  /** Tag equality is an equivalence relation on rectangles. */
  lemma HasSameTagIsEquivalence()
    ensures forall a :: HasSameTag(a, a)
    ensures forall a, b :: HasSameTag(a, b) <==> HasSameTag(b, a)
    ensures forall a, b, c :: HasSameTag(a, b) && HasSameTag(b, c) ==> HasSameTag(a, c)
  {
  }

  /** One call of a public mutator of the class. */
  datatype Mutation = WidthTo(w: int) | HeightTo(h: int) | XTo(x: int) | YTo(y: int)

  function Apply(r: TaggedRectangle, m: Mutation): TaggedRectangle
  {
    match m
    case WidthTo(w) => SetWidth(r, w)
    case HeightTo(h) => SetHeight(r, h)
    case XTo(x) => SetX(r, x)
    case YTo(y) => SetY(r, y)
  }

  function ApplyAll(r: TaggedRectangle, ms: seq<Mutation>): TaggedRectangle
    decreases |ms|
  {
    if |ms| == 0 then r else ApplyAll(Apply(r, ms[0]), ms[1..])
  }

  /** No sequence of mutator calls changes the tag fixed at construction. */
  lemma {:induction false} TagFixedAtConstruction(r: TaggedRectangle, ms: seq<Mutation>)
    ensures GetTag(ApplyAll(r, ms)) == GetTag(r)
    decreases |ms|
  {
    if |ms| > 0 {
      TagFixedAtConstruction(Apply(r, ms[0]), ms[1..]);
    }
  }
}
