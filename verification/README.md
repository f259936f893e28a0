# ImageToText rectangle coalescer in Dafny

ImageToText turns level images into text files for games. Each pixel whose
colour is defined in the configuration carries a keyword (its label). The tool
emits a short list of tagged rectangles that cover those pixels. This project
models the part of `main` that builds that list, together with the
`TaggedRectangle` value type it works on.

- **Seeding.** Rows are scanned top to bottom and each row left to right. Every
  labelled cell becomes a 1x1 `TaggedRectangle` at (column, row).
- **Merging to a fixpoint.** A `do … while (combinations > 0)` loop runs a
  horizontal pass and then a vertical pass. Each pass takes every slot `k` of
  the work list as `current` and compares it with every slot `h`. When `other`
  touches `current` along a full edge, `current` grows to cover both and
  `other` is removed from the list. In the model, `Coalescer.Round` is one
  iteration of the loop body. `Coalescer.Coalesce` runs it once, then again
  while `combinations > 0`, as the `do … while` does.

The model follows the code, quirks included:

- The horizontal pass does not compare tags. When `other` has a different tag,
  its label is lost and the merged rectangle keeps `current`'s tag
  (`Merging.HorizontalMerge`, `Coalescer.MixedRowImage`). Only the vertical
  pass checks `hasSameTag`.
- After `remove(h)` the scan still does `h++`. The element that shifted into
  slot `h` is therefore not compared with `current` in that scan.
- `current` is a reference. When an element before it is removed, it moves
  down one slot; `Coalescer.Pass` tracks that slot as `ci`. `k` is not
  adjusted, so the next outer step can skip an element.
- The comments at ImageToText.java lines 196, 209 and 225 contradict the code.
  Line 196 says "remove the current rectangle", but the code removes `other`.
  Line 209 says "don't combine if they have the same tag", but the code skips
  pairs whose tags differ. Line 225 speaks of right and left bounds, but the
  code compares lower and upper bounds. The model follows the code.
- A pass does not compare every ordered pair. After a removal, `h++` skips
  the slot that shifted down, as described above. A pass examines every pair
  only when it merges nothing, and a round that merges nothing ends the loop.
- There is no check that the grid is width × height. `main` reads a decoded
  image, which is always rectangular. The model scans each row to its own
  length and has no error case.

Modules:

- `TaggedRectangles` (tagged_rectangle.dfy) holds the value type, the
  constructor, the getter and setters, and `hasSameTag`.
- `Geometry` (geometry.dfy) defines a rectangle's cells, the cover of a list,
  total area and overlap.
- `Merging` (merging.dfy) holds one horizontal or vertical merge of a pair,
  `ArrayList.remove`, and the one-merge preservation lemma.
- `Seeding` (seeding.dfy) holds the labelled grid and the seeding scan.
- `Labelling` (labelling.dfy) covers when rectangles carry their cells' labels.
- `Coalescer` (coalescer.dfy) holds one pass, the fixpoint loop and the whole
  conversion of one image.
- `Options` (options.dfy) holds the optional label / merge outcome.

## Model

| member | source | states |
|---|---|---|
| TaggedRectangles.New | src/imagetotext/TaggedRectangle.java:37-40 | the constructor stores exactly the given tag, x, y, width and height |
| TaggedRectangles.SetWidth | src/imagetotext/TaggedRectangle.java:46-48 | `setWidth` sets the width; tag, x, y and height are unchanged |
| TaggedRectangles.SetHeight | src/imagetotext/TaggedRectangle.java:50-52 | `setHeight` sets the height; tag, x, y and width are unchanged |
| TaggedRectangles.SetX | src/imagetotext/TaggedRectangle.java:54-56 | `setX` moves the left edge; tag, y, width and height are unchanged |
| TaggedRectangles.SetY | src/imagetotext/TaggedRectangle.java:58-60 | `setY` moves the top edge; tag, x, width and height are unchanged |
| TaggedRectangles.TagFixedAtConstruction | src/imagetotext/TaggedRectangle.java:35-44 | after any sequence of setter calls, `getTag` still returns the tag given to the constructor |
| TaggedRectangles.HasSameTagIsEquivalence | src/imagetotext/TaggedRectangle.java:67-69 | `hasSameTag` is reflexive, symmetric and transitive |
| Seeding.Seed | src/imagetotext/ImageToText.java:157-168 | one 1x1 rectangle per labelled cell, at (column, row) with the cell's label as tag, in strict row-major order; unlabelled cells give nothing; the seeds are disjoint, cover exactly the labelled cells, and their number and area equal the labelled-cell count |
| Seeding.SeedsPartition | src/imagetotext/ImageToText.java:159-168 | 1x1 seeds in strict row-major order, one for each labelled cell, are pairwise disjoint and cover exactly the labelled cells |
| Merging.HorizontalMerge | src/imagetotext/ImageToText.java:182-198 | merges exactly when y and height are equal and one rectangle's left edge touches the other's right edge; the result is as wide as both together, starts at the smaller x when both are well formed, and keeps `current`'s y, height and tag whatever `other`'s tag is |
| Merging.VerticalMerge | src/imagetotext/ImageToText.java:209-230 | merges exactly when the tags are equal, x and width are equal, and the rectangles touch top to bottom; the result is as tall as both together, starts at the smaller y when both are well formed, and keeps x, width and tag |
| Merging.NoSelfMerge | src/imagetotext/ImageToText.java:183-229 | a rectangle with width and height at least 1 never merges with itself, on either axis |
| Merging.MergeIsUnion | src/imagetotext/ImageToText.java:183-229 | the merged rectangle covers exactly the cells of the two parts, which are disjoint; its area is the sum of theirs; its width and height stay at least 1 |
| Merging.MergeOverlap | src/imagetotext/ImageToText.java:183-229 | a third rectangle overlaps the merged one exactly when it overlaps one of the two parts |
| Merging.Remove | src/imagetotext/ImageToText.java:190 | `remove(i)` shortens the list by one, keeps the elements before `i`, and shifts the later ones down one slot |
| Merging.AbsorbPreserves | src/imagetotext/ImageToText.java:183-229 | one merge removes exactly one element, which is never `current`; the list stays well formed and disjoint, with the same cover and area; `current` moves down one slot when the removed element lay before it |
| Labelling.SeedsAgree | src/imagetotext/ImageToText.java:162-165 | every seed's tag is the label of its cell |
| Labelling.SideBySideSameTag | src/imagetotext/ImageToText.java:183-198 | if no two side-by-side cells of a row have different labels, two side-by-side rectangles that carry their cells' labels have the same tag |
| Labelling.MergeAgrees | src/imagetotext/ImageToText.java:183-229 | a vertical merge, or a horizontal merge on an image whose rows are uniform, produces a rectangle whose tag is the label of each of its cells |
| Labelling.AbsorbAgrees | src/imagetotext/ImageToText.java:183-229 | one such merge keeps every rectangle of the list carrying its cells' labels |
| Labelling.MixedRowLosesLabel | src/imagetotext/ImageToText.java:183-198 | on the one-row image `a b`, any disjoint cover of both cells without side-by-side pairs gives some cell the wrong tag |
| Coalescer.Pass | src/imagetotext/ImageToText.java:177-233 | a pass keeps widths and heights at least 1, keeps the rectangles disjoint, keeps the covered cells and the total area, and shortens the list by its merge count; it merges nothing exactly when no ordered pair of its input is combinable, and then returns its input unchanged; the vertical pass keeps every rectangle carrying its cells' labels, and the horizontal pass does so when rows are uniform |
| Coalescer.Round | src/imagetotext/ImageToText.java:174-233 | one round of the loop body, a horizontal pass followed by a vertical pass, shortens the list by its merge count; it merges nothing exactly when no pair of its input is combinable on either axis (the loop condition `combinations > 0` fails exactly at a fixpoint), and then returns its input unchanged; it keeps cover, area, disjointness and, on images with uniform rows, the labels |
| Coalescer.Coalesce | src/imagetotext/ImageToText.java:172-235 | the loop ends; the result keeps the cover, area, disjointness and well-formedness, is no longer than the input, and has no horizontally combinable pair and no same-tag vertically combinable pair; a list that is already a fixpoint comes back unchanged |
| Coalescer.ImageToRectangles | src/imagetotext/ImageToText.java:157-235 | the rectangles are disjoint and cover exactly the labelled cells, their total area equals the number of labelled cells, and none can be merged further; an image without labelled cells gives none; on an image with uniform rows every rectangle's tag is the label of each of its cells |
| Coalescer.MixedRowImage | src/imagetotext/ImageToText.java:183-198 | on the one-row image `a b` the result gives one of the two cells the wrong tag, because the horizontal pass does not compare tags |

## Left out

- Command-line parsing and the input/output directory checks (ImageToText.java:51-80): these are I/O.
- Reading `config.txt` (ImageToText.java:89-120): file I/O, `Float.parseFloat` and `java.awt.Color`. The colour-to-keyword table it builds is not modelled.
- Listing the input directory, the extension filter and `ImageIO.read` (ImageToText.java:130-154): file system access and image decoding.
- The pixel colour → keyword lookup (ImageToText.java:161-162). The model takes the grid after that lookup: `Some(keyword)` for a defined colour and `None` otherwise.
- Output file naming and the KEYPAIRS and JSON writers (ImageToText.java:240-266). These do float scaling, string formatting and file output.
- Console progress messages, the `rectanglesBefore` count that only feeds a message, and the exception handler (ImageToText.java:158, 170, 237-238, 268-277).
- The `java.awt.Rectangle` superclass. Its fields are modelled as unbounded `int`s. The `double` getters and the `(int)` casts in the merges are not modelled. The casts are exact because every rectangle stays inside the image: the covered cells never change.
- Mutation through shared references. The work list holds values, and the model keeps the slot of `current` explicitly.
