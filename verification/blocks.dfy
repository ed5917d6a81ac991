/**
 * The records the segmentation engine passes around: binary pixels, raster
 * images, bounding blocks with their marker labels, and the outcome of a loop
 * that may not terminate.
 */
module Blocks {
  import opened Grids

  /** A binarised pixel: 0 is ink, 1 is background. */
  type Pixel = p: int | 0 <= p <= 1

  const Ink: Pixel := 0
  const Background: Pixel := 1

  /** The label of a real glyph block; any other label marks a synthetic block. */
  const NoMarker: char := '\0'
  const SpaceMark: char := ' '
  const NewlineMark: char := '\n'

  /** An axis-aligned rectangle in its line's coordinates; `mark` is the C `label` field. */
  datatype Block = Block(x: int, y: int, width: int, height: int, mark: char)
  {
    predicate IsMarker()
    {
      mark != NoMarker
    }

    function Right(): int
    {
      x + width
    }

    function Bottom(): int
    {
      y + height
    }

    predicate Covers(c: Cell)
    {
      x <= c.x < Right() && y <= c.y < Bottom()
    }

    /** The rectangle lies inside a `w * h` grid (and has no negative extent). */
    predicate Inside(w: int, h: int)
    {
      0 <= x && 0 <= y && 0 <= width && 0 <= height && Right() <= w && Bottom() <= h
    }
  }

  function Min(a: int, b: int): int { if a <= b then a else b }
  function Max(a: int, b: int): int { if a >= b then a else b }

  /** A raster image with its classification label (`label` in the C struct). */
  datatype Img = Img(raster: Grid<Pixel>, mark: char)

  /** `img_init(w, h)`: an unlabelled raster of background pixels. */
  function Blank(w: nat, h: nat): (img: Img)
    ensures img.raster.Valid() && img.raster.width == w && img.raster.height == h
    ensures img.mark == NoMarker
    ensures forall c :: img.raster.Contains(c) ==> img.raster.At(c) == Background
  {
    Img(Build(w, h, c => Background), NoMarker)
  }

  /** A zero-size image that only carries a marker label. */
  function MarkerImg(mark: char): Img
  {
    Img(Grid(0, 0, []), mark)
  }

  /** Some cell of the histogram inside the block's rectangle carries `lbl`. */
  ghost predicate HasCell(hist: Grid<int>, b: Block, lbl: int)
  {
    exists c :: hist.Valid() && hist.Contains(c) && b.Covers(c) && hist.At(c) == lbl
  }

  /** The outcome of a loop: its result, or the fact that it never finishes. */
  datatype Run<T> = Done(value: T) | Loops

  /**
   * Labels `tags` for the blocks: each real block's rectangle holds a cell
   * with its tag, and tags rise strictly along the real blocks of the list.
   */
  ghost predicate Tagged(hist: Grid<int>, bs: seq<Block>, tags: seq<int>)
  {
    && |tags| == |bs|
    && (forall i :: 0 <= i < |bs| && !bs[i].IsMarker() ==> 1 <= tags[i] && HasCell(hist, bs[i], tags[i]))
    && (forall i, j :: 0 <= i < j < |bs| && !bs[i].IsMarker() && !bs[j].IsMarker() ==> tags[i] < tags[j])
  }

  /**
   * The real (non-marker) blocks of a list, in order. `GlyphImgs` is the
   * same filter on images, where a marker image is one with a label.
   */
  function Glyphs(bs: seq<Block>): seq<Block>
  {
    if bs == [] then []
    else if bs[0].IsMarker() then Glyphs(bs[1..])
    else [bs[0]] + Glyphs(bs[1..])
  }

  lemma {:induction false} GlyphsAppend(a: seq<Block>, b: seq<Block>)
    ensures Glyphs(a + b) == Glyphs(a) + Glyphs(b)
  {
    if a == [] {
      assert a + b == b;
    } else {
      assert (a + b)[1..] == a[1..] + b;
      GlyphsAppend(a[1..], b);
    }
  }

  /** The real glyph images of a list, in order. */
  function GlyphImgs(s: seq<Img>): seq<Img>
  {
    if s == [] then []
    else (if s[0].mark == NoMarker then [s[0]] else []) + GlyphImgs(s[1..])
  }

  lemma {:induction false} GlyphImgsAppend(a: seq<Img>, b: seq<Img>)
    ensures GlyphImgs(a + b) == GlyphImgs(a) + GlyphImgs(b)
  {
    if a == [] {
      assert a + b == b;
    } else {
      assert (a + b)[1..] == a[1..] + b;
      GlyphImgsAppend(a[1..], b);
    }
  }

  /** Every block of the list lies inside the histogram (the merge pass sees no markers yet). */
  predicate AllInside(bs: seq<Block>, hist: Grid<int>)
  {
    forall b :: b in bs ==> b.Inside(hist.width, hist.height)
  }

  /** Every real block of the list lies inside the histogram; marker blocks are never read. */
  predicate GlyphsInside(bs: seq<Block>, hist: Grid<int>)
  {
    forall b :: b in bs && !b.IsMarker() ==> b.Inside(hist.width, hist.height)
  }
}
