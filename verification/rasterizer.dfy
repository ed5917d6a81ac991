/**
 * Turning a line's final block list into images (`hist_to_images` in ccl.c).
 * A real block is rasterised with the running label counter; when none of
 * its cells carries that label the image is discarded and the same block is
 * tried again with the next label. The C loop never ends if the counter
 * climbs past every label in the histogram: that outcome is `Loops`.
 */
module Rasterizer {
  import opened Grids
  import opened Blocks

  /** The histogram cell under image cell `c` of block `b`. */
  function Under(b: Block, c: Cell): Cell
  {
    Cell(b.x + c.x, b.y + c.y)
  }

  /** The histogram cell under image cell `c` carries `current` (ccl.c:103). */
  predicate Hit(hist: Grid<int>, b: Block, current: int, c: Cell)
  {
    hist.Get(Under(b, c), 0) == current
  }

  /** The inner loop of ccl.c:101-108 on image row `y`, from column `x`. */
  function StencilRow(hist: Grid<int>, b: Block, current: int, y: int, x: int, img: Grid<Pixel>, found: bool)
    : (r: (Grid<Pixel>, bool))
    requires img.Valid() && img.width == b.width && img.height == b.height && 0 <= y < img.height && 0 <= x
    ensures r.0.Valid() && SameShape(r.0, img)
    decreases b.width - x
  {
    if x >= b.width then (img, found)
    else
      var c := Cell(x, y);
      var hit := Hit(hist, b, current, c);
      StencilRow(hist, b, current, y, x + 1, if hit then img.Set(c, Ink) else img, found || hit)
  }

  /** The row scan inks exactly the cells of row `y` from column `x` on where the histogram holds `current`. */
  lemma {:induction false} StencilRowInks(hist: Grid<int>, b: Block, current: int, y: int, x: int,
                                          img: Grid<Pixel>, found: bool)
    requires img.Valid() && img.width == b.width && img.height == b.height && 0 <= y < img.height && 0 <= x
    ensures var r := StencilRow(hist, b, current, y, x, img, found);
      forall c :: r.0.Contains(c) ==>
        r.0.At(c) == if c.y == y && x <= c.x && Hit(hist, b, current, c) then Ink else img.At(c)
    decreases b.width - x
  {
    if x < b.width {
      var c := Cell(x, y);
      var hit := Hit(hist, b, current, c);
      var next := if hit then img.Set(c, Ink) else img;
      StencilRowInks(hist, b, current, y, x + 1, next, found || hit);
      var r := StencilRow(hist, b, current, y, x, img, found);
      assert r == StencilRow(hist, b, current, y, x + 1, next, found || hit);
      forall d | r.0.Contains(d)
        ensures r.0.At(d) == if d.y == y && x <= d.x && Hit(hist, b, current, d) then Ink else img.At(d)
      {
        if d != c {
          assert next.At(d) == img.At(d);
        }
      }
    }
  }

  /** The row scan's flag says whether a cell of row `y` from column `x` on holds `current`. */
  lemma {:induction false} StencilRowFinds(hist: Grid<int>, b: Block, current: int, y: int, x: int,
                                           img: Grid<Pixel>, found: bool)
    requires img.Valid() && img.width == b.width && img.height == b.height && 0 <= y < img.height && 0 <= x
    ensures StencilRow(hist, b, current, y, x, img, found).1 <==>
      found || exists k :: x <= k < b.width && Hit(hist, b, current, Cell(k, y))
    decreases b.width - x
  {
    if x < b.width {
      var hit := Hit(hist, b, current, Cell(x, y));
      var next := if hit then img.Set(Cell(x, y), Ink) else img;
      StencilRowFinds(hist, b, current, y, x + 1, next, found || hit);
      if exists k :: x <= k < b.width && Hit(hist, b, current, Cell(k, y)) {
        var k :| x <= k < b.width && Hit(hist, b, current, Cell(k, y));
        if k > x {
          assert x + 1 <= k < b.width;
        }
      }
    }
  }

  /** The outer loop of ccl.c:99-109, from image row `y`. */
  function StencilRows(hist: Grid<int>, b: Block, current: int, y: int, img: Grid<Pixel>, found: bool)
    : (r: (Grid<Pixel>, bool))
    requires img.Valid() && img.width == b.width && img.height == b.height && 0 <= y
    ensures r.0.Valid() && SameShape(r.0, img)
    decreases b.height - y
  {
    if y >= b.height then (img, found)
    else
      var row := StencilRow(hist, b, current, y, 0, img, found);
      StencilRows(hist, b, current, y + 1, row.0, row.1)
  }

  /**
   * The rows from `y` down are inked exactly where the histogram holds
   * `current`, and the flag says whether any of them matched.
   */
  lemma {:induction false} StencilRowsMeaning(hist: Grid<int>, b: Block, current: int, y: int,
                                              img: Grid<Pixel>, found: bool)
    requires img.Valid() && img.width == b.width && img.height == b.height && 0 <= y
    ensures var r := StencilRows(hist, b, current, y, img, found);
      && (forall c :: r.0.Contains(c) ==>
            r.0.At(c) == if y <= c.y && Hit(hist, b, current, c) then Ink else img.At(c))
      && (r.1 <==> found || exists c :: img.Contains(c) && y <= c.y && Hit(hist, b, current, c))
    decreases b.height - y
  {
    if y < b.height {
      var row := StencilRow(hist, b, current, y, 0, img, found);
      StencilRowInks(hist, b, current, y, 0, img, found);
      StencilRowFinds(hist, b, current, y, 0, img, found);
      StencilRowsMeaning(hist, b, current, y + 1, row.0, row.1);
      StencilCompose(hist, b, current, y, img, found, row, StencilRows(hist, b, current, y + 1, row.0, row.1));
    }
  }

  lemma StencilCompose(hist: Grid<int>, b: Block, current: int, y: int, img: Grid<Pixel>, found: bool,
                       row: (Grid<Pixel>, bool), r: (Grid<Pixel>, bool))
    requires img.Valid() && row.0.Valid() && r.0.Valid() && SameShape(row.0, img) && SameShape(r.0, img)
    requires img.width == b.width && 0 <= y < img.height
    requires forall c :: row.0.Contains(c) ==>
      row.0.At(c) == if c.y == y && 0 <= c.x && Hit(hist, b, current, c) then Ink else img.At(c)
    requires row.1 <==> found || exists k :: 0 <= k < b.width && Hit(hist, b, current, Cell(k, y))
    requires forall c :: r.0.Contains(c) ==>
      r.0.At(c) == if y + 1 <= c.y && Hit(hist, b, current, c) then Ink else row.0.At(c)
    requires r.1 <==> row.1 || exists c :: row.0.Contains(c) && y + 1 <= c.y && Hit(hist, b, current, c)
    ensures forall c :: r.0.Contains(c) ==>
      r.0.At(c) == if y <= c.y && Hit(hist, b, current, c) then Ink else img.At(c)
    ensures r.1 <==> found || exists c :: img.Contains(c) && y <= c.y && Hit(hist, b, current, c)
  {
    forall c | r.0.Contains(c)
      ensures r.0.At(c) == if y <= c.y && Hit(hist, b, current, c) then Ink else img.At(c)
    {
      assert row.0.Contains(c);
    }
    if exists c :: img.Contains(c) && y <= c.y && Hit(hist, b, current, c) {
      var c :| img.Contains(c) && y <= c.y && Hit(hist, b, current, c);
      if c.y == y {
        assert 0 <= c.x < b.width && Hit(hist, b, current, Cell(c.x, y));
      } else {
        assert row.0.Contains(c);
      }
    }
    if exists k :: 0 <= k < b.width && Hit(hist, b, current, Cell(k, y)) {
      var k :| 0 <= k < b.width && Hit(hist, b, current, Cell(k, y));
      assert img.Contains(Cell(k, y));
    }
  }

  /**
   * The scan of ccl.c:97-109 for one block: a background image of the block's
   * size, inked exactly where the histogram holds `current`, and whether any
   * cell matched.
   */
  function Stencil(hist: Grid<int>, b: Block, current: int): (r: (Img, bool))
    requires hist.Valid() && b.Inside(hist.width, hist.height) && current >= 1
    ensures r.0.mark == NoMarker && r.0.raster.Valid()
    ensures r.0.raster.width == b.width && r.0.raster.height == b.height
  {
    var blank := Blank(b.width, b.height);
    var s := StencilRows(hist, b, current, 0, blank.raster, false);
    (Img(s.0, NoMarker), s.1)
  }

  /**
   * The stencil is inked exactly where the block's histogram cells hold
   * `current`, and it reports a match exactly when the block holds that label.
   */
  lemma StencilMeaning(hist: Grid<int>, b: Block, current: int)
    requires hist.Valid() && b.Inside(hist.width, hist.height) && current >= 1
    ensures var r := Stencil(hist, b, current);
      && (forall c :: r.0.raster.Contains(c) ==> (r.0.raster.At(c) == Ink <==> Hit(hist, b, current, c)))
      && (r.1 <==> HasCell(hist, b, current))
      && (r.1 <==> exists c :: r.0.raster.Contains(c) && r.0.raster.At(c) == Ink)
  {
    var blank := Blank(b.width, b.height);
    var s := StencilRows(hist, b, current, 0, blank.raster, false);
    StencilRowsMeaning(hist, b, current, 0, blank.raster, false);
    StencilFound(hist, b, current, s.0, s.1);
  }

  /** The stencil's match flag says exactly whether the block holds the label. */
  lemma StencilMatches(hist: Grid<int>, b: Block, current: int)
    requires hist.Valid() && b.Inside(hist.width, hist.height) && current >= 1
    ensures Stencil(hist, b, current).1 <==> HasCell(hist, b, current)
  {
    StencilMeaning(hist, b, current);
  }

  lemma StencilFound(hist: Grid<int>, b: Block, current: int, img: Grid<Pixel>, found: bool)
    requires hist.Valid() && b.Inside(hist.width, hist.height) && current >= 1
    requires img.Valid() && img.width == b.width && img.height == b.height
    requires forall c :: img.Contains(c) ==> (img.At(c) == Ink <==> Hit(hist, b, current, c))
    requires found <==> exists c :: img.Contains(c) && 0 <= c.y && Hit(hist, b, current, c)
    ensures found <==> HasCell(hist, b, current)
    ensures found <==> exists c :: img.Contains(c) && img.At(c) == Ink
  {
    if found {
      var c :| img.Contains(c) && 0 <= c.y && Hit(hist, b, current, c);
      assert hist.Contains(Under(b, c)) && b.Covers(Under(b, c));
      assert img.At(c) == Ink;
    }
    if HasCell(hist, b, current) {
      var d :| hist.Valid() && hist.Contains(d) && b.Covers(d) && hist.At(d) == current;
      var c := Cell(d.x - b.x, d.y - b.y);
      assert Under(b, c) == d;
      assert img.Contains(c) && Hit(hist, b, current, c);
    }
    if exists c :: img.Contains(c) && img.At(c) == Ink {
      var c :| img.Contains(c) && img.At(c) == Ink;
      assert Hit(hist, b, current, c);
    }
  }

  /** The largest value in a sequence of labels, or 0. */
  function MaxOf(s: seq<int>): (m: int)
    ensures m >= 0 && forall i :: 0 <= i < |s| ==> s[i] <= m
    ensures m == 0 || m in s
  {
    if s == [] then 0
    else
      var rest := MaxOf(s[1..]);
      if s[0] > rest then s[0] else rest
  }

  /** Buffer offset `i` is the cell `CellAt(i)` of the grid. */
  lemma StoredAt(hist: Grid<int>, i: int)
    requires hist.Valid() && 0 <= i < |hist.cells|
    ensures hist.width > 0 && hist.Contains(CellAt(i, hist.width))
    ensures hist.At(CellAt(i, hist.width)) == hist.cells[i]
  {
    IndexCellAt(i, hist.width, hist.height);
  }

  /** The largest label in the histogram. */
  function MaxLabel(hist: Grid<int>): (m: int)
    requires hist.Valid()
    ensures m >= 0 && forall c :: hist.Contains(c) ==> hist.At(c) <= m
  {
    var m := MaxOf(hist.cells);
    forall c | hist.Contains(c)
      ensures hist.At(c) <= m
    {
      IndexInRange(c, hist.width, hist.height);
    }
    m
  }

  /** How many labels remain that a block could still match. */
  function Headroom(hist: Grid<int>, current: int): nat
    requires hist.Valid()
  {
    if current <= MaxLabel(hist) then MaxLabel(hist) - current + 1 else 0
  }

  /** `img` is what `hist_to_images` emits for block `b`. */
  ghost predicate Renders(hist: Grid<int>, b: Block, img: Img)
  {
    if b.IsMarker() then img == MarkerImg(b.mark)
    else
      && img.mark == NoMarker && img.raster.Valid()
      && img.raster.width == b.width && img.raster.height == b.height
      && (exists k :: k >= 1 && Shows(hist, b, img, k))
      && (exists c :: img.raster.Contains(c) && img.raster.At(c) == Ink)
  }

  /** The image is inked exactly at the cells of `b` that hold label `k`. */
  ghost predicate Shows(hist: Grid<int>, b: Block, img: Img, k: int)
  {
    img.raster.Valid() &&
    forall c :: img.raster.Contains(c) ==> (img.raster.At(c) == Ink <==> Hit(hist, b, k, c))
  }

  /**
   * `hist_to_images` (ccl.c:79-122) from list position `bs` with label
   * counter `current`. On termination there is one image per block, in list
   * order.
   */
  function HistToImages(hist: Grid<int>, bs: seq<Block>, current: int): (r: Run<seq<Img>>)
    requires hist.Valid() && GlyphsInside(bs, hist) && current >= 1
    ensures r.Done? ==> |r.value| == |bs|
    decreases |bs|, Headroom(hist, current)
  {
    if bs == [] then Done([])
    else
      var b := bs[0];
      assert b in bs;
      if b.IsMarker() then
        match HistToImages(hist, bs[1..], current)
        case Loops => Loops
        case Done(imgs) => Done([MarkerImg(b.mark)] + imgs)
      else
        var s := Stencil(hist, b, current);
        if s.1 then
          match HistToImages(hist, bs[1..], current + 1)
          case Loops => Loops
          case Done(imgs) => Done([s.0] + imgs)
        else if current > MaxLabel(hist) then Loops
        else HistToImages(hist, bs, current + 1)
  }

  /**
   * Whatever `hist_to_images` emits, image `i` belongs to block `i`: the
   * marker image for a marker, and for a real block an image of its size
   * inked exactly at the cells holding one label, with at least one ink pixel.
   */
  lemma {:induction false} ImagesRender(hist: Grid<int>, bs: seq<Block>, current: int)
    requires hist.Valid() && GlyphsInside(bs, hist) && current >= 1
    requires HistToImages(hist, bs, current).Done?
    ensures forall i :: 0 <= i < |bs| ==> Renders(hist, bs[i], HistToImages(hist, bs, current).value[i])
    decreases |bs|, Headroom(hist, current)
  {
    if bs != [] {
      var b := bs[0];
      assert b in bs;
      TailInside(hist, bs);
      if b.IsMarker() {
        ImagesRender(hist, bs[1..], current);
        MarkerStep(hist, bs, current);
        ConsRenders(hist, bs, MarkerImg(b.mark), HistToImages(hist, bs[1..], current).value);
      } else if Stencil(hist, b, current).1 {
        ImagesRender(hist, bs[1..], current + 1);
        MatchStep(hist, bs, current);
        StencilRenders(hist, b, current);
        ConsRenders(hist, bs, Stencil(hist, b, current).0, HistToImages(hist, bs[1..], current + 1).value);
      } else {
        RetryStep(hist, bs, current);
        ImagesRender(hist, bs, current + 1);
      }
    }
  }

  lemma ConsRenders(hist: Grid<int>, bs: seq<Block>, img: Img, rest: seq<Img>)
    requires bs != [] && |rest| == |bs| - 1 && Renders(hist, bs[0], img)
    requires forall i :: 0 <= i < |rest| ==> Renders(hist, bs[1..][i], rest[i])
    ensures forall i :: 0 <= i < |bs| ==> Renders(hist, bs[i], ([img] + rest)[i])
  {
    forall i | 0 <= i < |bs|
      ensures Renders(hist, bs[i], ([img] + rest)[i])
    {
      if i > 0 {
        assert bs[i] == bs[1..][i - 1] && ([img] + rest)[i] == rest[i - 1];
      }
    }
  }

  /** A block that matched the counter renders as its stencil. */
  lemma StencilRenders(hist: Grid<int>, b: Block, current: int)
    requires hist.Valid() && b.Inside(hist.width, hist.height) && current >= 1
    requires !b.IsMarker() && Stencil(hist, b, current).1
    ensures Renders(hist, b, Stencil(hist, b, current).0)
  {
    StencilMeaning(hist, b, current);
    var img := Stencil(hist, b, current).0;
    assert Shows(hist, b, img, current);
  }

  /** The tail of a tagged list stays tagged, above the counter the head leaves behind. */
  lemma TaggedTail(hist: Grid<int>, bs: seq<Block>, tags: seq<int>, current: int)
    requires |bs| > 0 && Tagged(hist, bs, tags)
    requires forall i :: 0 <= i < |bs| && !bs[i].IsMarker() ==> current <= tags[i]
    ensures Tagged(hist, bs[1..], tags[1..])
    ensures forall i :: 0 <= i < |bs[1..]| && !bs[1..][i].IsMarker() ==>
      current + (if bs[0].IsMarker() then 0 else 1) <= tags[1..][i]
  {
    forall i | 0 <= i < |bs[1..]| && !bs[1..][i].IsMarker()
      ensures 1 <= tags[1..][i] && HasCell(hist, bs[1..][i], tags[1..][i])
      ensures current + (if bs[0].IsMarker() then 0 else 1) <= tags[1..][i]
    {
      assert bs[1..][i] == bs[i + 1] && tags[1..][i] == tags[i + 1];
    }
    forall i, j | 0 <= i < j < |bs[1..]| && !bs[1..][i].IsMarker() && !bs[1..][j].IsMarker()
      ensures tags[1..][i] < tags[1..][j]
    {
      assert bs[1..][i] == bs[i + 1] && bs[1..][j] == bs[j + 1];
    }
  }

  /** A block that holds label `tag` but not `current <= tag` leaves the counter room to climb. */
  lemma Climbs(hist: Grid<int>, b: Block, tag: int, current: int)
    requires hist.Valid() && b.Inside(hist.width, hist.height) && current >= 1
    requires HasCell(hist, b, tag) && current <= tag && !Stencil(hist, b, current).1
    ensures current < tag <= MaxLabel(hist)
  {
    StencilMeaning(hist, b, current);
    var c :| hist.Valid() && hist.Contains(c) && b.Covers(c) && hist.At(c) == tag;
  }

  lemma TailInside(hist: Grid<int>, bs: seq<Block>)
    requires GlyphsInside(bs, hist) && bs != []
    ensures GlyphsInside(bs[1..], hist)
  {
    forall d | d in bs[1..] && !d.IsMarker()
      ensures d.Inside(hist.width, hist.height)
    {
      assert d in bs;
    }
  }

  /** A marker is passed through and the counter stays. */
  lemma MarkerStep(hist: Grid<int>, bs: seq<Block>, current: int)
    requires hist.Valid() && GlyphsInside(bs, hist) && current >= 1 && bs != [] && bs[0].IsMarker()
    requires GlyphsInside(bs[1..], hist) && HistToImages(hist, bs[1..], current).Done?
    ensures HistToImages(hist, bs, current)
      == Done([MarkerImg(bs[0].mark)] + HistToImages(hist, bs[1..], current).value)
  {
  }

  /** A real block that matched is emitted and the counter moves on. */
  lemma MatchStep(hist: Grid<int>, bs: seq<Block>, current: int)
    requires hist.Valid() && GlyphsInside(bs, hist) && current >= 1 && bs != [] && !bs[0].IsMarker()
    requires bs[0].Inside(hist.width, hist.height) && Stencil(hist, bs[0], current).1
    ensures GlyphsInside(bs[1..], hist)
    ensures HistToImages(hist, bs[1..], current + 1).Done? ==>
      HistToImages(hist, bs, current)
        == Done([Stencil(hist, bs[0], current).0] + HistToImages(hist, bs[1..], current + 1).value)
  {
    TailInside(hist, bs);
  }

  /** A real block that matches no label up to the largest one is never left behind. */
  lemma StuckStep(hist: Grid<int>, bs: seq<Block>, current: int)
    requires hist.Valid() && GlyphsInside(bs, hist) && current >= 1 && bs != [] && !bs[0].IsMarker()
    requires bs[0].Inside(hist.width, hist.height) && !Stencil(hist, bs[0], current).1
    requires current > MaxLabel(hist)
    ensures HistToImages(hist, bs, current) == Loops
  {
  }

  /** A real block that did not match is retried with the next label while labels remain. */
  lemma RetryStep(hist: Grid<int>, bs: seq<Block>, current: int)
    requires hist.Valid() && GlyphsInside(bs, hist) && current >= 1 && bs != [] && !bs[0].IsMarker()
    requires bs[0].Inside(hist.width, hist.height) && !Stencil(hist, bs[0], current).1
    requires current <= MaxLabel(hist)
    ensures HistToImages(hist, bs, current) == HistToImages(hist, bs, current + 1)
  {
  }

  /**
   * When every real block holds a cell of its own tag and tags rise along the
   * list, starting no lower than the counter, `hist_to_images` terminates and
   * emits one image per block.
   */
  lemma {:induction false} TaggedTerminates(hist: Grid<int>, bs: seq<Block>, tags: seq<int>, current: int)
    requires hist.Valid() && GlyphsInside(bs, hist) && current >= 1
    requires Tagged(hist, bs, tags)
    requires forall i :: 0 <= i < |bs| && !bs[i].IsMarker() ==> current <= tags[i]
    ensures HistToImages(hist, bs, current).Done?
    ensures |HistToImages(hist, bs, current).value| == |bs|
    decreases |bs|, if bs != [] then tags[0] - current else 0, 2
  {
    if bs == [] {
      assert HistToImages(hist, bs, current) == Done([]);
    } else if bs[0].IsMarker() {
      TaggedTail(hist, bs, tags, current);
      TailInside(hist, bs);
      TaggedTerminates(hist, bs[1..], tags[1..], current);
      MarkerStep(hist, bs, current);
    } else {
      GlyphTerminates(hist, bs, tags, current);
    }
  }

  /** The case of `TaggedTerminates` where the list starts with a real block. */
  lemma {:induction false} GlyphTerminates(hist: Grid<int>, bs: seq<Block>, tags: seq<int>, current: int)
    requires hist.Valid() && GlyphsInside(bs, hist) && current >= 1
    requires Tagged(hist, bs, tags) && bs != [] && !bs[0].IsMarker()
    requires forall i :: 0 <= i < |bs| && !bs[i].IsMarker() ==> current <= tags[i]
    ensures HistToImages(hist, bs, current).Done?
    ensures |HistToImages(hist, bs, current).value| == |bs|
    decreases |bs|, tags[0] - current, 1
  {
    assert bs[0] in bs;
    if Stencil(hist, bs[0], current).1 {
      MatchTerminates(hist, bs, tags, current);
    } else {
      RetryTerminates(hist, bs, tags, current);
    }
  }

  /** A real block that matched: the rest of the list terminates one label higher. */
  lemma {:induction false} MatchTerminates(hist: Grid<int>, bs: seq<Block>, tags: seq<int>, current: int)
    requires hist.Valid() && GlyphsInside(bs, hist) && current >= 1
    requires Tagged(hist, bs, tags) && bs != [] && !bs[0].IsMarker()
    requires forall i :: 0 <= i < |bs| && !bs[i].IsMarker() ==> current <= tags[i]
    requires bs[0].Inside(hist.width, hist.height) && Stencil(hist, bs[0], current).1
    ensures HistToImages(hist, bs, current).Done?
    ensures |HistToImages(hist, bs, current).value| == |bs|
    decreases |bs|, tags[0] - current, 0
  {
    MatchStep(hist, bs, current);
    var tail := HistToImages(hist, bs[1..], current + 1);
    assert tail.Done? && |tail.value| == |bs| - 1 by {
      TaggedTail(hist, bs, tags, current);
      TaggedTerminates(hist, bs[1..], tags[1..], current + 1);
    }
    assert HistToImages(hist, bs, current) == Done([Stencil(hist, bs[0], current).0] + tail.value);
  }

  /** A real block that did not match: it is retried one label higher, which is still at most its tag. */
  lemma {:induction false} RetryTerminates(hist: Grid<int>, bs: seq<Block>, tags: seq<int>, current: int)
    requires hist.Valid() && GlyphsInside(bs, hist) && current >= 1
    requires Tagged(hist, bs, tags) && bs != [] && !bs[0].IsMarker()
    requires forall i :: 0 <= i < |bs| && !bs[i].IsMarker() ==> current <= tags[i]
    requires bs[0].Inside(hist.width, hist.height) && !Stencil(hist, bs[0], current).1
    ensures HistToImages(hist, bs, current).Done?
    ensures |HistToImages(hist, bs, current).value| == |bs|
    decreases |bs|, tags[0] - current, 0
  {
    Climbs(hist, bs[0], tags[0], current);
    var retry := HistToImages(hist, bs, current + 1);
    assert retry.Done? && |retry.value| == |bs| by {
      forall i | 0 <= i < |bs| && !bs[i].IsMarker()
        ensures current + 1 <= tags[i]
      {
        if i > 0 {
          assert tags[0] < tags[i];
        }
      }
      GlyphTerminates(hist, bs, tags, current + 1);
    }
    assert HistToImages(hist, bs, current) == retry by {
      RetryStep(hist, bs, current);
    }
  }

  /**
   * A histogram without labels (a region without ink) and a real block: the
   * counter passes every label without a match and the C loop never ends.
   */
  lemma UnlabelledLoops(hist: Grid<int>, bs: seq<Block>)
    requires hist.Valid() && GlyphsInside(bs, hist) && bs != [] && !bs[0].IsMarker()
    requires forall c :: hist.Contains(c) ==> hist.At(c) == 0
    ensures HistToImages(hist, bs, 1) == Loops
  {
    assert bs[0] in bs;
    if MaxLabel(hist) != 0 {
      var i :| 0 <= i < |hist.cells| && hist.cells[i] == MaxLabel(hist);
      StoredAt(hist, i);
      assert false;
    }
    StencilMeaning(hist, bs[0], 1);
    StuckStep(hist, bs, 1);
  }
}
