/**
 * Which label `hist_to_images` gives each block (ccl.c). A real block ends up
 * with the least label, from the running counter on, that it holds; markers
 * emit their marker image and leave the counter alone, so removing them does
 * not change any real block's image.
 */
module Rendering {
  import opened Grids
  import opened Blocks
  import opened Rasterizer

  /** `k` is the least label from `from` on that block `b` holds. */
  ghost predicate LeastFrom(hist: Grid<int>, b: Block, from: int, k: int)
  {
    from <= k && HasCell(hist, b, k) && forall j :: from <= j < k ==> !HasCell(hist, b, j)
  }

  /** A label a block holds is in the histogram, so it is at most the largest one. */
  lemma LabelBound(hist: Grid<int>, b: Block, k: int)
    requires hist.Valid() && HasCell(hist, b, k)
    ensures k <= MaxLabel(hist)
  {
    var c :| hist.Valid() && hist.Contains(c) && b.Covers(c) && hist.At(c) == k;
  }

  /** One more image in front of a finished run; a loop stays a loop. */
  function Prepend(img: Img, r: Run<seq<Img>>): Run<seq<Img>>
  {
    match r
    case Loops => Loops
    case Done(imgs) => Done([img] + imgs)
  }

  /**
   * A real block at the head of the list is retried until the counter reaches
   * the least label from `current` on that the block holds. It is rendered
   * with that label, and the rest of the list starts one label higher. A
   * block that holds no such label keeps the loop running forever.
   */
  lemma GlyphPicksLeast(hist: Grid<int>, bs: seq<Block>, current: int)
    requires hist.Valid() && GlyphsInside(bs, hist) && current >= 1 && bs != [] && !bs[0].IsMarker()
    ensures bs[0].Inside(hist.width, hist.height) && GlyphsInside(bs[1..], hist)
    ensures HistToImages(hist, bs, current).Done? ==> exists k :: LeastFrom(hist, bs[0], current, k)
    ensures forall k {:trigger LeastFrom(hist, bs[0], current, k)} :: LeastFrom(hist, bs[0], current, k) ==>
      HistToImages(hist, bs, current) == Prepend(Stencil(hist, bs[0], k).0, HistToImages(hist, bs[1..], k + 1))
  {
    assert bs[0] in bs;
    TailInside(hist, bs);
    if HistToImages(hist, bs, current).Done? {
      var k := DoneHasLeast(hist, bs, current);
    }
    forall k | LeastFrom(hist, bs[0], current, k)
      ensures HistToImages(hist, bs, current) == Prepend(Stencil(hist, bs[0], k).0, HistToImages(hist, bs[1..], k + 1))
    {
      LeastPicks(hist, bs, current, k);
    }
  }

  /** A finished run found a label for its leading real block. */
  lemma {:induction false} DoneHasLeast(hist: Grid<int>, bs: seq<Block>, current: int) returns (k: int)
    requires hist.Valid() && GlyphsInside(bs, hist) && current >= 1 && bs != [] && !bs[0].IsMarker()
    requires bs[0].Inside(hist.width, hist.height) && GlyphsInside(bs[1..], hist)
    requires HistToImages(hist, bs, current).Done?
    ensures LeastFrom(hist, bs[0], current, k)
    decreases Headroom(hist, current)
  {
    var b := bs[0];
    if Stencil(hist, b, current).1 {
      StencilHas(hist, b, current);
      k := current;
    } else if current > MaxLabel(hist) {
      StuckStep(hist, bs, current);
      assert false;
    } else {
      StencilLacks(hist, b, current);
      RetryStep(hist, bs, current);
      k := DoneHasLeast(hist, bs, current + 1);
      Widen(hist, b, current, k);
    }
  }

  /** With the least label `k` from `current` on, the leading real block is rendered with `k`. */
  lemma {:induction false} LeastPicks(hist: Grid<int>, bs: seq<Block>, current: int, k: int)
    requires hist.Valid() && GlyphsInside(bs, hist) && current >= 1 && bs != [] && !bs[0].IsMarker()
    requires bs[0].Inside(hist.width, hist.height) && GlyphsInside(bs[1..], hist)
    requires LeastFrom(hist, bs[0], current, k)
    ensures HistToImages(hist, bs, current) == Prepend(Stencil(hist, bs[0], k).0, HistToImages(hist, bs[1..], k + 1))
    decreases Headroom(hist, current)
  {
    var b := bs[0];
    if Stencil(hist, b, current).1 {
      StencilHas(hist, b, current);
      LeastAt(hist, b, current, k);
      MatchPicks(hist, bs, current, k);
    } else {
      LabelBound(hist, b, k);
      StencilLacks(hist, b, current);
      RetryStep(hist, bs, current);
      Narrow(hist, b, current, k);
      LeastPicks(hist, bs, current + 1, k);
    }
  }

  lemma StencilHas(hist: Grid<int>, b: Block, current: int)
    requires hist.Valid() && b.Inside(hist.width, hist.height) && current >= 1
    requires Stencil(hist, b, current).1
    ensures HasCell(hist, b, current)
  {
    StencilMatches(hist, b, current);
  }

  lemma StencilLacks(hist: Grid<int>, b: Block, current: int)
    requires hist.Valid() && b.Inside(hist.width, hist.height) && current >= 1
    requires !Stencil(hist, b, current).1
    ensures !HasCell(hist, b, current)
  {
    StencilMatches(hist, b, current);
  }

  /** The least label from a held label on is that label. */
  lemma LeastAt(hist: Grid<int>, b: Block, from: int, k: int)
    requires HasCell(hist, b, from) && LeastFrom(hist, b, from, k)
    ensures k == from
  {
  }

  /** A real block that matched is emitted with the current label. */
  lemma MatchPicks(hist: Grid<int>, bs: seq<Block>, current: int, k: int)
    requires hist.Valid() && GlyphsInside(bs, hist) && current >= 1 && bs != [] && !bs[0].IsMarker()
    requires bs[0].Inside(hist.width, hist.height) && GlyphsInside(bs[1..], hist)
    requires Stencil(hist, bs[0], current).1 && k == current
    ensures HistToImages(hist, bs, current) == Prepend(Stencil(hist, bs[0], k).0, HistToImages(hist, bs[1..], k + 1))
  {
    assert HistToImages(hist, bs, current) == Prepend(Stencil(hist, bs[0], current).0, HistToImages(hist, bs[1..], current + 1));
  }

  /** A label least from `from + 1` on is least from `from` on when `from` itself is not held. */
  lemma Widen(hist: Grid<int>, b: Block, from: int, k: int)
    requires LeastFrom(hist, b, from + 1, k) && !HasCell(hist, b, from)
    ensures LeastFrom(hist, b, from, k)
  {
    forall j | from <= j < k
      ensures !HasCell(hist, b, j)
    {
      if j > from {
        assert from + 1 <= j < k;
      }
    }
  }

  /** A label least from `from` on, where `from` is not held, is least from `from + 1` on. */
  lemma Narrow(hist: Grid<int>, b: Block, from: int, k: int)
    requires LeastFrom(hist, b, from, k) && !HasCell(hist, b, from)
    ensures LeastFrom(hist, b, from + 1, k)
  {
  }

  /**
   * Block `b`, reached with label counter `from`, emits `img` and leaves the
   * counter at `next`. A marker emits its marker image and leaves the counter
   * as it is; a real block emits its stencil for the least label from `from`
   * on that it holds, and the counter moves one past that label.
   */
  ghost predicate Emits(hist: Grid<int>, b: Block, from: int, next: int, img: Img)
  {
    if b.IsMarker() then next == from && img == MarkerImg(b.mark)
    else
      && hist.Valid() && b.Inside(hist.width, hist.height) && 1 <= from
      && LeastFrom(hist, b, from, next - 1) && img == Stencil(hist, b, next - 1).0
  }

  /**
   * Starting from counter `current`, `cs[i]` is the label counter on reaching
   * block `i`, and block `i` emits `imgs[i]`.
   */
  ghost predicate Counts(hist: Grid<int>, bs: seq<Block>, current: int, cs: seq<int>, imgs: seq<Img>)
  {
    && |cs| == |bs| + 1 && |imgs| == |bs| && cs[0] == current
    && forall i, j :: 0 <= i < |bs| && j == i + 1 ==> Emits(hist, bs[i], cs[i], cs[j], imgs[i])
  }

  /**
   * When `hist_to_images` finishes, its images are exactly those `Counts`
   * describes, with the counter starting at `current`.
   */
  lemma ImagesCount(hist: Grid<int>, bs: seq<Block>, current: int)
    requires hist.Valid() && GlyphsInside(bs, hist) && current >= 1
    requires HistToImages(hist, bs, current).Done?
    ensures exists cs :: Counts(hist, bs, current, cs, HistToImages(hist, bs, current).value)
  {
    var cs := CountsOf(hist, bs, current);
  }

  /** The label counters of a finished run, block by block. */
  lemma {:induction false} CountsOf(hist: Grid<int>, bs: seq<Block>, current: int) returns (cs: seq<int>)
    requires hist.Valid() && GlyphsInside(bs, hist) && current >= 1
    requires HistToImages(hist, bs, current).Done?
    ensures Counts(hist, bs, current, cs, HistToImages(hist, bs, current).value)
    decreases |bs|, 1
  {
    if bs == [] {
      cs := [current];
    } else if bs[0].IsMarker() {
      cs := MarkerCounts(hist, bs, current);
    } else {
      cs := GlyphCounts(hist, bs, current);
    }
  }

  lemma {:induction false} MarkerCounts(hist: Grid<int>, bs: seq<Block>, current: int) returns (cs: seq<int>)
    requires hist.Valid() && GlyphsInside(bs, hist) && current >= 1 && bs != [] && bs[0].IsMarker()
    requires HistToImages(hist, bs, current).Done?
    ensures Counts(hist, bs, current, cs, HistToImages(hist, bs, current).value)
    decreases |bs|, 0
  {
    TailInside(hist, bs);
    MarkerPrepends(hist, bs, current);
    var rest := HistToImages(hist, bs[1..], current);
    PrependDone(MarkerImg(bs[0].mark), rest);
    var tail := CountsOf(hist, bs[1..], current);
    cs := CountsPrepend(hist, bs, current, current, MarkerImg(bs[0].mark), tail, rest, HistToImages(hist, bs, current));
  }

  lemma {:induction false} GlyphCounts(hist: Grid<int>, bs: seq<Block>, current: int) returns (cs: seq<int>)
    requires hist.Valid() && GlyphsInside(bs, hist) && current >= 1 && bs != [] && !bs[0].IsMarker()
    requires HistToImages(hist, bs, current).Done?
    ensures Counts(hist, bs, current, cs, HistToImages(hist, bs, current).value)
    decreases |bs|, 0
  {
    var k := PickLeast(hist, bs, current);
    var rest := HistToImages(hist, bs[1..], k + 1);
    var tail := CountsOf(hist, bs[1..], k + 1);
    cs := CountsPrepend(hist, bs, current, k + 1, Stencil(hist, bs[0], k).0, tail, rest, HistToImages(hist, bs, current));
  }

  /** The label a finished run gives its leading real block. */
  lemma PickLeast(hist: Grid<int>, bs: seq<Block>, current: int) returns (k: int)
    requires hist.Valid() && GlyphsInside(bs, hist) && current >= 1 && bs != [] && !bs[0].IsMarker()
    requires HistToImages(hist, bs, current).Done?
    ensures bs[0].Inside(hist.width, hist.height) && GlyphsInside(bs[1..], hist)
    ensures LeastFrom(hist, bs[0], current, k) && k >= 1
    ensures HistToImages(hist, bs[1..], k + 1).Done?
    ensures HistToImages(hist, bs, current) == Prepend(Stencil(hist, bs[0], k).0, HistToImages(hist, bs[1..], k + 1))
  {
    assert bs[0] in bs;
    TailInside(hist, bs);
    k := DoneHasLeast(hist, bs, current);
    LeastPicks(hist, bs, current, k);
    PrependDone(Stencil(hist, bs[0], k).0, HistToImages(hist, bs[1..], k + 1));
  }

  /** A run with an image in front finishes exactly when the run does. */
  lemma PrependDone(img: Img, r: Run<seq<Img>>)
    ensures Prepend(img, r).Done? <==> r.Done?
  {
  }

  /** Counts extend by one block in front of a finished run. */
  lemma CountsPrepend(hist: Grid<int>, bs: seq<Block>, c0: int, next: int, img: Img, tail: seq<int>,
                      rest: Run<seq<Img>>, r: Run<seq<Img>>) returns (cs: seq<int>)
    requires bs != [] && rest.Done? && r == Prepend(img, rest) && Emits(hist, bs[0], c0, next, img)
    requires Counts(hist, bs[1..], next, tail, rest.value)
    ensures r.Done? && Counts(hist, bs, c0, cs, r.value)
  {
    CountsCons(hist, bs, c0, next, tail, img, rest.value);
    cs := [c0] + tail;
  }

  lemma CountsCons(hist: Grid<int>, bs: seq<Block>, c0: int, next: int, tail: seq<int>, img: Img, rest: seq<Img>)
    requires bs != [] && Counts(hist, bs[1..], next, tail, rest) && Emits(hist, bs[0], c0, next, img)
    ensures Counts(hist, bs, c0, [c0] + tail, [img] + rest)
  {
    var cs, imgs := [c0] + tail, [img] + rest;
    forall i, j | 0 <= i < |bs| && j == i + 1
      ensures Emits(hist, bs[i], cs[i], cs[j], imgs[i])
    {
      if i > 0 {
        assert bs[i] == bs[1..][i - 1] && cs[i] == tail[i - 1] && cs[j] == tail[i] && imgs[i] == rest[i - 1];
      }
    }
  }

  /** The real blocks' images of a finished run; a loop stays a loop. */
  function GlyphRun(r: Run<seq<Img>>): Run<seq<Img>>
  {
    match r
    case Loops => Loops
    case Done(imgs) => Done(GlyphImgs(imgs))
  }

  /**
   * Markers do not move the label counter: rasterising the real blocks alone
   * gives the real blocks' images of the whole list, and loops exactly when
   * the whole list does.
   */
  lemma {:induction false} MarkersTransparent(hist: Grid<int>, bs: seq<Block>, current: int)
    requires hist.Valid() && GlyphsInside(bs, hist) && current >= 1
    ensures GlyphsInside(Glyphs(bs), hist)
    ensures HistToImages(hist, Glyphs(bs), current) == GlyphRun(HistToImages(hist, bs, current))
    decreases |bs|
  {
    GlyphsOf(bs);
    if bs == [] {
    } else if bs[0].IsMarker() {
      TailInside(hist, bs);
      MarkersTransparent(hist, bs[1..], current);
      assert Glyphs(bs) == Glyphs(bs[1..]);
      MarkerPrepends(hist, bs, current);
      GlyphRunSkips(MarkerImg(bs[0].mark), HistToImages(hist, bs[1..], current));
    } else {
      var gs := Glyphs(bs);
      assert gs == [bs[0]] + Glyphs(bs[1..]);
      assert gs[0] == bs[0] && gs[1..] == Glyphs(bs[1..]);
      TailInside(hist, bs);
      GlyphPicksLeast(hist, bs, current);
      GlyphPicksLeast(hist, gs, current);
      if exists k :: LeastFrom(hist, bs[0], current, k) {
        var k :| LeastFrom(hist, bs[0], current, k);
        MarkersTransparent(hist, bs[1..], k + 1);
        var img := Stencil(hist, bs[0], k).0;
        GlyphRunKeeps(HistToImages(hist, gs, current), HistToImages(hist, bs, current), img,
          HistToImages(hist, gs[1..], k + 1), HistToImages(hist, bs[1..], k + 1));
      }
    }
  }

  /** A marker at the head of the list is emitted in front of the rest. */
  lemma MarkerPrepends(hist: Grid<int>, bs: seq<Block>, current: int)
    requires hist.Valid() && GlyphsInside(bs, hist) && current >= 1 && bs != [] && bs[0].IsMarker()
    requires GlyphsInside(bs[1..], hist)
    ensures HistToImages(hist, bs, current) == Prepend(MarkerImg(bs[0].mark), HistToImages(hist, bs[1..], current))
  {
  }

  lemma GlyphRunSkips(img: Img, r: Run<seq<Img>>)
    requires img.mark != NoMarker
    ensures GlyphRun(Prepend(img, r)) == GlyphRun(r)
  {
    if r.Done? {
      assert GlyphImgs([img]) == [] by {
        assert [img][1..] == [];
      }
      GlyphImgsAppend([img], r.value);
      assert GlyphImgs([img] + r.value) == GlyphImgs(r.value) by {
        assert [] + GlyphImgs(r.value) == GlyphImgs(r.value);
      }
    }
  }

  lemma GlyphRunKeeps(a: Run<seq<Img>>, b: Run<seq<Img>>, img: Img, ta: Run<seq<Img>>, tb: Run<seq<Img>>)
    requires img.mark == NoMarker && a == Prepend(img, ta) && b == Prepend(img, tb) && ta == GlyphRun(tb)
    ensures a == GlyphRun(b)
  {
    if tb.Done? {
      GlyphImgsAppend([img], tb.value);
    }
  }

  /** The real blocks of a list are blocks of the list, and none is a marker. */
  lemma {:induction false} GlyphsOf(bs: seq<Block>)
    ensures forall b :: b in Glyphs(bs) ==> b in bs && !b.IsMarker()
  {
    if bs != [] {
      GlyphsOf(bs[1..]);
      forall b | b in bs[1..]
        ensures b in bs
      {
      }
    }
  }
}
