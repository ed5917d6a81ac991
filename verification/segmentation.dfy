/**
 * The pipeline of ccl.c:12-65: each text line is cut out of the page,
 * labelled, merged and rasterised (`ccl_segment_block`), and the per-line
 * results are strung together with optional space and newline markers
 * (`ccl_segmentation`). The paragraph and line splitters live outside this
 * file; their output is an input here.
 */
module Segmentation {
  import opened Grids
  import opened Blocks
  import opened Labeler
  import opened Merger
  import opened Rasterizer

  /** The line's rectangle of the page, in line coordinates (how ccl.c reads `source->pixels`). */
  function Crop(source: Grid<Pixel>, line: Block): (pix: Grid<Pixel>)
    requires source.Valid() && line.Inside(source.width, source.height)
    ensures Cropped(source, line, pix)
  {
    Build(line.width, line.height, c => source.Get(Under(line, c), Background))
  }

  /** `pix` is the line's rectangle of the page, in line coordinates. */
  ghost predicate Cropped(source: Grid<Pixel>, line: Block, pix: Grid<Pixel>)
  {
    && source.Valid() && pix.Valid() && pix.width == line.width && pix.height == line.height
    && forall c :: pix.Contains(c) ==> source.Contains(Under(line, c)) && pix.At(c) == source.At(Under(line, c))
  }

  /** Some page pixel inside the line's rectangle is ink. */
  ghost predicate HasInk(source: Grid<Pixel>, line: Block)
  {
    exists c :: source.Valid() && source.Contains(c) && line.Covers(c) && source.At(c) == Ink
  }

  /** The image has at least one ink pixel. */
  ghost predicate Inked(img: Img)
  {
    img.raster.Valid() && exists c :: img.raster.Contains(c) && img.raster.At(c) == Ink
  }

  /**
   * What one line yields: real glyph images, each inked and no larger than
   * the line, and space markers that only ever sit between two glyph images.
   */
  ghost predicate LineImages(images: seq<Img>, line: Block)
  {
    && (forall j :: 0 <= j < |images| && images[j].mark != NoMarker ==>
          && images[j] == MarkerImg(SpaceMark)
          && 0 < j < |images| - 1
          && images[j - 1].mark == NoMarker && images[j + 1].mark == NoMarker)
    && (forall j :: 0 <= j < |images| && images[j].mark == NoMarker ==>
          && Inked(images[j])
          && 1 <= images[j].raster.width <= line.width
          && 1 <= images[j].raster.height <= line.height)
  }

  /**
   * `ccl_segment_block` (ccl.c:59-65): a zeroed histogram of the line's size,
   * then `create_hist`, `merge_labels` and `hist_to_images`. The rasteriser
   * always finishes here, and the line yields nothing exactly when it holds
   * no ink.
   */
  method SegmentBlock(source: Grid<Pixel>, line: Block) returns (images: seq<Img>)
    requires source.Valid() && line.Inside(source.width, source.height)
    ensures LineImages(images, line)
    ensures |images| == 0 <==> !HasInk(source, line)
  {
    var pix := Crop(source, line);
    var zeroed := Build(line.width, line.height, c => 0);
    var hist, blocks, seeds := CreateHist(pix, zeroed);
    LabelledForMerge(pix, hist, blocks);
    var pass := MergeLabels(line, blocks, hist);
    ghost var tags := MergeKeepsSync(line, blocks, hist);
    MergePlacesSpaces(line, blocks, hist);
    MergeFollowsGreedy(line, blocks, hist);
    TaggedTerminates(pass.hist, pass.blocks, tags, 1);
    var run := HistToImages(pass.hist, pass.blocks, 1);
    images := run.value;
    ImagesRender(pass.hist, pass.blocks, 1);
    RenderedLine(pass.hist, pass.blocks, images, line);
    EmptyIffNoInk(source, line, pix, hist, blocks, pass.blocks);
  }

  /** The labeller's output meets what the merge pass and the rasteriser ask for. */
  lemma LabelledForMerge(pix: Grid<Pixel>, hist: Grid<int>, blocks: seq<Block>)
    requires Labelled(pix, hist, blocks)
    ensures AllInside(blocks, hist) && NoMarkers(blocks)
    ensures forall k :: 0 <= k < |blocks| ==> HasCell(hist, blocks[k], k + 1)
  {
    forall b | b in blocks
      ensures b.Inside(hist.width, hist.height) && !b.IsMarker()
    {
      var k :| 0 <= k < |blocks| && blocks[k] == b;
      assert Boxed(hist, blocks[k], k + 1);
    }
    forall k | 0 <= k < |blocks|
      ensures HasCell(hist, blocks[k], k + 1)
    {
      assert Boxed(hist, blocks[k], k + 1);
    }
  }

  /** Rendered merged blocks form a well-shaped line. */
  lemma RenderedLine(hist: Grid<int>, bs: seq<Block>, images: seq<Img>, line: Block)
    requires hist.width == line.width && hist.height == line.height
    requires |images| == |bs| && forall i :: 0 <= i < |bs| ==> Renders(hist, bs[i], images[i])
    requires SpacesPlaced(bs, line)
    requires forall b :: b in bs && !b.IsMarker() ==> b.Inside(hist.width, hist.height)
    ensures LineImages(images, line)
  {
    forall j | 0 <= j < |images| && images[j].mark != NoMarker
      ensures images[j] == MarkerImg(SpaceMark) && 0 < j < |images| - 1
      ensures images[j - 1].mark == NoMarker && images[j + 1].mark == NoMarker
    {
      assert Renders(hist, bs[j], images[j]);
      assert bs[j].IsMarker();
      assert Renders(hist, bs[j - 1], images[j - 1]) && Renders(hist, bs[j + 1], images[j + 1]);
    }
    forall j | 0 <= j < |images| && images[j].mark == NoMarker
      ensures Inked(images[j])
      ensures 1 <= images[j].raster.width <= line.width && 1 <= images[j].raster.height <= line.height
    {
      assert Renders(hist, bs[j], images[j]);
      assert !bs[j].IsMarker();
      assert bs[j] in bs;
    }
  }

  lemma {:induction false} GreedyEmpty(bs: seq<Block>)
    ensures Greedy(bs) == [] <==> bs == []
  {
    if |bs| >= 2 && !Absorbs(bs[0], bs[1]) {
      assert Greedy(bs)[0] == bs[0];
    }
  }

  /** A line yields no blocks after merging exactly when its page rectangle holds no ink. */
  lemma EmptyIffNoInk(source: Grid<Pixel>, line: Block, pix: Grid<Pixel>, hist: Grid<int>,
                      blocks: seq<Block>, merged: seq<Block>)
    requires line.Inside(source.width, source.height) && Cropped(source, line, pix)
    requires Labelled(pix, hist, blocks)
    requires Glyphs(merged) == Greedy(blocks) && SpacesPlaced(merged, line)
    ensures merged == [] <==> !HasInk(source, line)
  {
    GreedyEmpty(blocks);
    if merged != [] {
      assert !merged[0].IsMarker();
      assert Glyphs(merged) != [];
      assert Boxed(hist, blocks[0], 1);
      ComponentHasInk(source, line, pix, hist, blocks[0]);
    } else if HasInk(source, line) {
      InkHasComponent(source, line, pix, hist, |blocks|);
    }
  }

  lemma InkHasComponent(source: Grid<Pixel>, line: Block, pix: Grid<Pixel>, hist: Grid<int>, count: int)
    requires line.Inside(source.width, source.height) && Cropped(source, line, pix)
    requires Layered(pix, hist) && forall c :: hist.Contains(c) && pix.At(c) == Ink ==> 1 <= hist.At(c) <= count
    requires HasInk(source, line)
    ensures count >= 1
  {
    var c :| source.Valid() && source.Contains(c) && line.Covers(c) && source.At(c) == Ink;
    var d := Cell(c.x - line.x, c.y - line.y);
    assert Under(line, d) == c && hist.Contains(d);
    assert pix.At(d) == Ink;
  }

  lemma ComponentHasInk(source: Grid<Pixel>, line: Block, pix: Grid<Pixel>, hist: Grid<int>, b: Block)
    requires line.Inside(source.width, source.height) && Cropped(source, line, pix)
    requires Layered(pix, hist) && forall c :: hist.Contains(c) && pix.At(c) == Background ==> hist.At(c) == 0
    requires HasCell(hist, b, 1)
    ensures HasInk(source, line)
  {
    var d :| hist.Valid() && hist.Contains(d) && b.Covers(d) && hist.At(d) == 1;
    assert pix.At(d) == Ink;
    assert source.Contains(Under(line, d)) && line.Covers(Under(line, d));
  }

  /** A line's images meet `SegmentBlock`'s promise. */
  ghost predicate LineOk(source: Grid<Pixel>, line: Block, images: seq<Img>)
  {
    LineImages(images, line) && (|images| == 0 <==> !HasInk(source, line))
  }

  function SpaceImg(): Img { MarkerImg(SpaceMark) }
  function NewlineImg(): Img { MarkerImg(NewlineMark) }

  /** One paragraph's characters: each line's images, then a space marker when whitespace is kept (ccl.c:23-37). */
  function ParagraphChars(lines: seq<seq<Img>>, ws: bool): seq<Img>
  {
    if lines == [] then []
    else ParagraphChars(lines[..|lines| - 1], ws) + lines[|lines| - 1] + (if ws then [SpaceImg()] else [])
  }

  /** The two newline markers after a paragraph that has a successor (ccl.c:40-47). */
  function Separator(ws: bool, more: bool): seq<Img>
  {
    if ws && more then [NewlineImg(), NewlineImg()] else []
  }

  /** The characters of the paragraphs seen so far, out of `total` paragraphs. */
  function Assembled(pars: seq<seq<seq<Img>>>, total: nat, ws: bool): seq<Img>
  {
    if pars == [] then []
    else
      var k := |pars| - 1;
      Assembled(pars[..k], total, ws) + ParagraphChars(pars[k], ws) + Separator(ws, k + 1 < total)
  }

  /** The character list `ccl_segmentation` builds from every line's images. */
  function Assemble(pars: seq<seq<seq<Img>>>, ws: bool): seq<Img>
  {
    Assembled(pars, |pars|, ws)
  }

  /** Every line of a paragraph has its images, and they meet `SegmentBlock`'s promise. */
  ghost predicate ParagraphOk(source: Grid<Pixel>, lines: seq<Block>, outs: seq<seq<Img>>)
  {
    |outs| == |lines| && forall l :: 0 <= l < |lines| ==> LineOk(source, lines[l], outs[l])
  }

  /** The inner loop of `ccl_segmentation` (ccl.c:23-37): the lines of one paragraph. */
  method SegmentParagraph(source: Grid<Pixel>, lines: seq<Block>, ws: bool)
    returns (chars: seq<Img>, outs: seq<seq<Img>>)
    requires source.Valid()
    requires forall l :: 0 <= l < |lines| ==> lines[l].Inside(source.width, source.height)
    ensures |outs| == |lines|
    ensures forall l :: 0 <= l < |lines| ==> LineOk(source, lines[l], outs[l])
    ensures chars == ParagraphChars(outs, ws)
  {
    chars := [];
    outs := [];
    var l := 0;
    while l < |lines|
      invariant 0 <= l <= |lines| && |outs| == l
      invariant forall m :: 0 <= m < l ==> LineOk(source, lines[m], outs[m])
      invariant chars == ParagraphChars(outs, ws)
    {
      var images := SegmentBlock(source, lines[l]);
      chars := chars + images;
      if ws {
        chars := chars + [SpaceImg()];
      }
      assert (outs + [images])[..l] == outs;
      outs := outs + [images];
      l := l + 1;
    }
  }

  /**
   * `ccl_segmentation` (ccl.c:12-54) over the paragraphs and their lines as
   * the splitters return them, in page coordinates. `lineImages[p][l]` is
   * what line `l` of paragraph `p` yields.
   */
  method CclSegmentation(source: Grid<Pixel>, paragraphs: seq<seq<Block>>, ws: bool)
    returns (chars: seq<Img>, ghost lineImages: seq<seq<seq<Img>>>)
    requires source.Valid()
    requires forall p, l :: 0 <= p < |paragraphs| && 0 <= l < |paragraphs[p]| ==>
      paragraphs[p][l].Inside(source.width, source.height)
    ensures |lineImages| == |paragraphs|
    ensures forall p :: 0 <= p < |paragraphs| ==> |lineImages[p]| == |paragraphs[p]|
    ensures forall p, l :: 0 <= p < |paragraphs| && 0 <= l < |paragraphs[p]| ==>
      LineOk(source, paragraphs[p][l], lineImages[p][l])
    ensures chars == Assemble(lineImages, ws)
    ensures !ws ==> chars == Flatten(lineImages)
    ensures ws ==> GlyphImgs(chars) == GlyphImgs(Flatten(lineImages))
    ensures ws ==> MarkCount(chars, SpaceMark) == MarkCount(Flatten(lineImages), SpaceMark) + LineCount(lineImages)
    ensures ws && |paragraphs| > 0 ==> MarkCount(chars, NewlineMark) == 2 * (|paragraphs| - 1)
  {
    chars := [];
    lineImages := [];
    var p := 0;
    while p < |paragraphs|
      invariant 0 <= p <= |paragraphs| && |lineImages| == p
      invariant forall q :: 0 <= q < p ==> ParagraphOk(source, paragraphs[q], lineImages[q])
      invariant chars == Assembled(lineImages, |paragraphs|, ws)
    {
      var text, outs := SegmentParagraph(source, paragraphs[p], ws);
      assert ParagraphOk(source, paragraphs[p], outs);
      chars := chars + text;
      if ws && p + 1 < |paragraphs| {
        chars := chars + [NewlineImg(), NewlineImg()];
      }
      ghost var prev := lineImages;
      lineImages := lineImages + [outs];
      p := p + 1;
      assert lineImages[..p - 1] == prev;
      forall q | 0 <= q < p
        ensures ParagraphOk(source, paragraphs[q], lineImages[q])
      {
        if q < p - 1 {
          assert lineImages[q] == prev[q];
        }
      }
      AssembledSnoc(lineImages, |paragraphs|, ws);
    }
    forall q | 0 <= q < |paragraphs|
      ensures |lineImages[q]| == |paragraphs[q]|
      ensures forall l :: 0 <= l < |paragraphs[q]| ==> LineOk(source, paragraphs[q][l], lineImages[q][l])
    {
      assert ParagraphOk(source, paragraphs[q], lineImages[q]);
    }
    PageNoNewlines(source, paragraphs, lineImages);
    WhitespaceMarkers(lineImages);
  }

  /** The images of a paragraph's lines, back to back. */
  function Concat(lines: seq<seq<Img>>): seq<Img>
  {
    if lines == [] then [] else lines[0] + Concat(lines[1..])
  }

  /** The images of every line of every paragraph, back to back. */
  function Flatten(pars: seq<seq<seq<Img>>>): seq<Img>
  {
    if pars == [] then [] else Concat(pars[0]) + Flatten(pars[1..])
  }

  /** How many images of the list carry marker `m`. */
  function MarkCount(s: seq<Img>, m: char): nat
  {
    if s == [] then 0
    else (if s[0].mark == m then 1 else 0) + MarkCount(s[1..], m)
  }

  /** The number of lines over all paragraphs. */
  function LineCount(pars: seq<seq<seq<Img>>>): nat
  {
    if pars == [] then 0 else |pars[0]| + LineCount(pars[1..])
  }

  lemma {:induction false} ConcatSnoc(lines: seq<seq<Img>>, last: seq<Img>)
    ensures Concat(lines + [last]) == Concat(lines) + last
  {
    if lines == [] {
      assert [] + [last] == [last];
    } else {
      assert (lines + [last])[1..] == lines[1..] + [last];
      ConcatSnoc(lines[1..], last);
    }
  }

  lemma {:induction false} FlattenSnoc(pars: seq<seq<seq<Img>>>, last: seq<seq<Img>>)
    ensures Flatten(pars + [last]) == Flatten(pars) + Concat(last)
  {
    if pars == [] {
      assert [] + [last] == [last];
    } else {
      assert (pars + [last])[1..] == pars[1..] + [last];
      FlattenSnoc(pars[1..], last);
    }
  }

  lemma {:induction false} LineCountSnoc(pars: seq<seq<seq<Img>>>, last: seq<seq<Img>>)
    ensures LineCount(pars + [last]) == LineCount(pars) + |last|
  {
    if pars == [] {
      assert [] + [last] == [last];
    } else {
      assert (pars + [last])[1..] == pars[1..] + [last];
      LineCountSnoc(pars[1..], last);
    }
  }

  lemma {:induction false} MarkCountAppend(a: seq<Img>, b: seq<Img>, m: char)
    ensures MarkCount(a + b, m) == MarkCount(a, m) + MarkCount(b, m)
  {
    if a == [] {
      assert a + b == b;
    } else {
      assert (a + b)[1..] == a[1..] + b;
      MarkCountAppend(a[1..], b, m);
    }
  }

  /** Without whitespace a paragraph is just its lines' images back to back. */
  lemma {:induction false} ParagraphPlain(lines: seq<seq<Img>>)
    ensures ParagraphChars(lines, false) == Concat(lines)
  {
    if lines != [] {
      var k := |lines| - 1;
      ParagraphPlain(lines[..k]);
      ConcatSnoc(lines[..k], lines[k]);
      assert lines[..k] + [lines[k]] == lines;
    }
  }

  /** Without whitespace the character list is every line's images back to back. */
  lemma {:induction false} AssemblePlain(pars: seq<seq<seq<Img>>>, total: nat)
    ensures Assembled(pars, total, false) == Flatten(pars)
  {
    if pars != [] {
      var k := |pars| - 1;
      AssemblePlain(pars[..k], total);
      ParagraphPlain(pars[k]);
      FlattenSnoc(pars[..k], pars[k]);
      assert pars[..k] + [pars[k]] == pars;
    }
  }

  /** A single image is kept by the glyph filter and counted by `MarkCount` according to its mark. */
  lemma Single(x: Img)
    ensures GlyphImgs([x]) == if x.mark == NoMarker then [x] else []
    ensures forall m :: MarkCount([x], m) == if x.mark == m then 1 else 0
  {
    assert [x][1..] == [];
  }

  /** The pair of newline markers holds no glyph and no space marker. */
  lemma SeparatorMarks(ws: bool, more: bool)
    ensures GlyphImgs(Separator(ws, more)) == []
    ensures MarkCount(Separator(ws, more), SpaceMark) == 0
    ensures MarkCount(Separator(ws, more), NewlineMark) == if ws && more then 2 else 0
  {
    if ws && more {
      Single(NewlineImg());
      GlyphImgsAppend([NewlineImg()], [NewlineImg()]);
      MarkCountAppend([NewlineImg()], [NewlineImg()], SpaceMark);
      MarkCountAppend([NewlineImg()], [NewlineImg()], NewlineMark);
      assert [NewlineImg()] + [NewlineImg()] == Separator(ws, more);
    }
  }

  /** One step of `ParagraphChars`. */
  lemma ParagraphSnoc(lines: seq<seq<Img>>, ws: bool)
    requires lines != []
    ensures ParagraphChars(lines, ws)
      == ParagraphChars(lines[..|lines| - 1], ws) + lines[|lines| - 1] + (if ws then [SpaceImg()] else [])
  {
  }

  /** One step of `Assembled`. */
  lemma AssembledSnoc(pars: seq<seq<seq<Img>>>, total: nat, ws: bool)
    requires pars != []
    ensures Assembled(pars, total, ws)
      == Assembled(pars[..|pars| - 1], total, ws) + ParagraphChars(pars[|pars| - 1], ws)
         + Separator(ws, |pars| < total)
  {
  }

  /** The whitespace flag adds marker images and nothing else. */
  lemma {:induction false} ParagraphSameGlyphs(lines: seq<seq<Img>>)
    ensures GlyphImgs(ParagraphChars(lines, true)) == GlyphImgs(ParagraphChars(lines, false))
  {
    if lines != [] {
      var k := |lines| - 1;
      var pre := lines[..k];
      ParagraphSameGlyphs(pre);
      ParagraphSnoc(lines, true);
      ParagraphSnoc(lines, false);
      assert ParagraphChars(lines, false) == ParagraphChars(pre, false) + lines[k];
      Single(SpaceImg());
      GlyphImgsAppend(ParagraphChars(pre, true) + lines[k], [SpaceImg()]);
      GlyphImgsAppend(ParagraphChars(pre, true), lines[k]);
      GlyphImgsAppend(ParagraphChars(pre, false), lines[k]);
    }
  }

  lemma {:induction false} AssembledSameGlyphs(pars: seq<seq<seq<Img>>>, total: nat)
    ensures GlyphImgs(Assembled(pars, total, true)) == GlyphImgs(Assembled(pars, total, false))
  {
    if pars != [] {
      var k := |pars| - 1;
      var pre := pars[..k];
      AssembledSameGlyphs(pre, total);
      ParagraphSameGlyphs(pars[k]);
      AssembledSnoc(pars, total, true);
      AssembledSnoc(pars, total, false);
      SeparatorMarks(true, k + 1 < total);
      SeparatorMarks(false, k + 1 < total);
      var sep := Separator(true, k + 1 < total);
      assert Separator(false, k + 1 < total) == [];
      assert Assembled(pars, total, false) == Assembled(pre, total, false) + ParagraphChars(pars[k], false);
      GlyphImgsAppend(Assembled(pre, total, true) + ParagraphChars(pars[k], true), sep);
      GlyphImgsAppend(Assembled(pre, total, true), ParagraphChars(pars[k], true));
      GlyphImgsAppend(Assembled(pre, total, false), ParagraphChars(pars[k], false));
    }
  }

  /** With whitespace kept, each line contributes exactly one extra space marker. */
  lemma {:induction false} ParagraphSpaces(lines: seq<seq<Img>>)
    ensures MarkCount(ParagraphChars(lines, true), SpaceMark)
      == MarkCount(ParagraphChars(lines, false), SpaceMark) + |lines|
  {
    if lines != [] {
      var k := |lines| - 1;
      var pre := lines[..k];
      ParagraphSpaces(pre);
      ParagraphSnoc(lines, true);
      ParagraphSnoc(lines, false);
      assert ParagraphChars(lines, false) == ParagraphChars(pre, false) + lines[k];
      Single(SpaceImg());
      MarkCountAppend(ParagraphChars(pre, true) + lines[k], [SpaceImg()], SpaceMark);
      MarkCountAppend(ParagraphChars(pre, true), lines[k], SpaceMark);
      MarkCountAppend(ParagraphChars(pre, false), lines[k], SpaceMark);
    }
  }

  lemma {:induction false} AssembledSpaces(pars: seq<seq<seq<Img>>>, total: nat)
    ensures MarkCount(Assembled(pars, total, true), SpaceMark)
      == MarkCount(Assembled(pars, total, false), SpaceMark) + LineCount(pars)
  {
    if pars != [] {
      var k := |pars| - 1;
      var pre := pars[..k];
      AssembledSpaces(pre, total);
      ParagraphSpaces(pars[k]);
      AssembledSnoc(pars, total, true);
      AssembledSnoc(pars, total, false);
      SeparatorMarks(true, k + 1 < total);
      var sep := Separator(true, k + 1 < total);
      assert Separator(false, k + 1 < total) == [];
      assert Assembled(pars, total, false) == Assembled(pre, total, false) + ParagraphChars(pars[k], false);
      MarkCountAppend(Assembled(pre, total, true) + ParagraphChars(pars[k], true), sep, SpaceMark);
      MarkCountAppend(Assembled(pre, total, true), ParagraphChars(pars[k], true), SpaceMark);
      MarkCountAppend(Assembled(pre, total, false), ParagraphChars(pars[k], false), SpaceMark);
      LineCountSnoc(pre, pars[k]);
      assert pre + [pars[k]] == pars;
    }
  }

  /** Line images carry no newline marker. */
  ghost predicate NoNewlines(pars: seq<seq<seq<Img>>>)
  {
    forall p, l :: 0 <= p < |pars| && 0 <= l < |pars[p]| ==> MarkCount(pars[p][l], NewlineMark) == 0
  }

  lemma {:induction false} ParagraphNewlines(lines: seq<seq<Img>>, ws: bool)
    requires forall l :: 0 <= l < |lines| ==> MarkCount(lines[l], NewlineMark) == 0
    ensures MarkCount(ParagraphChars(lines, ws), NewlineMark) == 0
  {
    if lines != [] {
      var k := |lines| - 1;
      var pre := lines[..k];
      ParagraphNewlines(pre, ws);
      ParagraphSnoc(lines, ws);
      Single(SpaceImg());
      var tail: seq<Img> := if ws then [SpaceImg()] else [];
      assert MarkCount(tail, NewlineMark) == 0;
      MarkCountAppend(ParagraphChars(pre, ws) + lines[k], tail, NewlineMark);
      MarkCountAppend(ParagraphChars(pre, ws), lines[k], NewlineMark);
    }
  }

  /**
   * Newline markers appear in pairs, one pair between each two consecutive
   * paragraphs and none after the last.
   */
  lemma {:induction false} AssembledNewlines(pars: seq<seq<seq<Img>>>, total: nat)
    requires NoNewlines(pars) && |pars| <= total
    ensures MarkCount(Assembled(pars, total, true), NewlineMark)
      == if |pars| < total || pars == [] then 2 * |pars| else 2 * (|pars| - 1)
  {
    if pars != [] {
      var k := |pars| - 1;
      var pre := pars[..k];
      assert NoNewlines(pre) by {
        forall p, l | 0 <= p < k && 0 <= l < |pre[p]|
          ensures MarkCount(pre[p][l], NewlineMark) == 0
        {
          assert pre[p] == pars[p];
        }
      }
      AssembledNewlines(pre, total);
      ParagraphNewlines(pars[k], true);
      AssembledSnoc(pars, total, true);
      SeparatorMarks(true, k + 1 < total);
      var sep := Separator(true, k + 1 < total);
      MarkCountAppend(Assembled(pre, total, true) + ParagraphChars(pars[k], true), sep, NewlineMark);
      MarkCountAppend(Assembled(pre, total, true), ParagraphChars(pars[k], true), NewlineMark);
    }
  }

  /** Images whose markers are all space markers carry no newline marker. */
  lemma {:induction false} SpacesOnly(images: seq<Img>)
    requires forall j :: 0 <= j < |images| && images[j].mark != NoMarker ==> images[j].mark == SpaceMark
    ensures MarkCount(images, NewlineMark) == 0
  {
    if images != [] {
      assert forall j :: 0 <= j < |images[1..]| ==> images[1..][j] == images[j + 1];
      SpacesOnly(images[1..]);
    }
  }

  /** The images of a segmented line carry no newline marker. */
  lemma LineNoNewlines(images: seq<Img>, line: Block)
    requires LineImages(images, line)
    ensures MarkCount(images, NewlineMark) == 0
  {
    forall j | 0 <= j < |images| && images[j].mark != NoMarker
      ensures images[j].mark == SpaceMark
    {
      assert images[j] == MarkerImg(SpaceMark);
    }
    SpacesOnly(images);
  }

  lemma PageNoNewlines(source: Grid<Pixel>, paragraphs: seq<seq<Block>>, lineImages: seq<seq<seq<Img>>>)
    requires |lineImages| == |paragraphs|
    requires forall p :: 0 <= p < |paragraphs| ==> |lineImages[p]| == |paragraphs[p]|
    requires forall p, l :: 0 <= p < |paragraphs| && 0 <= l < |paragraphs[p]| ==>
      LineOk(source, paragraphs[p][l], lineImages[p][l])
    ensures NoNewlines(lineImages)
  {
    forall p, l | 0 <= p < |lineImages| && 0 <= l < |lineImages[p]|
      ensures MarkCount(lineImages[p][l], NewlineMark) == 0
    {
      LineNoNewlines(lineImages[p][l], paragraphs[p][l]);
    }
  }

  /**
   * Two one-line paragraphs of one glyph each: a space marker follows every
   * line, the last one included, and a newline pair separates the paragraphs.
   */
  lemma TwoParagraphs(g1: Img, g2: Img)
    ensures Assemble([[[g1]], [[g2]]], true)
      == [g1, SpaceImg(), NewlineImg(), NewlineImg(), g2, SpaceImg()]
  {
    var pars := [[[g1]], [[g2]]];
    ParagraphSnoc([[g1]], true);
    ParagraphSnoc([[g2]], true);
    assert [[g1]][..0] == [] && [[g2]][..0] == [];
    AssembledSnoc(pars, 2, true);
    assert pars[..1] == [[[g1]]];
    AssembledSnoc([[[g1]]], 2, true);
    assert [[[g1]]][..0] == [];
  }

  /**
   * What the whitespace flag changes: without it the characters are the
   * lines' images back to back; with it the glyph images are the same, one
   * space marker is added per line and one newline pair between paragraphs.
   */
  lemma WhitespaceMarkers(pars: seq<seq<seq<Img>>>)
    requires NoNewlines(pars)
    ensures Assemble(pars, false) == Flatten(pars)
    ensures GlyphImgs(Assemble(pars, true)) == GlyphImgs(Flatten(pars))
    ensures MarkCount(Assemble(pars, true), SpaceMark) == MarkCount(Flatten(pars), SpaceMark) + LineCount(pars)
    ensures pars != [] ==> MarkCount(Assemble(pars, true), NewlineMark) == 2 * (|pars| - 1)
  {
    AssemblePlain(pars, |pars|);
    AssembledSameGlyphs(pars, |pars|);
    AssembledSpaces(pars, |pars|);
    AssembledNewlines(pars, |pars|);
  }
}
