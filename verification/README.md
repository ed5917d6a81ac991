# Connected-component segmentation of an OCR page, in Dafny

This project models the character segmentation engine of a small C OCR program (`ccl.c`).
The page is a binary raster. Splitters outside this file cut it into paragraphs, and the
paragraphs into text lines. For each text line the engine runs four steps:

1. **Labelling** (`create_hist`, `propagate`). A column-major scan finds each ink pixel that has
   no label yet. From it, an 8-connected flood fill stamps a fresh label into an integer grid
   (the *histogram*) and grows a bounding block for the component.
2. **Merging** (`merge_labels`, `merge_two`). A component whose horizontal span lies inside its
   predecessor's span, give or take 3 columns, is folded into the predecessor. Its histogram
   cells are relabelled and the two rectangles are united. The same pass inserts a space block
   wherever the gap to the previous block exceeds a quarter of the line height.
3. **Rasterising** (`hist_to_images`). The block list becomes a list of images. A space block
   becomes a 0×0 image that carries its marker character. A real block becomes a mask of the
   cells that hold the running label counter.
4. **Orchestration** (`ccl_segment_block`, `ccl_segmentation`). The line outputs are
   concatenated. When whitespace is requested, a space marker follows every line and two newline
   markers separate paragraphs.

Modules, one file each:

- `Grids` (`grids.dfy`): cells and row-major `width * height` grids. Cell `(x, y)` is stored at
  offset `y * width + x`, as the C code indexes its buffers.
- `Blocks` (`blocks.dfy`): binary pixels (0 is ink, 1 is background), the `Block` rectangle and
  its marker label, images, and the `Run` outcome of a loop that may not end. It also holds two
  shared predicates: `HasCell` (a block holds some cell with a given label) and `Tagged` (every
  real block of a list holds its own label, and these labels rise along the list). It also holds
  the filters that drop space markers from block and image lists (`Glyphs`, `GlyphImgs`) and
  the predicates that keep blocks inside the histogram.
- `Labeler` (`labeler.dfy`): `propagate` as an explicit stack, and the `create_hist` scan.
- `Merger` (`merger.dfy`): `merge_two` and `merge_labels`. These are pure functions on the block
  sequence and the histogram. `Greedy` is a list-only reference definition of the merge.
- `Rasterizer` (`rasterizer.dfy`): `hist_to_images`, the stencil it draws for each block, and
  when its loop ends.
- `Rendering` (`rendering.dfy`): which label each real block is drawn with, and why space markers
  do not change the images of the real blocks.
- `Segmentation` (`segmentation.dfy`): cropping a line out of the page, `ccl_segment_block`, and
  `ccl_segmentation` over given paragraph and line blocks.

How the model relates to the C code:

- The flood fill is an explicit stack. A cell is checked when it is popped, as the recursive call
  checks it on entry. The eight neighbours are pushed in reverse, so the first neighbour the
  recursion would visit is popped first. Cells are therefore stamped in the same order as the
  recursion stamps them. That order matters, because the bounding box grows one stamp at a time
  and is not tight vertically (`Labeler.Grow`, `Labeler.GrowLeavesBottomBehind`).
- Every loop terminates except one. The rasteriser's loop never ends when a real block matches
  none of the labels still to come. `HistToImages` returns `Loops` once the counter has passed
  the largest label in the histogram; from then on nothing can match. `Rasterizer.TaggedTerminates`
  shows this never happens on lists that the labeller and the merge pass produce. So
  `ccl_segment_block` always finishes, and `Segmentation.SegmentBlock` returns plain images.
- Four behaviours of the code are easy to misread:
  - A real block that matches nothing under the current label is **retried** with the next
    label; it is not dropped. When the loop ends there is one image per block.
  - With whitespace on, a space marker follows **every** line, the last line of the page
    included. Two one-line paragraphs with one glyph each give `[g1, ' ', '\n', '\n', g2, ' ']`
    (`Segmentation.TwoParagraphs`).
  - A space block takes the line's `y` and height.
  - A component's box is not tight vertically (see above). Containment is stated for columns
    and for the top edge only.

## Model

| member | source | states |
|---|---|---|
| Labeler.Grow | ccl.c:279-286 | Stamping a cell moves the top edge up to it if it lies higher, and never shrinks width or height. A stamp at or right of the left edge keeps `x`, ends up covered, and does not pull the right edge back. The top edge moving up leaves the height as it was. |
| Labeler.GrowLeavesBottomBehind | ccl.c:281-286 | A concrete case of the non-tight box: after a stamp above the box, a cell stamped earlier lies below the new bottom edge. |
| Labeler.StampShrinksZeros | ccl.c:273-277 | Every stamp turns one unlabelled cell into a labelled one. This is the measure that makes the fill terminate. |
| Labeler.PendingCoversAdjacent | ccl.c:287-296 | The cells pushed around a stamped cell are exactly its eight 8-neighbours: every neighbour is pushed, and nothing else is. |
| Labeler.Propagate | ccl.c:270-297 | The fill changes only unlabelled ink cells, and gives each of them the new label. It stamps the seed. Afterwards every ink cell 8-adjacent to a labelled cell has that cell's label. Every cell of the new label is reached from the seed by an 8-connected walk through that label. The box has the seed's column as left edge and a top edge at or above the seed. The box is at least 1×1 and lies inside the line. Every cell of the label lies in its columns and not above its top. Its left column, right column and top row each hold a cell of the label, and some cell of the label lies on or below its last row. |
| Labeler.ScanCell | ccl.c:248-260 | One step of the scan keeps its invariant, moved one cell down the column. Every ink pixel passed is labelled, labels stay in 1..N, and labelled cells are closed under ink adjacency. Each label is one component reached from its seed, the seeds come in scan order, and block k boxes label k+1. Afterwards the visited cell is labelled iff it is ink. Exactly one block is appended, and only when the cell was unlabelled ink; the earlier blocks stay as they were. |
| Labeler.FillAt | ccl.c:249-259 | A fill started at an unlabelled ink pixel gives it the next label, N+1, and moves the scan invariant one cell on with the new block appended. |
| Labeler.CreateHist | ccl.c:239-265 | On a zeroed histogram, every ink cell ends with a label in 1..N and every background cell keeps 0, where N is the number of blocks. Labels are closed under 8-adjacency through ink. The cells of each label form one 8-connected set. Label k+1 was handed out at seed k. The seeds come in column-major order, and no cell of a component precedes its seed. Block k is boxed around label k+1, with `x` equal to its seed's column, and its left column, right column and top row each hold a cell of the label. Some cell of the label lies on or below the block's last row, so the block ends no lower than its lowest cell. Block `x` values never decrease along the list. |
| Labeler.InkPathKeepsLabel | ccl.c:287-296 | In a labelling closed under ink adjacency, every pixel of an 8-connected path through ink carries the label of its first pixel. |
| Labeler.SameComponentSameLabel | ccl.c:239-265 | In what `create_hist` returns, two pixels joined by a path through ink carry the same label. |
| Labeler.WalkStaysOnSide | ccl.c:287-296 | A walk through cells of one label never crosses a column that holds no cell of that label. |
| Labeler.FillSkipsOtherDot | ccl.c:270-297 | On the row ink, background, ink with nothing labelled yet, a fill from the left pixel that meets `Propagate`'s contract does not stamp the right pixel. |
| Labeler.GrowBottom | ccl.c:281-286 | A stamp never moves the bottom edge below both the old bottom edge and the row under the stamped cell. |
| Labeler.StampKeepsLow | ccl.c:279-286 | If some cell of the label lies on or below the box's last row, that stays true after stamping another cell and growing the box around it. |
| Labeler.LoneDotBox | ccl.c:239-286 | On one column of ink over background, any labelling `create_hist` can return has exactly one block, and it is the 1×1 box of the ink pixel. |
| Labeler.TwoDotsTwoLabels | ccl.c:239-265 | On the row ink, background, ink, any labelling `create_hist` can return gives the two ink pixels different labels. The two pixels are not 8-connected. |
| Merger.Enlarge | ccl.c:200-214 | The grown block keeps `dst.x` and takes the higher top edge and the further right and bottom edges. When `dst` starts at or left of `src`, it covers every cell of both rectangles. |
| Merger.RelabelRow | ccl.c:190-197 | On one row from column `x`, the cells inside the source block that hold `from` now hold `to`. Every other cell is unchanged. |
| Merger.RelabelRows | ccl.c:188-198 | Over the source block's rows from `y` down, exactly the cells inside the block that hold `from` now hold `to`. Every other cell is unchanged. |
| Merger.MergeTwo | ccl.c:172-218 | A merge happens iff a successor exists and `dst` absorbs it: `src.x >= dst.x`, and `src`'s right edge is at most `dst`'s right edge plus 3 (ccl.c:184). Vertical extents play no part. Without a merge, the list and the histogram are unchanged. With one, the list loses exactly `src`, `dst` becomes the union, and exactly the cells in `src`'s rectangle that hold `current+1` become `current`. |
| Merger.GapThreshold | ccl.c:143-151 | On a 40-pixel line a gap of 11 columns gets a space block, with its position, width, the line's `y` and height, and a `' '` label. A gap of 10 gets none, because the comparison is strict. A 43-pixel line has the same threshold, because the division truncates. |
| Merger.PlaceGlyphs | ccl.c:139-159 | Appending a real block, with or without a space block in front, adds exactly that block to the real blocks already placed. |
| Merger.MergePass | ccl.c:131-162 | The histogram keeps the line's extents. |
| Merger.MergeLabels | ccl.c:127-163 | The histogram keeps the line's extents. |
| Merger.PassFollowsGreedy | ccl.c:131-162 | From any point of the pass, the real blocks produced are the ones already done followed by the list-only greedy merge of the rest. |
| Merger.MergeFollowsGreedy | ccl.c:127-163 | With spaces ignored, `merge_labels` yields exactly the greedy merge. Each block absorbs at most its immediate successor, and the merged block is not compared again. |
| Merger.GreedyKeepsOrder | ccl.c:184-209 | Merging keeps the left-to-right order. Left edges that never decrease still never decrease, and the first block keeps its left edge. |
| Merger.SpacesExtend | ccl.c:139-159 | Appending a block, with a space in front when the gap test passes, keeps the space layout valid and ends with a real block. |
| Merger.PassPlacesSpaces | ccl.c:131-162 | Every step of the pass keeps the space layout valid. |
| Merger.MergePlacesSpaces | ccl.c:138-159 | After `merge_labels` no space block comes first. Each space block sits between two real blocks whose gap passes the test, and spans exactly that gap. Two neighbouring real blocks always have a gap that fails the test. |
| Merger.SyncStep | ccl.c:130-136 | If the counter equals the label of the block under the cursor, it still does after one step that adds 2 after a merge and 1 otherwise. The blocks already placed keep a cell of their own label below the counter and stay inside the line. |
| Merger.PassKeepsSync | ccl.c:130-162 | If the counter starts equal to the label of the block under the cursor, every real block of the pass's output holds a cell of its own label, labels rise along the list, and the blocks lie inside the line. |
| Merger.MergeKeepsSync | ccl.c:127-163 | If block k holds a cell labelled k+1 before the pass, then afterwards every real block holds a cell of its own label, these labels rise along the list, and every real block lies inside the line. |
| Rasterizer.StencilRow | ccl.c:101-108 | The row's image keeps the shape of the image it started from. |
| Rasterizer.StencilRowInks | ccl.c:101-108 | One image row, from column `x` on, is inked exactly where the histogram holds the counter. Every other pixel is unchanged. |
| Rasterizer.StencilRowFinds | ccl.c:101-108 | The found flag of one row becomes true iff it was true already or some cell of the row, from column `x` on, holds the counter. |
| Rasterizer.StencilRows | ccl.c:99-109 | The image keeps the shape of the image it started from. |
| Rasterizer.StencilRowsMeaning | ccl.c:99-109 | The rows from `y` down are inked exactly where the histogram holds the counter, and the rows above are unchanged. The found flag says whether any of them matched. |
| Rasterizer.Stencil | ccl.c:97-109 | The image has the block's width and height and carries no marker. |
| Rasterizer.StencilMeaning | ccl.c:97-109 | The image is inked exactly where the block's histogram cells hold the counter. It reports a match iff the block holds that label, which is exactly when the image has an ink pixel. |
| Rasterizer.StencilMatches | ccl.c:97-113 | The found flag that decides between emitting and retrying is true iff the block holds a cell with the counter's label. |
| Rasterizer.HistToImages | ccl.c:79-122 | When the loop ends, it has emitted exactly one image per block. |
| Rasterizer.ImagesRender | ccl.c:84-120 | Image i belongs to block i. A marker block gives a 0×0 image with its label. A real block gives an image of exactly its size, inked exactly at the cells holding one label, with at least one ink pixel. |
| Rasterizer.UnlabelledLoops | ccl.c:84-120 | On a histogram with no labels, any list that starts with a real block never finishes. |
| Rasterizer.TaggedTerminates | ccl.c:79-122 | Suppose every real block holds a cell of its own label, these labels rise along the list, and none is below the counter. Then the loop finishes with one image per block. |
| Rendering.GlyphPicksLeast | ccl.c:97-119 | When the list starts with a real block, the loop can finish only if some label k at or above the counter has a cell in that block. For the least such k, the block is drawn as the stencil of k, and the rest of the list continues from k+1. |
| Rendering.ImagesCount | ccl.c:79-122 | When the loop finishes there is a sequence of counter values, one per block plus the start. A marker block leaves the counter as it is and gives its marker image. A real block gives the stencil of the least label k at or above the counter that it holds, and the counter moves on to k+1. |
| Rendering.MarkersTransparent | ccl.c:84-120 | Dropping the space markers from the block list leaves the images of the real blocks unchanged, and the loop finishes on the shorter list exactly when it finishes on the full one. |
| Segmentation.Crop | ccl.c:249 | Line-relative cell `(x, y)` reads the page pixel at `(x + line.x, y + line.y)`. |
| Segmentation.SegmentBlock | ccl.c:59-65 | A line yields no images iff its rectangle holds no ink. Every marker image is a `' '` marker between two glyph images. Every glyph image carries no marker, has an ink pixel, and is at least 1×1 and no larger than the line. |
| Segmentation.EmptyIffNoInk | ccl.c:59-65 | The merged block list of a line is empty iff the line's rectangle on the page holds no ink. |
| Segmentation.SegmentParagraph | ccl.c:23-37 | The paragraph's characters are the images of each of its lines, in order, each followed by a space marker when whitespace is kept. Every line's images meet the line promise above. |
| Segmentation.CclSegmentation | ccl.c:12-54 | The output is the assembly of every line's images. Without whitespace, that is their plain concatenation. With whitespace, it has the same glyph images, one extra space marker per line, and 2·(paragraphs−1) newline markers. |
| Segmentation.WhitespaceMarkers | ccl.c:22-47 | Whitespace off gives the in-order concatenation of the line outputs. Whitespace on keeps the same glyph images, adds exactly one space marker per line, and adds two newline markers between consecutive paragraphs and none after the last. |
| Segmentation.TwoParagraphs | ccl.c:22-47 | Two one-line paragraphs of one glyph each assemble to `[g1, ' ', '\n', '\n', g2, ' ']`. |

## Left out

- Labeler.Propagate: its contract covers the calls `create_hist` makes. Those calls have an unlabelled ink seed and a fresh label. Earlier components are closed, and all ink left of the seed is already labelled. A call from anywhere else has no contract here.
- Labeler.Propagate: no contract states that the stack stamps cells in the same order as the recursion. The order follows from how neighbours are pushed, and the contract covers what that order produces: the stamped component and the box. The box's bottom edge is stated only one way: it ends no lower than the lowest cell of the label. Cells stamped before the top edge moved up may lie below the box (`Labeler.GrowLeavesBottomBehind`), so no contract says every cell of the label lies inside the box.
- Rasterizer.Stencil: its own contract gives only the image's shape. `Rasterizer.StencilMeaning` states what the pixels and the found flag mean.
- Rasterizer.HistToImages: its own contract gives only the image count. `Rasterizer.ImagesRender` states what each image is.
- Rasterizer.ImagesRender: for a real block it states that the image shows one label, not which one. `Rendering.GlyphPicksLeast` and `Rendering.ImagesCount` show that it is the least label, at or above the counter, that the block holds.
- Rasterizer.StencilRow, Rasterizer.StencilRows: their own contracts give only the image's shape. `Rasterizer.StencilRowInks`, `Rasterizer.StencilRowFinds` and `Rasterizer.StencilRowsMeaning` state what the pixels and the found flag mean.
- Merger.MergeLabels, Merger.MergePass: their own contracts give only the histogram's shape. What the pass does to the blocks is stated by `Merger.MergeFollowsGreedy` (the merges), `Merger.MergePlacesSpaces` (the spaces) and `Merger.MergeKeepsSync` (the labels the blocks keep).
- `Merger.Absorbs`, `Merger.Gapped`, `Merger.SpaceBlock` and `Merger.Place` are predicates and helpers with no contract of their own. The tests of ccl.c:143 and ccl.c:184 are stated through `Merger.MergeTwo`, `Merger.GapThreshold`, `Merger.PlaceGlyphs` and `Merger.MergePlacesSpaces`.
- Segmentation.SegmentBlock: it does not relate glyph image pixels back to page pixels. It states their shape, that they have ink, and when the line yields nothing.
- `print_ccl` and `hist_print` write debug output to the terminal and a PNG file. They are not modelled.
- `dataset.c`, `main.c` and `main.h` (file loading, the neural network, the command line) are not part of this model.
- `img_make_block`, `block_split_vertical` and `line_split` are not part of this model. Their output is an input of `Segmentation.CclSegmentation`: the paragraphs, each a sequence of line blocks in page coordinates.
- `img_init` is modelled as a background raster, or a 0×0 image for markers. `block_init` is not part of this model. The fill's box starts as a 1×1 block at the seed. The first stamp makes any smaller start at the seed 1×1, so the result is the same.
- Pixels are binary (0 ink, 1 background). The source stores them as floating-point numbers. Seeding tests `== 0` and the fill stops on `== 1`; these agree only on binary rasters.
- C `int` overflow of labels or coordinates is not modelled. Integers are unbounded.
- Memory management is not modelled: allocation, leaks, `list_remove` freeing and `img_delete`. The newline image that `ccl_segmentation` inserts twice, as one shared object, is modelled as two equal values.
- The recursion depth of `propagate` and stack exhaustion do not arise: the fill is an explicit stack.
