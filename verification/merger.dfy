/**
 * Merging and whitespace synthesis on one line's block list (`merge_two` and
 * `merge_labels` in ccl.c). The C code walks a doubly linked list; here the
 * list is `done + rest`, where `rest[0]` is the current node and the last
 * element of `done` is its predecessor.
 */
module Merger {
  import opened Grids
  import opened Blocks

  /** How far past the current block's right edge the next one may reach and still be merged. */
  const Tolerance: int := 3


  /** `src` starts no earlier than `dst` and ends within `dst`'s span plus the tolerance (ccl.c:184). */
  predicate Absorbs(dst: Block, src: Block)
  {
    dst.x <= src.x && src.Right() <= dst.Right() + Tolerance
  }

  /** The edge updates of ccl.c:201-214: `dst` grown to the bounding box of both rectangles. */
  function Enlarge(dst: Block, src: Block): (r: Block)
    ensures r.x == dst.x && r.mark == dst.mark
    ensures r.y == Min(dst.y, src.y)
    ensures r.Right() == Max(dst.Right(), src.Right())
    ensures r.Bottom() == Max(dst.Bottom(), src.Bottom())
    ensures dst.x <= src.x ==> forall c :: dst.Covers(c) || src.Covers(c) ==> r.Covers(c)
  {
    var d1 := if src.y < dst.y then dst.(height := dst.height + dst.y - src.y, y := src.y) else dst;
    var d2 := if src.Right() > d1.Right() then d1.(width := src.width + src.x - d1.x) else d1;
    if src.Bottom() > d2.Bottom() then d2.(height := src.Bottom() - d2.y) else d2
  }

  /**
   * The inner loop of ccl.c:190-197 on row `y`: columns `x` up to `xEnd`
   * holding `from` are set to `to`.
   */
  function RelabelRow(hist: Grid<int>, y: int, x: int, xEnd: int, from: int, to: int): (r: Grid<int>)
    requires hist.Valid() && 0 <= y < hist.height && 0 <= x && xEnd <= hist.width
    ensures r.Valid() && SameShape(r, hist)
    ensures forall c :: r.Contains(c) ==>
      r.At(c) == if c.y == y && x <= c.x < xEnd && hist.At(c) == from then to else hist.At(c)
    decreases xEnd - x
  {
    if x >= xEnd then hist
    else
      var c := Cell(x, y);
      RelabelRow(if hist.At(c) == from then hist.Set(c, to) else hist, y, x + 1, xEnd, from, to)
  }

  /** The outer loop of ccl.c:188-198: rows `y` to the bottom of `src`. */
  function RelabelRows(hist: Grid<int>, src: Block, y: int, from: int, to: int): (r: Grid<int>)
    requires hist.Valid() && src.Inside(hist.width, hist.height) && src.y <= y
    ensures r.Valid() && SameShape(r, hist)
    ensures forall c :: r.Contains(c) ==>
      r.At(c) == if src.Covers(c) && y <= c.y && hist.At(c) == from then to else hist.At(c)
    decreases src.Bottom() - y
  {
    if y >= src.Bottom() then hist
    else
      var row := RelabelRow(hist, y, src.x, src.Right(), from, to);
      var r := RelabelRows(row, src, y + 1, from, to);
      RowsCompose(hist, row, r, src, y, from, to);
      r
  }

  lemma RowsCompose(hist: Grid<int>, row: Grid<int>, r: Grid<int>, src: Block, y: int, from: int, to: int)
    requires hist.Valid() && row.Valid() && r.Valid() && SameShape(row, hist) && SameShape(r, hist)
    requires src.y <= y < src.Bottom()
    requires forall c :: row.Contains(c) ==>
      row.At(c) == if c.y == y && src.x <= c.x < src.Right() && hist.At(c) == from then to else hist.At(c)
    requires forall c :: r.Contains(c) ==>
      r.At(c) == if src.Covers(c) && y + 1 <= c.y && row.At(c) == from then to else row.At(c)
    ensures forall c :: r.Contains(c) ==>
      r.At(c) == if src.Covers(c) && y <= c.y && hist.At(c) == from then to else hist.At(c)
  {
    forall c | r.Contains(c)
      ensures r.At(c) == if src.Covers(c) && y <= c.y && hist.At(c) == from then to else hist.At(c)
    {
      assert row.Contains(c);
    }
  }

  /** The result of `merge_two`: whether it merged, and the list and histogram afterwards. */
  datatype Step = Step(merged: bool, blocks: seq<Block>, hist: Grid<int>)

  /**
   * `merge_two` (ccl.c:172-218) with `dst = rest[0]` and `src = rest[1]`;
   * `current` is `dst`'s label, so `src` is assumed to carry `current + 1`.
   */
  function MergeTwo(rest: seq<Block>, hist: Grid<int>, current: int): (r: Step)
    requires |rest| >= 1 && hist.Valid()
    requires |rest| >= 2 ==> rest[1].Inside(hist.width, hist.height)
    ensures r.merged <==> |rest| >= 2 && Absorbs(rest[0], rest[1])
    ensures !r.merged ==> r.blocks == rest && r.hist == hist
    ensures r.merged ==> |r.blocks| == |rest| - 1 && r.blocks == [Enlarge(rest[0], rest[1])] + rest[2..]
    ensures r.hist.Valid() && SameShape(r.hist, hist)
    ensures r.merged ==> forall c :: r.hist.Contains(c) ==>
      r.hist.At(c) == if rest[1].Covers(c) && hist.At(c) == current + 1 then current else hist.At(c)
  {
    if |rest| < 2 then Step(false, rest, hist)
    else
      var src, dst := rest[1], rest[0];
      if src.x < dst.x || dst.x + dst.width + Tolerance < src.x + src.width then Step(false, rest, hist)
      else Step(true, [Enlarge(dst, src)] + rest[2..], RelabelRows(hist, src, src.y, current + 1, current))
  }

  /** The gap test of ccl.c:143, with the line height divided as C `int`s are. */
  predicate Gapped(prev: Block, cur: Block, line: Block)
  {
    cur.x > prev.Right() + line.height / 4
  }

  /** The space block of ccl.c:146-151, spanning the gap between `prev` and `cur`. */
  function SpaceBlock(prev: Block, cur: Block, line: Block): Block
  {
    Block(prev.Right(), line.y, cur.x - prev.Right(), line.height, SpaceMark)
  }

  /**
   * The gap test on a 40-pixel line: a block 11 columns past its predecessor
   * gets a space in front, one 10 columns past does not (the comparison is
   * strict), and on a 43-pixel line the threshold is still 10.
   */
  lemma GapThreshold()
    ensures var prev, line := Block(0, 0, 10, 5, NoMarker), Block(0, 0, 100, 40, NoMarker);
      && Place(line, [prev], Block(21, 0, 5, 5, NoMarker))
         == [prev, Block(10, 0, 11, 40, SpaceMark), Block(21, 0, 5, 5, NoMarker)]
      && Place(line, [prev], Block(20, 0, 5, 5, NoMarker)) == [prev, Block(20, 0, 5, 5, NoMarker)]
      && Place(line.(height := 43), [prev], Block(20, 0, 5, 5, NoMarker)) == [prev, Block(20, 0, 5, 5, NoMarker)]
  {
  }

  datatype Pass = Pass(blocks: seq<Block>, hist: Grid<int>)

  /** One iteration of the loop in ccl.c:131-162 per remaining block. */
  function MergePass(line: Block, done: seq<Block>, rest: seq<Block>, hist: Grid<int>, current: int): (r: Pass)
    requires hist.Valid() && AllInside(rest, hist)
    ensures r.hist.Valid() && SameShape(r.hist, hist)
    decreases |rest|
  {
    if rest == [] then Pass(done, hist)
    else
      var step := MergeTwo(rest, hist, current);
      var next := if step.merged then current + 2 else current + 1;
      MergePass(line, Place(line, done, step.blocks[0]), step.blocks[1..], step.hist, next)
  }

  /**
   * The whitespace check of ccl.c:139-159 once `cur` is final: `cur` joins the
   * processed blocks, preceded by a space block when the gap to its
   * predecessor is wide.
   */
  function Place(line: Block, done: seq<Block>, cur: Block): seq<Block>
  {
    if |done| > 0 && Gapped(done[|done| - 1], cur, line)
    then done + [SpaceBlock(done[|done| - 1], cur, line), cur]
    else done + [cur]
  }

  /** `merge_labels` (ccl.c:127-163) on the line block, its block list and histogram. */
  function MergeLabels(line: Block, blocks: seq<Block>, hist: Grid<int>): (r: Pass)
    requires hist.Valid() && hist.width == line.width && hist.height == line.height
    requires AllInside(blocks, hist)
    ensures r.hist.Valid() && SameShape(r.hist, hist)
  {
    MergePass(line, [], blocks, hist, 1)
  }

  /**
   * Reference for the merging half of `merge_labels` on blocks alone: walk the
   * list, fold the next block into the current one when it is absorbed, and
   * continue after the folded block.
   */
  function Greedy(bs: seq<Block>): seq<Block>
  {
    if |bs| < 2 then bs
    else if Absorbs(bs[0], bs[1]) then [Enlarge(bs[0], bs[1])] + Greedy(bs[2..])
    else [bs[0]] + Greedy(bs[1..])
  }

  /** Left edges never decrease along the list. */
  predicate XOrdered(bs: seq<Block>)
  {
    forall i, j :: 0 <= i < j < |bs| ==> bs[i].x <= bs[j].x
  }

  /**
   * Merging keeps the left-to-right order: a list whose left edges never
   * decrease still has that property after the greedy pass, and its first
   * block keeps its left edge.
   */
  lemma {:induction false} GreedyKeepsOrder(bs: seq<Block>)
    requires XOrdered(bs)
    ensures XOrdered(Greedy(bs))
    ensures bs != [] ==> Greedy(bs) != [] && Greedy(bs)[0].x == bs[0].x
    ensures forall i :: 0 <= i < |Greedy(bs)| ==> bs[0].x <= Greedy(bs)[i].x
  {
    if |bs| >= 2 {
      var k := if Absorbs(bs[0], bs[1]) then 2 else 1;
      var tail := bs[k..];
      assert XOrdered(tail) by {
        forall i, j | 0 <= i < j < |tail|
          ensures tail[i].x <= tail[j].x
        {
          assert tail[i] == bs[i + k] && tail[j] == bs[j + k];
        }
      }
      GreedyKeepsOrder(tail);
      var head := if k == 2 then Enlarge(bs[0], bs[1]) else bs[0];
      assert Greedy(bs) == [head] + Greedy(tail);
      assert head.x == bs[0].x;
      if tail != [] {
        assert tail[0] == bs[k];
      }
    }
  }

  predicate NoMarkers(bs: seq<Block>)
  {
    forall b :: b in bs ==> !b.IsMarker()
  }

  /** What one `merge_two` step hands on to the rest of the pass. */
  lemma StepFacts(rest: seq<Block>, hist: Grid<int>, current: int)
    requires |rest| >= 1 && hist.Valid() && AllInside(rest, hist) && NoMarkers(rest)
    ensures |MergeTwo(rest, hist, current).blocks| >= 1
    ensures !MergeTwo(rest, hist, current).blocks[0].IsMarker()
    ensures MergeTwo(rest, hist, current).blocks[0].Inside(hist.width, hist.height)
    ensures AllInside(MergeTwo(rest, hist, current).blocks[1..], hist)
    ensures NoMarkers(MergeTwo(rest, hist, current).blocks[1..])
  {
    assert rest[0] in rest;
    if |rest| >= 2 {
      assert rest[1] in rest;
    }
    var step := MergeTwo(rest, hist, current);
    forall b | b in step.blocks[1..]
      ensures b in rest
    {
      var k :| 0 <= k < |step.blocks[1..]| && step.blocks[1..][k] == b;
      if step.merged {
        assert b == rest[k + 2];
      } else {
        assert b == rest[k + 1];
      }
    }
  }

  lemma PlaceGlyphs(line: Block, done: seq<Block>, cur: Block)
    requires !cur.IsMarker()
    ensures Glyphs(Place(line, done, cur)) == Glyphs(done) + [cur]
  {
    if |done| > 0 && Gapped(done[|done| - 1], cur, line) {
      GlyphsAppend(done, [SpaceBlock(done[|done| - 1], cur, line), cur]);
    } else {
      GlyphsAppend(done, [cur]);
    }
  }

  lemma GreedyStep(rest: seq<Block>, hist: Grid<int>, current: int)
    requires |rest| >= 1 && hist.Valid() && AllInside(rest, hist)
    ensures Greedy(rest) == [MergeTwo(rest, hist, current).blocks[0]] + Greedy(MergeTwo(rest, hist, current).blocks[1..])
  {
    if |rest| >= 2 {
      assert rest[1] in rest;
    }
    var step := MergeTwo(rest, hist, current);
    if step.merged {
      assert step.blocks[0] == Enlarge(rest[0], rest[1]) && step.blocks[1..] == rest[2..];
    } else {
      assert step.blocks == rest;
      assert |rest| >= 2 ==> !Absorbs(rest[0], rest[1]);
    }
  }

  lemma {:induction false} PassFollowsGreedy(line: Block, done: seq<Block>, rest: seq<Block>, hist: Grid<int>, current: int)
    requires hist.Valid() && AllInside(rest, hist) && NoMarkers(rest)
    ensures Glyphs(MergePass(line, done, rest, hist, current).blocks) == Glyphs(done) + Greedy(rest)
    decreases |rest|
  {
    if rest != [] {
      var step := MergeTwo(rest, hist, current);
      var next := if step.merged then current + 2 else current + 1;
      var head, tail := step.blocks[0], step.blocks[1..];
      var done' := Place(line, done, head);
      assert !head.IsMarker() && AllInside(tail, step.hist) && NoMarkers(tail) by {
        StepFacts(rest, hist, current);
      }
      var sub := MergePass(line, done', tail, step.hist, next);
      assert MergePass(line, done, rest, hist, current) == sub;
      assert Glyphs(sub.blocks) == Glyphs(done') + Greedy(tail) by {
        PassFollowsGreedy(line, done', tail, step.hist, next);
      }
      assert Glyphs(done') == Glyphs(done) + [head] by {
        PlaceGlyphs(line, done, head);
      }
      assert Greedy(rest) == [head] + Greedy(tail) by {
        GreedyStep(rest, hist, current);
      }
      assert Glyphs(done) + [head] + Greedy(tail) == Glyphs(done) + ([head] + Greedy(tail));
    }
  }

  /** With no markers in its input, the glyphs `merge_labels` leaves are exactly those of the greedy reference. */
  lemma MergeFollowsGreedy(line: Block, blocks: seq<Block>, hist: Grid<int>)
    requires hist.Valid() && hist.width == line.width && hist.height == line.height
    requires AllInside(blocks, hist) && NoMarkers(blocks)
    ensures Glyphs(MergeLabels(line, blocks, hist).blocks) == Greedy(blocks)
  {
    PassFollowsGreedy(line, [], blocks, hist, 1);
  }

  /**
   * Where spaces sit in a merged list: never first, each one between two real
   * blocks whose gap passes the test and spanning exactly that gap; and two
   * real blocks are neighbours only when their gap fails the test.
   */
  ghost predicate SpacesPlaced(bs: seq<Block>, line: Block)
  {
    (|bs| > 0 ==> !bs[0].IsMarker()) && SpacesFlanked(bs, line) && NeighboursClose(bs, line)
  }

  /** Every space block sits between two real blocks whose gap it spans. */
  ghost predicate SpacesFlanked(bs: seq<Block>, line: Block)
  {
    forall j :: 0 <= j < |bs| && bs[j].IsMarker() ==>
      && 0 < j < |bs| - 1
      && !bs[j - 1].IsMarker() && !bs[j + 1].IsMarker()
      && Gapped(bs[j - 1], bs[j + 1], line)
      && bs[j] == SpaceBlock(bs[j - 1], bs[j + 1], line)
  }

  /** Two neighbouring real blocks have a gap that fails the test. */
  ghost predicate NeighboursClose(bs: seq<Block>, line: Block)
  {
    forall j :: 0 <= j < |bs| - 1 && !bs[j].IsMarker() && !bs[j + 1].IsMarker() ==>
      !Gapped(bs[j], bs[j + 1], line)
  }

  lemma SpacesExtend(done: seq<Block>, cur: Block, line: Block)
    requires SpacesPlaced(done, line) && (|done| > 0 ==> !done[|done| - 1].IsMarker())
    requires !cur.IsMarker()
    ensures SpacesPlaced(Place(line, done, cur), line)
    ensures !Place(line, done, cur)[|Place(line, done, cur)| - 1].IsMarker()
  {
    if |done| > 0 && Gapped(done[|done| - 1], cur, line) {
      SpacesAfterGap(done, cur, line);
    } else {
      SpacesWithoutGap(done, cur, line);
    }
  }

  lemma SpacesAfterGap(done: seq<Block>, cur: Block, line: Block)
    requires SpacesPlaced(done, line) && |done| > 0 && !done[|done| - 1].IsMarker()
    requires !cur.IsMarker() && Gapped(done[|done| - 1], cur, line)
    ensures SpacesPlaced(done + [SpaceBlock(done[|done| - 1], cur, line), cur], line)
  {
    var sp := SpaceBlock(done[|done| - 1], cur, line);
    var n := |done|;
    var bs := done + [sp, cur];
    assert sp.IsMarker() && bs[n - 1] == done[n - 1] && bs[n] == sp && bs[n + 1] == cur;
    assert bs[0] == done[0];
    assert SpacesFlanked(bs, line) by {
      forall j | 0 <= j < |bs| && bs[j].IsMarker()
        ensures 0 < j < |bs| - 1 && !bs[j - 1].IsMarker() && !bs[j + 1].IsMarker()
        ensures Gapped(bs[j - 1], bs[j + 1], line) && bs[j] == SpaceBlock(bs[j - 1], bs[j + 1], line)
      {
        if j < n {
          assert done[j].IsMarker() && bs[j] == done[j];
          assert bs[j - 1] == done[j - 1] && bs[j + 1] == done[j + 1];
        }
      }
    }
    assert NeighboursClose(bs, line) by {
      forall j | 0 <= j < |bs| - 1 && !bs[j].IsMarker() && !bs[j + 1].IsMarker()
        ensures !Gapped(bs[j], bs[j + 1], line)
      {
        assert j + 1 < n;
        assert bs[j] == done[j] && bs[j + 1] == done[j + 1];
      }
    }
  }

  lemma SpacesWithoutGap(done: seq<Block>, cur: Block, line: Block)
    requires SpacesPlaced(done, line) && (|done| > 0 ==> !done[|done| - 1].IsMarker())
    requires !cur.IsMarker() && (|done| > 0 ==> !Gapped(done[|done| - 1], cur, line))
    ensures SpacesPlaced(done + [cur], line)
  {
    var bs := done + [cur];
    assert |bs| > 0 ==> !bs[0].IsMarker();
    assert SpacesFlanked(bs, line) by {
      forall j | 0 <= j < |bs| && bs[j].IsMarker()
        ensures 0 < j < |bs| - 1 && !bs[j - 1].IsMarker() && !bs[j + 1].IsMarker()
        ensures Gapped(bs[j - 1], bs[j + 1], line) && bs[j] == SpaceBlock(bs[j - 1], bs[j + 1], line)
      {
        assert j < |done| && done[j].IsMarker();
        assert bs[j - 1] == done[j - 1] && bs[j + 1] == done[j + 1];
      }
    }
    assert NeighboursClose(bs, line) by {
      forall j | 0 <= j < |bs| - 1 && !bs[j].IsMarker() && !bs[j + 1].IsMarker()
        ensures !Gapped(bs[j], bs[j + 1], line)
      {
        if j + 1 < |done| {
          assert bs[j] == done[j] && bs[j + 1] == done[j + 1];
        } else {
          assert bs[j] == done[|done| - 1] && bs[j + 1] == cur;
        }
      }
    }
  }

  lemma {:induction false} PassPlacesSpaces(line: Block, done: seq<Block>, rest: seq<Block>, hist: Grid<int>, current: int)
    requires hist.Valid() && AllInside(rest, hist) && NoMarkers(rest)
    requires SpacesPlaced(done, line) && (|done| > 0 ==> !done[|done| - 1].IsMarker())
    ensures SpacesPlaced(MergePass(line, done, rest, hist, current).blocks, line)
    decreases |rest|
  {
    if rest != [] {
      var step := MergeTwo(rest, hist, current);
      var next := if step.merged then current + 2 else current + 1;
      StepFacts(rest, hist, current);
      SpacesExtend(done, step.blocks[0], line);
      PassPlacesSpaces(line, Place(line, done, step.blocks[0]), step.blocks[1..], step.hist, next);
    }
  }

  /**
   * `merge_labels` inserts a space before a block exactly when the gap to the
   * previous surviving block exceeds a quarter of the line height, and
   * nowhere else.
   */
  lemma MergePlacesSpaces(line: Block, blocks: seq<Block>, hist: Grid<int>)
    requires hist.Valid() && hist.width == line.width && hist.height == line.height
    requires AllInside(blocks, hist) && NoMarkers(blocks)
    ensures SpacesPlaced(MergeLabels(line, blocks, hist).blocks, line)
  {
    PassPlacesSpaces(line, [], blocks, hist, 1);
  }

  /** `after` agrees with `before` on every cell that did not hold `v`. */
  ghost predicate Keeps(before: Grid<int>, after: Grid<int>, v: int)
  {
    before.Valid() && after.Valid() && SameShape(before, after) &&
    forall c :: before.Contains(c) && before.At(c) != v ==> after.At(c) == before.At(c)
  }

  lemma KeepsCell(before: Grid<int>, after: Grid<int>, v: int, b: Block, lbl: int)
    requires Keeps(before, after, v) && HasCell(before, b, lbl) && lbl != v
    ensures HasCell(after, b, lbl)
  {
    var c :| before.Valid() && before.Contains(c) && b.Covers(c) && before.At(c) == lbl;
    assert after.Contains(c) && after.At(c) == lbl;
  }

  lemma KeepsTagged(before: Grid<int>, after: Grid<int>, v: int, bs: seq<Block>, tags: seq<int>)
    requires Keeps(before, after, v) && Tagged(before, bs, tags)
    requires forall i :: 0 <= i < |bs| && !bs[i].IsMarker() ==> tags[i] != v
    ensures Tagged(after, bs, tags)
  {
    forall i | 0 <= i < |bs| && !bs[i].IsMarker()
      ensures HasCell(after, bs[i], tags[i])
    {
      KeepsCell(before, after, v, bs[i], tags[i]);
    }
  }

  /** The tags of `Place(line, done, cur)` when `cur` is tagged `t`. */
  function PlaceTags(line: Block, done: seq<Block>, cur: Block, tags: seq<int>, t: int): seq<int>
  {
    if |done| > 0 && Gapped(done[|done| - 1], cur, line) then tags + [t, t] else tags + [t]
  }

  lemma PlaceTagged(hist: Grid<int>, line: Block, done: seq<Block>, cur: Block, tags: seq<int>, t: int)
    requires Tagged(hist, done, tags) && !cur.IsMarker() && 1 <= t && HasCell(hist, cur, t)
    requires forall i :: 0 <= i < |done| && !done[i].IsMarker() ==> tags[i] < t
    ensures Tagged(hist, Place(line, done, cur), PlaceTags(line, done, cur, tags, t))
    ensures forall i :: 0 <= i < |Place(line, done, cur)| && !Place(line, done, cur)[i].IsMarker() ==>
      PlaceTags(line, done, cur, tags, t)[i] <= t
  {
    var bs, ts := Place(line, done, cur), PlaceTags(line, done, cur, tags, t);
    assert |bs| == |ts|;
    forall i | 0 <= i < |bs| && !bs[i].IsMarker()
      ensures 1 <= ts[i] && HasCell(hist, bs[i], ts[i])
    {
      if i < |done| {
        assert bs[i] == done[i] && ts[i] == tags[i];
      }
    }
    forall i | 0 <= i < |bs| && !bs[i].IsMarker()
      ensures ts[i] <= t
    {
      if i < |done| {
        assert bs[i] == done[i] && ts[i] == tags[i];
      }
    }
  }

  /** The state `merge_labels` keeps in step: `current` is the label of `rest[0]`. */
  ghost predicate InStep(hist: Grid<int>, done: seq<Block>, tags: seq<int>, rest: seq<Block>, current: int)
  {
    && hist.Valid()
    && Tagged(hist, done, tags)
    && current >= 1
    && (forall i :: 0 <= i < |done| && !done[i].IsMarker() ==> tags[i] < current && done[i].Inside(hist.width, hist.height))
    && (forall j :: 0 <= j < |rest| ==> HasCell(hist, rest[j], current + j))
  }

  /** After one `merge_two` step the surviving blocks still hold their labels, shifted past a merge. */
  lemma StepCells(rest: seq<Block>, hist: Grid<int>, current: int)
    requires |rest| >= 1 && hist.Valid() && AllInside(rest, hist)
    requires forall j :: 0 <= j < |rest| ==> HasCell(hist, rest[j], current + j)
    ensures Keeps(hist, MergeTwo(rest, hist, current).hist, current + 1)
    ensures HasCell(MergeTwo(rest, hist, current).hist, MergeTwo(rest, hist, current).blocks[0], current)
    ensures var step := MergeTwo(rest, hist, current);
      forall j :: 0 <= j < |step.blocks[1..]| ==>
        HasCell(step.hist, step.blocks[1..][j], (if step.merged then current + 2 else current + 1) + j)
  {
    if |rest| >= 2 {
      assert rest[1] in rest;
    }
    var step := MergeTwo(rest, hist, current);
    var next := if step.merged then current + 2 else current + 1;
    assert Keeps(hist, step.hist, current + 1);
    assert HasCell(step.hist, step.blocks[0], current) by {
      KeepsCell(hist, step.hist, current + 1, rest[0], current);
      if step.merged {
        var c :| step.hist.Valid() && step.hist.Contains(c) && rest[0].Covers(c) && step.hist.At(c) == current;
        assert step.blocks[0].Covers(c);
      }
    }
    forall j | 0 <= j < |step.blocks[1..]|
      ensures HasCell(step.hist, step.blocks[1..][j], next + j)
    {
      if step.merged {
        assert step.blocks[1..][j] == rest[j + 2];
        KeepsCell(hist, step.hist, current + 1, rest[j + 2], current + j + 2);
      } else {
        assert step.blocks[1..][j] == rest[j + 1];
      }
    }
  }

  /** One `merge_two` step and the placement after it keep the counter in step with the labels. */
  lemma SyncStep(line: Block, done: seq<Block>, rest: seq<Block>, hist: Grid<int>, current: int, tags: seq<int>)
    returns (tags1: seq<int>)
    requires |rest| >= 1 && AllInside(rest, hist) && NoMarkers(rest)
    requires InStep(hist, done, tags, rest, current)
    ensures var step := MergeTwo(rest, hist, current);
      InStep(step.hist, Place(line, done, step.blocks[0]), tags1, step.blocks[1..],
             if step.merged then current + 2 else current + 1)
  {
    var step := MergeTwo(rest, hist, current);
    var next := if step.merged then current + 2 else current + 1;
    var cur := step.blocks[0];
    assert !cur.IsMarker() && cur.Inside(hist.width, hist.height) by {
      StepFacts(rest, hist, current);
    }
    StepCells(rest, hist, current);
    KeepsTagged(hist, step.hist, current + 1, done, tags);
    PlaceTagged(step.hist, line, done, cur, tags, current);
    var done' := Place(line, done, cur);
    tags1 := PlaceTags(line, done, cur, tags, current);
    forall i | 0 <= i < |done'| && !done'[i].IsMarker()
      ensures tags1[i] < next && done'[i].Inside(step.hist.width, step.hist.height)
    {
      if i < |done| {
        assert done'[i] == done[i];
      } else {
        assert done'[i] == cur;
      }
    }
  }

  lemma {:induction false} PassKeepsSync(line: Block, done: seq<Block>, rest: seq<Block>, hist: Grid<int>, current: int, tags: seq<int>)
    returns (tags': seq<int>)
    requires AllInside(rest, hist) && NoMarkers(rest)
    requires InStep(hist, done, tags, rest, current)
    ensures Tagged(MergePass(line, done, rest, hist, current).hist, MergePass(line, done, rest, hist, current).blocks, tags')
    ensures forall b :: b in MergePass(line, done, rest, hist, current).blocks && !b.IsMarker() ==>
      b.Inside(hist.width, hist.height)
    decreases |rest|
  {
    if rest == [] {
      tags' := tags;
      forall b | b in done && !b.IsMarker()
        ensures b.Inside(hist.width, hist.height)
      {
        var i :| 0 <= i < |done| && done[i] == b;
      }
    } else {
      var step := MergeTwo(rest, hist, current);
      var next := if step.merged then current + 2 else current + 1;
      var tail := step.blocks[1..];
      var done' := Place(line, done, step.blocks[0]);
      assert AllInside(tail, step.hist) && NoMarkers(tail) by {
        StepFacts(rest, hist, current);
      }
      var tags1 := SyncStep(line, done, rest, hist, current, tags);
      assert MergePass(line, done, rest, hist, current) == MergePass(line, done', tail, step.hist, next);
      tags' := PassKeepsSync(line, done', tail, step.hist, next, tags1);
    }
  }

  /**
   * When `create_hist` gave block `k` a cell labelled `k + 1`, every real block
   * `merge_labels` leaves still holds a cell of its own label, and these labels
   * rise along the list.
   */
  lemma MergeKeepsSync(line: Block, blocks: seq<Block>, hist: Grid<int>) returns (tags: seq<int>)
    requires hist.Valid() && hist.width == line.width && hist.height == line.height
    requires AllInside(blocks, hist) && NoMarkers(blocks)
    requires forall k :: 0 <= k < |blocks| ==> HasCell(hist, blocks[k], k + 1)
    ensures Tagged(MergeLabels(line, blocks, hist).hist, MergeLabels(line, blocks, hist).blocks, tags)
    ensures forall b :: b in MergeLabels(line, blocks, hist).blocks && !b.IsMarker() ==> b.Inside(hist.width, hist.height)
  {
    tags := PassKeepsSync(line, [], blocks, hist, 1, []);
  }
}
