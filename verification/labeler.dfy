/**
 * Connected-component labelling of one text line (`create_hist` and
 * `propagate` in ccl.c). The recursive 8-connected flood fill is an explicit
 * stack that checks a cell when it is popped and pushes the eight neighbours
 * so that the first neighbour the recursion would visit is on top: the cells
 * are stamped in exactly the order of the recursion, which matters because
 * the bounding box is grown incrementally.
 */
module Labeler {
  import opened Grids
  import opened Blocks

  /** Two distinct cells that touch by an edge or a corner. */
  predicate Adjacent(a: Cell, b: Cell)
  {
    a != b && -1 <= a.x - b.x <= 1 && -1 <= a.y - b.y <= 1
  }

  /** The neighbours of `c` in the order `propagate` recurses into them (dy outer, dx inner). */
  function Neighbours(c: Cell): seq<Cell>
  {
    [Cell(c.x - 1, c.y - 1), Cell(c.x, c.y - 1), Cell(c.x + 1, c.y - 1),
     Cell(c.x - 1, c.y),                         Cell(c.x + 1, c.y),
     Cell(c.x - 1, c.y + 1), Cell(c.x, c.y + 1), Cell(c.x + 1, c.y + 1)]
  }

  /** The neighbours as pushed on the stack: reversed, so the first one is popped first. */
  function Pending(c: Cell): (s: seq<Cell>)
    ensures |s| == 8 && forall k :: 0 <= k < 8 ==> s[k] == Neighbours(c)[7 - k]
  {
    var n := Neighbours(c);
    [n[7], n[6], n[5], n[4], n[3], n[2], n[1], n[0]]
  }

  /** The cells pushed around `a` are exactly its eight neighbours. */
  lemma PendingCoversAdjacent(a: Cell, b: Cell)
    ensures b in Pending(a) <==> Adjacent(a, b)
  {
    var p := Pending(a);
    PendingAdjacent(a);
    if !Adjacent(a, b) {
    } else if b.y == a.y - 1 {
      if b.x == a.x - 1 { assert p[7] == b; }
      else if b.x == a.x { assert p[6] == b; }
      else { assert p[5] == b; }
    } else if b.y == a.y {
      if b.x == a.x - 1 { assert p[4] == b; }
      else { assert p[3] == b; }
    } else {
      if b.x == a.x - 1 { assert p[2] == b; }
      else if b.x == a.x { assert p[1] == b; }
      else { assert p[0] == b; }
    }
  }

  /** The source raster of the line and its histogram have the same extents. */
  predicate Layered(pix: Grid<Pixel>, hist: Grid<int>)
  {
    pix.Valid() && hist.Valid() && SameShape(pix, hist)
  }

  /**
   * The update of the component's box when `propagate` stamps cell `c`
   * (ccl.c:279-286): each edge is moved in turn, and moving the top edge up
   * does not carry the height along.
   */
  function Grow(b: Block, c: Cell): (r: Block)
    ensures r.mark == b.mark && r.y == if c.y < b.y then c.y else b.y
    ensures r.width >= b.width && r.height >= b.height
    ensures c.x >= b.x ==> r.x == b.x && r.Covers(c) && r.Right() >= b.Right()
    ensures c.x >= b.x ==> r.Right() == if c.x >= b.Right() then c.x + 1 else b.Right()
    ensures r.y == b.y ==> r.Bottom() >= b.Bottom()
    ensures c.y < b.y && b.height >= 1 ==> r.height == b.height
  {
    var b1 := if c.x < b.x then b.(x := c.x) else b;
    var b2 := if c.y < b1.y then b1.(y := c.y) else b1;
    var b3 := if c.x - b2.x + 1 > b2.width then b2.(width := c.x - b2.x + 1) else b2;
    if c.y - b3.y + 1 > b3.height then b3.(height := c.y - b3.y + 1) else b3
  }

  /** Growing never moves the bottom edge below both the old one and the new cell's row. */
  lemma GrowBottom(b: Block, c: Cell)
    requires b.height >= 1
    ensures Grow(b, c).Bottom() <= Max(b.Bottom(), c.y + 1)
  {
  }

  /** The top edge moving up can leave an earlier stamped cell below the box. */
  lemma GrowLeavesBottomBehind()
    ensures Block(0, 1, 1, 1, NoMarker).Covers(Cell(0, 1))
    ensures !Grow(Block(0, 1, 1, 1, NoMarker), Cell(1, 0)).Covers(Cell(0, 1))
  {
  }

  /** Offsets of the histogram cells still unlabelled: shrinks with every stamp. */
  ghost function Zeros(hist: Grid<int>): set<int>
  {
    set i | 0 <= i < |hist.cells| && hist.cells[i] == 0
  }

  lemma StampShrinksZeros(hist: Grid<int>, c: Cell, lbl: int)
    requires hist.Valid() && hist.Contains(c) && hist.At(c) == 0 && lbl != 0
    ensures Zeros(hist.Set(c, lbl)) < Zeros(hist)
  {
    IndexInRange(c, hist.width, hist.height);
    var i := Index(c, hist.width);
    var h' := hist.Set(c, lbl);
    assert h'.cells == hist.cells[i := lbl];
    assert i in Zeros(hist) && i !in Zeros(h');
  }

  /** Every labelled cell shares its label with each ink cell adjacent to it. */
  ghost predicate Closed(pix: Grid<Pixel>, hist: Grid<int>)
  {
    Layered(pix, hist) &&
    forall a, b :: hist.Contains(a) && hist.Contains(b) && Adjacent(a, b) && hist.At(a) != 0 && pix.At(b) == Ink
      ==> hist.At(b) == hist.At(a)
  }

  /** `after` differs from `before` only at unlabelled ink cells, which now carry `lbl`. */
  ghost predicate Stamps(pix: Grid<Pixel>, before: Grid<int>, after: Grid<int>, lbl: int)
  {
    Layered(pix, before) && Layered(pix, after) &&
    forall c :: after.Contains(c) ==>
      after.At(c) == before.At(c) || (before.At(c) == 0 && pix.At(c) == Ink && after.At(c) == lbl)
  }

  /** Every ink neighbour of a cell labelled `lbl` is labelled or still waiting on the stack. */
  ghost predicate Frontier(pix: Grid<Pixel>, hist: Grid<int>, lbl: int, stack: seq<Cell>)
  {
    Layered(pix, hist) &&
    forall a, b :: hist.Contains(a) && hist.Contains(b) && Adjacent(a, b) && hist.At(a) == lbl && pix.At(b) == Ink
      ==> hist.At(b) != 0 || b in stack
  }

  /** The cells labelled `lbl` lie in the block's columns and not above its top edge. */
  ghost predicate Bounds(hist: Grid<int>, b: Block, lbl: int)
  {
    hist.Valid() &&
    forall c :: hist.Contains(c) && hist.At(c) == lbl ==> b.x <= c.x < b.Right() && b.y <= c.y
  }

  /** What `create_hist` leaves in the block of the component labelled `lbl`. */
  ghost predicate Boxed(hist: Grid<int>, b: Block, lbl: int)
  {
    && hist.Valid()
    && !b.IsMarker() && b.width >= 1 && b.height >= 1
    && b.Inside(hist.width, hist.height)
    && Bounds(hist, b, lbl)
    && HasCell(hist, b, lbl)
    && Tight(hist, b, lbl)
  }

  /**
   * The box is tight on three sides: its left column, its right column and
   * its top row each hold a cell labelled `lbl`. Its bottom edge is not
   * (`GrowLeavesBottomBehind`), but it never lies below the lowest such cell:
   * some cell labelled `lbl` is on or below the box's last row.
   */
  ghost predicate Tight(hist: Grid<int>, b: Block, lbl: int)
  {
    && hist.Valid()
    && (exists c :: hist.Contains(c) && hist.At(c) == lbl && c.x == b.x)
    && (exists c :: hist.Contains(c) && hist.At(c) == lbl && c.x == b.Right() - 1)
    && (exists c :: hist.Contains(c) && hist.At(c) == lbl && c.y == b.y)
    && (exists c :: hist.Contains(c) && hist.At(c) == lbl && c.y >= b.Bottom() - 1)
  }

  /** A path from cell to touching cell through cells that all carry `lbl`. */
  ghost predicate Walk(hist: Grid<int>, lbl: int, p: seq<Cell>)
  {
    && hist.Valid() && |p| >= 1
    && (forall i :: 0 <= i < |p| ==> hist.Contains(p[i]) && hist.At(p[i]) == lbl)
    && (forall i, j :: 0 <= i < j < |p| && j == i + 1 ==> Adjacent(p[i], p[j]))
  }

  /** Some walk through cells labelled `lbl` leads from `a` to `b`. */
  ghost predicate Reaches(hist: Grid<int>, lbl: int, a: Cell, b: Cell)
  {
    exists p :: Walk(hist, lbl, p) && p[0] == a && p[|p| - 1] == b
  }

  /**
   * `root` carries `lbl` and reaches every cell labelled `lbl`. (The trigger
   * keeps the solver from chasing a new walk from every cell of a walk.)
   */
  ghost predicate Connected(hist: Grid<int>, lbl: int, root: Cell)
  {
    && hist.Valid() && hist.Contains(root) && hist.At(root) == lbl
    && forall c {:trigger Reaches(hist, lbl, root, c)} :: hist.Contains(c) && hist.At(c) == lbl ==> Reaches(hist, lbl, root, c)
  }

  /** The cells labelled `lbl` form one 8-connected set. */
  ghost predicate Component(hist: Grid<int>, lbl: int)
  {
    exists root :: Connected(hist, lbl, root)
  }

  /** Every cell waiting on the stack touches a cell already labelled `lbl`. */
  ghost predicate Reached(hist: Grid<int>, lbl: int, stack: seq<Cell>)
  {
    hist.Valid() &&
    forall s :: s in stack ==> exists d :: hist.Contains(d) && hist.At(d) == lbl && Adjacent(d, s)
  }

  /** The invariant of the flood fill's loop. */
  ghost predicate Filling(pix: Grid<Pixel>, hist: Grid<int>, seed: Cell, lbl: int,
                          out: Grid<int>, box: Block, stack: seq<Cell>, last: Cell)
  {
    && Stamps(pix, hist, out, lbl)
    && out.Contains(seed) && out.At(seed) == lbl
    && Frontier(pix, out, lbl, stack)
    && box.x == seed.x && box.y <= seed.y && !box.IsMarker() && box.width >= 1 && box.height >= 1
    && box.Inside(out.width, out.height)
    && Bounds(out, box, lbl)
    && out.Contains(last) && box.Covers(last) && out.At(last) == lbl
  }

  /**
   * The rest of the flood fill's invariant: the box is tight, every stamped
   * cell is reached from the seed, and every waiting cell touches a stamped one.
   */
  ghost predicate Linked(out: Grid<int>, box: Block, lbl: int, seed: Cell, stack: seq<Cell>)
  {
    && Tight(out, box, lbl)
    && Connected(out, lbl, seed)
    && Reached(out, lbl, stack)
  }

  /** The preconditions of a fill that `create_hist` establishes. */
  ghost predicate CanFill(pix: Grid<Pixel>, hist: Grid<int>, seed: Cell, lbl: int)
  {
    && Layered(pix, hist)
    && hist.Contains(seed) && hist.At(seed) == 0 && pix.At(seed) == Ink
    && lbl >= 1 && (forall c :: hist.Contains(c) ==> hist.At(c) != lbl)
    && (forall c :: hist.Contains(c) && c.x < seed.x && pix.At(c) == Ink ==> hist.At(c) != 0)
  }

  /**
   * `propagate` started at `seed` with a fresh label (ccl.c:270-297), with the
   * block `create_hist` prepares at the seed (ccl.c:252-254).
   */
  method Propagate(pix: Grid<Pixel>, hist: Grid<int>, seed: Cell, lbl: int) returns (out: Grid<int>, box: Block)
    requires Layered(pix, hist)
    requires hist.Contains(seed) && hist.At(seed) == 0 && pix.At(seed) == Ink
    requires lbl >= 1 && forall c :: hist.Contains(c) ==> hist.At(c) != lbl
    requires Closed(pix, hist)
    requires forall c :: hist.Contains(c) && c.x < seed.x && pix.At(c) == Ink ==> hist.At(c) != 0
    ensures Stamps(pix, hist, out, lbl)
    ensures out.At(seed) == lbl
    ensures Closed(pix, out)
    ensures box.x == seed.x && box.y <= seed.y
    ensures Boxed(out, box, lbl)
    ensures Connected(out, lbl, seed)
  {
    var start := Block(seed.x, seed.y, 1, 1, NoMarker);
    out := hist.Set(seed, lbl);
    box := Grow(start, seed);
    var stack := Pending(seed);
    ghost var last := seed;
    FillStarts(pix, hist, seed, lbl, out, box, stack);
    LinkStarts(hist, seed, lbl, out, box, stack);
    while |stack| > 0
      invariant Filling(pix, hist, seed, lbl, out, box, stack, last)
      invariant Linked(out, box, lbl, seed, stack)
      decreases Zeros(out), |stack|
    {
      var c := stack[|stack| - 1];
      LastSplit(stack);
      stack := stack[..|stack| - 1];
      // ccl.c:273-276: out of the line, already labelled, or background ends the branch
      if out.Contains(c) && out.At(c) == 0 && pix.At(c) != Background {
        StampShrinksZeros(out, c, lbl);
        FillStamps(pix, hist, seed, lbl, out, box, stack, last, c);
        LinkStamps(out, box, lbl, seed, stack, c);
        out := out.Set(c, lbl);
        box := Grow(box, c);
        stack := stack + Pending(c);
        last := c;
      } else {
        PopKeepsFrontier(pix, out, lbl, stack, c);
        PopKeepsReached(out, lbl, stack, c);
      }
    }
    FillEnds(pix, hist, seed, lbl, out, box, last);
  }

  lemma LastSplit(s: seq<Cell>)
    requires |s| > 0
    ensures s == s[..|s| - 1] + [s[|s| - 1]]
  {
  }

  /** With the stack empty the fill's invariant gives everything `Propagate` promises. */
  lemma FillEnds(pix: Grid<Pixel>, hist: Grid<int>, seed: Cell, lbl: int, out: Grid<int>, box: Block, last: Cell)
    requires CanFill(pix, hist, seed, lbl) && Closed(pix, hist)
    requires Filling(pix, hist, seed, lbl, out, box, [], last)
    requires Linked(out, box, lbl, seed, [])
    ensures Closed(pix, out)
    ensures Boxed(out, box, lbl)
    ensures Connected(out, lbl, seed)
  {
    FillCloses(pix, hist, out, lbl);
  }

  lemma FillStarts(pix: Grid<Pixel>, hist: Grid<int>, seed: Cell, lbl: int, out: Grid<int>, box: Block, stack: seq<Cell>)
    requires CanFill(pix, hist, seed, lbl)
    requires out == hist.Set(seed, lbl)
    requires box == Grow(Block(seed.x, seed.y, 1, 1, NoMarker), seed)
    requires stack == Pending(seed)
    ensures Filling(pix, hist, seed, lbl, out, box, stack, seed)
  {
    forall a, b | out.Contains(a) && out.Contains(b) && Adjacent(a, b) && out.At(a) == lbl && pix.At(b) == Ink
      ensures out.At(b) != 0 || b in stack
    {
      PendingCoversAdjacent(a, b);
    }
  }

  lemma LinkStarts(hist: Grid<int>, seed: Cell, lbl: int, out: Grid<int>, box: Block, stack: seq<Cell>)
    requires hist.Valid() && hist.Contains(seed) && forall c :: hist.Contains(c) ==> hist.At(c) != lbl
    requires out == hist.Set(seed, lbl)
    requires box == Grow(Block(seed.x, seed.y, 1, 1, NoMarker), seed)
    requires stack == Pending(seed)
    ensures Linked(out, box, lbl, seed, stack)
  {
    assert Tight(out, box, lbl) by {
      assert out.At(seed) == lbl;
    }
    forall c | out.Contains(c) && out.At(c) == lbl
      ensures Reaches(out, lbl, seed, c)
    {
      if c != seed {
        assert false;
      }
      assert Walk(out, lbl, [seed]);
    }
    PendingAdjacent(seed);
  }

  lemma PendingAdjacent(c: Cell)
    ensures forall s :: s in Pending(c) ==> Adjacent(c, s)
  {
  }

  lemma FillStamps(pix: Grid<Pixel>, hist: Grid<int>, seed: Cell, lbl: int,
                   out: Grid<int>, box: Block, rest: seq<Cell>, last: Cell, c: Cell)
    requires CanFill(pix, hist, seed, lbl)
    requires Filling(pix, hist, seed, lbl, out, box, rest + [c], last)
    requires out.Contains(c) && out.At(c) == 0 && pix.At(c) != Background
    ensures Filling(pix, hist, seed, lbl, out.Set(c, lbl), Grow(box, c), rest + Pending(c), c)
  {
    var out', box' := out.Set(c, lbl), Grow(box, c);
    assert hist.At(c) == 0;
    assert c.x >= seed.x;
    StampKeepsFrontier(pix, out, out', lbl, rest, c);
    forall d | out'.Contains(d) && out'.At(d) == lbl
      ensures box'.x <= d.x < box'.Right() && box'.y <= d.y
    {
      if d != c {
        assert out.At(d) == lbl;
      }
    }
  }

  lemma LinkStamps(out: Grid<int>, box: Block, lbl: int, seed: Cell, rest: seq<Cell>, c: Cell)
    requires Linked(out, box, lbl, seed, rest + [c])
    requires out.Contains(c) && out.At(c) == 0 && lbl != 0 && c.x >= box.x && box.height >= 1
    ensures Linked(out.Set(c, lbl), Grow(box, c), lbl, seed, rest + Pending(c))
  {
    StampKeepsConnected(out, lbl, seed, rest, c);
    StampKeepsTight(out, box, lbl, c);
  }

  /** Stamping a waiting cell extends a walk to it from the touching labelled cell. */
  lemma StampKeepsConnected(out: Grid<int>, lbl: int, seed: Cell, rest: seq<Cell>, c: Cell)
    requires Connected(out, lbl, seed) && Reached(out, lbl, rest + [c])
    requires out.Contains(c) && out.At(c) == 0 && lbl != 0
    ensures Connected(out.Set(c, lbl), lbl, seed)
    ensures Reached(out.Set(c, lbl), lbl, rest + Pending(c))
  {
    var out' := out.Set(c, lbl);
    assert Reaches(out', lbl, seed, c) by {
      assert c in rest + [c];
      WalkToStamped(out, lbl, seed, c);
    }
    forall d | out'.Contains(d) && out'.At(d) == lbl && d != c
      ensures Reaches(out', lbl, seed, d)
    {
      WalkKept(out, lbl, seed, c, d);
    }
    StampKeepsReached(out, lbl, rest, c);
  }

  lemma WalkToStamped(out: Grid<int>, lbl: int, seed: Cell, c: Cell)
    requires Connected(out, lbl, seed) && out.Contains(c) && out.At(c) == 0 && lbl != 0
    requires exists e :: out.Contains(e) && out.At(e) == lbl && Adjacent(e, c)
    ensures Reaches(out.Set(c, lbl), lbl, seed, c)
  {
    var e :| out.Contains(e) && out.At(e) == lbl && Adjacent(e, c);
    assert Reaches(out, lbl, seed, e);
    var p :| Walk(out, lbl, p) && p[0] == seed && p[|p| - 1] == e;
    WalkSurvives(out, c, lbl, lbl, p);
    WalkExtends(out.Set(c, lbl), lbl, p, c);
  }

  lemma WalkKept(out: Grid<int>, lbl: int, seed: Cell, c: Cell, d: Cell)
    requires Connected(out, lbl, seed) && out.Contains(c) && out.At(c) == 0 && lbl != 0
    requires out.Contains(d) && d != c && out.Set(c, lbl).At(d) == lbl
    ensures Reaches(out.Set(c, lbl), lbl, seed, d)
  {
    assert out.At(d) == lbl;
    assert Reaches(out, lbl, seed, d);
    var p :| Walk(out, lbl, p) && p[0] == seed && p[|p| - 1] == d;
    WalkSurvives(out, c, lbl, lbl, p);
  }

  lemma StampKeepsReached(out: Grid<int>, lbl: int, rest: seq<Cell>, c: Cell)
    requires Reached(out, lbl, rest + [c]) && out.Contains(c) && out.At(c) == 0 && lbl != 0
    ensures Reached(out.Set(c, lbl), lbl, rest + Pending(c))
  {
    var out' := out.Set(c, lbl);
    PendingAdjacent(c);
    forall s | s in rest + Pending(c)
      ensures exists d :: out'.Contains(d) && out'.At(d) == lbl && Adjacent(d, s)
    {
      if s in rest {
        assert s in rest + [c];
        var e :| out.Contains(e) && out.At(e) == lbl && Adjacent(e, s);
        assert out'.At(e) == lbl;
      } else {
        assert out'.At(c) == lbl && Adjacent(c, s);
      }
    }
  }

  /** Stamping an unlabelled cell leaves every walk through another label intact. */
  lemma WalkSurvives(hist: Grid<int>, c: Cell, lbl: int, k: int, p: seq<Cell>)
    requires Walk(hist, k, p) && hist.Contains(c) && hist.At(c) == 0 && k != 0
    ensures Walk(hist.Set(c, lbl), k, p)
  {
    var h' := hist.Set(c, lbl);
    forall i | 0 <= i < |p|
      ensures h'.Contains(p[i]) && h'.At(p[i]) == k
    {
      assert p[i] != c;
    }
  }

  /** A walk extends by one touching cell of the same label. */
  lemma WalkExtends(hist: Grid<int>, lbl: int, p: seq<Cell>, c: Cell)
    requires Walk(hist, lbl, p) && hist.Contains(c) && hist.At(c) == lbl && Adjacent(p[|p| - 1], c)
    ensures Walk(hist, lbl, p + [c]) && (p + [c])[0] == p[0] && (p + [c])[|p|] == c
  {
    var q := p + [c];
    forall i | 0 <= i < |q| - 1
      ensures Adjacent(q[i], q[i + 1])
    {
      if i < |p| - 1 {
        assert q[i] == p[i] && q[i + 1] == p[i + 1];
      }
    }
  }

  /** Growing the box around a newly stamped cell keeps it tight. */
  lemma StampKeepsTight(out: Grid<int>, box: Block, lbl: int, c: Cell)
    requires Tight(out, box, lbl) && out.Contains(c) && out.At(c) == 0 && lbl != 0 && c.x >= box.x && box.height >= 1
    ensures Tight(out.Set(c, lbl), Grow(box, c), lbl)
  {
    var out', box' := out.Set(c, lbl), Grow(box, c);
    var l :| out.Contains(l) && out.At(l) == lbl && l.x == box.x;
    var r :| out.Contains(r) && out.At(r) == lbl && r.x == box.Right() - 1;
    var t :| out.Contains(t) && out.At(t) == lbl && t.y == box.y;
    assert out'.At(l) == lbl && out'.At(r) == lbl && out'.At(t) == lbl && out'.At(c) == lbl;
    StampKeepsLow(out, box, lbl, c);
    if c.x >= box.Right() {
      assert c.x == box'.Right() - 1;
    } else {
      assert r.x == box'.Right() - 1;
    }
    if c.y < box.y {
      assert c.y == box'.y;
    } else {
      assert t.y == box'.y;
    }
  }

  /** Growing the box around a newly stamped cell keeps a cell of the label on or below its last row. */
  lemma StampKeepsLow(out: Grid<int>, box: Block, lbl: int, c: Cell)
    requires out.Valid() && out.Contains(c) && out.At(c) == 0 && box.height >= 1
    requires exists d :: out.Contains(d) && out.At(d) == lbl && d.y >= box.Bottom() - 1
    ensures exists d :: out.Set(c, lbl).Contains(d) && out.Set(c, lbl).At(d) == lbl && d.y >= Grow(box, c).Bottom() - 1
  {
    var out', box' := out.Set(c, lbl), Grow(box, c);
    var d :| out.Contains(d) && out.At(d) == lbl && d.y >= box.Bottom() - 1;
    GrowBottom(box, c);
    if c.y + 1 >= box.Bottom() {
      assert out'.At(c) == lbl && c.y >= box'.Bottom() - 1;
    } else {
      assert d != c && out'.At(d) == lbl && d.y >= box'.Bottom() - 1;
    }
  }

  lemma StampKeepsFrontier(pix: Grid<Pixel>, before: Grid<int>, after: Grid<int>, lbl: int, rest: seq<Cell>, c: Cell)
    requires Frontier(pix, before, lbl, rest + [c])
    requires before.Contains(c) && lbl != 0
    requires after == before.Set(c, lbl)
    ensures Frontier(pix, after, lbl, rest + Pending(c))
  {
    forall a, b | after.Contains(a) && after.Contains(b) && Adjacent(a, b) && after.At(a) == lbl && pix.At(b) == Ink
      ensures after.At(b) != 0 || b in rest + Pending(c)
    {
      if a == c {
        PendingCoversAdjacent(a, b);
      } else if b != c {
        assert before.At(a) == lbl;
        assert before.At(b) != 0 || b in rest + [c];
      }
    }
  }

  lemma PopKeepsFrontier(pix: Grid<Pixel>, hist: Grid<int>, lbl: int, rest: seq<Cell>, c: Cell)
    requires Frontier(pix, hist, lbl, rest + [c])
    requires !(hist.Contains(c) && hist.At(c) == 0 && pix.At(c) != Background)
    ensures Frontier(pix, hist, lbl, rest)
  {
    forall a, b | hist.Contains(a) && hist.Contains(b) && Adjacent(a, b) && hist.At(a) == lbl && pix.At(b) == Ink
      ensures hist.At(b) != 0 || b in rest
    {
      assert hist.At(b) != 0 || b in rest + [c];
    }
  }

  lemma PopKeepsReached(out: Grid<int>, lbl: int, rest: seq<Cell>, c: Cell)
    requires Reached(out, lbl, rest + [c])
    ensures Reached(out, lbl, rest)
  {
    forall s | s in rest
      ensures exists d :: out.Contains(d) && out.At(d) == lbl && Adjacent(d, s)
    {
      assert s in rest + [c];
    }
  }

  /** A finished fill (empty stack) keeps every label closed under ink adjacency. */
  lemma FillCloses(pix: Grid<Pixel>, hist: Grid<int>, out: Grid<int>, lbl: int)
    requires Closed(pix, hist)
    requires Stamps(pix, hist, out, lbl)
    requires Frontier(pix, out, lbl, [])
    requires lbl != 0 && forall c :: hist.Contains(c) ==> hist.At(c) != lbl
    ensures Closed(pix, out)
  {
    forall a, b | out.Contains(a) && out.Contains(b) && Adjacent(a, b) && out.At(a) != 0 && pix.At(b) == Ink
      ensures out.At(b) == out.At(a)
    {
      if out.At(a) == lbl {
        assert hist.At(a) == 0 && pix.At(a) == Ink;
        assert out.At(b) != 0;
        if out.At(b) != lbl {
          assert Adjacent(b, a);
          assert false;
        }
      } else {
        assert hist.At(a) == out.At(a);
        assert hist.At(b) == hist.At(a);
      }
    }
  }

  /** Column-major scan order of `create_hist` (x outer, y inner). */
  predicate Before(a: Cell, b: Cell)
  {
    a.x < b.x || (a.x == b.x && a.y < b.y)
  }

  /** The state of `create_hist`'s scan once every cell before `pos` has been visited. */
  ghost predicate Scanned(pix: Grid<Pixel>, hist: Grid<int>, blocks: seq<Block>, seeds: seq<Cell>, pos: Cell)
  {
    && Layered(pix, hist)
    && Ranged(pix, hist, |blocks|)
    && Swept(pix, hist, pos)
    && Closed(pix, hist)
    && Seeded(hist, seeds)
    && Rooted(hist, seeds)
    && SeedsBefore(seeds, pos)
    && BoxesAt(hist, blocks, seeds)
  }

  /** Labels stay within 1..n and background stays unlabelled. */
  ghost predicate Ranged(pix: Grid<Pixel>, hist: Grid<int>, n: int)
  {
    && Layered(pix, hist)
    && (forall c :: hist.Contains(c) ==> 0 <= hist.At(c) <= n)
    && (forall c :: hist.Contains(c) && pix.At(c) == Background ==> hist.At(c) == 0)
  }

  /** Every ink pixel the scan has passed is labelled. */
  ghost predicate Swept(pix: Grid<Pixel>, hist: Grid<int>, pos: Cell)
  {
    Layered(pix, hist) &&
    forall c :: hist.Contains(c) && Before(c, pos) && pix.At(c) == Ink ==> hist.At(c) != 0
  }

  predicate SeedsBefore(seeds: seq<Cell>, pos: Cell)
  {
    forall k :: 0 <= k < |seeds| ==> Before(seeds[k], pos)
  }

  /** Block `k` boxes label `k + 1` and starts at the column of its seed, not below it. */
  ghost predicate BoxesAt(hist: Grid<int>, blocks: seq<Block>, seeds: seq<Cell>)
  {
    |seeds| == |blocks| &&
    forall k :: 0 <= k < |blocks| ==> Boxed(hist, blocks[k], k + 1) && blocks[k].x == seeds[k].x && blocks[k].y <= seeds[k].y
  }

  /**
   * Label `k + 1` was handed out at `seeds[k]`: the seeds come in scan order,
   * and no cell of a component comes before its seed.
   */
  ghost predicate Seeded(hist: Grid<int>, seeds: seq<Cell>)
  {
    && hist.Valid()
    && (forall k :: 0 <= k < |seeds| ==> hist.Contains(seeds[k]) && hist.At(seeds[k]) == k + 1)
    && (forall i, j :: 0 <= i < j < |seeds| ==> Before(seeds[i], seeds[j]))
    && (forall k, c :: 0 <= k < |seeds| && hist.Contains(c) && hist.At(c) == k + 1 ==> !Before(c, seeds[k]))
  }

  /** Every component reaches out from the seed where its label was handed out. */
  ghost predicate Rooted(hist: Grid<int>, seeds: seq<Cell>)
  {
    forall k :: 0 <= k < |seeds| ==> Connected(hist, k + 1, seeds[k])
  }

  /** A fill that stamps only label `lbl` leaves the box of any other label as it was. */
  lemma StampsKeepBoxed(pix: Grid<Pixel>, hist: Grid<int>, out: Grid<int>, lbl: int, b: Block, k: int)
    requires Stamps(pix, hist, out, lbl) && Boxed(hist, b, k) && k != lbl && k != 0
    ensures Boxed(out, b, k)
  {
    var w :| hist.Valid() && hist.Contains(w) && b.Covers(w) && hist.At(w) == k;
    assert out.At(w) == k;
    forall c | out.Contains(c) && out.At(c) == k
      ensures b.x <= c.x < b.Right() && b.y <= c.y
    {
      assert hist.At(c) == k;
    }
    var l :| hist.Contains(l) && hist.At(l) == k && l.x == b.x;
    var r :| hist.Contains(r) && hist.At(r) == k && r.x == b.Right() - 1;
    var t :| hist.Contains(t) && hist.At(t) == k && t.y == b.y;
    assert out.At(l) == k && out.At(r) == k && out.At(t) == k;
  }

  /** A fill that stamps only label `lbl` leaves the walks of any other label as they were. */
  lemma StampsKeepConnected(pix: Grid<Pixel>, hist: Grid<int>, out: Grid<int>, lbl: int, k: int, root: Cell)
    requires Stamps(pix, hist, out, lbl) && Connected(hist, k, root) && k != lbl && k != 0
    ensures Connected(out, k, root)
  {
    assert out.At(root) == k;
    forall c | out.Contains(c) && out.At(c) == k
      ensures Reaches(out, k, root, c)
    {
      assert hist.At(c) == k;
      assert Reaches(hist, k, root, c);
      var p :| Walk(hist, k, p) && p[0] == root && p[|p| - 1] == c;
      StampsKeepWalk(pix, hist, out, lbl, k, p);
    }
  }

  lemma StampsKeepWalk(pix: Grid<Pixel>, hist: Grid<int>, out: Grid<int>, lbl: int, k: int, p: seq<Cell>)
    requires Stamps(pix, hist, out, lbl) && Walk(hist, k, p) && k != lbl && k != 0
    ensures Walk(out, k, p)
  {
    forall i | 0 <= i < |p|
      ensures out.Contains(p[i]) && out.At(p[i]) == k
    {
      assert hist.Contains(p[i]) && hist.At(p[i]) == k;
    }
  }

  /** The fill's label joins the seed order: its seed comes last and none of its cells precedes it. */
  lemma FillSeeded(pix: Grid<Pixel>, hist: Grid<int>, out: Grid<int>, seeds: seq<Cell>, pos: Cell)
    requires Stamps(pix, hist, out, |seeds| + 1) && hist.Contains(pos) && out.At(pos) == |seeds| + 1
    requires Seeded(hist, seeds) && (forall k :: 0 <= k < |seeds| ==> Before(seeds[k], pos))
    requires forall c :: hist.Contains(c) ==> 0 <= hist.At(c) <= |seeds|
    requires forall c :: hist.Contains(c) && Before(c, pos) && pix.At(c) == Ink ==> hist.At(c) != 0
    ensures Seeded(out, seeds + [pos])
  {
    var seeds' := seeds + [pos];
    forall k | 0 <= k < |seeds'|
      ensures out.Contains(seeds'[k]) && out.At(seeds'[k]) == k + 1
    {
      if k < |seeds| {
        assert hist.At(seeds[k]) == k + 1;
      }
    }
    forall k, c | 0 <= k < |seeds'| && out.Contains(c) && out.At(c) == k + 1
      ensures !Before(c, seeds'[k])
    {
      if k < |seeds| {
        assert hist.At(c) == k + 1;
      } else {
        assert hist.At(c) == 0;
      }
    }
  }

  /** Earlier components stay connected, and the fill's component joins them. */
  lemma FillRooted(pix: Grid<Pixel>, hist: Grid<int>, out: Grid<int>, seeds: seq<Cell>, pos: Cell)
    requires Stamps(pix, hist, out, |seeds| + 1) && Rooted(hist, seeds)
    requires Connected(out, |seeds| + 1, pos)
    ensures Rooted(out, seeds + [pos])
  {
    var seeds' := seeds + [pos];
    forall k | 0 <= k < |seeds'|
      ensures Connected(out, k + 1, seeds'[k])
    {
      if k < |seeds| {
        StampsKeepConnected(pix, hist, out, |seeds| + 1, k + 1, seeds[k]);
      }
    }
  }

  /** Earlier boxes survive the fill, and the fill's box joins them. */
  lemma FillBoxed(pix: Grid<Pixel>, hist: Grid<int>, out: Grid<int>, blocks: seq<Block>, seeds: seq<Cell>, pos: Cell, box: Block)
    requires Stamps(pix, hist, out, |blocks| + 1) && BoxesAt(hist, blocks, seeds)
    requires box.x == pos.x && box.y <= pos.y && Boxed(out, box, |blocks| + 1)
    ensures BoxesAt(out, blocks + [box], seeds + [pos])
  {
    var blocks', seeds' := blocks + [box], seeds + [pos];
    forall k | 0 <= k < |blocks'|
      ensures Boxed(out, blocks'[k], k + 1) && blocks'[k].x == seeds'[k].x && blocks'[k].y <= seeds'[k].y
    {
      if k < |blocks| {
        StampsKeepBoxed(pix, hist, out, |blocks| + 1, blocks[k], k + 1);
      }
    }
  }

  lemma ScanAfterFill(pix: Grid<Pixel>, hist: Grid<int>, out: Grid<int>, blocks: seq<Block>, seeds: seq<Cell>, pos: Cell, box: Block)
    requires Scanned(pix, hist, blocks, seeds, pos)
    requires hist.Contains(pos) && hist.At(pos) == 0 && pix.At(pos) == Ink
    requires Stamps(pix, hist, out, |blocks| + 1) && out.At(pos) == |blocks| + 1 && Closed(pix, out)
    requires box.x == pos.x && box.y <= pos.y && Boxed(out, box, |blocks| + 1)
    requires Connected(out, |blocks| + 1, pos)
    ensures Scanned(pix, out, blocks + [box], seeds + [pos], Cell(pos.x, pos.y + 1))
  {
    FillSwept(pix, hist, out, |blocks| + 1, pos);
    FillRanged(pix, hist, out, |blocks|);
    SeedsBeforeNext(seeds, pos);
    FillSeeded(pix, hist, out, seeds, pos);
    FillRooted(pix, hist, out, seeds, pos);
    FillBoxed(pix, hist, out, blocks, seeds, pos, box);
  }

  lemma FillSwept(pix: Grid<Pixel>, hist: Grid<int>, out: Grid<int>, lbl: int, pos: Cell)
    requires Swept(pix, hist, pos) && Stamps(pix, hist, out, lbl)
    requires hist.Contains(pos) && out.At(pos) != 0
    ensures Swept(pix, out, Cell(pos.x, pos.y + 1))
  {
    forall c | out.Contains(c) && Before(c, Cell(pos.x, pos.y + 1)) && pix.At(c) == Ink
      ensures out.At(c) != 0
    {
      if c != pos {
        assert Before(c, pos);
      }
    }
  }

  lemma FillRanged(pix: Grid<Pixel>, hist: Grid<int>, out: Grid<int>, n: int)
    requires Ranged(pix, hist, n) && Stamps(pix, hist, out, n + 1) && n >= 0
    ensures Ranged(pix, out, n + 1)
  {
    forall c | out.Contains(c)
      ensures 0 <= out.At(c) <= n + 1
    {
      assert hist.Contains(c);
    }
  }

  lemma SeedsBeforeNext(seeds: seq<Cell>, pos: Cell)
    requires SeedsBefore(seeds, pos)
    ensures SeedsBefore(seeds + [pos], Cell(pos.x, pos.y + 1))
  {
    forall k | 0 <= k < |seeds| + 1
      ensures Before((seeds + [pos])[k], Cell(pos.x, pos.y + 1))
    {
      if k < |seeds| {
        assert Before(seeds[k], pos);
      }
    }
  }

  lemma ScanSkip(pix: Grid<Pixel>, hist: Grid<int>, blocks: seq<Block>, seeds: seq<Cell>, pos: Cell)
    requires Scanned(pix, hist, blocks, seeds, pos)
    requires hist.Contains(pos) && !(hist.At(pos) == 0 && pix.At(pos) == Ink)
    ensures Scanned(pix, hist, blocks, seeds, Cell(pos.x, pos.y + 1))
  {
    forall c | hist.Contains(c) && Before(c, Cell(pos.x, pos.y + 1)) && pix.At(c) == Ink
      ensures hist.At(c) != 0
    {
      if c != pos {
        assert Before(c, pos);
      }
    }
  }

  lemma ScanNextColumn(pix: Grid<Pixel>, hist: Grid<int>, blocks: seq<Block>, seeds: seq<Cell>, x: int)
    requires Scanned(pix, hist, blocks, seeds, Cell(x, hist.height))
    ensures Scanned(pix, hist, blocks, seeds, Cell(x + 1, 0))
  {
    forall c | hist.Contains(c) && Before(c, Cell(x + 1, 0)) && pix.At(c) == Ink
      ensures hist.At(c) != 0
    {
      assert Before(c, Cell(x, hist.height));
    }
    forall k | 0 <= k < |seeds|
      ensures Before(seeds[k], Cell(x + 1, 0))
    {
      assert Before(seeds[k], Cell(x, hist.height));
    }
  }

  lemma ScanStarts(pix: Grid<Pixel>, zeroed: Grid<int>)
    requires Layered(pix, zeroed) && forall c :: zeroed.Contains(c) ==> zeroed.At(c) == 0
    ensures Scanned(pix, zeroed, [], [], Cell(0, 0))
  {
  }

  /** A scan state at an unlabelled ink pixel meets every precondition of `Propagate`. */
  lemma ScanCanFill(pix: Grid<Pixel>, hist: Grid<int>, blocks: seq<Block>, seeds: seq<Cell>, pos: Cell)
    requires Scanned(pix, hist, blocks, seeds, pos)
    requires hist.Contains(pos) && hist.At(pos) == 0 && pix.At(pos) == Ink
    ensures Closed(pix, hist)
    ensures forall c :: hist.Contains(c) ==> hist.At(c) != |blocks| + 1
    ensures forall c :: hist.Contains(c) && c.x < pos.x && pix.At(c) == Ink ==> hist.At(c) != 0
  {
    forall c | hist.Contains(c) && c.x < pos.x && pix.At(c) == Ink
      ensures hist.At(c) != 0
    {
      assert Before(c, pos);
    }
  }

  /**
   * What `create_hist` returns: every ink pixel labelled 1..N and every
   * background pixel 0, components closed, block `k` boxed around label
   * `k + 1`, and left edges in scan order.
   */
  ghost predicate Labelled(pix: Grid<Pixel>, hist: Grid<int>, blocks: seq<Block>)
  {
    && Layered(pix, hist)
    && (forall c :: hist.Contains(c) && pix.At(c) == Ink ==> 1 <= hist.At(c) <= |blocks|)
    && (forall c :: hist.Contains(c) && pix.At(c) == Background ==> hist.At(c) == 0)
    && Closed(pix, hist)
    && (forall k :: 0 <= k < |blocks| ==> Boxed(hist, blocks[k], k + 1) && Component(hist, k + 1))
    && (forall i, j :: 0 <= i < j < |blocks| ==> blocks[i].x <= blocks[j].x)
  }

  /** A path from pixel to touching pixel through ink. */
  ghost predicate InkPath(pix: Grid<Pixel>, p: seq<Cell>)
  {
    && pix.Valid() && |p| >= 1
    && (forall i :: 0 <= i < |p| ==> pix.Contains(p[i]) && pix.At(p[i]) == Ink)
    && (forall i, j :: 0 <= i < j < |p| && j == i + 1 ==> Adjacent(p[i], p[j]))
  }

  /** A closed labelling gives every pixel of a path through ink the label of its first pixel. */
  lemma {:induction false} InkPathKeepsLabel(pix: Grid<Pixel>, hist: Grid<int>, p: seq<Cell>)
    requires Closed(pix, hist) && InkPath(pix, p) && hist.At(p[0]) != 0
    ensures forall i :: 0 <= i < |p| ==> hist.At(p[i]) == hist.At(p[0])
    decreases |p|
  {
    if |p| > 1 {
      var q := p[..|p| - 1];
      assert InkPath(pix, q) by {
        forall i | 0 <= i < |q| - 1
          ensures Adjacent(q[i], q[i + 1])
        {
          assert q[i] == p[i] && q[i + 1] == p[i + 1];
        }
      }
      InkPathKeepsLabel(pix, hist, q);
      var n := |p| - 1;
      assert Adjacent(p[n - 1], p[n]) && hist.At(p[n - 1]) == hist.At(p[0]) by {
        assert q[n - 1] == p[n - 1];
      }
      forall i | 0 <= i < |p|
        ensures hist.At(p[i]) == hist.At(p[0])
      {
        if i < n {
          assert q[i] == p[i];
        }
      }
    }
  }

  /**
   * In what `create_hist` returns, pixels joined through ink share a label;
   * with `Component`, each label is exactly one 8-connected ink component.
   */
  lemma SameComponentSameLabel(pix: Grid<Pixel>, hist: Grid<int>, blocks: seq<Block>, p: seq<Cell>)
    requires Labelled(pix, hist, blocks) && InkPath(pix, p)
    ensures hist.At(p[0]) == hist.At(p[|p| - 1])
  {
    assert hist.At(p[0]) != 0;
    InkPathKeepsLabel(pix, hist, p);
  }

  lemma LabelledRanged(pix: Grid<Pixel>, hist: Grid<int>, blocks: seq<Block>)
    requires Labelled(pix, hist, blocks)
    ensures Ranged(pix, hist, |blocks|)
  {
  }

  /** Each ink pixel's label is one of the components. */
  lemma LabelledComponent(pix: Grid<Pixel>, hist: Grid<int>, blocks: seq<Block>, c: Cell)
    requires Labelled(pix, hist, blocks) && hist.Contains(c) && pix.At(c) == Ink
    ensures hist.At(c) != 0 && Component(hist, hist.At(c))
  {
    var k := hist.At(c) - 1;
    assert Boxed(hist, blocks[k], k + 1);
  }

  /** One row of three pixels: ink, background, ink. */
  ghost predicate TwoDots(pix: Grid<Pixel>)
  {
    && pix.Valid() && pix.width == 3 && pix.height == 1
    && pix.At(Cell(0, 0)) == Ink && pix.At(Cell(1, 0)) == Background && pix.At(Cell(2, 0)) == Ink
  }

  /** A walk through cells labelled `k` never crosses a column that holds no such cell. */
  lemma {:induction false} WalkStaysOnSide(hist: Grid<int>, k: int, p: seq<Cell>, wall: int)
    requires Walk(hist, k, p)
    requires forall c :: hist.Contains(c) && hist.At(c) == k ==> c.x != wall
    ensures (p[0].x < wall) == (p[|p| - 1].x < wall)
    decreases |p|
  {
    if |p| > 1 {
      var q := p[..|p| - 1];
      assert Walk(hist, k, q) by {
        forall i, j | 0 <= i < j < |q| && j == i + 1
          ensures Adjacent(q[i], q[j])
        {
          assert q[i] == p[i] && q[j] == p[j];
        }
      }
      WalkStaysOnSide(hist, k, q, wall);
      var n := |p| - 1;
      assert q[0] == p[0] && q[n - 1] == p[n - 1];
      assert Adjacent(p[n - 1], p[n]);
    }
  }

  /** In `TwoDots` the middle column holds no label. */
  lemma TwoDotsWall(pix: Grid<Pixel>, hist: Grid<int>, n: int)
    requires TwoDots(pix) && Ranged(pix, hist, n)
    ensures forall c :: hist.Contains(c) && hist.At(c) != 0 ==> c.x != 1
    ensures hist.Contains(Cell(0, 0)) && hist.Contains(Cell(2, 0))
  {
  }

  lemma TwoDotsApart(hist: Grid<int>, k: int, root: Cell)
    requires Connected(hist, k, root) && k != 0
    requires forall c :: hist.Contains(c) && hist.At(c) != 0 ==> c.x != 1
    requires hist.Contains(Cell(0, 0)) && hist.At(Cell(0, 0)) == k && hist.Contains(Cell(2, 0))
    ensures hist.At(Cell(2, 0)) != k
  {
    assert Reaches(hist, k, root, Cell(0, 0));
    var p :| Walk(hist, k, p) && p[0] == root && p[|p| - 1] == Cell(0, 0);
    WalkStaysOnSide(hist, k, p, 1);
    if hist.At(Cell(2, 0)) == k {
      assert Reaches(hist, k, root, Cell(2, 0));
      var q :| Walk(hist, k, q) && q[0] == root && q[|q| - 1] == Cell(2, 0);
      WalkStaysOnSide(hist, k, q, 1);
      assert false;
    }
  }

  /**
   * A fill from the left pixel of `TwoDots` that meets `Propagate`'s contract
   * does not stamp the right pixel.
   */
  lemma FillSkipsOtherDot(pix: Grid<Pixel>, hist: Grid<int>, out: Grid<int>)
    requires TwoDots(pix) && Layered(pix, hist) && forall c :: hist.Contains(c) ==> hist.At(c) == 0
    requires Stamps(pix, hist, out, 1) && Connected(out, 1, Cell(0, 0))
    ensures out.Contains(Cell(2, 0)) && out.At(Cell(2, 0)) != 1
  {
    assert forall c :: out.Contains(c) && out.At(c) != 0 ==> c.x != 1;
    TwoDotsApart(out, 1, Cell(0, 0));
  }

  /**
   * The two ink pixels of `TwoDots` are not 8-connected, so any labelling
   * `create_hist` can return gives them different labels.
   */
  lemma TwoDotsTwoLabels(pix: Grid<Pixel>, hist: Grid<int>, blocks: seq<Block>)
    requires TwoDots(pix) && Labelled(pix, hist, blocks)
    ensures hist.Valid() && hist.Contains(Cell(0, 0)) && hist.Contains(Cell(2, 0))
    ensures hist.At(Cell(0, 0)) != hist.At(Cell(2, 0))
  {
    LabelledRanged(pix, hist, blocks);
    TwoDotsWall(pix, hist, |blocks|);
    LabelledComponent(pix, hist, blocks, Cell(0, 0));
    var k := hist.At(Cell(0, 0));
    var root :| Connected(hist, k, root);
    TwoDotsApart(hist, k, root);
  }

  /** One column of two pixels: ink above background. */
  ghost predicate InkOverBackground(pix: Grid<Pixel>)
  {
    pix == Grid(1, 2, [Ink, Background])
  }

  /**
   * For `InkOverBackground`, any labelling `create_hist` can return has one
   * block, and it is the 1×1 box of the ink pixel: the box ends on the last
   * row that holds its label.
   */
  lemma LoneDotBox(pix: Grid<Pixel>, hist: Grid<int>, blocks: seq<Block>)
    requires InkOverBackground(pix) && Labelled(pix, hist, blocks)
    ensures blocks == [Block(0, 0, 1, 1, NoMarker)]
  {
    DotLabelled(pix, hist, blocks);
    LabelledBox(pix, hist, blocks, 0);
    DotBox(hist.cells, blocks[0]);
    if |blocks| > 1 {
      LabelledBox(pix, hist, blocks, 1);
      DotAlone(hist.cells, blocks[1]);
    }
  }

  lemma LabelledBox(pix: Grid<Pixel>, hist: Grid<int>, blocks: seq<Block>, k: int)
    requires Labelled(pix, hist, blocks) && 0 <= k < |blocks|
    ensures Boxed(hist, blocks[k], k + 1)
  {
  }

  /**
   * A labelling of `InkOverBackground` is a column of two cells with the
   * bottom one unlabelled, and it has at least one block.
   */
  lemma DotLabelled(pix: Grid<Pixel>, hist: Grid<int>, blocks: seq<Block>)
    requires InkOverBackground(pix) && Labelled(pix, hist, blocks)
    ensures hist == Grid(1, 2, hist.cells) && |hist.cells| == 2
    ensures hist.cells[1] == 0 && |blocks| >= 1
  {
    LabelledRanged(pix, hist, blocks);
    DotRanged(pix, hist, |blocks|);
    LabelledInk(pix, hist, blocks, Cell(0, 0));
  }

  /** The histogram of `InkOverBackground` is a column of two cells, the bottom one unlabelled. */
  lemma DotRanged(pix: Grid<Pixel>, hist: Grid<int>, n: int)
    requires InkOverBackground(pix) && Ranged(pix, hist, n)
    ensures hist == Grid(1, 2, hist.cells) && |hist.cells| == 2
    ensures hist.cells[1] == 0
  {
    assert hist.Contains(Cell(0, 1)) && pix.At(Cell(0, 1)) == Background;
    assert hist.At(Cell(0, 1)) == hist.cells[1];
  }

  /** A labelling with an ink pixel has at least one block. */
  lemma LabelledInk(pix: Grid<Pixel>, hist: Grid<int>, blocks: seq<Block>, c: Cell)
    requires Labelled(pix, hist, blocks) && hist.Contains(c) && pix.At(c) == Ink
    ensures |blocks| >= 1
  {
    assert 1 <= hist.At(c) <= |blocks|;
  }

  /** In that column, only the top cell can carry a label. */
  lemma TopOnly(cells: seq<int>, e: Cell)
    requires |cells| == 2 && cells[1] == 0
    requires Grid(1, 2, cells).Contains(e) && Grid(1, 2, cells).At(e) != 0
    ensures e == Cell(0, 0)
  {
  }

  /** The box of the top cell's label is that cell alone: tight on all four sides. */
  lemma DotBox(cells: seq<int>, b: Block)
    requires |cells| == 2 && cells[1] == 0 && Boxed(Grid(1, 2, cells), b, 1)
    ensures b == Block(0, 0, 1, 1, NoMarker) && cells[0] == 1
  {
    var hist := Grid(1, 2, cells);
    var l :| hist.Contains(l) && hist.At(l) == 1 && l.x == b.x;
    var r :| hist.Contains(r) && hist.At(r) == 1 && r.x == b.Right() - 1;
    var t :| hist.Contains(t) && hist.At(t) == 1 && t.y == b.y;
    var d :| hist.Contains(d) && hist.At(d) == 1 && d.y >= b.Bottom() - 1;
    TopOnly(cells, l);
    TopOnly(cells, r);
    TopOnly(cells, t);
    TopOnly(cells, d);
  }

  /** With the top cell labelled 1, no box holds a cell labelled 2. */
  lemma DotAlone(cells: seq<int>, b: Block)
    requires |cells| == 2 && cells[1] == 0 && cells[0] == 1
    ensures !Boxed(Grid(1, 2, cells), b, 2)
  {
    if Boxed(Grid(1, 2, cells), b, 2) {
      var hist := Grid(1, 2, cells);
      var e :| hist.Contains(e) && hist.At(e) == 2 && e.x == b.x;
      TopOnly(cells, e);
    }
  }

  /** Block `k` starts at the column of `seeds[k]`, where label `k + 1` was handed out, and not below it. */
  ghost predicate SeedsOf(hist: Grid<int>, blocks: seq<Block>, seeds: seq<Cell>)
  {
    && |blocks| == |seeds|
    && Seeded(hist, seeds)
    && (forall k :: 0 <= k < |blocks| ==> blocks[k].x == seeds[k].x && blocks[k].y <= seeds[k].y)
  }

  lemma ScanFinishes(pix: Grid<Pixel>, hist: Grid<int>, blocks: seq<Block>, seeds: seq<Cell>)
    requires Scanned(pix, hist, blocks, seeds, Cell(hist.width, 0))
    ensures Labelled(pix, hist, blocks) && SeedsOf(hist, blocks, seeds)
  {
    assert Rooted(hist, seeds);
    forall c | hist.Contains(c) && pix.At(c) == Ink
      ensures 1 <= hist.At(c) <= |blocks|
    {
      assert Before(c, Cell(hist.width, 0));
    }
    forall i, j | 0 <= i < j < |blocks|
      ensures blocks[i].x <= blocks[j].x
    {
      assert Before(seeds[i], seeds[j]);
    }
    forall k | 0 <= k < |blocks|
      ensures Connected(hist, k + 1, seeds[k]) && Component(hist, k + 1)
    {
      assert Connected(hist, k + 1, seeds[k]);
    }
  }

  /**
   * `create_hist` (ccl.c:239-265): scan the line column by column and start a
   * fill with the next label at every unlabelled ink pixel. `seeds` records,
   * for the proof only, where each label was handed out.
   */
  method CreateHist(pix: Grid<Pixel>, zeroed: Grid<int>) returns (hist: Grid<int>, blocks: seq<Block>, ghost seeds: seq<Cell>)
    requires Layered(pix, zeroed) && forall c :: zeroed.Contains(c) ==> zeroed.At(c) == 0
    ensures Labelled(pix, hist, blocks)
    ensures SeedsOf(hist, blocks, seeds)
  {
    hist := zeroed;
    blocks := [];
    seeds := [];
    var x := 0;
    ScanStarts(pix, zeroed);
    while x < pix.width
      invariant 0 <= x <= pix.width
      invariant Scanned(pix, hist, blocks, seeds, Cell(x, 0))
    {
      var y := 0;
      while y < pix.height
        invariant 0 <= y <= pix.height
        invariant Scanned(pix, hist, blocks, seeds, Cell(x, y))
      {
        hist, blocks, seeds := ScanCell(pix, hist, blocks, seeds, Cell(x, y));
        y := y + 1;
      }
      ScanNextColumn(pix, hist, blocks, seeds, x);
      x := x + 1;
    }
    ScanFinishes(pix, hist, blocks, seeds);
  }

  /** The body of `create_hist`'s inner loop: start a new component at an unlabelled ink pixel. */
  method ScanCell(pix: Grid<Pixel>, hist: Grid<int>, blocks: seq<Block>, ghost seeds: seq<Cell>, c: Cell)
    returns (hist': Grid<int>, blocks': seq<Block>, ghost seeds': seq<Cell>)
    requires Scanned(pix, hist, blocks, seeds, c) && hist.Contains(c)
    ensures Scanned(pix, hist', blocks', seeds', Cell(c.x, c.y + 1))
    ensures hist'.Contains(c) && (hist'.At(c) != 0 <==> pix.At(c) == Ink)
    ensures |blocks| <= |blocks'| && blocks'[..|blocks|] == blocks
    ensures |blocks'| == |blocks| + 1 <==> hist.At(c) == 0 && pix.At(c) == Ink
  {
    if hist.At(c) == 0 && pix.At(c) == Ink {
      var box;
      hist', box := FillAt(pix, hist, blocks, seeds, c);
      blocks', seeds' := blocks + [box], seeds + [c];
      assert blocks'[..|blocks|] == blocks;
    } else {
      ScanSkip(pix, hist, blocks, seeds, c);
      hist', blocks', seeds' := hist, blocks, seeds;
      assert pix.At(c) == Background ==> hist.At(c) == 0 by {
        assert Ranged(pix, hist, |blocks|);
      }
    }
  }

  /** A fill from an unlabelled ink pixel `c` with the next label, as the scan starts it (ccl.c:249-259). */
  method FillAt(pix: Grid<Pixel>, hist: Grid<int>, blocks: seq<Block>, ghost seeds: seq<Cell>, c: Cell)
    returns (out: Grid<int>, box: Block)
    requires Scanned(pix, hist, blocks, seeds, c) && hist.Contains(c) && hist.At(c) == 0 && pix.At(c) == Ink
    ensures Scanned(pix, out, blocks + [box], seeds + [c], Cell(c.x, c.y + 1))
    ensures out.Contains(c) && out.At(c) == |blocks| + 1
  {
    ScanCanFill(pix, hist, blocks, seeds, c);
    out, box := Propagate(pix, hist, c, |blocks| + 1);
    ScanAfterFill(pix, hist, out, blocks, seeds, c, box);
  }
}
