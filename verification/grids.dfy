/**
 * Row-major integer grids: the label histogram of a text line and the pixel
 * rasters are both `width * height` buffers addressed as `cells[y * width + x]`.
 */
module Grids {

  /** A position in a grid; coordinates may fall outside it. */
  datatype Cell = Cell(x: int, y: int)

  /** The row-major offset of a cell, as the C code computes `hist[y * width + x]`. */
  function Index(c: Cell, width: int): int
  {
    c.y * width + c.x
  }

  /** The cell stored at a row-major offset. */
  function CellAt(i: int, width: int): Cell
    requires width > 0
  {
    Cell(i % width, i / width)
  }

  lemma MulMonotone(a: int, b: int, k: nat)
    requires a <= b
    ensures a * k <= b * k
  {
    assert b * k - a * k == (b - a) * k;
  }

  /** Every cell of a `width * height` grid has an offset inside the buffer. */
  lemma IndexInRange(c: Cell, width: nat, height: nat)
    requires 0 <= c.x < width && 0 <= c.y < height
    ensures 0 <= Index(c, width) < width * height
  {
    MulMonotone(c.y + 1, height, width);
    assert (c.y + 1) * width == c.y * width + width;
    MulMonotone(0, c.y, width);
  }

  /** Distinct columns-in-range cells never share an offset. */
  lemma IndexInjective(c: Cell, d: Cell, width: nat)
    requires 0 <= c.x < width && 0 <= d.x < width
    requires Index(c, width) == Index(d, width)
    ensures c == d
  {
    if c.y < d.y {
      MulMonotone(c.y + 1, d.y, width);
    } else if d.y < c.y {
      MulMonotone(d.y + 1, c.y, width);
    }
  }

  lemma IndexCellAt(i: int, width: nat, height: nat)
    requires 0 <= i < width * height
    ensures width > 0
    ensures 0 <= CellAt(i, width).x < width && 0 <= CellAt(i, width).y < height
    ensures Index(CellAt(i, width), width) == i
  {
    if width == 0 {
      assert false;
    }
    var c := CellAt(i, width);
    assert i == (i / width) * width + i % width;
    if c.y >= height {
      MulMonotone(height, c.y, width);
      assert false;
    }
    if c.y < 0 {
      MulMonotone(c.y, -1, width);
      assert false;
    }
  }

  lemma CellAtIndex(c: Cell, width: nat)
    requires 0 <= c.x < width
    ensures CellAt(Index(c, width), width) == c
  {
    var i := Index(c, width);
    var d := CellAt(i, width);
    assert i == (i / width) * width + i % width;
    IndexInjective(c, d, width);
  }

  datatype Grid<T> = Grid(width: nat, height: nat, cells: seq<T>)
  {
    predicate Valid()
    {
      |cells| == width * height
    }

    predicate Contains(c: Cell)
    {
      0 <= c.x < width && 0 <= c.y < height
    }

    function At(c: Cell): T
      requires Valid() && Contains(c)
    {
      IndexInRange(c, width, height);
      cells[Index(c, width)]
    }

    /** `At` where the cell exists, `outside` elsewhere. */
    function Get(c: Cell, outside: T): T
    {
      if Valid() && Contains(c) then At(c) else outside
    }

    /** The grid with one cell overwritten. */
    function Set(c: Cell, v: T): (g: Grid<T>)
      requires Valid() && Contains(c)
      ensures g.Valid() && g.width == width && g.height == height
      ensures g.At(c) == v
      ensures forall d :: g.Contains(d) && d != c ==> g.At(d) == At(d)
    {
      IndexInRange(c, width, height);
      var g := Grid(width, height, cells[Index(c, width) := v]);
      SetFrame(this, g, c, v);
      g
    }
  }

  lemma SetFrame<T>(g: Grid<T>, g': Grid<T>, c: Cell, v: T)
    requires g.Valid() && g.Contains(c)
    requires 0 <= Index(c, g.width) < |g.cells|
    requires g' == Grid(g.width, g.height, g.cells[Index(c, g.width) := v])
    ensures g'.Valid() && g'.At(c) == v
    ensures forall d :: g'.Contains(d) && d != c ==> g'.At(d) == g.At(d)
  {
    forall d | g'.Contains(d) && d != c
      ensures g'.At(d) == g.At(d)
    {
      IndexInRange(d, g.width, g.height);
      if Index(d, g.width) == Index(c, g.width) {
        IndexInjective(c, d, g.width);
      }
    }
  }

  predicate SameShape<A, B>(a: Grid<A>, b: Grid<B>)
  {
    a.width == b.width && a.height == b.height
  }

  /** The `width * height` grid whose cell `c` holds `f(c)`. */
  function Build<T>(width: nat, height: nat, f: Cell -> T): (g: Grid<T>)
    ensures g.Valid() && g.width == width && g.height == height
    ensures forall c :: g.Contains(c) ==> g.At(c) == f(c)
  {
    var g := Grid(width, height, seq(width * height, i requires 0 <= i < width * height =>
      IndexCellAt(i, width, height); f(CellAt(i, width))));
    BuildCells(g, f);
    g
  }

  lemma BuildCells<T>(g: Grid<T>, f: Cell -> T)
    requires g.Valid()
    requires forall i :: 0 <= i < |g.cells| ==> g.width > 0 && g.cells[i] == f(CellAt(i, g.width))
    ensures forall c :: g.Contains(c) ==> g.At(c) == f(c)
  {
    forall c | g.Contains(c)
      ensures g.At(c) == f(c)
    {
      IndexInRange(c, g.width, g.height);
      CellAtIndex(c, g.width);
    }
  }
}
