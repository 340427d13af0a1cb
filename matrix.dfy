/** The `Matrix` class of chapter 6, a grid stored row by row in one flat
    buffer, and `MatrixIterator`, which walks its cells in row-major order. */
module Matrices {
  import opened Base

  /** What the iterator yields for one cell: `{x, y, value}`. */
  datatype Cell<T> = Cell(x: nat, y: nat, value: T)

  /** An iterator step: `{done: true}` or `{value, done: false}`. */
  datatype IterResult<T> = Done | Yield(value: T)

  /** The buffer slot of cell (x, y) in a grid of width w. */
  function Idx(x: nat, y: nat, w: nat): nat {
    y * w + x
  }

  /** Cell (x, y) of a grid of width w sits at y * w + x, inside the buffer. */
  lemma IndexInGrid(x: nat, y: nat, w: nat, h: nat)
    requires x < w && y < h
    ensures Idx(x, y, w) < w * h
  {
    assert y * w + x < (y + 1) * w;
    assert (y + 1) * w <= h * w;
  }

  /** Row-major order of the buffer: earlier rows, and earlier cells of the
      same row, come first. */
  lemma IndexOrder(x: nat, y: nat, x': nat, y': nat, w: nat)
    requires x < w && x' < w
    requires y < y' || (y == y' && x < x')
    ensures Idx(x, y, w) < Idx(x', y', w)
  {
    if y < y' {
      assert y * w + x < (y + 1) * w;
      assert (y + 1) * w <= y' * w;
    }
  }

  /** Distinct cells of the grid have distinct buffer positions. */
  lemma IndexInjective(x: nat, y: nat, x': nat, y': nat, w: nat)
    requires x < w && x' < w
    requires Idx(x, y, w) == Idx(x', y', w)
    ensures x == x' && y == y'
  {
    if y < y' || (y == y' && x < x') {
      IndexOrder(x, y, x', y', w);
    } else if y' < y || (y == y' && x' < x) {
      IndexOrder(x', y', x, y, w);
    }
  }

  lemma DistinctSlots(x: nat, y: nat, x': nat, y': nat, w: nat)
    requires x < w && x' < w && (x != x' || y != y')
    ensures Idx(x, y, w) != Idx(x', y', w)
  {
    if Idx(x, y, w) == Idx(x', y', w) {
      IndexInjective(x, y, x', y', w);
    }
  }

  /** The buffer position of a cell gives back its coordinates. */
  lemma IndexCoordinates(x: nat, y: nat, w: nat)
    requires x < w
    ensures Idx(x, y, w) / w == y && Idx(x, y, w) % w == x
  {
    var k := Idx(x, y, w);
    var q, r := k / w, k % w;
    assert k == Idx(r, q, w) && 0 <= r < w;
    IndexInjective(r, q, x, y, w);
  }

  /** The slot written at (x, y) is none of the slots of earlier cells. */
  lemma WriteKeepsEarlierCells(x: nat, y: nat, w: nat)
    requires x < w
    ensures forall x', y' :: 0 <= x' < w && 0 <= y' < y ==> Idx(x', y', w) != Idx(x, y, w)
    ensures forall x' :: 0 <= x' < x ==> Idx(x', y, w) != Idx(x, y, w)
  {
    forall x', y' | 0 <= x' < w && 0 <= y' < y ensures Idx(x', y', w) < Idx(x, y, w) {
      IndexOrder(x', y', x, y, w);
    }
  }

  class Matrix<T(0)> {
    var width: nat
    var height: nat
    var content: array<T>

    ghost predicate Valid()
      reads this
    {
      content.Length == width * height
    }

    /** `new Matrix(width, height, element)`: nested loops fill every cell
        with `element(x, y)`. */
    constructor (width: nat, height: nat, element: (nat, nat) -> T)
      ensures Valid() && fresh(content)
      ensures this.width == width && this.height == height
      ensures forall x, y :: 0 <= x < width && 0 <= y < height ==>
        Idx(x, y, width) < content.Length && content[Idx(x, y, width)] == element(x, y)
    {
      this.width := width;
      this.height := height;
      var c := new T[width * height];
      for y := 0 to height
        invariant forall x', y' :: 0 <= x' < width && 0 <= y' < y ==>
          Idx(x', y', width) < c.Length && c[Idx(x', y', width)] == element(x', y')
      {
        for x := 0 to width
          invariant forall x', y' :: 0 <= x' < width && 0 <= y' < y ==>
            Idx(x', y', width) < c.Length && c[Idx(x', y', width)] == element(x', y')
          invariant forall x' :: 0 <= x' < x ==>
            Idx(x', y, width) < c.Length && c[Idx(x', y, width)] == element(x', y)
        {
          IndexInGrid(x, y, width, height);
          WriteKeepsEarlierCells(x, y, width);
          c[Idx(x, y, width)] := element(x, y);
        }
      }
      content := c;
    }

    /** `get(x, y)`: the buffer slot y * width + x, or `undefined` when that
        slot lies outside the buffer. */
    function Get(x: int, y: int): Option<T>
      reads this, content
    {
      var i := y * width + x;
      if 0 <= i < content.Length then Some(content[i]) else None
    }

    /** `set(x, y, value)` on a slot inside the buffer: that slot becomes
        `value` and every other slot keeps its value. */
    method Set(x: int, y: int, value: T)
      requires Valid()
      requires 0 <= y * width + x < content.Length
      modifies content
      ensures Valid()
      ensures content[..] == old(content[..])[y * width + x := value]
      ensures Get(x, y) == Some(value)
    {
      content[y * width + x] := value;
    }
  }

  /** After `set(x, y, v)` at a cell of the grid, `get(x, y)` is `v` and every
      other cell of the grid reads as before. */
  lemma SetThenGet<T>(before: seq<T>, after: seq<T>, w: nat, h: nat, x: nat, y: nat, v: T)
    requires |before| == w * h && x < w && y < h && Idx(x, y, w) < |before|
    requires after == before[Idx(x, y, w) := v]
    ensures forall x', y' :: 0 <= x' < w && 0 <= y' < h ==>
      Idx(x', y', w) < |after| &&
      after[Idx(x', y', w)] == (if x' == x && y' == y then v else before[Idx(x', y', w)])
  {
    forall x', y' | 0 <= x' < w && 0 <= y' < h
      ensures Idx(x', y', w) < |after|
      ensures after[Idx(x', y', w)] == (if x' == x && y' == y then v else before[Idx(x', y', w)])
    {
      IndexInGrid(x', y', w, h);
      if x' != x || y' != y {
        DistinctSlots(x', y', x, y, w);
        assert after[Idx(x', y', w)] == before[Idx(x', y', w)];
      }
    }
  }

  /** The slots of a buffer of width w as cells, in row-major order, x
      varying fastest. */
  function RowMajorCells<T>(s: seq<T>, w: nat): (cells: seq<Cell<T>>)
    requires w > 0 || s == []
    ensures |cells| == |s|
  {
    seq(|s|, k requires 0 <= k < |s| => Cell(k % w, k / w, s[k]))
  }

  /** The cells of a matrix in row-major order. */
  ghost function RowMajor<T(0)>(m: Matrix<T>): seq<Cell<T>>
    reads m, m.content
    requires m.Valid() && (m.width > 0 || m.height == 0)
  {
    RowMajorCells(m.content[..], m.width)
  }

  /** Each cell of the grid occurs in the row-major listing exactly once, at
      its buffer slot, carrying the value `get(x, y)` returns. */
  lemma RowMajorVisitsEachCellOnce<T>(s: seq<T>, w: nat, h: nat, x: nat, y: nat)
    requires |s| == w * h && x < w && y < h
    ensures Idx(x, y, w) < |s|
    ensures RowMajorCells(s, w)[Idx(x, y, w)] == Cell(x, y, s[Idx(x, y, w)])
    ensures forall k :: 0 <= k < |s| && RowMajorCells(s, w)[k].x == x && RowMajorCells(s, w)[k].y == y ==>
      k == Idx(x, y, w)
  {
    IndexInGrid(x, y, w, h);
    IndexCoordinates(x, y, w);
    forall k | 0 <= k < |s| && RowMajorCells(s, w)[k].x == x && RowMajorCells(s, w)[k].y == y
      ensures k == Idx(x, y, w)
    {
      var q, r := k / w, k % w;
      assert k == Idx(r, q, w);
    }
  }

  class MatrixIterator<T(0)> {
    var x: nat
    var y: nat
    const matrix: Matrix<T>

    /** The cursor is a cell of the grid, or (0, height) once finished. */
    ghost predicate Valid()
      reads this, matrix
    {
      matrix.Valid() && y <= matrix.height &&
      (y < matrix.height ==> x < matrix.width) &&
      (y == matrix.height ==> x == 0)
    }

    /** How many cells have been yielded so far. */
    ghost function Position(): nat
      reads this, matrix
    {
      Idx(x, y, matrix.width)
    }

    /** `new MatrixIterator(matrix)`. A matrix of width zero and positive
        height is excluded: its iterator never finishes. */
    constructor (matrix: Matrix<T>)
      requires matrix.Valid()
      requires matrix.width > 0 || matrix.height == 0
      ensures Valid() && this.matrix == matrix && Position() == 0
    {
      x := 0;
      y := 0;
      this.matrix := matrix;
    }

    /** `next()`: the cell under the cursor, then the cursor moves one cell
        on in row-major order; done once the cursor has left the last row. */
    method Next() returns (r: IterResult<Cell<T>>)
      requires Valid()
      modifies this
      ensures Valid()
      ensures r.Done? <==> old(y) == matrix.height
      ensures r.Done? ==> x == old(x) && y == old(y)
      ensures r.Yield? ==>
        old(Position()) < matrix.width * matrix.height &&
        r.value == RowMajor(matrix)[old(Position())] &&
        Position() == old(Position()) + 1
    {
      if y == matrix.height {
        return Done;
      }
      IndexInGrid(x, y, matrix.width, matrix.height);
      IndexCoordinates(x, y, matrix.width);
      var value := Cell(x, y, matrix.content[Idx(x, y, matrix.width)]);
      x := x + 1;
      if x == matrix.width {
        x := 0;
        y := y + 1;
      }
      r := Yield(value);
    }
  }

  lemma FinishedPosition<T(0)>(it: MatrixIterator<T>)
    requires it.Valid() && it.y == it.matrix.height
    ensures it.Position() == it.matrix.width * it.matrix.height
  {
  }

  lemma PositionBound<T(0)>(it: MatrixIterator<T>)
    requires it.Valid()
    ensures it.Position() <= it.matrix.width * it.matrix.height
  {
    if it.y < it.matrix.height {
      IndexInGrid(it.x, it.y, it.matrix.width, it.matrix.height);
    }
  }

  /** `for (let {x, y, value} of matrix)`: drives a fresh iterator until it is
      done and collects what it yields, which is every cell in row-major
      order. */
  method CellsOf<T(0)>(m: Matrix<T>) returns (cells: seq<Cell<T>>)
    requires m.Valid()
    requires m.width > 0 || m.height == 0
    ensures cells == RowMajor(m)
  {
    var it := new MatrixIterator(m);
    cells := [];
    while true
      invariant fresh(it) && it.Valid() && it.matrix == m
      invariant it.Position() <= m.width * m.height
      invariant cells == RowMajor(m)[..it.Position()]
      decreases m.width * m.height - it.Position()
    {
      var r := it.Next();
      if r.Done? {
        FinishedPosition(it);
        break;
      }
      PositionBound(it);
      cells := cells + [r.value];
    }
  }

  function Label(x: nat, y: nat): string {
    "value " + NatToString(x) + "," + NatToString(y)
  }

  /** The 2 x 2 example: the cells come out as (0,0), (1,0), (0,1), (1,1). */
  method TwoByTwoExample() returns (cells: seq<Cell<string>>)
    ensures cells == [Cell(0, 0, Label(0, 0)), Cell(1, 0, Label(1, 0)),
                      Cell(0, 1, Label(0, 1)), Cell(1, 1, Label(1, 1))]
  {
    var matrix := new Matrix(2, 2, Label);
    cells := CellsOf(matrix);
    assert matrix.content[Idx(0, 0, 2)] == Label(0, 0);
    assert matrix.content[Idx(1, 0, 2)] == Label(1, 0);
    assert matrix.content[Idx(0, 1, 2)] == Label(0, 1);
    assert matrix.content[Idx(1, 1, 2)] == Label(1, 1);
  }
}
