/**
 Integer grid cells and the rectangular footprint a box covers.

 A cell is the puzzle's `Vector2Int` coordinate; a size is the same kind of
 pair read as a width (x) and a height (y) in cells. The footprint of a box
 anchored at `origin` lists the cells `origin + (x, y)` for `0 <= x < size.x`
 and `0 <= y < size.y`, x in the outer loop and y in the inner one.
 */
module Cells {

  datatype Cell = Cell(x: int, y: int)

  datatype Size = Size(x: int, y: int)

  /** True iff no cell occurs twice in `cells`. */
  ghost predicate Distinct(cells: seq<Cell>)
  {
    forall i, j :: 0 <= i < j < |cells| ==> cells[i] != cells[j]
  }

  /** The cells `origin + (dx, y)` for `0 <= y < n`, in increasing y. */
  function Column(origin: Cell, dx: int, n: int): seq<Cell>
    decreases n
  {
    if n <= 0 then [] else Column(origin, dx, n - 1) + [Cell(origin.x + dx, origin.y + n - 1)]
  }

  /** The columns `0 <= dx < k`, each of `height` cells, one after the other. */
  function Columns(origin: Cell, height: int, k: int): seq<Cell>
    decreases k
  {
    if k <= 0 then [] else Columns(origin, height, k - 1) + Column(origin, k - 1, height)
  }

  /** The cells a box of `size` covers when anchored at `origin`. */
  function Footprint(origin: Cell, size: Size): seq<Cell>
  {
    Columns(origin, size.y, size.x)
  }

  /** True iff `c` lies in the rectangle of `size` whose lower corner is `origin`. */
  predicate InRect(origin: Cell, size: Size, c: Cell)
  {
    origin.x <= c.x < origin.x + size.x && origin.y <= c.y < origin.y + size.y
  }

  lemma {:induction false} ColumnAt(origin: Cell, dx: int, n: int, j: int)
    requires 0 <= j < n
    ensures |Column(origin, dx, n)| == n
    ensures Column(origin, dx, n)[j] == Cell(origin.x + dx, origin.y + j)
    decreases n
  {
    if j < n - 1 {
      ColumnAt(origin, dx, n - 1, j);
    } else if n > 1 {
      ColumnAt(origin, dx, n - 1, 0);
    }
  }

  lemma {:induction false} ColumnLength(origin: Cell, dx: int, n: int)
    ensures |Column(origin, dx, n)| == if n <= 0 then 0 else n
    decreases n
  {
    if n > 0 {
      ColumnLength(origin, dx, n - 1);
    }
  }

  lemma {:induction false} ColumnMember(origin: Cell, dx: int, n: int, c: Cell)
    ensures c in Column(origin, dx, n) <==> c.x == origin.x + dx && origin.y <= c.y < origin.y + n
    decreases n
  {
    if n > 0 {
      ColumnMember(origin, dx, n - 1, c);
    }
  }

  lemma {:induction false} ColumnDistinct(origin: Cell, dx: int, n: int)
    ensures Distinct(Column(origin, dx, n))
    decreases n
  {
    if n > 0 {
      var prefix := Column(origin, dx, n - 1);
      var last := Cell(origin.x + dx, origin.y + n - 1);
      ColumnDistinct(origin, dx, n - 1);
      ColumnMember(origin, dx, n - 1, last);
      AppendDistinct(prefix, [last]);
    }
  }

  lemma AppendDistinct(a: seq<Cell>, b: seq<Cell>)
    requires Distinct(a) && Distinct(b)
    requires forall c :: c in a ==> c !in b
    ensures Distinct(a + b)
  {
    forall i, j | 0 <= i < j < |a + b|
      ensures (a + b)[i] != (a + b)[j]
    {
      if j >= |a| && i < |a| {
        assert (a + b)[i] in a && (a + b)[j] in b;
      }
    }
  }

  lemma {:induction false} ColumnsLength(origin: Cell, height: int, k: int)
    ensures |Columns(origin, height, k)| == if k <= 0 || height <= 0 then 0 else k * height
    decreases k
  {
    if k > 0 {
      ColumnsLength(origin, height, k - 1);
      ColumnLength(origin, k - 1, height);
      if height > 0 {
        assert (k - 1) * height + height == k * height;
      }
    }
  }

  lemma {:induction false} ColumnsAt(origin: Cell, height: int, k: int, i: int, j: int)
    requires 0 <= i < k && 0 <= j < height
    ensures 0 <= i * height + j < |Columns(origin, height, k)|
    ensures Columns(origin, height, k)[i * height + j] == Cell(origin.x + i, origin.y + j)
    decreases k
  {
    var prefix := Columns(origin, height, k - 1);
    var column := Column(origin, k - 1, height);
    ColumnsLength(origin, height, k - 1);
    ColumnLength(origin, k - 1, height);
    assert |prefix| == (k - 1) * height;
    MulStep(k - 1, height);
    assert |prefix + column| == (k - 1) * height + height;
    if i < k - 1 {
      ColumnsAt(origin, height, k - 1, i, j);
      MulStep(i, height);
      MulMono(i + 1, k - 1, height);
    } else {
      ColumnAt(origin, k - 1, height, j);
    }
  }

  lemma MulStep(a: int, h: int)
    ensures (a + 1) * h == a * h + h
  {
  }

  lemma MulMono(a: int, b: int, h: int)
    requires 0 <= a <= b && 0 <= h
    ensures a * h <= b * h
  {
  }

  lemma {:induction false} ColumnsMember(origin: Cell, height: int, k: int, c: Cell)
    ensures c in Columns(origin, height, k) <==>
      origin.x <= c.x < origin.x + k && origin.y <= c.y < origin.y + height
    decreases k
  {
    if k > 0 {
      ColumnsMember(origin, height, k - 1, c);
      ColumnMember(origin, k - 1, height, c);
    }
  }

  lemma {:induction false} ColumnsDistinct(origin: Cell, height: int, k: int)
    ensures Distinct(Columns(origin, height, k))
    decreases k
  {
    if k > 0 {
      var prefix := Columns(origin, height, k - 1);
      var column := Column(origin, k - 1, height);
      ColumnsDistinct(origin, height, k - 1);
      ColumnDistinct(origin, k - 1, height);
      forall c | c in prefix
        ensures c !in column
      {
        ColumnsMember(origin, height, k - 1, c);
        ColumnMember(origin, k - 1, height, c);
      }
      AppendDistinct(prefix, column);
    }
  }

  /** The footprint holds `size.x * size.y` cells, and none when either extent is not positive. */
  lemma FootprintLength(origin: Cell, size: Size)
    ensures |Footprint(origin, size)| == if size.x <= 0 || size.y <= 0 then 0 else size.x * size.y
  {
    ColumnsLength(origin, size.y, size.x);
  }

  /** Position `x * size.y + y` of the footprint holds `origin + (x, y)`: x-outer, y-inner order. */
  lemma FootprintAt(origin: Cell, size: Size, x: int, y: int)
    requires 0 <= x < size.x && 0 <= y < size.y
    ensures 0 <= x * size.y + y < |Footprint(origin, size)|
    ensures Footprint(origin, size)[x * size.y + y] == Cell(origin.x + x, origin.y + y)
  {
    ColumnsAt(origin, size.y, size.x, x, y);
  }

  /** A cell is in the footprint exactly when it lies in the rectangle. */
  lemma FootprintMember(origin: Cell, size: Size, c: Cell)
    ensures c in Footprint(origin, size) <==> InRect(origin, size, c)
  {
    ColumnsMember(origin, size.y, size.x, c);
  }

  /** No cell is listed twice in a footprint. */
  lemma FootprintDistinct(origin: Cell, size: Size)
    ensures Distinct(Footprint(origin, size))
  {
    ColumnsDistinct(origin, size.y, size.x);
  }

  /** A footprint with positive extents is not empty and starts at its origin. */
  lemma FootprintStartsAtOrigin(origin: Cell, size: Size)
    requires size.x > 0 && size.y > 0
    ensures |Footprint(origin, size)| > 0 && Footprint(origin, size)[0] == origin
  {
    FootprintAt(origin, size, 0, 0);
  }
}
