/** Row-major addressing of the pixel grid, as done by GET_MONO_FB_PIXEL and
    SET_MONO_FB_PIXEL (inc/clifb.h): pixel (y, x) of a grid `width` pixels
    wide is cell `y * width + x` of one flat buffer of `height * width` cells. */
module PixelGrid {

  /** The offset the macros add to `items`. */
  function Index(width: int, y: int, x: int): int { y * width + x }

  predicate InBounds(width: int, height: int, y: int, x: int)
  {
    0 <= y < height && 0 <= x < width
  }

  /** A flat buffer holding exactly `height * width` cells, as `calloc(size.y * size.x, …)` allocates. */
  predicate IsGrid(cells: seq<bool>, width: nat, height: nat)
  {
    |cells| == height * width
  }

  lemma MulLeft(a: int, b: int, c: int)
    requires a <= b && 0 <= c
    ensures a * c <= b * c
  {
  }

  /** Moving on from row `row` of `rows` rows of `n` cells: the cells up to
      the end of the next row still fit. */
  lemma NextRow(row: int, rows: int, n: nat)
    requires 0 <= row < rows
    ensures (row + 1) * n == row * n + n <= rows * n
  {
    MulLeft(row + 1, rows, n);
  }

  /** Every in-bounds pixel lives inside the buffer. */
  lemma IndexInRange(width: nat, height: nat, y: int, x: int)
    requires InBounds(width, height, y, x)
    ensures 0 <= Index(width, y, x) < height * width
  {
    MulLeft(0, y, width);
    MulLeft(y + 1, height, width);
    assert (y + 1) * width == y * width + width;
  }

  /** The flat offset gives the pixel back: row by division, column by remainder. */
  lemma IndexSplits(width: nat, y: int, x: int)
    requires 0 <= y && 0 <= x < width
    ensures Index(width, y, x) / width == y && Index(width, y, x) % width == x
  {
    var i := Index(width, y, x);
    var q, r := i / width, i % width;
    assert q * width + r == y * width + x;
    assert (q - y) * width == x - r;
    if q > y {
      MulLeft(1, q - y, width);
      assert false;
    } else if q < y {
      MulLeft(1, y - q, width);
      assert false;
    }
  }

  /** Distinct in-bounds pixels occupy distinct cells. */
  lemma IndexInjective(width: nat, height: nat, y1: int, x1: int, y2: int, x2: int)
    requires InBounds(width, height, y1, x1) && InBounds(width, height, y2, x2)
    requires Index(width, y1, x1) == Index(width, y2, x2)
    ensures y1 == y2 && x1 == x2
  {
    IndexSplits(width, y1, x1);
    IndexSplits(width, y2, x2);
  }

  /** Every cell of the buffer is the home of exactly one pixel. */
  lemma CellIsPixel(width: nat, height: nat, i: int)
    requires 0 <= i < height * width
    ensures width > 0
    ensures InBounds(width, height, i / width, i % width)
    ensures Index(width, i / width, i % width) == i
  {
    if width == 0 {
      assert false;
    }
    if i / width >= height {
      MulLeft(height, i / width, width);
      assert false;
    }
  }

  /** Row-major order: of two cells, the earlier one is on an earlier row, or
      on the same row further left. */
  lemma CellOrder(width: nat, i: int, j: int)
    requires 0 <= i < j && width > 0
    ensures i / width < j / width || (i / width == j / width && i % width < j % width)
  {
    if i / width > j / width {
      MulLeft(j / width + 1, i / width, width);
      assert false;
    }
  }

  /** GET_MONO_FB_PIXEL(fb, y, x). */
  function Pixel(cells: seq<bool>, width: nat, height: nat, y: int, x: int): bool
    requires IsGrid(cells, width, height) && InBounds(width, height, y, x)
  {
    IndexInRange(width, height, y, x);
    cells[Index(width, y, x)]
  }

  /** The buffer after SET_MONO_FB_PIXEL(fb, y, x, v): reading (y, x) back gives
      `v` and every other in-bounds pixel keeps its value. */
  function WithPixel(cells: seq<bool>, width: nat, height: nat, y: int, x: int, v: bool): (r: seq<bool>)
    requires IsGrid(cells, width, height) && InBounds(width, height, y, x)
    ensures IsGrid(r, width, height)
    ensures Pixel(r, width, height, y, x) == v
    ensures forall y2, x2 :: InBounds(width, height, y2, x2) && (y2 != y || x2 != x) ==>
              Pixel(r, width, height, y2, x2) == Pixel(cells, width, height, y2, x2)
  {
    IndexInRange(width, height, y, x);
    var r := cells[Index(width, y, x) := v];
    forall y2, x2 | InBounds(width, height, y2, x2) && (y2 != y || x2 != x)
      ensures Pixel(r, width, height, y2, x2) == Pixel(cells, width, height, y2, x2)
    {
      IndexInRange(width, height, y2, x2);
      if Index(width, y2, x2) == Index(width, y, x) {
        IndexInjective(width, height, y, x, y2, x2);
      }
    }
    r
  }

  /** Two buffers of one shape that agree on every pixel are the same buffer. */
  lemma SameGrid(a: seq<bool>, b: seq<bool>, width: nat, height: nat)
    requires IsGrid(a, width, height) && IsGrid(b, width, height)
    requires forall y, x :: InBounds(width, height, y, x) ==>
               Pixel(a, width, height, y, x) == Pixel(b, width, height, y, x)
    ensures a == b
  {
    forall i | 0 <= i < |a| ensures a[i] == b[i] {
      CellIsPixel(width, height, i);
      assert Pixel(a, width, height, i / width, i % width) == Pixel(b, width, height, i / width, i % width);
    }
  }

  /** A buffer with every cell set to `v` (all false after calloc or after a clear). */
  function Uniform(n: nat, v: bool): (r: seq<bool>)
    ensures |r| == n && forall i :: 0 <= i < n ==> r[i] == v
  {
    seq(n, _ => v)
  }

  /** Every pixel of a uniform buffer reads `v`. */
  lemma UniformPixel(width: nat, height: nat, v: bool, y: int, x: int)
    requires InBounds(width, height, y, x)
    ensures Pixel(Uniform(height * width, v), width, height, y, x) == v
  {
    IndexInRange(width, height, y, x);
  }
}
