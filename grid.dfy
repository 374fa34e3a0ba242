/**
 * Geometry of a square board of `size` x `size` cells stored row by row:
 * cell `i` sits in column `i % size` and row `i / size`.
 */
module Grid {

  function Abs(x: int): nat { if x < 0 then -x else x }

  /** `j` is a cell of the board one step left, right, up or down from `i`. */
  ghost predicate Orthogonal(size: nat, i: int, j: int)
    requires size > 0
  {
    && 0 <= i < size * size
    && 0 <= j < size * size
    && (|| (j / size == i / size && (j % size == i % size + 1 || j % size + 1 == i % size))
        || (j % size == i % size && (j / size == i / size + 1 || j / size + 1 == i / size)))
  }

  /** Multiplying by a factor of at least one does not shrink a positive number. */
  lemma {:induction false} MulAtLeast(k: int, size: int)
    requires k >= 1 && size > 0
    ensures k * size >= size
    decreases k
  {
    if k > 1 {
      MulAtLeast(k - 1, size);
      assert k * size == (k - 1) * size + size;
    }
  }

  /** Row and column of a cell are determined by any decomposition i == q * size + r. */
  lemma DivMod(i: int, size: int, q: int, r: int)
    requires size > 0 && 0 <= r < size && i == q * size + r
    ensures i / size == q && i % size == r
  {
    var q', r' := i / size, i % size;
    assert i == q' * size + r';
    if q' > q {
      assert (q' - q) * size == r - r';
      MulAtLeast(q' - q, size);
    } else if q' < q {
      assert (q - q') * size == r' - r;
      MulAtLeast(q - q', size);
    }
  }

  /** The cells of the board are the indices 0 .. size * size - 1. */
  lemma CellBounds(i: int, size: int)
    requires size > 0 && 0 <= i < size * size
    ensures 0 <= i / size < size && 0 <= i % size < size
  {
    var q, r := i / size, i % size;
    assert i == q * size + r;
    if q >= size {
      MulAtLeast(q - size + 1, size);
    }
    if q < 0 {
      MulAtLeast(-q, size);
    }
  }

  /** Rebuilding an index from a row and a column inside the board. */
  lemma CellOf(size: int, x: int, y: int)
    requires size > 0 && 0 <= x < size && 0 <= y < size
    ensures 0 <= y * size + x < size * size
    ensures (y * size + x) / size == y && (y * size + x) % size == x
  {
    DivMod(y * size + x, size, y, x);
    if y > 0 {
      MulAtLeast(y, size);
    }
    if y < size - 1 {
      MulAtLeast(size - 1 - y, size);
      assert (size - 1 - y) * size == (size - 1) * size - y * size;
    }
    assert (size - 1) * size + size == size * size;
  }

  /** A cell one step away is one column or one row off. */
  lemma OrthogonalIsStep(size: nat, i: int, j: int)
    requires size > 0 && Orthogonal(size, i, j)
    ensures j == i - size || j == i + size || j == i - 1 || j == i + 1
  {
    var x, y := i % size, i / size;
    assert i == y * size + x;
    assert j == (j / size) * size + j % size;
    if j / size == y + 1 {
      assert (j / size) * size == y * size + size;
    } else if j / size + 1 == y {
      assert (j / size) * size == y * size - size;
    }
  }
}
