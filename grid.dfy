/**
 * Row-major index arithmetic shared by the image transforms.
 *
 * Image/Image.cpp stores an image as one vector of pixels, row after row:
 * the pixel in row `r` and column `c` of a grid with `cols` columns sits at
 * index `r * cols + c`.  These lemmas carry the non-linear arithmetic once.
 */
module Grid {

  /** `a <= b` scales: the step the solver does not take by itself. */
  lemma {:induction false} MulMonotone(a: nat, b: nat, k: nat)
    requires a <= b
    ensures a * k <= b * k
  {
    if a < b {
      MulMonotone(a, b - 1, k);
      assert (b - 1) * k + k == b * k;
    }
  }

  /** A cell of a `rows x cols` grid lies inside the flattened vector. */
  lemma CellInRange(r: nat, c: nat, rows: nat, cols: nat)
    requires r < rows && c < cols
    ensures r * cols + c < rows * cols
  {
    MulMonotone(r + 1, rows, cols);
    assert (r + 1) * cols == r * cols + cols;
  }

  /** Row and column are recovered from a flattened index by division. */
  lemma DivModOfCell(r: nat, c: nat, cols: nat)
    requires c < cols
    ensures (r * cols + c) / cols == r
    ensures (r * cols + c) % cols == c
  {
    var k := r * cols + c;
    var q, m := k / cols, k % cols;
    assert q * cols + m == r * cols + c;
    if q < r {
      MulMonotone(q + 1, r, cols);
      assert false;
    } else if q > r {
      MulMonotone(r + 1, q, cols);
      assert false;
    }
  }

  /** Every flattened index of a `rows x cols` grid names a cell. */
  lemma CellOfIndex(k: nat, rows: nat, cols: nat)
    requires k < rows * cols
    ensures cols > 0
    ensures k / cols < rows && k % cols < cols
    ensures k == (k / cols) * cols + k % cols
  {
    if k / cols >= rows {
      MulMonotone(rows, k / cols, cols);
    }
  }

  /** The pixel in row `r`, column `c` of a row-major `rows x cols` grid. */
  function At<T>(s: seq<T>, rows: nat, cols: nat, r: nat, c: nat): T
    requires |s| == rows * cols && r < rows && c < cols
  {
    CellInRange(r, c, rows, cols);
    s[r * cols + c]
  }

  /** Two grids of the same shape that agree on every cell are equal. */
  lemma SameCells<T>(a: seq<T>, b: seq<T>, rows: nat, cols: nat)
    requires |a| == rows * cols && |b| == rows * cols
    requires forall r: nat, c: nat :: r < rows && c < cols ==> At(a, rows, cols, r, c) == At(b, rows, cols, r, c)
    ensures a == b
  {
    forall k | 0 <= k < |a|
      ensures a[k] == b[k]
    {
      CellOfIndex(k, rows, cols);
      var r, c := k / cols, k % cols;
      assert At(a, rows, cols, r, c) == At(b, rows, cols, r, c);
    }
  }

  /** Row `r` of a row-major grid with `w` columns. */
  function Row<T>(p: seq<T>, w: nat, r: nat): (row: seq<T>)
    requires r * w + w <= |p|
    ensures |row| == w
  {
    p[r * w..r * w + w]
  }

  /** The rows of a `h x w` grid, top to bottom. */
  function Rows<T>(p: seq<T>, w: nat, h: nat): (rows: seq<seq<T>>)
    requires |p| == h * w
    ensures |rows| == h
    ensures forall i :: 0 <= i < h ==> |rows[i]| == w
  {
    seq(h, i requires 0 <= i < h => MulMonotone(i + 1, h, w); Row(p, w, i))
  }

  /** The first `n + 1` rows of a grid are its first `n` rows and then row `n`. */
  lemma PrefixOfRows<T>(p: seq<T>, w: nat, n: nat)
    requires n * w + w <= |p|
    ensures p[..n * w + w] == p[..n * w] + Row(p, w, n)
  {
    assert p[..n * w + w] == p[..n * w] + p[n * w..n * w + w];
  }

  /** Rows written one after the other. */
  function Concat<T>(rows: seq<seq<T>>): seq<T>
  {
    if rows == [] then [] else Concat(rows[..|rows| - 1]) + rows[|rows| - 1]
  }

  /** Writing one more row appends it. */
  lemma ConcatSnoc<T>(rows: seq<seq<T>>, i: nat)
    requires i < |rows|
    ensures Concat(rows[..i + 1]) == Concat(rows[..i]) + rows[i]
  {
    assert rows[..i + 1][..i] == rows[..i];
  }

  /** Writing a list of rows in two parts writes the same sequence. */
  lemma {:induction false} ConcatSplit<T>(rows: seq<seq<T>>, k: nat)
    requires k <= |rows|
    ensures Concat(rows) == Concat(rows[..k]) + Concat(rows[k..])
  {
    if k < |rows| {
      var n := |rows|;
      ConcatSplit(rows[..n - 1], k);
      assert rows[..n - 1][..k] == rows[..k];
      assert rows[k..][..n - 1 - k] == rows[..n - 1][k..];
      assert rows[k..][n - 1 - k] == rows[n - 1];
    } else {
      assert rows[k..] == [];
      assert rows[..k] == rows;
    }
  }

  /** Rows of equal length `cols` written one after the other form a `|rows| x cols` grid. */
  lemma {:induction false} ConcatAt<T>(rows: seq<seq<T>>, cols: nat)
    requires forall i :: 0 <= i < |rows| ==> |rows[i]| == cols
    ensures |Concat(rows)| == |rows| * cols
    ensures forall r: nat, c: nat :: r < |rows| && c < cols ==> At(Concat(rows), |rows|, cols, r, c) == rows[r][c]
  {
    if rows != [] {
      var n := |rows|;
      var init := rows[..n - 1];
      ConcatAt(init, cols);
      assert (n - 1) * cols + cols == n * cols;
      forall r: nat, c: nat | r < n && c < cols
        ensures At(Concat(rows), n, cols, r, c) == rows[r][c]
      {
        CellInRange(r, c, n, cols);
        if r < n - 1 {
          CellInRange(r, c, n - 1, cols);
          assert At(Concat(init), n - 1, cols, r, c) == init[r][c];
        }
      }
    }
  }

  /** Cell `c` of row `r` is the grid's cell in row `r`, column `c`. */
  lemma RowsCell<T>(p: seq<T>, w: nat, h: nat, r: nat, c: nat)
    requires |p| == h * w && r < h && c < w
    ensures Rows(p, w, h)[r][c] == At(p, h, w, r, c)
  {
    MulMonotone(r + 1, h, w);
    assert Rows(p, w, h)[r] == p[r * w..r * w + w];
  }

  /** Writing the rows of a grid gives the grid back. */
  lemma ConcatRows<T>(p: seq<T>, w: nat, h: nat)
    requires |p| == h * w
    ensures Concat(Rows(p, w, h)) == p
  {
    var rows := Rows(p, w, h);
    ConcatAt(rows, w);
    forall r: nat, c: nat | r < h && c < w
      ensures At(Concat(rows), h, w, r, c) == At(p, h, w, r, c)
    {
      RowsCell(p, w, h, r, c);
    }
    SameCells(Concat(rows), p, h, w);
  }
}
