/**
 * Two-dimensional grids stored as sequences of rows, their row-major
 * flattening, and boolean selection over a flattened grid. Selection with
 * a boolean grid is the meaning of indexing a (lines, columns) band with a
 * boolean mask of the same shape: the kept entries, in row-major order.
 */
module Grid {

  import Arith

  /** `g` has exactly `rows` rows of exactly `cols` entries each. */
  predicate IsGrid<T>(g: seq<seq<T>>, rows: nat, cols: nat)
  {
    |g| == rows && forall r :: 0 <= r < rows ==> |g[r]| == cols
  }

  /** Row-major concatenation of the rows of a grid. */
  function Flatten<T>(g: seq<seq<T>>): seq<T>
  {
    if |g| == 0 then [] else g[0] + Flatten(g[1..])
  }

  /** Number of true entries. */
  function CountTrue(keep: seq<bool>): nat
  {
    if |keep| == 0 then 0
    else CountTrue(keep[..|keep| - 1]) + (if keep[|keep| - 1] then 1 else 0)
  }

  /** The positions of the true entries, in increasing order. */
  function TrueIndices(keep: seq<bool>): seq<nat>
  {
    if |keep| == 0 then []
    else TrueIndices(keep[..|keep| - 1]) + (if keep[|keep| - 1] then [|keep| - 1] else [])
  }

  /** The entries of `vals` whose flag in `keep` is true, in order. */
  function Select<T>(vals: seq<T>, keep: seq<bool>): seq<T>
    requires |vals| == |keep|
  {
    if |keep| == 0 then []
    else
      Select(vals[..|vals| - 1], keep[..|keep| - 1])
      + (if keep[|keep| - 1] then [vals[|vals| - 1]] else [])
  }

  /** Entries of `g` kept by the same-shaped boolean grid `mask`, row-major. */
  function Masked<T>(g: seq<seq<T>>, mask: seq<seq<bool>>, rows: nat, cols: nat): seq<T>
    requires IsGrid(g, rows, cols) && IsGrid(mask, rows, cols)
  {
    FlattenLength(g, rows, cols);
    FlattenLength(mask, rows, cols);
    Select(Flatten(g), Flatten(mask))
  }

  lemma {:induction false} FlattenLength<T>(g: seq<seq<T>>, rows: nat, cols: nat)
    requires IsGrid(g, rows, cols)
    ensures |Flatten(g)| == rows * cols
  {
    if rows > 0 {
      assert IsGrid(g[1..], rows - 1, cols) by {
        forall r | 0 <= r < rows - 1 ensures |g[1..][r]| == cols {
          assert g[1..][r] == g[r + 1];
        }
      }
      FlattenLength(g[1..], rows - 1, cols);
      assert rows * cols == cols + (rows - 1) * cols;
    }
  }

  /** Row-major positions of a rows x cols grid lie below rows * cols. */
  lemma RowMajorBound(rows: nat, cols: nat, r: nat, c: nat)
    requires r < rows && c < cols
    ensures r * cols + c < rows * cols
  {
    Arith.MulMonotone(r + 1, rows, cols);
    assert (r + 1) * cols == r * cols + cols;
  }

  lemma RowMajorStep(cols: nat, r: nat, c: nat)
    requires r > 0
    ensures r * cols + c == cols + ((r - 1) * cols + c)
  {
  }

  /** Entry (r, c) of a grid sits at position r * cols + c of its flattening. */
  lemma {:induction false} FlattenAt<T>(g: seq<seq<T>>, rows: nat, cols: nat, r: nat, c: nat)
    requires IsGrid(g, rows, cols) && r < rows && c < cols
    ensures |Flatten(g)| == rows * cols
    ensures r * cols + c < rows * cols
    ensures Flatten(g)[r * cols + c] == g[r][c]
  {
    FlattenLength(g, rows, cols);
    RowMajorBound(rows, cols, r, c);
    var tail := g[1..];
    assert IsGrid(tail, rows - 1, cols) by {
      forall i | 0 <= i < rows - 1 ensures |tail[i]| == cols {
        assert tail[i] == g[i + 1];
      }
    }
    var rest := Flatten(tail);
    assert Flatten(g) == g[0] + rest;
    if r > 0 {
      FlattenAt(tail, rows - 1, cols, r - 1, c);
      var k := (r - 1) * cols + c;
      RowMajorStep(cols, r, c);
      assert rest[k] == g[r][c];
      assert (g[0] + rest)[|g[0]| + k] == rest[k];
    }
  }

  /** Every position p of the flattening is entry (p / cols, p % cols). */
  lemma FlattenAtPosition<T>(g: seq<seq<T>>, rows: nat, cols: nat, p: nat)
    requires IsGrid(g, rows, cols) && p < rows * cols
    ensures cols > 0 && p / cols < rows && |Flatten(g)| == rows * cols
    ensures Flatten(g)[p] == g[p / cols][p % cols]
  {
    assert cols > 0;
    var r, c := p / cols, p % cols;
    assert p == r * cols + c;
    if rows <= r {
      Arith.MulMonotone(rows, r, cols);
    }
    FlattenAt(g, rows, cols, r, c);
  }

  /** TrueIndices lists exactly the true positions, strictly increasing. */
  lemma {:induction false} TrueIndicesExact(keep: seq<bool>)
    ensures |TrueIndices(keep)| == CountTrue(keep)
    ensures forall j :: 0 <= j < |TrueIndices(keep)| ==>
      TrueIndices(keep)[j] < |keep| && keep[TrueIndices(keep)[j]]
    ensures forall j, k :: 0 <= j < k < |TrueIndices(keep)| ==>
      TrueIndices(keep)[j] < TrueIndices(keep)[k]
    ensures forall i :: 0 <= i < |keep| && keep[i] ==> i in TrueIndices(keep)
  {
    if |keep| > 0 {
      var n := |keep| - 1;
      var front := keep[..n];
      TrueIndicesExact(front);
      var idx := TrueIndices(front);
      var last: seq<nat> := if keep[n] then [n] else [];
      var all := TrueIndices(keep);
      assert all == idx + last;
      forall j | 0 <= j < |all| ensures all[j] < |keep| && keep[all[j]] {
        if j < |idx| {
          assert all[j] == idx[j];
          assert front[idx[j]] == keep[idx[j]];
        }
      }
      forall j, k | 0 <= j < k < |all| ensures all[j] < all[k] {
        if k < |idx| {
          assert all[j] == idx[j] && all[k] == idx[k];
        } else {
          assert all[j] == idx[j];
        }
      }
      forall i | 0 <= i < |keep| && keep[i] ensures i in all {
        if i < n {
          assert front[i] == keep[i];
          assert i in idx;
        } else {
          assert all[|idx|] == i;
        }
      }
    }
  }

  /** The selection keeps one value per true flag, namely the value at that position. */
  lemma {:induction false} SelectExact<T>(vals: seq<T>, keep: seq<bool>)
    requires |vals| == |keep|
    ensures |Select(vals, keep)| == |TrueIndices(keep)| == CountTrue(keep)
    ensures forall j :: 0 <= j < |Select(vals, keep)| ==>
      TrueIndices(keep)[j] < |vals| && Select(vals, keep)[j] == vals[TrueIndices(keep)[j]]
  {
    TrueIndicesExact(keep);
    if |keep| > 0 {
      var n := |keep| - 1;
      SelectExact(vals[..n], keep[..n]);
      TrueIndicesExact(keep[..n]);
      var s := Select(vals[..n], keep[..n]);
      var idx := TrueIndices(keep[..n]);
      forall j | 0 <= j < |Select(vals, keep)|
        ensures Select(vals, keep)[j] == vals[TrueIndices(keep)[j]]
      {
        if j < |s| {
          assert Select(vals, keep)[j] == s[j];
          assert TrueIndices(keep)[j] == idx[j];
          assert vals[..n][idx[j]] == vals[idx[j]];
        }
      }
    }
  }

  lemma {:induction false} CountTrueAppend(a: seq<bool>, b: seq<bool>)
    ensures CountTrue(a + b) == CountTrue(a) + CountTrue(b)
  {
    if |b| > 0 {
      var n := |b| - 1;
      assert (a + b)[..|a + b| - 1] == a + b[..n];
      CountTrueAppend(a, b[..n]);
    } else {
      assert a + b == a;
    }
  }

  /** Number of true cells of a boolean grid, counted row by row. */
  function CountCells(mask: seq<seq<bool>>): nat
  {
    if |mask| == 0 then 0 else CountTrue(mask[0]) + CountCells(mask[1..])
  }

  /** Counting the flattening counts the true cells of the grid. */
  lemma {:induction false} CountFlatten(mask: seq<seq<bool>>)
    ensures CountTrue(Flatten(mask)) == CountCells(mask)
  {
    if |mask| > 0 {
      CountTrueAppend(mask[0], Flatten(mask[1..]));
      CountFlatten(mask[1..]);
    }
  }

  /**
   * Masked selection keeps as many entries as the mask has true cells, and
   * its j-th entry is the grid entry at the j-th true cell in row-major order.
   */
  lemma MaskedExact<T>(g: seq<seq<T>>, mask: seq<seq<bool>>, rows: nat, cols: nat)
    requires IsGrid(g, rows, cols) && IsGrid(mask, rows, cols)
    ensures |Masked(g, mask, rows, cols)| == CountCells(mask)
    ensures |Flatten(mask)| == rows * cols
    ensures |TrueIndices(Flatten(mask))| == |Masked(g, mask, rows, cols)|
    ensures forall j :: 0 <= j < |Masked(g, mask, rows, cols)| ==>
      var p := TrueIndices(Flatten(mask))[j];
      p < rows * cols && cols > 0 && p / cols < rows && Flatten(mask)[p] &&
      Masked(g, mask, rows, cols)[j] == g[p / cols][p % cols]
  {
    FlattenLength(g, rows, cols);
    FlattenLength(mask, rows, cols);
    SelectExact(Flatten(g), Flatten(mask));
    TrueIndicesExact(Flatten(mask));
    CountFlatten(mask);
    forall j | 0 <= j < |Masked(g, mask, rows, cols)|
      ensures var p := TrueIndices(Flatten(mask))[j];
        cols > 0 && p / cols < rows && Masked(g, mask, rows, cols)[j] == g[p / cols][p % cols]
    {
      var p := TrueIndices(Flatten(mask))[j];
      FlattenAtPosition(g, rows, cols, p);
    }
  }

  /** Conversely, every true cell of the mask contributes its grid entry. */
  lemma MaskedKeepsEveryTrueCell<T>(g: seq<seq<T>>, mask: seq<seq<bool>>, rows: nat, cols: nat, r: nat, c: nat)
    requires IsGrid(g, rows, cols) && IsGrid(mask, rows, cols)
    requires r < rows && c < cols && mask[r][c]
    ensures exists j :: 0 <= j < |Masked(g, mask, rows, cols)| && Masked(g, mask, rows, cols)[j] == g[r][c]
  {
    FlattenAt(g, rows, cols, r, c);
    FlattenAt(mask, rows, cols, r, c);
    var p := r * cols + c;
    TrueIndicesExact(Flatten(mask));
    SelectExact(Flatten(g), Flatten(mask));
    var idx := TrueIndices(Flatten(mask));
    assert p in idx;
    var j :| 0 <= j < |idx| && idx[j] == p;
    assert Masked(g, mask, rows, cols)[j] == g[r][c];
  }
}
