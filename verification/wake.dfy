/** The square occupancy grid of the wake simulation: `dim` by `dim` cells
    of `resolution` metres, centred on the origin, read and written through
    real-valued row and column coordinates that are truncated to cells. */
module Wake {
  import opened Wrappers
  import opened Utils

  /** `astype(int)`: truncation toward zero. */
  function Trunc(r: real): (n: int)
    ensures r >= 0.0 ==> n >= 0 && n as real <= r < n as real + 1.0
  {
    if r >= 0.0 then r.Floor else -((-r).Floor)
  }

  /** Offsetting a quotient and removing the offset before scaling back
      gives the number itself. */
  lemma ScaleBack(v: real, res: real, half: real)
    requires res != 0.0
    ensures ((half + v / res) - half) * res == v
  {
    var q := v / res;
    assert (half + q) - half == q;
    assert q * res == v;
  }

  /** And the other way round. */
  lemma ScaleThere(v: real, res: real, half: real)
    requires res != 0.0
    ensures half + ((v - half) * res) / res == v
  {
    var p := v - half;
    assert (p * res) / res == p;
  }

  class Grid {
    const dim: nat
    const resolution: real
    var grid: array2<real>

    /** The buffer has the grid's shape. */
    ghost predicate Valid()
      reads this
    {
      grid.Length0 == dim && grid.Length1 == dim
    }

    /** `__init__`: every cell 0. */
    constructor (dim: nat, resolution: real)
      ensures this.dim == dim && this.resolution == resolution
      ensures Valid() && fresh(grid)
      ensures forall r, c :: 0 <= r < dim && 0 <= c < dim ==> grid[r, c] == 0.0
    {
      this.dim := dim;
      this.resolution := resolution;
      grid := new real[dim, dim]((r, c) => 0.0);
    }

    /** `xy_to_grid`: `(row, col)` of a point, the column from `x` and the
        row from `y`, both counted from the centre cell. */
    function XyToGrid(x: real, y: real): (real, real)
      requires resolution != 0.0
    {
      (dim as real / 2.0 + y / resolution, dim as real / 2.0 + x / resolution)
    }

    /** `grid_to_xy`: the point of `(row, col)`, the first coordinate from
        the row and the second from the column. */
    function GridToXy(row: real, col: real): (real, real)
    {
      ((row - dim as real / 2.0) * resolution, (col - dim as real / 2.0) * resolution)
    }

    /** The two conversions are not inverse: each composition swaps the
        coordinates, because one reads the point as `(x, y)` and the other
        returns `(row, col)`-ordered values. */
    lemma ConversionsSwap(x: real, y: real, row: real, col: real)
      requires resolution != 0.0
      ensures GridToXy(XyToGrid(x, y).0, XyToGrid(x, y).1) == (y, x)
      ensures XyToGrid(GridToXy(row, col).0, GridToXy(row, col).1) == (col, row)
    {
      var half := dim as real / 2.0;
      ScaleBack(y, resolution, half);
      ScaleBack(x, resolution, half);
      assert GridToXy(XyToGrid(x, y).0, XyToGrid(x, y).1).0 == ((half + y / resolution) - half) * resolution;
      assert GridToXy(XyToGrid(x, y).0, XyToGrid(x, y).1).1 == ((half + x / resolution) - half) * resolution;
      ScaleThere(row, resolution, half);
      ScaleThere(col, resolution, half);
      assert XyToGrid(GridToXy(row, col).0, GridToXy(row, col).1).0 == half + ((col - half) * resolution) / resolution;
      assert XyToGrid(GridToXy(row, col).0, GridToXy(row, col).1).1 == half + ((row - half) * resolution) / resolution;
      assert XyToGrid(GridToXy(row, col).0, GridToXy(row, col).1).0 == col;
      assert XyToGrid(GridToXy(row, col).0, GridToXy(row, col).1).1 == row;
    }

    /** Whether one coordinate lies outside `[0, dim)`. */
    predicate Outside(v: real) {
      v < 0.0 || v >= dim as real
    }

    /** `_out_of_bounds`: any row or any column of the batch outside. */
    predicate OutOfBounds(rows: seq<real>, cols: seq<real>) {
      (exists i :: 0 <= i < |cols| && Outside(cols[i])) || (exists i :: 0 <= i < |rows| && Outside(rows[i]))
    }

    /** In bounds, every coordinate of the batch truncates to a cell. */
    lemma InBoundsCells(rows: seq<real>, cols: seq<real>, i: nat)
      requires !OutOfBounds(rows, cols) && i < |rows| && i < |cols|
      ensures 0 <= Trunc(rows[i]) < dim && 0 <= Trunc(cols[i]) < dim
    {
      assert !Outside(rows[i]) && !Outside(cols[i]);
    }

    /** Whether cell `(r, c)` is one the batch names. */
    predicate Hits(rows: seq<real>, cols: seq<real>, r: int, c: int)
      requires |rows| == |cols|
    {
      exists i :: 0 <= i < |rows| && Trunc(rows[i]) == r && Trunc(cols[i]) == c
    }

    /** `get`: nothing if any coordinate is outside, otherwise the cell of
        each point of the batch. */
    function Get(rows: seq<real>, cols: seq<real>): (r: Option<seq<real>>)
      requires Valid() && |rows| == |cols|
      reads this, grid
      ensures r.None? <==> OutOfBounds(rows, cols)
      ensures r.Some? ==> |r.value| == |rows|
      ensures r.Some? ==> forall i :: 0 <= i < |rows| ==>
                (0 <= Trunc(rows[i]) < dim && 0 <= Trunc(cols[i]) < dim &&
                 r.value[i] == grid[Trunc(rows[i]), Trunc(cols[i])])
    {
      if OutOfBounds(rows, cols) then None
      else
        assert forall i :: 0 <= i < |rows| ==> !Outside(rows[i]) && !Outside(cols[i]);
        var g := grid;
        Some(seq(|rows|, i requires 0 <= i < |rows| && !Outside(rows[i]) && !Outside(cols[i]) reads g =>
          g[Trunc(rows[i]), Trunc(cols[i])]))
    }

    /** The value cell `(r, c)` holds once the batch has been written in
        order over `dflt`: that of the last point naming it. */
    function Written(rows: seq<real>, cols: seq<real>, values: seq<real>, r: int, c: int, dflt: real): real
      requires |rows| == |cols| == |values|
      decreases |rows|
    {
      if |rows| == 0 then dflt
      else
        var k := |rows| - 1;
        if Trunc(rows[k]) == r && Trunc(cols[k]) == c then values[k]
        else Written(rows[..k], cols[..k], values[..k], r, c, dflt)
    }

    /** No two points of the batch name the same cell, as for the listing
        of `coordinates`. */
    predicate Distinct(rows: seq<real>, cols: seq<real>)
      requires |rows| == |cols|
    {
      forall i, j :: 0 <= i < j < |rows| ==> Trunc(rows[i]) != Trunc(rows[j]) || Trunc(cols[i]) != Trunc(cols[j])
    }

    /** A cell no point names keeps its value. */
    lemma {:induction false} WrittenMissed(rows: seq<real>, cols: seq<real>, values: seq<real>, r: int, c: int, dflt: real)
      requires |rows| == |cols| == |values| && !Hits(rows, cols, r, c)
      ensures Written(rows, cols, values, r, c, dflt) == dflt
      decreases |rows|
    {
      if |rows| > 0 {
        var k := |rows| - 1;
        forall i | 0 <= i < k
          ensures Trunc(rows[..k][i]) != r || Trunc(cols[..k][i]) != c
        {
          assert rows[..k][i] == rows[i] && cols[..k][i] == cols[i];
        }
        WrittenMissed(rows[..k], cols[..k], values[..k], r, c, dflt);
      }
    }

    /** A cell takes the value of the last point naming it. */
    lemma {:induction false} WrittenLast(rows: seq<real>, cols: seq<real>, values: seq<real>, r: int, c: int, dflt: real, i: nat)
      requires |rows| == |cols| == |values| && i < |rows|
      requires Trunc(rows[i]) == r && Trunc(cols[i]) == c
      requires forall j :: i < j < |rows| ==> Trunc(rows[j]) != r || Trunc(cols[j]) != c
      ensures Written(rows, cols, values, r, c, dflt) == values[i]
      decreases |rows|
    {
      var k := |rows| - 1;
      if i < k {
        assert rows[..k][i] == rows[i] && cols[..k][i] == cols[i];
        forall j | i < j < k
          ensures Trunc(rows[..k][j]) != r || Trunc(cols[..k][j]) != c
        {
          assert rows[..k][j] == rows[j] && cols[..k][j] == cols[j];
        }
        WrittenLast(rows[..k], cols[..k], values[..k], r, c, dflt, i);
        assert values[..k][i] == values[i];
      }
    }

    /** Writing one value everywhere: the cells named take it, the others
        keep theirs. */
    lemma {:induction false} WrittenConstant(rows: seq<real>, cols: seq<real>, values: seq<real>, value: real, r: int, c: int, dflt: real)
      requires |rows| == |cols| == |values|
      requires forall i :: 0 <= i < |values| ==> values[i] == value
      ensures Written(rows, cols, values, r, c, dflt) == if Hits(rows, cols, r, c) then value else dflt
      decreases |rows|
    {
      if !Hits(rows, cols, r, c) {
        WrittenMissed(rows, cols, values, r, c, dflt);
      } else if |rows| > 0 {
        var k := |rows| - 1;
        if Trunc(rows[k]) != r || Trunc(cols[k]) != c {
          var i :| 0 <= i < |rows| && Trunc(rows[i]) == r && Trunc(cols[i]) == c;
          assert i < k;
          assert rows[..k][i] == rows[i] && cols[..k][i] == cols[i];
          assert Hits(rows[..k], cols[..k], r, c);
          forall j | 0 <= j < k
            ensures values[..k][j] == value
          {
            assert values[..k][j] == values[j];
          }
          WrittenConstant(rows[..k], cols[..k], values[..k], value, r, c, dflt);
        }
      }
    }

    /** `set` with one value per point, as the simulation writes its
        wave heights: with any coordinate outside nothing is written;
        otherwise the points are written in order, so each named cell holds
        the value of the last point naming it and no other cell changes.
        When no two points share a cell a `get` of the batch reads the
        values back. */
    method SetEach(rows: seq<real>, cols: seq<real>, values: seq<real>)
      requires Valid() && |rows| == |cols| == |values|
      modifies grid
      ensures Valid()
      ensures OutOfBounds(rows, cols) ==> forall r, c :: 0 <= r < dim && 0 <= c < dim ==> grid[r, c] == old(grid[r, c])
      ensures !OutOfBounds(rows, cols) ==> forall r, c :: 0 <= r < dim && 0 <= c < dim ==>
                grid[r, c] == Written(rows, cols, values, r, c, old(grid[r, c]))
      ensures !OutOfBounds(rows, cols) && Distinct(rows, cols) ==> Get(rows, cols) == Some(values)
    {
      if OutOfBounds(rows, cols) {
        return;
      }
      var k := 0;
      while k < |rows|
        invariant k <= |rows|
        invariant forall r, c :: 0 <= r < dim && 0 <= c < dim ==>
                    grid[r, c] == Written(rows[..k], cols[..k], values[..k], r, c, old(grid[r, c]))
      {
        InBoundsCells(rows, cols, k);
        var r0, c0 := Trunc(rows[k]), Trunc(cols[k]);
        grid[r0, c0] := values[k];
        assert rows[..k + 1][..k] == rows[..k] && cols[..k + 1][..k] == cols[..k] && values[..k + 1][..k] == values[..k];
        assert rows[..k + 1][k] == rows[k] && cols[..k + 1][k] == cols[k] && values[..k + 1][k] == values[k];
        k := k + 1;
      }
      assert rows[..k] == rows && cols[..k] == cols && values[..k] == values;
      if Distinct(rows, cols) {
        forall i | 0 <= i < |rows|
          ensures Get(rows, cols).value[i] == values[i]
        {
          InBoundsCells(rows, cols, i);
          WrittenLast(rows, cols, values, Trunc(rows[i]), Trunc(cols[i]), old(grid[Trunc(rows[i]), Trunc(cols[i])]), i);
        }
        assert Get(rows, cols).value == values;
      }
    }

    /** `set` with one value for the whole batch: with any coordinate
        outside nothing is written; otherwise every named cell takes
        `value` and no other cell changes, so a `get` of the same batch
        then reads `value` everywhere. */
    method Set(rows: seq<real>, cols: seq<real>, value: real)
      requires Valid() && |rows| == |cols|
      modifies grid
      ensures Valid()
      ensures OutOfBounds(rows, cols) ==> forall r, c :: 0 <= r < dim && 0 <= c < dim ==> grid[r, c] == old(grid[r, c])
      ensures !OutOfBounds(rows, cols) ==> forall r, c :: 0 <= r < dim && 0 <= c < dim ==>
                grid[r, c] == if Hits(rows, cols, r, c) then value else old(grid[r, c])
      ensures !OutOfBounds(rows, cols) ==> Get(rows, cols) == Some(seq(|rows|, i => value))
    {
      var values := seq(|rows|, i => value);
      SetEach(rows, cols, values);
      if !OutOfBounds(rows, cols) {
        forall r, c | 0 <= r < dim && 0 <= c < dim
          ensures grid[r, c] == if Hits(rows, cols, r, c) then value else old(grid[r, c])
        {
          WrittenConstant(rows, cols, values, value, r, c, old(grid[r, c]));
        }
        forall i | 0 <= i < |rows|
          ensures Get(rows, cols).value[i] == value
        {
          InBoundsCells(rows, cols, i);
          assert Hits(rows, cols, Trunc(rows[i]), Trunc(cols[i]));
        }
        assert Get(rows, cols).value == values;
      }
    }

    /** `clear`: a fresh buffer of the same shape, all 0. */
    method Clear()
      requires Valid()
      modifies this
      ensures Valid() && fresh(grid)
      ensures forall r, c :: 0 <= r < dim && 0 <= c < dim ==> grid[r, c] == 0.0
    {
      grid := new real[dim, dim]((r, c) => 0.0);
    }

    /** `coordinates`: every `(r, c)` pair of the grid, the first component
        varying fastest, as `meshgrid` and `reshape` lay them out. */
    function Coordinates(): (cs: seq<(nat, nat)>)
      ensures |cs| == dim * dim
      ensures forall k :: 0 <= k < |cs| ==> cs[k].0 < dim && cs[k].1 < dim
    {
      seq(dim * dim, k requires 0 <= k < dim * dim => CellOf(k))
    }

    /** The `k`-th pair of the listing. */
    function CellOf(k: nat): (p: (nat, nat))
      requires k < dim * dim
      ensures p.0 < dim && p.1 < dim && k == p.1 * dim + p.0
    {
      DivBelow(k, dim, dim);
      (k % dim, k / dim)
    }

    /** Every cell of the grid is listed, `(r, c)` at position `c * dim + r`. */
    lemma CoordinatesComplete(r: nat, c: nat)
      requires r < dim && c < dim
      ensures c * dim + r < dim * dim && Coordinates()[c * dim + r] == (r, c)
    {
      MulMono(c + 1, dim, dim);
      DivModUnique(c * dim + r, dim, c, r);
    }

    /** And no cell is listed twice. */
    lemma CoordinatesDistinct(i: nat, j: nat)
      requires i < j < dim * dim
      ensures Coordinates()[i] != Coordinates()[j]
    {
    }
  }
}
