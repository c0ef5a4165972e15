/** The elevation raster as the fetch analysis reads it. */
module Grid {

  /** A `rows x columns` grid of elevations (row 0 is the northern edge)
      with its nodata sentinel. How the raster library answers a read at a
      position off the grid is not visible to this model, so that value is
      the parameter `outside`. */
  datatype Raster = Raster(cells: seq<seq<real>>, columns: nat, nodata: real, outside: real)
  {
    function Rows(): nat
    {
      |cells|
    }

    /** Every row holds exactly `columns` cells. */
    predicate Valid()
    {
      forall r :: 0 <= r < |cells| ==> |cells[r]| == columns
    }

    predicate Contains(row: int, col: int)
    {
      0 <= row < |cells| && 0 <= col < |cells[row]|
    }

    /** The cell read `input[(row, col)]`: the stored elevation inside the
        grid, `outside` anywhere else. */
    function At(row: int, col: int): (z: real)
      ensures z != outside ==> Contains(row, col)
      ensures 0 <= row < |cells| ==> z == outside || z in cells[row]
    {
      if Contains(row, col) then cells[row][col] else outside
    }
  }

  /** Rust's float-to-integer cast `v as isize`: truncation toward zero.
      The saturation at the isize bounds is not modelled: every cast in the
      kernel applies to a value whose magnitude is below the row or column
      count (a point inside the grid, or the row `y <= 0` of the second
      read on a horizontal line), far from those bounds. */
  function AsIsize(v: real): (n: int)
    ensures v >= 0.0 ==> n >= 0 && n as real <= v < n as real + 1.0
    ensures v < 0.0 ==> n <= 0 && n as real - 1.0 < v <= n as real
  {
    if v >= 0.0 then v.Floor else -((-v).Floor)
  }
}
