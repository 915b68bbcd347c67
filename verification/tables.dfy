/** Tables as sequences of rows: the shape of a matrix and its columns. */
module Tables {

  /** Every row has `width` cells. */
  predicate Rectangular<T>(rows: seq<seq<T>>, width: nat) {
    forall j :: 0 <= j < |rows| ==> |rows[j]| == width
  }

  /** Column `i` of a table: the i-th cell of every row, top to bottom. */
  function Column<T>(rows: seq<seq<T>>, i: nat): (col: seq<T>)
    requires forall j :: 0 <= j < |rows| ==> i < |rows[j]|
    ensures |col| == |rows|
    ensures forall j :: 0 <= j < |rows| ==> col[j] == rows[j][i]
  {
    seq(|rows|, j requires 0 <= j < |rows| => rows[j][i])
  }
}
