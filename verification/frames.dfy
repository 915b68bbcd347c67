/** The pandas data frames the Python code passes around: row labels with an
    optional index name, column names, and the cells row by row. */
module Frames {
  import opened Results
  import opened Tables

  datatype Frame<L, T> = Frame(index: seq<L>, indexName: Option<string>, columns: seq<string>, cells: seq<seq<T>>)
  {
    /** One row per index label and one cell per column in every row. */
    predicate WellFormed() {
      |cells| == |index| && Rectangular(cells, |columns|)
    }
  }
}
