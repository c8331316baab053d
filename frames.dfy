/** The tabular data the formatter works on: a results table as a value, and
    the mutable data frame whose row index `export_to_latex` rewrites in place. */
module Frames {

  /** One cell of a results table: a formatted string, or missing (pandas NaN). */
  datatype Cell = Missing | Filled(text: string)

  /** A results table: row labels, column names (one per model) and the cells,
      row by row. */
  datatype Table = Table(index: seq<string>, columns: seq<string>, cells: seq<seq<Cell>>) {
    /** One row of cells per label, one cell per column. */
    predicate WellFormed() {
      && |cells| == |index|
      && forall r :: 0 <= r < |cells| ==> |cells[r]| == |columns|
    }
  }

  /** A pandas data frame as the formatter sees it. Its fields are updated in
      place, so a caller holding the same frame observes the change. */
  class DataFrame {
    var index: seq<string>
    var columns: seq<string>
    var cells: seq<seq<Cell>>

    ghost predicate Valid()
      reads this
    {
      Table(index, columns, cells).WellFormed()
    }

    /** `pd.DataFrame(...)` built from a table value. */
    constructor (t: Table)
      requires t.WellFormed()
      ensures Valid()
      ensures index == t.index && columns == t.columns && cells == t.cells
    {
      index, columns, cells := t.index, t.columns, t.cells;
    }
  }
}
