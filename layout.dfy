/** The two-column plot grid of a topic (Economics_DashBoard.py:430-439): the number of
    grid rows and, for each plot, the row and the column it is drawn in. */
module Layout {
  const PlotsPerRow: nat := 2

  /** Plot number `plot` goes in column `column` of grid row `row`. */
  datatype Slot = Slot(row: nat, column: nat, plot: nat)

  /** `(num_plots + plots_per_row - 1) // plots_per_row`: the fewest rows that hold every
      plot. */
  function RowCount(numPlots: nat): (rows: nat)
    ensures rows * PlotsPerRow >= numPlots
    ensures rows > 0 ==> (rows - 1) * PlotsPerRow < numPlots
  {
    (numPlots + PlotsPerRow - 1) / PlotsPerRow
  }

  /** Lines 434-439: the nested loop over rows and columns, stopping a row early once the
      plot index passes the last plot. Every plot is placed exactly once, in order, at row
      `k / 2` and column `k % 2`, inside the grid. */
  method LayoutPlots(numPlots: nat) returns (rows: nat, slots: seq<Slot>)
    ensures rows == RowCount(numPlots)
    ensures |slots| == numPlots
    ensures forall k | 0 <= k < |slots| ::
      slots[k] == Slot(k / PlotsPerRow, k % PlotsPerRow, k) && slots[k].row < rows
  {
    rows := (numPlots + PlotsPerRow - 1) / PlotsPerRow;
    slots := [];
    var row := 0;
    while row < rows
      invariant 0 <= row <= rows
      invariant |slots| == if row * PlotsPerRow <= numPlots then row * PlotsPerRow else numPlots
      invariant forall k | 0 <= k < |slots| ::
        slots[k] == Slot(k / PlotsPerRow, k % PlotsPerRow, k) && slots[k].row < row
    {
      var idx := 0;
      while idx < PlotsPerRow
        invariant 0 <= idx <= PlotsPerRow
        invariant |slots| == row * PlotsPerRow + idx <= numPlots
        invariant forall k | 0 <= k < |slots| ::
          slots[k] == Slot(k / PlotsPerRow, k % PlotsPerRow, k) && slots[k].row <= row
      {
        var plotIdx := row * PlotsPerRow + idx;
        if plotIdx >= numPlots {
          break;
        }
        slots := slots + [Slot(row, idx, plotIdx)];
        idx := idx + 1;
      }
      row := row + 1;
    }
  }
}
