/** Daily percentage returns of a price table (`compute_returns`):
    `pct_change()` followed by `dropna(how="all")`. Rows are trading days,
    columns are tickers. */
module Returns {
  import opened Cells
  import opened Frames

  /** Every present price is strictly positive, so no ratio divides by zero. */
  predicate PositivePrices(p: Table) {
    forall j, i :: 0 <= j < |p.data| && 0 <= i < |p.data[j]| && p.data[j][i].Some? ==> p.data[j][i].value > 0.0
  }

  /** `cur / prev - 1.0`, missing when either price is missing. */
  function Ratio(cur: Cell, prev: Cell): (r: Cell)
    requires prev.Some? ==> prev.value != 0.0
    ensures r.Some? <==> cur.Some? && prev.Some?
    ensures r.Some? ==> (r.value + 1.0) * prev.value == cur.value
  {
    if cur.Some? && prev.Some? then
      QuotientTimesDivisor(cur.value, prev.value);
      Some(cur.value / prev.value - 1.0)
    else None
  }

  /** `Series.pct_change()`: the first row has no predecessor and is missing;
      row `t` relates the price at `t` to the price at `t - 1`. */
  function PctChange(col: seq<Cell>): (r: seq<Cell>)
    requires forall i :: 0 <= i < |col| && col[i].Some? ==> col[i].value > 0.0
    ensures |r| == |col|
    ensures |col| > 0 ==> r[0].None?
    ensures forall t :: 0 < t < |col| ==> r[t] == Ratio(col[t], col[t - 1])
  {
    seq(|col|, t requires 0 <= t < |col| => if t == 0 then None else Ratio(col[t], col[t - 1]))
  }

  /** `DataFrame.pct_change()`, column by column. */
  function PctChangeTable(p: Table): (r: Table)
    requires WellFormed(p) && PositivePrices(p)
    ensures WellFormed(r) && r.index == p.index && r.columns == p.columns
    ensures forall j :: 0 <= j < |p.columns| ==> r.data[j] == PctChange(p.data[j])
  {
    Table(p.index, p.columns, seq(|p.data|, j requires 0 <= j < |p.data| => PctChange(p.data[j])))
  }

  /** The rows of the price table that survive as return rows. */
  function ReturnRows(p: Table): (rows: seq<nat>)
    requires WellFormed(p) && PositivePrices(p)
    ensures Increasing(rows)
    ensures forall k :: 0 <= k < |rows| ==> 1 <= rows[k] < |p.index|
    ensures forall t :: 0 <= t < |p.index| ==>
      (t in rows <==> t >= 1 && exists j :: 0 <= j < |p.columns| && p.data[j][t].Some? && p.data[j][t - 1].Some?)
  {
    var r := PctChangeTable(p);
    var rows := DenseRows(r, 1);
    forall t | 0 <= t < |p.index|
      ensures Count(RowCells(r, t)) >= 1 <==>
        t >= 1 && exists j :: 0 <= j < |p.columns| && p.data[j][t].Some? && p.data[j][t - 1].Some?
    {
      CountBounds(RowCells(r, t));
    }
    forall k | 0 <= k < |rows| ensures 1 <= rows[k] {
      CountBounds(RowCells(r, rows[k]));
    }
    rows
  }

  /** `compute_returns`: the percentage changes, without the rows where
      every ticker's return is missing. */
  function ComputeReturns(p: Table): (r: Table)
    requires WellFormed(p) && PositivePrices(p)
    ensures WellFormed(r) && r.columns == p.columns
    ensures |r.index| == |ReturnRows(p)|
    ensures forall k :: 0 <= k < |r.index| ==> r.index[k] == p.index[ReturnRows(p)[k]]
    ensures forall j, k :: 0 <= j < |p.columns| && 0 <= k < |r.index| ==>
      var t := ReturnRows(p)[k];
      r.data[j][k] == Ratio(p.data[j][t], p.data[j][t - 1])
  {
    DropNa(PctChangeTable(p), 1)
  }
}
