/** Labelled tables with missing cells: the part of a pandas DataFrame the
    pipeline uses. A table is stored column by column: `data[j]` holds the
    cells of the column `columns[j]`, one per row label in `index`. */
module Frames {
  import opened Cells

  type Label = string

  datatype Table = Table(index: seq<Label>, columns: seq<Label>, data: seq<seq<Cell>>)

  predicate Distinct<T(==)>(s: seq<T>) {
    forall a, b :: 0 <= a < b < |s| ==> s[a] != s[b]
  }

  predicate Increasing(s: seq<nat>) {
    forall a, b :: 0 <= a < b < |s| ==> s[a] < s[b]
  }

  /** One column per label, one cell per row in every column, and no
      column label used twice. */
  predicate WellFormed(t: Table) {
    && |t.data| == |t.columns|
    && (forall j :: 0 <= j < |t.data| ==> |t.data[j]| == |t.index|)
    && Distinct(t.columns)
  }

  /** Position of the first `x` in `s`, or `|s|` when `x` does not occur. */
  function IndexOf(s: seq<Label>, x: Label): (k: nat)
    ensures k <= |s|
    ensures k < |s| <==> x in s
    ensures k < |s| ==> s[k] == x
    ensures forall a :: 0 <= a < k ==> s[a] != x
  {
    if s == [] then 0
    else if s[0] == x then 0
    else 1 + IndexOf(s[1..], x)
  }

  lemma IndexOfDistinct(s: seq<Label>, k: nat)
    requires Distinct(s) && k < |s|
    ensures IndexOf(s, s[k]) == k
  {
  }

  lemma PrefixExtends<T>(s: seq<T>, k: nat)
    requires k < |s|
    ensures s[..k + 1] == s[..k] + [s[k]]
  {
  }

  /** In a sequence without repeats, no entry occurs before its own position. */
  lemma DistinctNotBefore<T>(s: seq<T>, k: nat)
    requires Distinct(s) && k < |s|
    ensures s[k] !in s[..k]
  {
  }

  /** The cells of the column labelled `name` (`df[name]`). */
  function Column(t: Table, name: Label): (c: seq<Cell>)
    requires WellFormed(t) && name in t.columns
    ensures |c| == |t.index|
  {
    t.data[IndexOf(t.columns, name)]
  }

  /** Looking a column up by its label finds that column's cells. */
  lemma ColumnAt(t: Table, j: nat)
    requires WellFormed(t) && j < |t.columns|
    ensures Column(t, t.columns[j]) == t.data[j]
  {
    IndexOfDistinct(t.columns, j);
  }

  /** The cells of row `i`, one per column, in column order. */
  function RowCells(t: Table, i: nat): (r: seq<Cell>)
    requires WellFormed(t) && i < |t.index|
    ensures |r| == |t.columns|
    ensures forall j :: 0 <= j < |t.columns| ==> r[j] == t.data[j][i]
  {
    seq(|t.columns|, j requires 0 <= j < |t.columns| => t.data[j][i])
  }

  /** `df[name] = col`: replaces the column labelled `name` when there is
      one, and otherwise appends it as the last column. */
  function SetColumn(t: Table, name: Label, col: seq<Cell>): (r: Table)
    requires WellFormed(t) && |col| == |t.index|
    ensures WellFormed(r) && r.index == t.index
    ensures name in t.columns ==> r.columns == t.columns && r.data == t.data[IndexOf(t.columns, name) := col]
    ensures name !in t.columns ==> r.columns == t.columns + [name] && r.data == t.data + [col]
  {
    if name in t.columns then
      Table(t.index, t.columns, t.data[IndexOf(t.columns, name) := col])
    else
      Table(t.index, t.columns + [name], t.data + [col])
  }

  /** After `df[name] = col`, the column `name` holds `col`, every other
      column keeps its cells, and the labels are the old ones with `name`
      added at the end if it was new. */
  lemma SetColumnEffect(t: Table, name: Label, col: seq<Cell>)
    requires WellFormed(t) && |col| == |t.index|
    ensures var r := SetColumn(t, name, col);
      && r.columns == (if name in t.columns then t.columns else t.columns + [name])
      && name in r.columns && Column(r, name) == col
      && forall c :: c in t.columns && c != name ==> c in r.columns && Column(r, c) == Column(t, c)
  {
    var r := SetColumn(t, name, col);
    ColumnAt(r, IndexOf(r.columns, name));
    forall c | c in t.columns && c != name ensures c in r.columns && Column(r, c) == Column(t, c) {
      var j := IndexOf(t.columns, c);
      ColumnAt(t, j);
      ColumnAt(r, j);
    }
  }

  /** The rows at positions `ks`, in that order, with all columns kept
      (row selection with `iloc`, and what a filter or a sort leaves). */
  function SelectRows(t: Table, ks: seq<nat>): (r: Table)
    requires WellFormed(t)
    requires forall k :: 0 <= k < |ks| ==> ks[k] < |t.index|
    ensures WellFormed(r) && r.columns == t.columns && |r.index| == |ks|
    ensures forall k :: 0 <= k < |ks| ==> r.index[k] == t.index[ks[k]]
    ensures forall j, k :: 0 <= j < |t.columns| && 0 <= k < |ks| ==> r.data[j][k] == t.data[j][ks[k]]
  {
    Table(seq(|ks|, k requires 0 <= k < |ks| => t.index[ks[k]]),
          t.columns,
          seq(|t.columns|, j requires 0 <= j < |t.columns| =>
            seq(|ks|, k requires 0 <= k < |ks| => t.data[j][ks[k]])))
  }

  /** Positions of the `true` entries of a row mask, in increasing order:
      the rows a boolean filter keeps. */
  function Where(mask: seq<bool>): (r: seq<nat>)
    ensures Increasing(r)
    ensures forall k :: 0 <= k < |r| ==> r[k] < |mask| && mask[r[k]]
    ensures forall i :: 0 <= i < |mask| && mask[i] ==> i in r
  {
    if mask == [] then []
    else
      var rest := Where(mask[..|mask| - 1]);
      if mask[|mask| - 1] then rest + [|mask| - 1] else rest
  }

  /** The rows with at least `thresh` present cells, in their original
      order: the rows `dropna(thresh=...)` keeps (`how="all"` is `thresh=1`). */
  function DenseRows(t: Table, thresh: nat): (r: seq<nat>)
    requires WellFormed(t)
    ensures Increasing(r)
    ensures forall k :: 0 <= k < |r| ==> r[k] < |t.index|
    ensures forall i :: 0 <= i < |t.index| ==> (i in r <==> Count(RowCells(t, i)) >= thresh)
  {
    var mask := seq(|t.index|, i requires 0 <= i < |t.index| => Count(RowCells(t, i)) >= thresh);
    var r := Where(mask);
    assert forall i :: 0 <= i < |t.index| ==> mask[i] == (Count(RowCells(t, i)) >= thresh);
    r
  }

  /** `dropna(thresh=...)` on rows. */
  function DropNa(t: Table, thresh: nat): (r: Table)
    requires WellFormed(t)
    ensures WellFormed(r) && r.columns == t.columns
    ensures |r.index| == |DenseRows(t, thresh)| <= |t.index|
    ensures forall k :: 0 <= k < |r.index| ==> r.index[k] == t.index[DenseRows(t, thresh)[k]]
    ensures forall j, k :: 0 <= j < |t.columns| && 0 <= k < |r.index| ==>
      r.data[j][k] == t.data[j][DenseRows(t, thresh)[k]]
  {
    var rows := DenseRows(t, thresh);
    IncreasingBelowIsShort(rows, |t.index|);
    SelectRows(t, rows)
  }

  /** A strictly increasing sequence of positions below `n` has at most
      `n` entries. */
  lemma {:induction false} IncreasingBelowIsShort(s: seq<nat>, n: nat)
    requires Increasing(s)
    requires forall k :: 0 <= k < |s| ==> s[k] < n
    ensures |s| <= n
  {
    if s != [] {
      var m := s[|s| - 1];
      var init := s[..|s| - 1];
      assert forall k :: 0 <= k < |init| ==> init[k] < m by {
        forall k | 0 <= k < |init| ensures init[k] < m {
          assert init[k] == s[k];
        }
      }
      IncreasingBelowIsShort(init, m);
    }
  }
}
