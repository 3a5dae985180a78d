/** `compute_factor_table`: five raw factors per ticker (6-month momentum,
    3-month volatility, two value factors and size), the tickers with too
    few of them dropped, and a z-scored copy of every factor appended. */
module Factors {
  import opened Cells
  import opened Frames
  import opened Returns
  import opened ZScores

  /** Trading days in six months (`trading_days_6m`). */
  const MomentumDays: nat := 126
  /** Trading days in three months (`trading_days_3m`). */
  const VolatilityDays: nat := 63
  /** Rows of price history required before anything is computed. */
  const MinHistory: nat := MomentumDays + 5
  /** Raw factors a ticker needs to keep its row. */
  const MinFactors: nat := 3

  const FactorNames: seq<Label> := ["momentum_6m", "vol_3m", "value_pe", "value_pb", "size"]

  datatype Error = InsufficientHistory
  datatype Result<T> = Success(value: T) | Failure(error: Error)

  /** One row of the fundamentals table. */
  datatype Fundamentals = Fundamentals(trailingPe: Cell, priceToBook: Cell, marketCap: Cell)

  /** The fundamentals table, keyed by ticker. */
  type FundamentalsTable = map<Label, Fundamentals>

  const NoFundamentals := Fundamentals(None, None, None)

  /** The fundamentals of ticker `t` after `reindex`. */
  function FundamentalsOf(fundamentals: FundamentalsTable, t: Label): Fundamentals {
    if t in fundamentals then fundamentals[t] else NoFundamentals
  }

  /** `fundamentals.reindex(tickers)`: one row per ticker, in the tickers'
      order; a ticker without a row gets all-missing fundamentals. */
  function Reindex(f: FundamentalsTable, tickers: seq<Label>): (r: seq<Fundamentals>)
    ensures |r| == |tickers|
    ensures forall i :: 0 <= i < |tickers| && tickers[i] in f ==> r[i] == f[tickers[i]]
    ensures forall i :: 0 <= i < |tickers| && tickers[i] !in f ==> r[i] == NoFundamentals
  {
    seq(|tickers|, i requires 0 <= i < |tickers| => FundamentalsOf(f, tickers[i]))
  }

  /** `last_price / price_6m_ago - 1.0` per ticker, with the last price at
      row `len - 1` and the lagged price at row `len - 126`
      (`iloc[-126]`). */
  function Momentum(p: Table): (r: seq<Cell>)
    requires WellFormed(p) && PositivePrices(p) && |p.index| >= MomentumDays
    ensures |r| == |p.columns|
    ensures forall j :: 0 <= j < |p.columns| ==>
      r[j] == Ratio(p.data[j][|p.index| - 1], p.data[j][|p.index| - MomentumDays])
  {
    var n := |p.index|;
    seq(|p.columns|, j requires 0 <= j < |p.columns| => Ratio(p.data[j][n - 1], p.data[j][n - MomentumDays]))
  }

  /** `Series.tail(k)`: the last `k` cells, or all of them when there are
      fewer. */
  function Tail(s: seq<Cell>, k: nat): (r: seq<Cell>)
    ensures |r| == if |s| <= k then |s| else k
    ensures s == s[..|s| - |r|] + r
  {
    if |s| <= k then s else s[|s| - k..]
  }

  /** `rets.tail(63).std()`: the sample standard deviation (ddof 1) of each
      ticker's last 63 returns. */
  function Volatility(rets: Table, sqrt: real -> real): (r: seq<Cell>)
    requires WellFormed(rets) && IsSqrt(sqrt)
    ensures |r| == |rets.columns|
    ensures forall j :: 0 <= j < |rets.columns| ==>
      var w := Tail(rets.data[j], VolatilityDays);
      && (r[j].Some? <==> Count(w) >= 2)
      && (r[j].Some? ==> 0.0 <= r[j].value && Sq(r[j].value) * ((Count(w) - 1) as real) == SumSqDev(w, Mean(w)))
  {
    seq(|rets.columns|, j requires 0 <= j < |rets.columns| => Std(Tail(rets.data[j], VolatilityDays), 1, sqrt))
  }

  /** Minus each value; missing stays missing. */
  function Negated(s: seq<Cell>): (r: seq<Cell>)
    ensures |r| == |s|
    ensures forall i :: 0 <= i < |s| ==> (r[i].Some? <==> s[i].Some?)
    ensures forall i :: 0 <= i < |s| && s[i].Some? ==> r[i].value == -s[i].value
  {
    seq(|s|, i requires 0 <= i < |s| => Negate(s[i]))
  }

  /** `np.log(market_cap)` for a present, positive market cap; missing
      otherwise. */
  function LogCap(cap: Cell, ln: real -> real): (r: Cell)
    ensures r.Some? <==> cap.Some? && cap.value > 0.0
    ensures r.Some? ==> r.value == ln(cap.value)
  {
    if cap.Some? && cap.value > 0.0 then Some(ln(cap.value)) else None
  }

  /** `value_pe = -fundamentals["trailing_pe"]`, per ticker. */
  function ValuePe(fundamentals: FundamentalsTable, tickers: seq<Label>): (r: seq<Cell>)
    ensures |r| == |tickers|
    ensures forall i :: 0 <= i < |tickers| ==>
      var pe := FundamentalsOf(fundamentals, tickers[i]).trailingPe;
      (r[i].Some? <==> pe.Some?) && (r[i].Some? ==> r[i].value == -pe.value)
  {
    var aligned := Reindex(fundamentals, tickers);
    Negated(seq(|tickers|, i requires 0 <= i < |tickers| => aligned[i].trailingPe))
  }

  /** `value_pb = -fundamentals["price_to_book"]`, per ticker. */
  function ValuePb(fundamentals: FundamentalsTable, tickers: seq<Label>): (r: seq<Cell>)
    ensures |r| == |tickers|
    ensures forall i :: 0 <= i < |tickers| ==>
      var pb := FundamentalsOf(fundamentals, tickers[i]).priceToBook;
      (r[i].Some? <==> pb.Some?) && (r[i].Some? ==> r[i].value == -pb.value)
  {
    var aligned := Reindex(fundamentals, tickers);
    Negated(seq(|tickers|, i requires 0 <= i < |tickers| => aligned[i].priceToBook))
  }

  /** `size = np.log(fundamentals["market_cap"])`, per ticker. */
  function Size(fundamentals: FundamentalsTable, tickers: seq<Label>, ln: real -> real): (r: seq<Cell>)
    ensures |r| == |tickers|
    ensures forall i :: 0 <= i < |tickers| ==>
      var cap := FundamentalsOf(fundamentals, tickers[i]).marketCap;
      (r[i].Some? <==> cap.Some? && cap.value > 0.0) && (r[i].Some? ==> r[i].value == ln(cap.value))
  {
    var aligned := Reindex(fundamentals, tickers);
    seq(|tickers|, i requires 0 <= i < |tickers| => LogCap(aligned[i].marketCap, ln))
  }

  /** The factor table before filtering: one row per ticker of the price
      table, in its order, and the five factors as columns. */
  function RawFactors(prices: Table, fundamentals: FundamentalsTable, sqrt: real -> real, ln: real -> real): (r: Table)
    requires WellFormed(prices) && PositivePrices(prices) && IsSqrt(sqrt)
    requires |prices.index| >= MinHistory
    ensures WellFormed(r) && r.index == prices.columns && r.columns == FactorNames
    ensures r.data == [Momentum(prices), Volatility(ComputeReturns(prices), sqrt),
      ValuePe(fundamentals, prices.columns), ValuePb(fundamentals, prices.columns),
      Size(fundamentals, prices.columns, ln)]
  {
    FactorNamesPlain();
    var tickers := prices.columns;
    var m, v := Momentum(prices), Volatility(ComputeReturns(prices), sqrt);
    var pe, pb, sz := ValuePe(fundamentals, tickers), ValuePb(fundamentals, tickers), Size(fundamentals, tickers, ln);
    var data := [m, v, pe, pb, sz];
    FiveColumns(tickers, m, v, pe, pb, sz);
    Table(tickers, FactorNames, data)
  }

  lemma FiveColumns(index: seq<Label>, a: seq<Cell>, b: seq<Cell>, c: seq<Cell>, d: seq<Cell>, e: seq<Cell>)
    requires |a| == |b| == |c| == |d| == |e| == |index|
    ensures forall j :: 0 <= j < 5 ==> |[a, b, c, d, e][j]| == |index|
  {
    forall j | 0 <= j < 5 ensures |[a, b, c, d, e][j]| == |index| {
      assert j == 0 || j == 1 || j == 2 || j == 3 || j == 4;
    }
  }

  /** The label of the z-scored copy of column `c`. */
  function ZName(c: Label): Label {
    c + "_z"
  }

  /** `c.endswith("_z")`. */
  predicate EndsWithZ(c: Label) {
    |c| >= 2 && c[|c| - 2..] == "_z"
  }

  function ZNames(cs: seq<Label>): (r: seq<Label>)
    ensures |r| == |cs|
    ensures forall k :: 0 <= k < |cs| ==> r[k] == ZName(cs[k])
  {
    seq(|cs|, k requires 0 <= k < |cs| => ZName(cs[k]))
  }

  lemma ZNameEndsWithZ(c: Label)
    ensures EndsWithZ(ZName(c))
  {
    assert ZName(c)[|c|..] == "_z";
  }

  lemma ZNameInjective(c: Label, d: Label)
    requires ZName(c) == ZName(d)
    ensures c == d
  {
    assert c == ZName(c)[..|c|];
    assert d == ZName(d)[..|d|];
  }

  /** A label ends in `_z` exactly when it is the `_z` label of some label. */
  lemma EndsWithZIsZName(c: Label)
    ensures EndsWithZ(c) <==> exists p :: ZName(p) == c
  {
    if EndsWithZ(c) {
      assert ZName(c[..|c| - 2]) == c;
    } else {
      forall p ensures ZName(p) != c {
        ZNameEndsWithZ(p);
      }
    }
  }

  /** Appending the z-score labels of distinct labels none of which ends in
      `_z` keeps all labels distinct. */
  lemma WithZNamesDistinct(cs: seq<Label>)
    requires Distinct(cs)
    requires forall k :: 0 <= k < |cs| ==> !EndsWithZ(cs[k])
    ensures Distinct(cs + ZNames(cs))
  {
    var all := cs + ZNames(cs);
    forall a, b | 0 <= a < b < |all| ensures all[a] != all[b] {
      if a >= |cs| {
        if all[a] == all[b] {
          ZNameInjective(cs[a - |cs|], cs[b - |cs|]);
        }
      } else if b >= |cs| {
        ZNameEndsWithZ(cs[b - |cs|]);
      }
    }
  }

  /** No factor name ends in `_z`, and the names are distinct. */
  lemma FactorNamesPlain()
    ensures Distinct(FactorNames)
    ensures forall k :: 0 <= k < |FactorNames| ==> !EndsWithZ(FactorNames[k])
  {
    assert FactorNames[2][7] != FactorNames[3][7];
    forall k | 0 <= k < |FactorNames| ensures !EndsWithZ(FactorNames[k]) {
      var c := FactorNames[k];
      assert c[|c| - 1] != 'z';
    }
  }

  /** `compute_factor_table(prices, fundamentals)`: fails with too short a
      price history; otherwise keeps the tickers with at least `MinFactors`
      raw factors present (`dropna(thresh=3)`, whose rows `DropNa` states),
      keeps their raw factors, and appends a z-scored copy of each factor,
      z-scored over the kept tickers. */
  method ComputeFactorTable(prices: Table, fundamentals: FundamentalsTable, sqrt: real -> real, ln: real -> real)
    returns (result: Result<Table>)
    requires WellFormed(prices) && PositivePrices(prices) && IsSqrt(sqrt)
    ensures result.Failure? <==> |prices.index| < MinHistory
    ensures result.Success? ==>
      var kept := DropNa(RawFactors(prices, fundamentals, sqrt, ln), MinFactors);
      var t := result.value;
      && WellFormed(t) && t.index == kept.index
      && t.columns == FactorNames + ZNames(FactorNames)
      && (forall j :: 0 <= j < |FactorNames| ==> t.data[j] == kept.data[j])
      && (forall j :: 0 <= j < |FactorNames| ==> t.data[|FactorNames| + j] == ZScore(kept.data[j], sqrt))
  {
    if |prices.index| < MomentumDays + 5 {
      return Failure(InsufficientHistory);
    }
    var raw := RawFactors(prices, fundamentals, sqrt, ln);
    FactorNamesPlain();
    var kept := DropNa(raw, MinFactors);
    var factors := AddZScores(kept, sqrt);
    return Success(factors);
  }

  /** The state of the z-score loop after its first `j` passes: the original
      columns untouched, followed by the z-scored copies of the first `j`
      of them. */
  ghost predicate ZScoresAdded(t: Table, r: Table, j: nat, sqrt: real -> real) {
    && IsSqrt(sqrt) && WellFormed(t) && j <= |t.columns|
    && WellFormed(r) && r.index == t.index
    && r.columns == (t.columns + ZNames(t.columns))[..|t.columns| + j]
    && (forall k :: 0 <= k < |t.columns| ==> r.data[k] == t.data[k])
    && (forall k :: 0 <= k < j ==> r.data[|t.columns| + k] == ZScore(t.data[k], sqrt))
  }

  /** The label the next pass adds is new, and extends the labels added so far. */
  lemma NextZName(cols: seq<Label>, current: seq<Label>, j: nat)
    requires Distinct(cols + ZNames(cols)) && j < |cols|
    requires current == (cols + ZNames(cols))[..|cols| + j]
    ensures ZName(cols[j]) !in current
    ensures current + [ZName(cols[j])] == (cols + ZNames(cols))[..|cols| + j + 1]
  {
    var all := cols + ZNames(cols);
    assert ZName(cols[j]) == all[|cols| + j];
    PrefixExtends(all, |cols| + j);
    DistinctNotBefore(all, |cols| + j);
  }

  /** One pass of the loop: `r[c + "_z"] = zscore(r[c])` for the next
      column `c` appends its z-scores as a new column. */
  lemma AddZScoreStep(t: Table, r: Table, j: nat, sqrt: real -> real)
    requires Distinct(t.columns + ZNames(t.columns))
    requires ZScoresAdded(t, r, j, sqrt) && j < |t.columns|
    ensures t.columns[j] in r.columns
    ensures ZScoresAdded(t, SetColumn(r, ZName(t.columns[j]), ZScore(Column(r, t.columns[j]), sqrt)), j + 1, sqrt)
  {
    var cols := t.columns;
    var name := ZName(cols[j]);
    NextZName(cols, r.columns, j);
    ColumnAt(r, j);
    var z := ZScore(Column(r, cols[j]), sqrt);
    assert name !in r.columns;
    var r' := SetColumn(r, name, z);
    assert r'.data == r.data + [z];
    forall k | 0 <= k < j + 1 ensures r'.data[|cols| + k] == ZScore(t.data[k], sqrt) {
      if k < j {
        assert r'.data[|cols| + k] == r.data[|cols| + k];
      }
    }
  }

  /** The loop `for col in factors.columns: factors[col + "_z"] =
      zscore(factors[col])`, over the columns the table had when the loop
      started. */
  method AddZScores(t: Table, sqrt: real -> real) returns (r: Table)
    requires WellFormed(t) && IsSqrt(sqrt)
    requires forall k :: 0 <= k < |t.columns| ==> !EndsWithZ(t.columns[k])
    ensures WellFormed(r) && r.index == t.index
    ensures r.columns == t.columns + ZNames(t.columns)
    ensures forall k :: 0 <= k < |t.columns| ==> r.data[k] == t.data[k]
    ensures forall k :: 0 <= k < |t.columns| ==> r.data[|t.columns| + k] == ZScore(t.data[k], sqrt)
  {
    var cols := t.columns;
    WithZNamesDistinct(cols);
    assert (cols + ZNames(cols))[..|cols|] == cols;
    r := t;
    var j := 0;
    while j < |cols|
      invariant ZScoresAdded(t, r, j, sqrt)
    {
      AddZScoreStep(t, r, j, sqrt);
      r := SetColumn(r, ZName(cols[j]), ZScore(Column(r, cols[j]), sqrt));
      j := j + 1;
    }
    assert (cols + ZNames(cols))[..|cols| + |cols|] == cols + ZNames(cols);
  }
}
