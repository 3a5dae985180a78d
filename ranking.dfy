/** `rank_stocks(factors, weights)`: a weighted sum of the z-scored factor
    columns as a composite score, appended as a column, and the rows sorted
    by it from the highest score to the lowest, missing scores last. */
module Ranking {
  import opened Cells
  import opened Frames
  import opened Factors

  /** The label of the appended score column. */
  const CompositeName: Label := "composite_score"

  /** A weight dict, in insertion order: factor label and weight. */
  type Weights = seq<(Label, real)>

  /** A dict has no key twice. */
  predicate DistinctKeys(w: Weights) {
    forall a, b :: 0 <= a < b < |w| ==> w[a].0 != w[b].0
  }

  /** Every weight is on a column of the table. */
  predicate KeysIn(w: Weights, cols: seq<Label>) {
    forall k :: 0 <= k < |w| ==> w[k].0 in cols
  }

  /** `[c for c in factors.columns if c.endswith("_z")]`. */
  function ZColumns(cols: seq<Label>): (r: seq<Label>)
    ensures |r| <= |cols|
  {
    if cols == [] then []
    else
      var rest := ZColumns(cols[1..]);
      if EndsWithZ(cols[0]) then [cols[0]] + rest else rest
  }

  /** The z columns are the labels ending in `_z`, each once. */
  lemma {:induction false} ZColumnsMembers(cols: seq<Label>)
    ensures forall c :: c in ZColumns(cols) <==> c in cols && EndsWithZ(c)
    ensures Distinct(cols) ==> Distinct(ZColumns(cols))
  {
    if cols != [] {
      var rest := ZColumns(cols[1..]);
      ZColumnsMembers(cols[1..]);
      assert cols == [cols[0]] + cols[1..];
      if EndsWithZ(cols[0]) && Distinct(cols) {
        assert cols[0] !in cols[1..];
        assert forall a :: 0 < a < |[cols[0]] + rest| ==> ([cols[0]] + rest)[a] == rest[a - 1];
      }
    }
  }

  /** `{c: 1.0 for c in z_cols}`. */
  function EqualWeights(cs: seq<Label>): (w: Weights)
    ensures |w| == |cs|
    ensures forall k :: 0 <= k < |cs| ==> w[k] == (cs[k], 1.0)
  {
    seq(|cs|, k requires 0 <= k < |cs| => (cs[k], 1.0))
  }

  lemma EqualWeightsMembers(cs: seq<Label>)
    ensures forall e :: e in EqualWeights(cs) <==> e.0 in cs && e.1 == 1.0
    ensures Distinct(cs) ==> DistinctKeys(EqualWeights(cs))
  {
    forall e: (Label, real) | e.0 in cs && e.1 == 1.0 ensures e in EqualWeights(cs) {
      var k :| 0 <= k < |cs| && cs[k] == e.0;
      assert EqualWeights(cs)[k] == e;
    }
  }

  /** `{k: v for k, v in w.items() if k in z_cols}`. */
  function KeepKnown(zCols: seq<Label>, w: Weights): (r: Weights)
    ensures |r| <= |w|
  {
    if w == [] then []
    else
      var rest := KeepKnown(zCols, w[1..]);
      if w[0].0 in zCols then [w[0]] + rest else rest
  }

  /** The kept weights are exactly the weights on z columns, and a dict
      stays a dict. */
  lemma {:induction false} KeepKnownMembers(zCols: seq<Label>, w: Weights)
    ensures forall e :: e in KeepKnown(zCols, w) <==> e in w && e.0 in zCols
    ensures DistinctKeys(w) ==> DistinctKeys(KeepKnown(zCols, w))
  {
    if w != [] {
      var rest := KeepKnown(zCols, w[1..]);
      KeepKnownMembers(zCols, w[1..]);
      assert w == [w[0]] + w[1..];
      if w[0].0 in zCols && DistinctKeys(w) {
        forall e | e in rest ensures e.0 != w[0].0 {
          var b :| 0 <= b < |w[1..]| && w[1..][b] == e;
          assert w[b + 1] == e;
        }
        assert forall a :: 0 < a < |[w[0]] + rest| ==> ([w[0]] + rest)[a] == rest[a - 1];
      }
    }
  }

  /** The weights `rank_stocks` uses: equal weights on every z column when
      none are given, and in any case only the weights on z columns. */
  function EffectiveWeights(zCols: seq<Label>, weights: Option<Weights>): (w: Weights)
    ensures weights.Some? ==> |w| <= |weights.value|
    ensures weights.None? ==> |w| <= |zCols|
  {
    KeepKnown(zCols, if weights.None? then EqualWeights(zCols) else weights.value)
  }

  /** Without weights, every z column has weight 1; with weights, exactly
      the given weights on z columns are kept; the result is a dict. */
  lemma EffectiveWeightsMembers(zCols: seq<Label>, weights: Option<Weights>)
    ensures var w := EffectiveWeights(zCols, weights);
      && (forall k :: 0 <= k < |w| ==> w[k].0 in zCols)
      && (weights.None? ==> forall e :: e in w <==> e.0 in zCols && e.1 == 1.0)
      && (weights.Some? ==> forall e :: e in w <==> e in weights.value && e.0 in zCols)
      && (Distinct(zCols) && (weights.Some? ==> DistinctKeys(weights.value)) ==> DistinctKeys(w))
  {
    var base := if weights.None? then EqualWeights(zCols) else weights.value;
    EqualWeightsMembers(zCols);
    KeepKnownMembers(zCols, base);
    var w := KeepKnown(zCols, base);
    assert forall k :: 0 <= k < |w| ==> w[k] in w;
  }

  /** The effective weights are all on columns of the table. */
  lemma WeightsOnColumns(cols: seq<Label>, weights: Option<Weights>)
    ensures KeysIn(EffectiveWeights(ZColumns(cols), weights), cols)
  {
    ZColumnsMembers(cols);
    EffectiveWeightsMembers(ZColumns(cols), weights);
  }

  /** All-zero scores: `pd.Series(0.0, index=factors.index)`. */
  function Zeros(n: nat): (r: seq<Cell>)
    ensures |r| == n && forall i :: 0 <= i < n ==> r[i] == Some(0.0)
  {
    seq(n, i => Some(0.0))
  }

  /** Cell-wise `a + b`. */
  function AddColumns(a: seq<Cell>, b: seq<Cell>): (r: seq<Cell>)
    requires |a| == |b|
    ensures |r| == |a| && forall i :: 0 <= i < |a| ==> r[i] == Add(a[i], b[i])
  {
    seq(|a|, i requires 0 <= i < |a| => Add(a[i], b[i]))
  }

  /** Cell-wise `weight * a`. */
  function ScaleColumn(weight: real, a: seq<Cell>): (r: seq<Cell>)
    ensures |r| == |a| && forall i :: 0 <= i < |a| ==> r[i] == Scale(weight, a[i])
  {
    seq(|a|, i requires 0 <= i < |a| => Scale(weight, a[i]))
  }

  /** The composite after adding `weight * factors[col]` for every weight of
      `w`, in order, to the zero scores. */
  function Composite(t: Table, w: Weights): (r: seq<Cell>)
    requires WellFormed(t) && KeysIn(w, t.columns)
    ensures |r| == |t.index|
    decreases |w|
  {
    if w == [] then Zeros(|t.index|)
    else
      var last := w[|w| - 1];
      AddColumns(Composite(t, w[..|w| - 1]), ScaleColumn(last.1, Column(t, last.0)))
  }

  /** Cell-wise sum of the columns `cs`, missing where any of them is. */
  function ColumnsSum(t: Table, cs: seq<Label>): (r: seq<Cell>)
    requires WellFormed(t) && forall k :: 0 <= k < |cs| ==> cs[k] in t.columns
    ensures |r| == |t.index|
    decreases |cs|
  {
    if cs == [] then Zeros(|t.index|)
    else AddColumns(ColumnsSum(t, cs[..|cs| - 1]), Column(t, cs[|cs| - 1]))
  }

  /** A row's composite is missing exactly when one of the weighted columns
      is missing in that row (`NaN` propagates through `+=`). */
  lemma {:induction false} CompositePresence(t: Table, w: Weights, i: nat)
    requires WellFormed(t) && KeysIn(w, t.columns) && i < |t.index|
    ensures Composite(t, w)[i].Some? <==> forall k :: 0 <= k < |w| ==> Column(t, w[k].0)[i].Some?
    decreases |w|
  {
    if w != [] {
      var init := w[..|w| - 1];
      CompositePresence(t, init, i);
      assert forall k :: 0 <= k < |init| ==> init[k] == w[k];
    }
  }

  /** `weight * factors[col][i]`, with a missing value counted as 0. */
  function Term(t: Table, e: (Label, real), i: nat): real
    requires WellFormed(t) && e.0 in t.columns && i < |t.index|
  {
    var x := Column(t, e.0)[i];
    if x.Some? then e.1 * x.value else 0.0
  }

  /** `sum(weight * factors[col][i])` over the weights, with missing values
      counted as 0: a reference for the composite's value. */
  function WeightedTotal(t: Table, w: Weights, i: nat): real
    requires WellFormed(t) && KeysIn(w, t.columns) && i < |t.index|
    decreases |w|
  {
    if w == [] then 0.0 else WeightedTotal(t, w[..|w| - 1], i) + Term(t, w[|w| - 1], i)
  }

  /** A present composite is the weighted total of the row's values. */
  lemma {:induction false} CompositeValue(t: Table, w: Weights, i: nat)
    requires WellFormed(t) && KeysIn(w, t.columns) && i < |t.index|
    ensures Composite(t, w)[i].Some? ==> Composite(t, w)[i].value == WeightedTotal(t, w, i)
    decreases |w|
  {
    if w != [] {
      var init, last := w[..|w| - 1], w[|w| - 1];
      CompositeAt(t, w, i);
      CompositeValue(t, init, i);
      AddTerm(Composite(t, init)[i], Column(t, last.0)[i], last.1, WeightedTotal(t, init, i), Term(t, last, i));
    }
  }

  /** The composite at row `i` adds the last weighted value to the
      composite of the other weights. */
  lemma CompositeAt(t: Table, w: Weights, i: nat)
    requires WellFormed(t) && KeysIn(w, t.columns) && i < |t.index| && w != []
    ensures KeysIn(w[..|w| - 1], t.columns) && w[|w| - 1].0 in t.columns
    ensures Composite(t, w)[i] == Add(Composite(t, w[..|w| - 1])[i], Scale(w[|w| - 1].1, Column(t, w[|w| - 1].0)[i]))
  {
  }

  /** One step of the composite: a present sum adds the weighted value. */
  lemma AddTerm(prev: Cell, x: Cell, weight: real, total: real, term: real)
    requires prev.Some? ==> prev.value == total
    requires term == if x.Some? then weight * x.value else 0.0
    ensures Add(prev, Scale(weight, x)).Some? ==> Add(prev, Scale(weight, x)).value == total + term
  {
  }

  /** With equal weights the composite is the plain sum of the columns. */
  lemma {:induction false} EqualWeightsSum(t: Table, cs: seq<Label>)
    requires WellFormed(t) && forall k :: 0 <= k < |cs| ==> cs[k] in t.columns
    ensures KeysIn(EqualWeights(cs), t.columns)
    ensures Composite(t, EqualWeights(cs)) == ColumnsSum(t, cs)
    decreases |cs|
  {
    var w := EqualWeights(cs);
    if cs != [] {
      var init := cs[..|cs| - 1];
      assert w[..|w| - 1] == EqualWeights(init);
      EqualWeightsSum(t, init);
      var c := Column(t, cs[|cs| - 1]);
      assert ScaleColumn(1.0, c) == c;
    }
  }

  /** Every z column is kept when no weights are given. */
  lemma {:induction false} KeepAllKnown(zCols: seq<Label>, cs: seq<Label>)
    requires forall k :: 0 <= k < |cs| ==> cs[k] in zCols
    ensures KeepKnown(zCols, EqualWeights(cs)) == EqualWeights(cs)
  {
    if cs != [] {
      assert EqualWeights(cs)[1..] == EqualWeights(cs[1..]);
      KeepAllKnown(zCols, cs[1..]);
    }
  }

  /** `rank_stocks(factors)` with no weights: the composite is the sum of
      all z columns. */
  lemma DefaultWeightsSumZColumns(t: Table)
    requires WellFormed(t)
    ensures var zCols := ZColumns(t.columns);
      && (forall k :: 0 <= k < |zCols| ==> zCols[k] in t.columns)
      && KeysIn(EffectiveWeights(zCols, None), t.columns)
      && Composite(t, EffectiveWeights(zCols, None)) == ColumnsSum(t, zCols)
  {
    var zCols := ZColumns(t.columns);
    ZColumnsMembers(t.columns);
    KeepAllKnown(zCols, zCols);
    EqualWeightsSum(t, zCols);
  }

  lemma KeepKnownFirst(zCols: seq<Label>, w: Weights)
    requires w != []
    ensures KeepKnown(zCols, w) == (if w[0].0 in zCols then [w[0]] else []) + KeepKnown(zCols, w[1..])
  {
  }

  lemma {:induction false} KeepKnownAppend(zCols: seq<Label>, a: Weights, b: Weights)
    ensures KeepKnown(zCols, a + b) == KeepKnown(zCols, a) + KeepKnown(zCols, b)
  {
    if a == [] {
      assert a + b == b;
    } else {
      assert (a + b)[0] == a[0] && (a + b)[1..] == a[1..] + b;
      KeepKnownAppend(zCols, a[1..], b);
      KeepKnownFirst(zCols, a);
      KeepKnownFirst(zCols, a + b);
      var h: Weights := if a[0].0 in zCols then [a[0]] else [];
      var x, y := KeepKnown(zCols, a[1..]), KeepKnown(zCols, b);
      assert KeepKnown(zCols, a + b) == h + (x + y);
      assert h + (x + y) == (h + x) + y;
    }
  }

  /** A supplied weight on a label that is not a z column is ignored: the
      effective weights are those without it. */
  lemma UnknownKeyIgnored(zCols: seq<Label>, before: Weights, key: Label, weight: real, after: Weights)
    requires key !in zCols
    ensures EffectiveWeights(zCols, Some(before + [(key, weight)] + after))
         == EffectiveWeights(zCols, Some(before + after))
  {
    var one: Weights := [(key, weight)];
    assert KeepKnown(zCols, one) == [] by {
      assert one[1..] == [];
    }
    KeepKnownAppend(zCols, before + one, after);
    KeepKnownAppend(zCols, before, one);
    KeepKnownAppend(zCols, before, after);
  }

  /** A column without a weight contributes nothing: replacing its cells
      leaves the composite unchanged. */
  lemma {:induction false} UnweightedColumnIgnored(t: Table, w: Weights, c: Label, col: seq<Cell>)
    requires WellFormed(t) && KeysIn(w, t.columns) && |col| == |t.index|
    requires c in t.columns && forall k :: 0 <= k < |w| ==> w[k].0 != c
    ensures KeysIn(w, SetColumn(t, c, col).columns)
    ensures Composite(SetColumn(t, c, col), w) == Composite(t, w)
    decreases |w|
  {
    SetColumnEffect(t, c, col);
    if w != [] {
      UnweightedColumnIgnored(t, w[..|w| - 1], c, col);
    }
  }

  /** Weights of which none names a z column of the table give a composite
      of 0 in every row. */
  lemma NoKnownWeightsGiveZero(t: Table, weights: Weights, i: nat)
    requires WellFormed(t) && i < |t.index|
    requires forall k :: 0 <= k < |weights| ==> weights[k].0 !in ZColumns(t.columns)
    ensures var w := EffectiveWeights(ZColumns(t.columns), Some(weights));
      KeysIn(w, t.columns) && Composite(t, w)[i] == Some(0.0)
  {
    KeepNoneKnown(ZColumns(t.columns), weights);
  }

  lemma {:induction false} KeepNoneKnown(zCols: seq<Label>, w: Weights)
    requires forall k :: 0 <= k < |w| ==> w[k].0 !in zCols
    ensures KeepKnown(zCols, w) == []
  {
    if w != [] {
      KeepNoneKnown(zCols, w[1..]);
    }
  }

  /** `x` may come before `y` in a descending sort with missing values last. */
  predicate Before(x: Cell, y: Cell) {
    y.None? || (x.Some? && x.value >= y.value)
  }

  /** Two scores can always be put in some order. */
  lemma BeforeTotal(x: Cell, y: Cell)
    ensures Before(x, y) || Before(y, x)
  {
  }

  predicate SortedDescending(s: seq<Cell>) {
    forall a, b :: 0 <= a < b < |s| ==> Before(s[a], s[b])
  }

  /** `order` lists positions of `keys` from the highest score down. */
  predicate SortedBy(keys: seq<Cell>, order: seq<nat>) {
    && (forall k :: 0 <= k < |order| ==> order[k] < |keys|)
    && (forall a, b :: 0 <= a < b < |order| ==> Before(keys[order[a]], keys[order[b]]))
  }

  /** The positions `0 .. n - 1`. */
  function Indices(n: nat): (r: seq<nat>)
    ensures |r| == n && forall i :: 0 <= i < n ==> r[i] == i
  {
    seq(n, i => i)
  }

  /** Puts position `i` into the sorted `order` ahead of the first position
      whose score `keys[i]` may come before. */
  function Insert(keys: seq<Cell>, order: seq<nat>, i: nat): (r: seq<nat>)
    requires i < |keys| && SortedBy(keys, order)
    ensures multiset(r) == multiset(order) + multiset{i}
    ensures SortedBy(keys, r)
  {
    if order == [] then [i]
    else if Before(keys[i], keys[order[0]]) then
      PrependSorted(keys, i, order);
      [i] + order
    else
      var rest := Insert(keys, order[1..], i);
      assert order == [order[0]] + order[1..];
      FirstBeforeInserted(keys, order, i, rest);
      PrependSorted(keys, order[0], rest);
      [order[0]] + rest
  }

  /** A score that may come before every score of a sorted order can be put
      in front of it. */
  lemma PrependSorted(keys: seq<Cell>, x: nat, order: seq<nat>)
    requires x < |keys| && SortedBy(keys, order)
    requires forall p :: 0 <= p < |order| ==> Before(keys[x], keys[order[p]])
    ensures SortedBy(keys, [x] + order)
  {
    assert forall a :: 0 < a < |[x] + order| ==> ([x] + order)[a] == order[a - 1];
  }

  /** When `keys[i]` may not come before the first score, the first score may
      come before `keys[i]` and before every later score. */
  lemma FirstBeforeInserted(keys: seq<Cell>, order: seq<nat>, i: nat, rest: seq<nat>)
    requires i < |keys| && SortedBy(keys, order) && order != []
    requires !Before(keys[i], keys[order[0]])
    requires multiset(rest) == multiset(order[1..]) + multiset{i}
    requires forall p :: 0 <= p < |rest| ==> rest[p] < |keys|
    ensures forall p :: 0 <= p < |rest| ==> Before(keys[order[0]], keys[rest[p]])
  {
    forall p | 0 <= p < |rest| ensures Before(keys[order[0]], keys[rest[p]]) {
      assert rest[p] in multiset(rest);
      assert rest[p] in multiset(order[1..]) + multiset{i};
      if rest[p] != i {
        var b :| 0 <= b < |order[1..]| && order[1..][b] == rest[p];
        assert order[b + 1] == rest[p];
      } else {
        BeforeTotal(keys[i], keys[order[0]]);
      }
    }
  }

  /** The positions `0 .. m - 1` of `keys`, sorted by descending score with
      missing scores last. */
  function SortOrder(keys: seq<Cell>, m: nat): (r: seq<nat>)
    requires m <= |keys|
    ensures |r| == m
    ensures multiset(r) == multiset(Indices(m))
    ensures SortedBy(keys, r)
  {
    if m == 0 then []
    else
      var r := Insert(keys, SortOrder(keys, m - 1), m - 1);
      assert Indices(m) == Indices(m - 1) + [m - 1];
      assert |r| == |multiset(r)|;
      r
  }

  /** A permutation of the positions below `n` is a valid row selection. */
  lemma PermutationBelow(order: seq<nat>, n: nat)
    requires multiset(order) == multiset(Indices(n))
    ensures forall k :: 0 <= k < |order| ==> order[k] < n
  {
    forall k | 0 <= k < |order| ensures order[k] < n {
      assert order[k] in multiset(Indices(n));
    }
  }

  /** The copy of `t` with the score column set, its rows taken in the
      order `order`: every original column's cells and the scores move along
      with their rows, and scores sorted by `order` come out sorted. */
  lemma SortedCopy(t: Table, composite: seq<Cell>, order: seq<nat>)
    requires WellFormed(t) && |composite| == |t.index|
    requires forall k :: 0 <= k < |order| ==> order[k] < |t.index|
    requires SortedBy(composite, order)
    ensures var out := SelectRows(SetColumn(t, CompositeName, composite), order);
      && WellFormed(out) && |out.index| == |order|
      && out.columns == (if CompositeName in t.columns then t.columns else t.columns + [CompositeName])
      && (forall k :: 0 <= k < |order| ==> out.index[k] == t.index[order[k]])
      && CompositeName in out.columns
      && (forall k :: 0 <= k < |order| ==> Column(out, CompositeName)[k] == composite[order[k]])
      && (forall c, k :: c in t.columns && c != CompositeName && 0 <= k < |order| ==>
            c in out.columns && Column(out, c)[k] == Column(t, c)[order[k]])
      && SortedDescending(Column(out, CompositeName))
  {
    var s := SetColumn(t, CompositeName, composite);
    var out := SelectRows(s, order);
    SetColumnEffect(t, CompositeName, composite);
    ColumnAt(s, IndexOf(s.columns, CompositeName));
    ColumnAt(out, IndexOf(s.columns, CompositeName));
    forall c | c in t.columns && c != CompositeName
      ensures Column(out, c) == seq(|order|, k requires 0 <= k < |order| => Column(t, c)[order[k]])
    {
      ColumnAt(s, IndexOf(s.columns, c));
      ColumnAt(out, IndexOf(s.columns, c));
    }
  }

  /** The loop `composite = pd.Series(0.0, index=factors.index)`;
      `for col, weight in w.items(): composite += weight * factors[col]`. */
  method WeightedSum(factors: Table, w: Weights) returns (composite: seq<Cell>)
    requires WellFormed(factors) && KeysIn(w, factors.columns)
    ensures composite == Composite(factors, w)
  {
    composite := Zeros(|factors.index|);
    var k := 0;
    while k < |w|
      invariant 0 <= k <= |w|
      invariant composite == Composite(factors, w[..k])
    {
      assert w[..k + 1][..k] == w[..k];
      composite := AddColumns(composite, ScaleColumn(w[k].1, Column(factors, w[k].0)));
      k := k + 1;
    }
    assert w[..|w|] == w;
  }

  /** `rank_stocks(factors, weights)`. `order` lists, for each output row,
      its position in `factors`. */
  method RankStocks(factors: Table, weights: Option<Weights>) returns (out: Table, order: seq<nat>)
    requires WellFormed(factors)
    ensures var w := EffectiveWeights(ZColumns(factors.columns), weights);
      && KeysIn(w, factors.columns)
      && var composite := Composite(factors, w);
      && |order| == |factors.index| && multiset(order) == multiset(Indices(|factors.index|))
      && (forall k :: 0 <= k < |order| ==> order[k] < |factors.index|)
      && WellFormed(out) && |out.index| == |order|
      && out.columns == (if CompositeName in factors.columns then factors.columns else factors.columns + [CompositeName])
      && (forall k :: 0 <= k < |order| ==> out.index[k] == factors.index[order[k]])
      && CompositeName in out.columns
      && (forall k :: 0 <= k < |order| ==> Column(out, CompositeName)[k] == composite[order[k]])
      && (forall c, k :: c in factors.columns && c != CompositeName && 0 <= k < |order| ==>
            c in out.columns && Column(out, c)[k] == Column(factors, c)[order[k]])
      && SortedDescending(Column(out, CompositeName))
  {
    var w := EffectiveWeights(ZColumns(factors.columns), weights);
    WeightsOnColumns(factors.columns, weights);
    var composite := WeightedSum(factors, w);
    order := SortOrder(composite, |composite|);
    PermutationBelow(order, |factors.index|);
    SortedCopy(factors, composite, order);
    out := SelectRows(SetColumn(factors, CompositeName, composite), order);
  }
}
