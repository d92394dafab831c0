/** Reducing an aggregation result to its largest entries plus one
    `"others"` entry: the columns of a table ranked by their totals, or the
    entries of a series ranked by their values. Ties in the ranking are left
    open: every statement here holds for any ranking that sorts by
    decreasing total. */
module TopN {
  import opened Wrappers
  import opened Ledger
  import opened Frames

  /** A labelled list of amounts (a pandas Series). */
  datatype Series = Series(labels: seq<string>, values: seq<real>)

  /** The two shapes an aggregation result comes in. */
  datatype Aggregate = Table(frame: Frame<real>) | Column(series: Series)

  /** The name of the collapsed remainder. */
  const Others: string := "others"

  // ---------------------------------------------------------------------
  // Sums over chosen positions

  ghost predicate Within(idxs: seq<nat>, n: nat) {
    forall i | 0 <= i < |idxs| :: idxs[i] < n
  }

  /** The values at the positions `idxs`, in that order. */
  function Gather<T>(vals: seq<T>, idxs: seq<nat>): (r: seq<T>)
    requires Within(idxs, |vals|)
    ensures |r| == |idxs| && forall i | 0 <= i < |idxs| :: r[i] == vals[idxs[i]]
  {
    seq(|idxs|, i requires 0 <= i < |idxs| => vals[idxs[i]])
  }

  /** The positions `0, 1, …, n - 1`. */
  function Range(n: nat): (r: seq<nat>)
    ensures |r| == n && forall i | 0 <= i < n :: r[i] == i
  {
    seq(n, i requires 0 <= i < n => i)
  }

  lemma GatherAppend(vals: seq<real>, a: seq<nat>, b: seq<nat>)
    requires Within(a, |vals|) && Within(b, |vals|)
    ensures Within(a + b, |vals|)
    ensures Gather(vals, a + b) == Gather(vals, a) + Gather(vals, b)
  {
  }

  /** Taking every position in order gives the values back. */
  lemma GatherRange<T>(vals: seq<T>)
    ensures Within(Range(|vals|), |vals|) && Gather(vals, Range(|vals|)) == vals
  {
  }

  /** Removing one value from a sequence lowers its total by that value. */
  lemma {:induction false} TotalRemove(xs: seq<real>, i: nat)
    requires i < |xs|
    ensures Total(xs) == Total(xs[..i] + xs[i + 1..]) + xs[i]
    decreases |xs|
  {
    var n := |xs| - 1;
    var ys := xs[..i] + xs[i + 1..];
    if i == n {
      assert ys == xs[..n];
    } else {
      TotalRemove(xs[..n], i);
      assert xs[..n][..i] + xs[..n][i + 1..] == ys[..|ys| - 1];
    }
  }

  /** Two orderings of the same positions, each without the same element. */
  lemma RemoveMatching(a: seq<nat>, b: seq<nat>, i: nat)
    requires multiset(a) == multiset(b) && a != [] && i < |b| && b[i] == a[|a| - 1]
    ensures multiset(a[..|a| - 1]) == multiset(b[..i] + b[i + 1..])
  {
    var n := |a| - 1;
    assert a == a[..n] + [a[n]];
    assert b == b[..i] + [b[i]] + b[i + 1..];
    assert multiset(a[..n]) == multiset(a) - multiset{a[n]};
    assert multiset(b[..i] + b[i + 1..]) == multiset(b) - multiset{b[i]};
  }

  /** Leaving out one position leaves out its value. */
  lemma GatherSkip(vals: seq<real>, b: seq<nat>, i: nat)
    requires Within(b, |vals|) && i < |b|
    ensures Within(b[..i] + b[i + 1..], |vals|)
    ensures Gather(vals, b[..i] + b[i + 1..]) == Gather(vals, b)[..i] + Gather(vals, b)[i + 1..]
  {
    var b' := b[..i] + b[i + 1..];
    assert forall k | 0 <= k < |b'| :: b'[k] == if k < i then b[k] else b[k + 1];
  }

  /** Gathering without the position at `i` lowers the total by its value. */
  lemma GatherRemove(vals: seq<real>, b: seq<nat>, i: nat)
    requires Within(b, |vals|) && i < |b|
    ensures Within(b[..i] + b[i + 1..], |vals|)
    ensures Total(Gather(vals, b)) == Total(Gather(vals, b[..i] + b[i + 1..])) + vals[b[i]]
  {
    GatherSkip(vals, b, i);
    TotalRemove(Gather(vals, b), i);
  }

  /** Gathering along a reordering of the same positions gives the same total. */
  lemma {:induction false} GatherPermutation(vals: seq<real>, a: seq<nat>, b: seq<nat>)
    requires Within(a, |vals|) && Within(b, |vals|)
    requires multiset(a) == multiset(b)
    ensures Total(Gather(vals, a)) == Total(Gather(vals, b))
    decreases |a|
  {
    if a != [] {
      var n := |a| - 1;
      var x := a[n];
      assert x in multiset(b) by {
        assert a == a[..n] + [x];
        assert x in multiset(a);
      }
      var i :| 0 <= i < |b| && b[i] == x;
      RemoveMatching(a, b, i);
      GatherRemove(vals, b, i);
      GatherPermutation(vals, a[..n], b[..i] + b[i + 1..]);
      assert Gather(vals, a)[..n] == Gather(vals, a[..n]);
    } else {
      assert |b| == |multiset(b)| == 0;
    }
  }

  /** Splitting a ranking of all positions in two splits the total in two. */
  lemma SplitTotal(vals: seq<real>, order: seq<nat>, c: nat)
    requires Within(order, |vals|) && multiset(order) == multiset(Range(|vals|)) && c <= |order|
    ensures Total(Gather(vals, order[..c])) + Total(Gather(vals, order[c..])) == Total(vals)
  {
    assert order == order[..c] + order[c..];
    GatherAppend(vals, order[..c], order[c..]);
    TotalAppend(Gather(vals, order[..c]), Gather(vals, order[c..]));
    GatherPermutation(vals, order, Range(|vals|));
    GatherRange(vals);
  }

  // ---------------------------------------------------------------------
  // Ranking

  /** `order` lists positions by decreasing key. */
  ghost predicate SortedDesc(keys: seq<real>, order: seq<nat>)
    requires Within(order, |keys|)
  {
    forall i, j | 0 <= i < j < |order| :: keys[order[i]] >= keys[order[j]]
  }

  /** `order` lists every position of `keys` once, by decreasing key: what a
      descending sort may produce, whatever it does with ties. */
  ghost predicate IsRanking(keys: seq<real>, order: seq<nat>) {
    |order| == |keys| && Within(order, |keys|) && multiset(order) == multiset(Range(|keys|)) && SortedDesc(keys, order)
  }

  /** Inserts position `x` after every position whose key is at least its own. */
  function InsertDesc(keys: seq<real>, sorted: seq<nat>, x: nat): (r: seq<nat>)
    requires x < |keys| && Within(sorted, |keys|) && SortedDesc(keys, sorted)
    ensures Within(r, |keys|) && SortedDesc(keys, r)
    ensures multiset(r) == multiset(sorted) + multiset{x}
    decreases |sorted|
  {
    if sorted == [] then [x]
    else if keys[sorted[0]] < keys[x] then
      assert forall i | 0 <= i < |sorted| :: keys[sorted[i]] <= keys[sorted[0]];
      ConsSorted(keys, x, sorted);
      [x] + sorted
    else
      var rest := InsertDesc(keys, sorted[1..], x);
      assert forall i | 0 <= i < |sorted[1..]| :: keys[sorted[1..][i]] <= keys[sorted[0]];
      KeysBelow(keys, sorted[1..], rest, x, keys[sorted[0]]);
      ConsSorted(keys, sorted[0], rest);
      assert sorted == [sorted[0]] + sorted[1..];
      [sorted[0]] + rest
  }

  /** A position whose key tops every key of a ranked list may head it. */
  lemma ConsSorted(keys: seq<real>, h: nat, t: seq<nat>)
    requires h < |keys| && Within(t, |keys|) && SortedDesc(keys, t)
    requires forall i | 0 <= i < |t| :: keys[t[i]] <= keys[h]
    ensures Within([h] + t, |keys|) && SortedDesc(keys, [h] + t)
  {
    var s := [h] + t;
    assert forall i | 1 <= i < |s| :: s[i] == t[i - 1];
  }

  /** Positions whose keys are all at most `top` stay so when one more such
      position joins them, in whatever order. */
  lemma KeysBelow(keys: seq<real>, s: seq<nat>, t: seq<nat>, x: nat, top: real)
    requires Within(s, |keys|) && Within(t, |keys|) && x < |keys|
    requires multiset(t) == multiset(s) + multiset{x}
    requires keys[x] <= top && forall i | 0 <= i < |s| :: keys[s[i]] <= top
    ensures forall i | 0 <= i < |t| :: keys[t[i]] <= top
  {
    forall i | 0 <= i < |t|
      ensures keys[t[i]] <= top
    {
      assert t[i] in multiset(t);
      if t[i] != x {
        assert t[i] in multiset(s);
        var k :| 0 <= k < |s| && s[k] == t[i];
      }
    }
  }

  /** An insertion sort of positions by decreasing key. */
  function SortDesc(keys: seq<real>, idxs: seq<nat>): (r: seq<nat>)
    requires Within(idxs, |keys|)
    ensures Within(r, |keys|) && SortedDesc(keys, r)
    ensures multiset(r) == multiset(idxs)
    decreases |idxs|
  {
    if idxs == [] then []
    else
      var n := |idxs| - 1;
      assert idxs == idxs[..n] + [idxs[n]];
      InsertDesc(keys, SortDesc(keys, idxs[..n]), idxs[n])
  }

  /** Sorting all positions by decreasing key ranks them. */
  lemma SortRanks(keys: seq<real>)
    ensures IsRanking(keys, SortDesc(keys, Range(|keys|)))
  {
    var r := SortDesc(keys, Range(|keys|));
    assert |r| == |multiset(r)| == |multiset(Range(|keys|))|;
  }

  /** Every position appears in a ranking. */
  lemma RankingCovers(keys: seq<real>, order: seq<nat>, j: nat)
    requires IsRanking(keys, order) && j < |keys|
    ensures j in order
  {
    assert Range(|keys|)[j] == j;
    assert j in multiset(Range(|keys|));
  }

  // ---------------------------------------------------------------------
  // Python slices

  /** Where `s[:n]` ends on a list of `len` items: a negative `n` counts
      from the end, and a bound past either end stops there. */
  function Cut(n: int, len: nat): (r: nat)
    ensures r <= len
    ensures 0 <= n ==> r == if n < len then n else len
  {
    if n >= 0 then (if n < len then n else len)
    else if len + n > 0 then len + n else 0
  }

  // ---------------------------------------------------------------------
  // Table mode

  /** `df.sum(axis=0)`: the total of every column. */
  function ColumnTotals(f: Frame<real>): (r: seq<real>)
    ensures |r| == |f.data| && forall j | 0 <= j < |f.data| :: r[j] == Total(f.data[j])
  {
    seq(|f.data|, j requires 0 <= j < |f.data| => Total(f.data[j]))
  }

  /** `df[names]`: the columns at the positions `idxs`, in that order. */
  function Pick(f: Frame<real>, idxs: seq<nat>): (r: Frame<real>)
    requires Shaped(f) && Within(idxs, |f.data|)
    ensures Shaped(r) && r.index == f.index
    ensures r.columns == Gather(f.columns, idxs) && r.data == Gather(f.data, idxs)
  {
    Frame(f.index, Gather(f.columns, idxs), Gather(f.data, idxs))
  }

  /** `.sum(axis=1)` over the columns at `idxs`: one sum per row. */
  function RowSums(f: Frame<real>, idxs: seq<nat>): (r: seq<real>)
    requires Shaped(f) && Within(idxs, |f.data|)
    ensures |r| == |f.index|
    ensures forall k | 0 <= k < |f.index| :: r[k] == Total(Gather(Row(f, k), idxs))
  {
    seq(|f.index|, k requires 0 <= k < |f.index| => Total(Gather(Row(f, k), idxs)))
  }

  /** The table mode of the collapse, for one ranking of the columns: the
      first `n` ranked columns unchanged, then `"others"` holding, row by
      row, the sum of the remaining columns. */
  function CollapseTable(f: Frame<real>, order: seq<nat>, n: int): (r: Frame<real>)
    requires Shaped(f) && Within(order, |f.data|)
  {
    var c := Cut(n, |order|);
    SetColumn(Pick(f, order[..c]), Others, RowSums(f, order[c..]))
  }

  /** The collapse keeps the columns ranked first, unchanged, and appends
      `"others"`, so it has `min(n, width) + 1` columns for `n >= 0`. */
  lemma CollapseTableShape(f: Frame<real>, order: seq<nat>, n: int)
    requires Shaped(f) && IsRanking(ColumnTotals(f), order)
    requires Others !in f.columns
    ensures var c := Cut(n, |f.data|);
            var r := CollapseTable(f, order, n);
            Shaped(r) && r.index == f.index &&
            r.columns == Gather(f.columns, order[..c]) + [Others] &&
            r.data == Gather(f.data, order[..c]) + [RowSums(f, order[c..])]
    ensures 0 <= n ==> |CollapseTable(f, order, n).columns| == (if n < |f.data| then n else |f.data|) + 1
  {
    var c := Cut(n, |f.data|);
    assert Others !in Gather(f.columns, order[..c]) by {
      forall i | 0 <= i < c
        ensures Gather(f.columns, order[..c])[i] != Others
      {
        assert f.columns[order[i]] in f.columns;
      }
    }
  }

  /** Collapsing preserves every row total: the cells dropped from a row
      are exactly what `"others"` holds in that row. */
  lemma CollapseTableConserves(f: Frame<real>, order: seq<nat>, n: int, k: nat)
    requires Shaped(f) && IsRanking(ColumnTotals(f), order)
    requires Others !in f.columns && k < |f.index|
    ensures Shaped(CollapseTable(f, order, n))
    ensures Total(Row(CollapseTable(f, order, n), k)) == Total(Row(f, k))
  {
    CollapseTableShape(f, order, n);
    var c := Cut(n, |f.data|);
    var r := CollapseTable(f, order, n);
    var row := Row(f, k);
    var others := Total(Gather(row, order[c..]));
    assert Row(r, k) == Gather(row, order[..c]) + [others];
    TotalAppend(Gather(row, order[..c]), [others]);
    assert Total([others]) == Total([]) + others;
    SplitTotal(row, order, c);
  }

  /** Every column kept has a total at least that of every column folded
      into `"others"`. */
  lemma CollapseTableKeepsLargest(f: Frame<real>, order: seq<nat>, n: int, i: nat, j: nat)
    requires Shaped(f) && IsRanking(ColumnTotals(f), order)
    requires i < Cut(n, |f.data|) && j < |f.data| && j !in order[..Cut(n, |f.data|)]
    ensures i < |order| && Total(f.data[order[i]]) >= Total(f.data[j])
  {
    var totals := ColumnTotals(f);
    RankingCovers(totals, order, j);
    var p :| 0 <= p < |order| && order[p] == j;
    var c := Cut(n, |f.data|);
    assert forall q | 0 <= q < c :: order[..c][q] == order[q];
    assert totals[order[i]] >= totals[order[p]];
  }

  // ---------------------------------------------------------------------
  // Series mode

  /** `series[name] = value`: entries already labelled `name` take the value;
      otherwise the entry is appended. */
  function SetEntry(s: Series, name: string, value: real): (r: Series)
    requires |s.labels| == |s.values|
    ensures |r.labels| == |r.values|
    ensures name !in s.labels ==> r.labels == s.labels + [name] && r.values == s.values + [value]
  {
    if name in s.labels then
      Series(s.labels, seq(|s.values|, j requires 0 <= j < |s.values| => if s.labels[j] == name then value else s.values[j]))
    else
      Series(s.labels + [name], s.values + [value])
  }

  /** The series mode of the collapse, for one descending ranking of its
      entries: the first `n` ranked entries, then `"others"` holding the sum
      of the rest. */
  function CollapseSeries(s: Series, order: seq<nat>, n: int): (r: Series)
    requires |s.labels| == |s.values| && Within(order, |s.values|)
  {
    var c := Cut(n, |order|);
    SetEntry(Series(Gather(s.labels, order[..c]), Gather(s.values, order[..c])), Others,
             Total(Gather(s.values, order[c..])))
  }

  /** The series collapse keeps the `min(n, length)` largest entries in
      descending order and appends `"others"` holding the sum of the rest. */
  lemma CollapseSeriesShape(s: Series, order: seq<nat>, n: int)
    requires |s.labels| == |s.values| && IsRanking(s.values, order)
    requires Others !in s.labels
    ensures var c := Cut(n, |s.values|);
            var r := CollapseSeries(s, order, n);
            r.labels == Gather(s.labels, order[..c]) + [Others] &&
            r.values == Gather(s.values, order[..c]) + [Total(Gather(s.values, order[c..]))] &&
            forall i, j | 0 <= i < j < c :: r.values[i] >= r.values[j]
    ensures 0 <= n ==> |CollapseSeries(s, order, n).values| == (if n < |s.values| then n else |s.values|) + 1
  {
    var c := Cut(n, |s.values|);
    assert Others !in Gather(s.labels, order[..c]) by {
      forall i | 0 <= i < c
        ensures Gather(s.labels, order[..c])[i] != Others
      {
        assert s.labels[order[i]] in s.labels;
      }
    }
  }

  /** The series collapse preserves the total of the series. */
  lemma CollapseSeriesConserves(s: Series, order: seq<nat>, n: int)
    requires |s.labels| == |s.values| && IsRanking(s.values, order)
    requires Others !in s.labels
    ensures Total(CollapseSeries(s, order, n).values) == Total(s.values)
  {
    CollapseSeriesShape(s, order, n);
    var c := Cut(n, |s.values|);
    var kept := Gather(s.values, order[..c]);
    var others := Total(Gather(s.values, order[c..]));
    TotalAppend(kept, [others]);
    assert Total([others]) == Total([]) + others;
    SplitTotal(s.values, order, c);
  }

  // ---------------------------------------------------------------------
  // The collapse as the two revisions write it

  /** Table mode (`sum_axis == 1`) on a table, series mode (`sum_axis == 0`)
      on a series. The descending sort gives some ranking; the result is the
      collapse for that ranking. Any other axis leaves the result unbound
      (an UnboundLocalError), and a shape that does not fit the axis fails. */
  method GetTopAccounts(data: Aggregate, topNumber: int, sumAxis: int) returns (r: Result<Aggregate, Fault>)
    requires data.Table? ==> Shaped(data.frame) && DistinctNames(data.frame.columns)
    requires data.Column? ==> |data.series.labels| == |data.series.values|
    ensures sumAxis != 0 && sumAxis != 1 ==> r == Failure(UnknownAxis)
    ensures (sumAxis == 1 && data.Column?) || (sumAxis == 0 && data.Table?) ==> r == Failure(WrongShape)
    ensures sumAxis == 1 && data.Table? ==>
              r.Success? && r.value.Table? &&
              exists order :: IsRanking(ColumnTotals(data.frame), order) &&
                r.value.frame == CollapseTable(data.frame, order, topNumber)
    ensures sumAxis == 0 && data.Column? ==>
              r.Success? && r.value.Column? &&
              exists order :: IsRanking(data.series.values, order) &&
                r.value.series == CollapseSeries(data.series, order, topNumber)
  {
    if sumAxis == 1 {
      if data.Column? {
        return Failure(WrongShape);
      }
      var f := data.frame;
      var totals := ColumnTotals(f);
      var dfTopItems := SortDesc(totals, Range(|totals|));
      SortRanks(totals);
      var c := Cut(topNumber, |dfTopItems|);
      var dataFrameTop := Pick(f, dfTopItems[..c]);
      dataFrameTop := SetColumn(dataFrameTop, Others, RowSums(f, dfTopItems[c..]));
      r := Success(Table(dataFrameTop));
    } else if sumAxis == 0 {
      if data.Table? {
        return Failure(WrongShape);
      }
      var s := data.series;
      var dfTopItems := SortDesc(s.values, Range(|s.values|));
      SortRanks(s.values);
      var c := Cut(topNumber, |dfTopItems|);
      var dataFrameTop := Series(Gather(s.labels, dfTopItems[..c]), Gather(s.values, dfTopItems[..c]));
      dataFrameTop := SetEntry(dataFrameTop, Others, Total(Gather(s.values, dfTopItems[c..])));
      r := Success(Column(dataFrameTop));
    } else {
      r := Failure(UnknownAxis);
    }
  }
}
