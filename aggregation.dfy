/** Monthly totals per subtree: the splits in a date window are bucketed by
    month, and each direct child of a parent account gets a column summing
    the amounts booked to its subtree. This module holds the specification
    both revisions of the grouping method are proved against. */
module Aggregation {
  import opened Wrappers
  import opened Ledger
  import opened Tree
  import opened Frames

  // ---------------------------------------------------------------------
  // Date window

  /** A posting date passes the filter: both bounds inclusive, a missing
      bound leaves that side open. */
  predicate InRange(d: Date, startDate: Option<Date>, endDate: Option<Date>) {
    (startDate.None? || DateLe(startDate.value, d)) && (endDate.None? || DateLe(d, endDate.value))
  }

  /** The in-range flag of every split. */
  function WindowMask(splits: seq<Split>, startDate: Option<Date>, endDate: Option<Date>): (r: seq<bool>)
    ensures |r| == |splits|
  {
    seq(|splits|, i requires 0 <= i < |splits| => InRange(splits[i].postDate, startDate, endDate))
  }

  /** `idx_date_range`: every split selected, then narrowed by the start
      bound and by the end bound when they are given. */
  method DateRangeMask(splits: seq<Split>, startDate: Option<Date>, endDate: Option<Date>) returns (mask: seq<bool>)
    ensures |mask| == |splits|
    ensures forall i | 0 <= i < |splits| :: mask[i] == InRange(splits[i].postDate, startDate, endDate)
    ensures mask == WindowMask(splits, startDate, endDate)
  {
    mask := seq(|splits|, _ => true);
    if startDate.Some? {
      var prev := mask;
      mask := seq(|splits|, i requires 0 <= i < |splits| => prev[i] && DateLe(startDate.value, splits[i].postDate));
    }
    if endDate.Some? {
      var prev := mask;
      mask := seq(|splits|, i requires 0 <= i < |splits| => prev[i] && DateLe(splits[i].postDate, endDate.value));
    }
  }

  /** A window whose start lies after its end selects nothing; one whose
      bounds coincide selects exactly that day. */
  lemma WindowBounds(d: Date, a: Date, b: Date)
    ensures !DateLe(a, b) ==> !InRange(d, Some(a), Some(b))
    ensures InRange(d, Some(a), Some(a)) <==> d == a
  {
    if InRange(d, Some(a), Some(a)) {
      assert d.year == a.year && d.month == a.month && d.day == a.day;
    }
  }

  // ---------------------------------------------------------------------
  // Month index

  /** Strictly increasing, hence sorted and without repeats. */
  predicate Ascending(ms: seq<Month>) {
    forall i, j | 0 <= i < j < |ms| :: MonthLt(ms[i], ms[j])
  }

  /** Adds one month to a sorted, repeat-free list, keeping it so. */
  function InsertMonth(ms: seq<Month>, m: Month): (r: seq<Month>)
    requires Ascending(ms)
    ensures Ascending(r)
    ensures forall x :: x in r <==> x in ms || x == m
    decreases |ms|
  {
    if ms == [] then [m]
    else if ms[0] == m then ms
    else if MonthLt(m, ms[0]) then [m] + ms
    else
      var rest := InsertMonth(ms[1..], m);
      assert forall x | x in rest :: MonthLt(ms[0], x) by {
        forall x | x in rest
          ensures MonthLt(ms[0], x)
        {
          if x != m {
            var k :| 0 <= k < |ms[1..]| && ms[1..][k] == x;
            assert ms[k + 1] == x;
          }
        }
      }
      [ms[0]] + rest
  }

  /** The months of the in-range splits among the first `n`. */
  ghost predicate MonthInRange(splits: seq<Split>, mask: seq<bool>, n: nat, m: Month)
    requires n <= |splits| == |mask|
  {
    exists i | 0 <= i < n :: mask[i] && MonthOf(splits[i].postDate) == m
  }

  /** `post_month` of the in-range splits among the first `n`, sorted and
      de-duplicated. */
  function MonthIndexUpTo(splits: seq<Split>, mask: seq<bool>, n: nat): (r: seq<Month>)
    requires n <= |splits| == |mask|
    ensures Ascending(r)
    ensures forall m :: m in r <==> MonthInRange(splits, mask, n, m)
  {
    if n == 0 then []
    else
      var prev := MonthIndexUpTo(splits, mask, n - 1);
      if mask[n - 1] then InsertMonth(prev, MonthOf(splits[n - 1].postDate)) else prev
  }

  /** The row index of the grouped table: the month of every in-range split
      (of any account, not only the parent's subtree), sorted, once each. */
  function MonthIndex(splits: seq<Split>, mask: seq<bool>): (r: seq<Month>)
    requires |splits| == |mask|
    ensures Ascending(r)
    ensures forall m :: m in r <==> exists i | 0 <= i < |splits| :: mask[i] && MonthOf(splits[i].postDate) == m
  {
    MonthIndexUpTo(splits, mask, |splits|)
  }

  /** No element of an ascending list lies below its head. */
  lemma NotBelowHead(ms: seq<Month>, x: Month)
    requires Ascending(ms) && x in ms
    ensures !MonthLt(x, ms[0])
  {
    var i :| 0 <= i < |ms| && ms[i] == x;
    if i > 0 {
      assert MonthLt(ms[0], ms[i]);
    }
  }

  /** A sorted, repeat-free list is fixed by its elements: the month index is
      the only such listing of the in-range months, however it is computed. */
  lemma {:induction false} AscendingUnique(a: seq<Month>, b: seq<Month>)
    requires Ascending(a) && Ascending(b)
    requires forall x :: x in a <==> x in b
    ensures a == b
    decreases |a|
  {
    assert a != [] ==> a[0] in a;
    assert b != [] ==> b[0] in b;
    if a != [] && b != [] {
      assert a[0] in b && b[0] in a;
      NotBelowHead(a, b[0]);
      NotBelowHead(b, a[0]);
      forall x
        ensures x in a[1..] <==> x in b[1..]
      {
        if x in a[1..] {
          var i :| 0 <= i < |a[1..]| && a[1..][i] == x;
          assert a[i + 1] == x && MonthLt(a[0], x);
          assert x in a;
          var k :| 0 <= k < |b| && b[k] == x;
          assert k != 0 && b[1..][k - 1] == x;
        }
        if x in b[1..] {
          var k :| 0 <= k < |b[1..]| && b[1..][k] == x;
          assert b[k + 1] == x && MonthLt(b[0], x);
          assert x in b;
          var i :| 0 <= i < |a| && a[i] == x;
          assert i != 0 && a[1..][i - 1] == x;
        }
      }
      AscendingUnique(a[1..], b[1..]);
      assert a == [a[0]] + a[1..] && b == [b[0]] + b[1..];
    }
  }

  // ---------------------------------------------------------------------
  // Cells

  /** What one split adds to the cell of month `m` in the column summing
      over the accounts `ids`: its amount when it is in range, booked to one
      of `ids` in that month, and defined; an undefined (NaN) amount is
      skipped, as a pandas sum skips NaN. */
  function Contribution(s: Split, value: Option<real>, inRange: bool, ids: seq<Id>, m: Month): real {
    if inRange && s.accountGuid in ids && MonthOf(s.postDate) == m && value.Some? then value.value else 0.0
  }

  /** The sum of the contributions of the first `n` splits to month `m`. */
  function CellSum(splits: seq<Split>, values: seq<Option<real>>, mask: seq<bool>, ids: seq<Id>, m: Month, n: nat): real
    requires n <= |splits| == |values| == |mask|
  {
    if n == 0 then 0.0
    else CellSum(splits, values, mask, ids, m, n - 1) + Contribution(splits[n - 1], values[n - 1], mask[n - 1], ids, m)
  }

  /** Some in-range split of month `m` among the first `n` is booked to one
      of `ids`: the month is a group of the `groupby`, whatever its amounts. */
  predicate HasEntry(splits: seq<Split>, mask: seq<bool>, ids: seq<Id>, m: Month, n: nat)
    requires n <= |splits| == |mask|
  {
    exists i | 0 <= i < n :: mask[i] && splits[i].accountGuid in ids && MonthOf(splits[i].postDate) == m
  }

  /** A month without any entry sums to zero. */
  lemma {:induction false} NoEntryZero(splits: seq<Split>, values: seq<Option<real>>, mask: seq<bool>, ids: seq<Id>, m: Month, n: nat)
    requires n <= |splits| == |values| == |mask|
    requires !HasEntry(splits, mask, ids, m, n)
    ensures CellSum(splits, values, mask, ids, m, n) == 0.0
  {
    if n > 0 {
      NoEntryZero(splits, values, mask, ids, m, n - 1);
    }
  }

  /** `groupby('post_month')['price'].sum()` aligned on the month index:
      a month that is a group holds its sum, any other month is missing. */
  function GroupedColumn(splits: seq<Split>, values: seq<Option<real>>, mask: seq<bool>, ids: seq<Id>, index: seq<Month>)
    : (r: seq<Option<real>>)
    requires |splits| == |values| == |mask|
    ensures |r| == |index|
  {
    seq(|index|, k requires 0 <= k < |index| =>
      if HasEntry(splits, mask, ids, index[k], |splits|) then Some(CellSum(splits, values, mask, ids, index[k], |splits|))
      else None)
  }

  /** The reference column: for every month of the index, the sum over all
      splits of their contributions. */
  function ColumnOf(splits: seq<Split>, values: seq<Option<real>>, mask: seq<bool>, ids: seq<Id>, index: seq<Month>)
    : (r: seq<real>)
    requires |splits| == |values| == |mask|
    ensures |r| == |index|
  {
    seq(|index|, k requires 0 <= k < |index| => CellSum(splits, values, mask, ids, index[k], |splits|))
  }

  /** Filling the missing months of the grouped column with 0 gives the
      reference column. */
  lemma FillGrouped(splits: seq<Split>, values: seq<Option<real>>, mask: seq<bool>, ids: seq<Id>, index: seq<Month>)
    requires |splits| == |values| == |mask|
    ensures FillNaColumn(GroupedColumn(splits, values, mask, ids, index)) == ColumnOf(splits, values, mask, ids, index)
  {
    forall k | 0 <= k < |index| && !HasEntry(splits, mask, ids, index[k], |splits|)
      ensures CellSum(splits, values, mask, ids, index[k], |splits|) == 0.0
    {
      NoEntryZero(splits, values, mask, ids, index[k], |splits|);
    }
  }

  // ---------------------------------------------------------------------
  // Column totals

  /** The defined amounts of the in-range splits among the first `n` that
      are booked to one of `ids`, over all months. */
  function RangeTotal(splits: seq<Split>, values: seq<Option<real>>, mask: seq<bool>, ids: seq<Id>, n: nat): real
    requires n <= |splits| == |values| == |mask|
  {
    if n == 0 then 0.0
    else
      var i := n - 1;
      RangeTotal(splits, values, mask, ids, i) +
        (if mask[i] && splits[i].accountGuid in ids && values[i].Some? then values[i].value else 0.0)
  }

  /** Over a repeat-free index, an amount placed in the row of month `m` and
      nowhere else totals that amount when `m` is a row, and 0 otherwise. */
  lemma {:induction false} TotalOneRow(index: seq<Month>, m: Month, w: real, col: seq<real>)
    requires Ascending(index) && |col| == |index|
    requires forall k | 0 <= k < |index| :: col[k] == if index[k] == m then w else 0.0
    ensures Total(col) == if m in index then w else 0.0
    decreases |index|
  {
    if index != [] {
      var n := |index| - 1;
      TotalOneRow(index[..n], m, w, col[..n]);
      assert index == index[..n] + [index[n]];
    }
  }

  /** The column summed down the first `n` splits. */
  function ColumnUpTo(splits: seq<Split>, values: seq<Option<real>>, mask: seq<bool>, ids: seq<Id>, index: seq<Month>, n: nat)
    : (r: seq<real>)
    requires n <= |splits| == |values| == |mask|
    ensures |r| == |index|
  {
    seq(|index|, k requires 0 <= k < |index| => CellSum(splits, values, mask, ids, index[k], n))
  }

  lemma {:induction false} ColumnUpToTotal(splits: seq<Split>, values: seq<Option<real>>, mask: seq<bool>, ids: seq<Id>,
                                           index: seq<Month>, n: nat)
    requires n <= |splits| == |values| == |mask|
    requires Ascending(index)
    requires forall i | 0 <= i < n && mask[i] :: MonthOf(splits[i].postDate) in index
    ensures Total(ColumnUpTo(splits, values, mask, ids, index, n)) == RangeTotal(splits, values, mask, ids, n)
    decreases n
  {
    var col := ColumnUpTo(splits, values, mask, ids, index, n);
    if n == 0 {
      TotalOneRow(index, Month(0, 0), 0.0, col);
    } else {
      var i := n - 1;
      var prev := ColumnUpTo(splits, values, mask, ids, index, i);
      ColumnUpToTotal(splits, values, mask, ids, index, i);
      var m := MonthOf(splits[i].postDate);
      var w := if mask[i] && splits[i].accountGuid in ids && values[i].Some? then values[i].value else 0.0;
      var step := seq(|index|, k requires 0 <= k < |index| => Contribution(splits[i], values[i], mask[i], ids, index[k]));
      TotalPointwise(prev, step, col);
      TotalOneRow(index, m, w, step);
    }
  }

  /** Every in-range amount of the subtree lands in exactly one row: the
      column's total over all months is the total of those amounts. */
  lemma ColumnTotal(splits: seq<Split>, values: seq<Option<real>>, mask: seq<bool>, ids: seq<Id>)
    requires |splits| == |values| == |mask|
    ensures Total(ColumnOf(splits, values, mask, ids, MonthIndex(splits, mask))) == RangeTotal(splits, values, mask, ids, |splits|)
  {
    var index := MonthIndex(splits, mask);
    assert ColumnOf(splits, values, mask, ids, index) == ColumnUpTo(splits, values, mask, ids, index, |splits|);
    ColumnUpToTotal(splits, values, mask, ids, index, |splits|);
  }

  // ---------------------------------------------------------------------
  // The grouped table

  /** The accounts a child's column sums over: every descendant of the
      child, and the child itself unless it is a placeholder. */
  ghost function Contributors(kids: Kids, rank: map<Id, nat>, child: Account): seq<Id>
    requires Ranked(kids, rank)
  {
    Walk(kids, rank, child.guid) + (if child.placeholder == 0 then [child.guid] else [])
  }

  /** The contributors are exactly the child's subtree, with the child itself
      included only when it is not a placeholder. */
  lemma ContributorsAreSubtree(kids: Kids, rank: map<Id, nat>, child: Account, x: Id)
    requires Ranked(kids, rank)
    ensures x in Contributors(kids, rank, child) <==>
              (exists n: nat :: 1 <= n && Reaches(kids, child.guid, x, n)) || (x == child.guid && child.placeholder == 0)
  {
    WalkIsDescendants(kids, rank, child.guid, x);
  }

  /** The column of one child: its cells over its contributors. */
  ghost function ChildColumn(kids: Kids, rank: map<Id, nat>, child: Account, splits: seq<Split>,
                             values: seq<Option<real>>, mask: seq<bool>, index: seq<Month>): seq<real>
    requires Ranked(kids, rank) && |splits| == |values| == |mask|
  {
    ColumnOf(splits, values, mask, Contributors(kids, rank, child), index)
  }

  function Names(children: seq<Account>): (r: seq<string>)
    ensures |r| == |children| && forall j | 0 <= j < |children| :: r[j] == children[j].name
  {
    seq(|children|, j requires 0 <= j < |children| => children[j].name)
  }

  /** The columns of the children, one per child, in child order. */
  ghost function ChildColumns(kids: Kids, rank: map<Id, nat>, children: seq<Account>, splits: seq<Split>,
                              values: seq<Option<real>>, mask: seq<bool>, index: seq<Month>): (r: seq<seq<real>>)
    requires Ranked(kids, rank) && |splits| == |values| == |mask|
    ensures |r| == |children|
    ensures forall j | 0 <= j < |children| :: |r[j]| == |index|
  {
    seq(|children|, j requires 0 <= j < |children| => ChildColumn(kids, rank, children[j], splits, values, mask, index))
  }

  /** The table after one column per child has been assigned, in child
      order, each named after its child (a later child of the same name
      replaces the earlier column). */
  ghost function Grouped(kids: Kids, rank: map<Id, nat>, children: seq<Account>, splits: seq<Split>,
                         values: seq<Option<real>>, mask: seq<bool>, index: seq<Month>): (r: Frame<real>)
    requires Ranked(kids, rank) && |splits| == |values| == |mask|
    ensures r.index == index && |r.data| == |r.columns|
  {
    AssignColumns(Frame(index, [], []), Names(children), ChildColumns(kids, rank, children, splits, values, mask, index))
  }

  /** Every column of the grouped table has one cell per month, and no
      name heads two columns. */
  lemma GroupedShape(kids: Kids, rank: map<Id, nat>, children: seq<Account>, splits: seq<Split>,
                     values: seq<Option<real>>, mask: seq<bool>, index: seq<Month>)
    requires Ranked(kids, rank) && |splits| == |values| == |mask|
    ensures Shaped(Grouped(kids, rank, children, splits, values, mask, index))
    ensures DistinctNames(Grouped(kids, rank, children, splits, values, mask, index).columns)
  {
    AssignShape(Frame(index, [], []), Names(children), ChildColumns(kids, rank, children, splits, values, mask, index));
  }

  /** What the grouping method returns for a parent whose direct children
      are `children`. */
  ghost function MonthlyTable(kids: Kids, rank: map<Id, nat>, children: seq<Account>, splits: seq<Split>,
                              values: seq<Option<real>>, mask: seq<bool>): Frame<real>
    requires Ranked(kids, rank) && |splits| == |values| == |mask|
  {
    Grouped(kids, rank, children, splits, values, mask, MonthIndex(splits, mask))
  }

  /** With distinct child names there is one column per child, in child
      order, holding that child's cells. */
  lemma GroupedColumns(kids: Kids, rank: map<Id, nat>, children: seq<Account>, splits: seq<Split>,
                       values: seq<Option<real>>, mask: seq<bool>, index: seq<Month>)
    requires Ranked(kids, rank) && |splits| == |values| == |mask|
    requires DistinctNames(Names(children))
    ensures Grouped(kids, rank, children, splits, values, mask, index).columns == Names(children)
    ensures Grouped(kids, rank, children, splits, values, mask, index).data ==
            ChildColumns(kids, rank, children, splits, values, mask, index)
  {
    AssignFresh(index, Names(children), ChildColumns(kids, rank, children, splits, values, mask, index));
  }

  /** The grouped table, cell by cell: with distinct child names, the cell
      of child `j` and month `k` sums the in-range amounts of that month
      booked to the child's subtree, and every column's total is the total
      of the subtree's in-range amounts. */
  lemma MonthlyTableCells(kids: Kids, rank: map<Id, nat>, children: seq<Account>, splits: seq<Split>,
                          values: seq<Option<real>>, mask: seq<bool>)
    requires Ranked(kids, rank) && |splits| == |values| == |mask|
    requires DistinctNames(Names(children))
    ensures var t := MonthlyTable(kids, rank, children, splits, values, mask);
            Shaped(t) && t.columns == Names(children) &&
            (forall j, k | 0 <= j < |children| && 0 <= k < |t.index| ::
               t.data[j][k] == CellSum(splits, values, mask, Contributors(kids, rank, children[j]), t.index[k], |splits|)) &&
            (forall j | 0 <= j < |children| ::
               Total(t.data[j]) == RangeTotal(splits, values, mask, Contributors(kids, rank, children[j]), |splits|))
  {
    GroupedShape(kids, rank, children, splits, values, mask, MonthIndex(splits, mask));
    GroupedColumns(kids, rank, children, splits, values, mask, MonthIndex(splits, mask));
    assert forall j | 0 <= j < |children| ::
      MonthlyTable(kids, rank, children, splits, values, mask).data[j] ==
      ChildColumn(kids, rank, children[j], splits, values, mask, MonthIndex(splits, mask));
    forall j | 0 <= j < |children|
      ensures Total(MonthlyTable(kids, rank, children, splits, values, mask).data[j]) ==
              RangeTotal(splits, values, mask, Contributors(kids, rank, children[j]), |splits|)
    {
      ColumnTotal(splits, values, mask, Contributors(kids, rank, children[j]));
    }
  }

  /** One loop step of a grouping method: assigning the grouped column of
      the next child and filling keeps the filled table equal to the
      specification over the children seen so far. */
  lemma GroupedStep(kids: Kids, rank: map<Id, nat>, children: seq<Account>, i: nat, splits: seq<Split>,
                    values: seq<Option<real>>, mask: seq<bool>, index: seq<Month>,
                    grouped: Frame<Option<real>>, ids: seq<Id>)
    requires Ranked(kids, rank) && |splits| == |values| == |mask| && i < |children|
    requires |grouped.data| == |grouped.columns|
    requires FillNa(grouped) == Grouped(kids, rank, children[..i], splits, values, mask, index)
    requires ids == Contributors(kids, rank, children[i])
    ensures FillNa(SetColumn(grouped, children[i].name, GroupedColumn(splits, values, mask, ids, index))) ==
            Grouped(kids, rank, children[..i + 1], splits, values, mask, index)
  {
    FillNaSetColumn(grouped, children[i].name, GroupedColumn(splits, values, mask, ids, index));
    FillGrouped(splits, values, mask, ids, index);
    var prefix := children[..i + 1];
    assert Names(prefix) == Names(children[..i]) + [children[i].name];
    assert ChildColumns(kids, rank, prefix, splits, values, mask, index) ==
           ChildColumns(kids, rank, children[..i], splits, values, mask, index) +
           [ChildColumn(kids, rank, children[i], splits, values, mask, index)];
    AssignSnoc(Frame(index, [], []), Names(children[..i]), ChildColumns(kids, rank, children[..i], splits, values, mask, index),
               children[i].name, ChildColumn(kids, rank, children[i], splits, values, mask, index));
  }
}
