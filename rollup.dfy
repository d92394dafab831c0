/** What the monthly table means for the parent account as a whole: because
    the direct children's subtrees are disjoint and together make up the
    parent's subtree, each month's row of the table adds up to the in-range
    amount booked anywhere below the parent, and the top-N collapse keeps
    that row total. */
module Rollup {
  import opened Wrappers
  import opened Ledger
  import opened Tree
  import opened Frames
  import opened Aggregation
  import TopN

  /** A cell depends only on which in-range splits its id list admits. */
  lemma {:induction false} CellSumAgree(splits: seq<Split>, values: seq<Option<real>>, mask: seq<bool>,
                                        a: seq<Id>, b: seq<Id>, m: Month, n: nat)
    requires n <= |splits| == |values| == |mask|
    requires forall i | 0 <= i < n && mask[i] :: splits[i].accountGuid in a <==> splits[i].accountGuid in b
    ensures CellSum(splits, values, mask, a, m, n) == CellSum(splits, values, mask, b, m, n)
  {
    if n > 0 {
      CellSumAgree(splits, values, mask, a, b, m, n - 1);
    }
  }

  /** Cells over disjoint id lists add up to the cell over their concatenation. */
  lemma {:induction false} CellSumUnion(splits: seq<Split>, values: seq<Option<real>>, mask: seq<bool>,
                                        a: seq<Id>, b: seq<Id>, m: Month, n: nat)
    requires n <= |splits| == |values| == |mask|
    requires forall x | x in a :: x !in b
    ensures CellSum(splits, values, mask, a + b, m, n) ==
            CellSum(splits, values, mask, a, m, n) + CellSum(splits, values, mask, b, m, n)
  {
    if n > 0 {
      CellSumUnion(splits, values, mask, a, b, m, n - 1);
    }
  }

  /** The contributors of every child, one child after another. */
  ghost function Contributing(kids: Kids, rank: map<Id, nat>, children: seq<Account>): seq<Id>
    requires Ranked(kids, rank)
    decreases |children|
  {
    if children == [] then []
    else Contributing(kids, rank, children[..|children| - 1]) + Contributors(kids, rank, children[|children| - 1])
  }

  lemma {:induction false} ContributingMember(kids: Kids, rank: map<Id, nat>, children: seq<Account>, x: Id)
    requires Ranked(kids, rank)
    ensures x in Contributing(kids, rank, children) <==>
            exists j :: 0 <= j < |children| && x in Contributors(kids, rank, children[j])
    decreases |children|
  {
    if children != [] {
      var init := children[..|children| - 1];
      ContributingMember(kids, rank, init, x);
      assert forall j | 0 <= j < |init| :: init[j] == children[j];
    }
  }

  /** No two children share a contributor. */
  ghost predicate Disjoint(kids: Kids, rank: map<Id, nat>, children: seq<Account>)
    requires Ranked(kids, rank)
  {
    forall i, j, x | 0 <= i < j < |children| && x in Contributors(kids, rank, children[i]) ::
      x !in Contributors(kids, rank, children[j])
  }

  /** The cells of month `m`, one per child. */
  ghost function MonthCells(kids: Kids, rank: map<Id, nat>, children: seq<Account>, splits: seq<Split>,
                            values: seq<Option<real>>, mask: seq<bool>, m: Month): (r: seq<real>)
    requires Ranked(kids, rank) && |splits| == |values| == |mask|
    ensures |r| == |children|
  {
    seq(|children|, j requires 0 <= j < |children| =>
      CellSum(splits, values, mask, Contributors(kids, rank, children[j]), m, |splits|))
  }

  /** The cells of disjoint children add up to the cell over all their
      contributors together. */
  lemma {:induction false} MonthCellsTotal(kids: Kids, rank: map<Id, nat>, children: seq<Account>, splits: seq<Split>,
                                           values: seq<Option<real>>, mask: seq<bool>, m: Month)
    requires Ranked(kids, rank) && |splits| == |values| == |mask|
    requires Disjoint(kids, rank, children)
    ensures Total(MonthCells(kids, rank, children, splits, values, mask, m)) ==
            CellSum(splits, values, mask, Contributing(kids, rank, children), m, |splits|)
    decreases |children|
  {
    if children != [] {
      var last := |children| - 1;
      var init := children[..last];
      assert Disjoint(kids, rank, init) by {
        assert forall j | 0 <= j < |init| :: init[j] == children[j];
      }
      MonthCellsTotal(kids, rank, init, splits, values, mask, m);
      var cells := MonthCells(kids, rank, children, splits, values, mask, m);
      assert cells[..last] == MonthCells(kids, rank, init, splits, values, mask, m);
      assert Total(cells) == Total(cells[..last]) + cells[last];
      forall x | x in Contributing(kids, rank, init)
        ensures x !in Contributors(kids, rank, children[last])
      {
        ContributingMember(kids, rank, init, x);
        var j :| 0 <= j < |init| && x in Contributors(kids, rank, init[j]);
        assert init[j] == children[j];
      }
      CellSumUnion(splits, values, mask, Contributing(kids, rank, init), Contributors(kids, rank, children[last]),
                   m, |splits|);
      assert Contributing(kids, rank, children) ==
             Contributing(kids, rank, init) + Contributors(kids, rank, children[last]);
    } else {
      NoEntryZero(splits, values, mask, [], m, |splits|);
    }
  }

  /** The direct children of `parent` have disjoint contributor lists. */
  lemma SiblingsDisjoint(kids: Kids, rank: map<Id, nat>, parent: Id, children: seq<Account>)
    requires Ranked(kids, rank) && UniqueParents(kids)
    requires Guids(children) == ChildrenOf(kids, parent)
    ensures Disjoint(kids, rank, children)
  {
    forall i, j, x | 0 <= i < j < |children| && x in Contributors(kids, rank, children[i])
      ensures x !in Contributors(kids, rank, children[j])
    {
      SiblingsApart(kids, rank, parent, i, j);
    }
  }

  /** No in-range split is booked directly to a placeholder child; such a
      split would appear in no column. */
  ghost predicate NoPlaceholderBookings(children: seq<Account>, splits: seq<Split>, mask: seq<bool>)
    requires |splits| == |mask|
  {
    forall i, j | 0 <= i < |splits| && 0 <= j < |children| && mask[i] && children[j].placeholder != 0 ::
      splits[i].accountGuid != children[j].guid
  }

  /** Among the accounts in-range splits are booked to, the children's
      contributors are exactly the parent's subtree below it. */
  lemma ContributingIsWalk(kids: Kids, rank: map<Id, nat>, parent: Id, children: seq<Account>,
                           splits: seq<Split>, mask: seq<bool>, i: nat)
    requires Ranked(kids, rank) && |splits| == |mask| && i < |splits| && mask[i]
    requires Guids(children) == ChildrenOf(kids, parent)
    requires NoPlaceholderBookings(children, splits, mask)
    ensures splits[i].accountGuid in Contributing(kids, rank, children) <==>
            splits[i].accountGuid in Walk(kids, rank, parent)
  {
    var x := splits[i].accountGuid;
    var cs := ChildrenOf(kids, parent);
    ContributingMember(kids, rank, children, x);
    WalkMember(kids, rank, parent, x);
    if x in Contributing(kids, rank, children) {
      var j :| 0 <= j < |children| && x in Contributors(kids, rank, children[j]);
      assert children[j].guid == cs[j];
      ChildWalkInside(kids, rank, parent, j, x);
    }
    if x in Walk(kids, rank, parent) {
      var j :| 0 <= j < |cs| && (x == cs[j] || x in Walk(kids, rank, cs[j]));
      assert children[j].guid == cs[j];
      assert x in Contributors(kids, rank, children[j]);
    }
  }

  /** The roll-up: with distinct child names and no in-range split booked
      directly to a placeholder child, the row of month `k` of the parent's
      monthly table adds up to that month's in-range amount booked anywhere
      in the parent's subtree, the parent itself excluded. */
  lemma RowIsSubtreeTotal(kids: Kids, rank: map<Id, nat>, parent: Id, children: seq<Account>,
                          splits: seq<Split>, values: seq<Option<real>>, mask: seq<bool>, k: nat)
    requires Ranked(kids, rank) && UniqueParents(kids) && |splits| == |values| == |mask|
    requires Guids(children) == ChildrenOf(kids, parent)
    requires DistinctNames(Names(children))
    requires NoPlaceholderBookings(children, splits, mask)
    requires k < |MonthIndex(splits, mask)|
    ensures Shaped(MonthlyTable(kids, rank, children, splits, values, mask))
    ensures Total(Row(MonthlyTable(kids, rank, children, splits, values, mask), k)) ==
            CellSum(splits, values, mask, Walk(kids, rank, parent), MonthIndex(splits, mask)[k], |splits|)
  {
    var t := MonthlyTable(kids, rank, children, splits, values, mask);
    var m := MonthIndex(splits, mask)[k];
    MonthlyTableCells(kids, rank, children, splits, values, mask);
    assert Row(t, k) == MonthCells(kids, rank, children, splits, values, mask, m);
    SiblingsDisjoint(kids, rank, parent, children);
    MonthCellsTotal(kids, rank, children, splits, values, mask, m);
    forall i | 0 <= i < |splits| && mask[i]
      ensures splits[i].accountGuid in Contributing(kids, rank, children) <==>
              splits[i].accountGuid in Walk(kids, rank, parent)
    {
      ContributingIsWalk(kids, rank, parent, children, splits, mask, i);
    }
    CellSumAgree(splits, values, mask, Contributing(kids, rank, children), Walk(kids, rank, parent), m, |splits|);
  }

  /** Collapsing the parent's monthly table to its top columns and
      `"others"` keeps every month's row total equal to the subtree total. */
  lemma CollapsedRowIsSubtreeTotal(kids: Kids, rank: map<Id, nat>, parent: Id, children: seq<Account>,
                                   splits: seq<Split>, values: seq<Option<real>>, mask: seq<bool>,
                                   order: seq<nat>, n: int, k: nat)
    requires Ranked(kids, rank) && UniqueParents(kids) && |splits| == |values| == |mask|
    requires Guids(children) == ChildrenOf(kids, parent)
    requires DistinctNames(Names(children)) && TopN.Others !in Names(children)
    requires NoPlaceholderBookings(children, splits, mask)
    requires k < |MonthIndex(splits, mask)|
    requires TopN.IsRanking(TopN.ColumnTotals(MonthlyTable(kids, rank, children, splits, values, mask)), order)
    ensures Shaped(MonthlyTable(kids, rank, children, splits, values, mask))
    ensures Shaped(TopN.CollapseTable(MonthlyTable(kids, rank, children, splits, values, mask), order, n))
    ensures Total(Row(TopN.CollapseTable(MonthlyTable(kids, rank, children, splits, values, mask), order, n), k)) ==
            CellSum(splits, values, mask, Walk(kids, rank, parent), MonthIndex(splits, mask)[k], |splits|)
  {
    RowIsSubtreeTotal(kids, rank, parent, children, splits, values, mask, k);
    MonthlyTableCells(kids, rank, children, splits, values, mask);
    TopN.CollapseTableConserves(MonthlyTable(kids, rank, children, splits, values, mask), order, n, k);
  }
}
