/** The older data access class of `GnucashAcc.py`: the same snapshot as the
    current API, over the older account tree of `treeSearch.py`, whose child
    lookup it reads directly. */
module GnucashAcc {
  import opened Wrappers
  import opened Ledger
  import opened Tree
  import opened Frames
  import opened Normalize
  import opened Aggregation
  import TreeIndex
  import LegacyTreeIndex

  class GnuCashAccess {
    /** The `accounts` table. */
    const dfAccounts: seq<Account>
    /** The latest price row of every commodity quoted in the reporting currency. */
    const dfCommodities: map<Id, Price>
    /** The account tree over `dfAccounts`, with the default root marker. */
    const objAccTree: LegacyTreeIndex.TreeSearch
    /** The commodity of the root account. */
    const rootCurrency: Id
    /** The splits joined with their transactions. */
    var dfSplits: seq<Split>
    /** The `price` column: each split's amount in the reporting currency. */
    var price: seq<Option<real>>

    ghost predicate Valid()
      reads this, objAccTree
    {
      objAccTree.nodes == dfAccounts && objAccTree.rootId == None && objAccTree.Valid() &&
      RootCurrency(dfAccounts) == Some(rootCurrency) &&
      |price| == |dfSplits| &&
      forall i | 0 <= i < |dfSplits| :: price[i] == SplitValue(dfSplits[i], rootCurrency, dfCommodities)
    }

    /** Opens a snapshot; a book without a root account fails with the
        IndexError of the root-currency lookup. */
    static method Open(accounts: seq<Account>, splits: seq<Split>, commodities: map<Id, Price>)
      returns (r: Result<GnuCashAccess, Fault>)
      ensures r.Failure? <==> RootCurrency(accounts).None?
      ensures r.Failure? ==> r.error == NoRootAccount
      ensures r.Success? ==>
                fresh(r.value) && fresh(r.value.objAccTree) && r.value.Valid() &&
                r.value.dfAccounts == accounts && r.value.dfSplits == splits &&
                r.value.dfCommodities == commodities
    {
      var root := RootCurrency(accounts);
      if root.None? {
        return Failure(NoRootAccount);
      }
      var access := new GnuCashAccess(accounts, splits, commodities, root.value);
      r := Success(access);
    }

    constructor (accounts: seq<Account>, splits: seq<Split>, commodities: map<Id, Price>, root: Id)
      requires RootCurrency(accounts) == Some(root)
      ensures fresh(objAccTree) && Valid()
      ensures objAccTree.parent == LastRoot(accounts, None)
      ensures dfAccounts == accounts && dfSplits == splits && dfCommodities == commodities && rootCurrency == root
    {
      dfAccounts := accounts;
      dfCommodities := commodities;
      var shared := new TreeIndex.IdList();
      var tree := new LegacyTreeIndex.TreeSearch(accounts, None, shared);
      objAccTree := tree;
      rootCurrency := root;
      dfSplits := splits;
      var column := PriceColumn(splits, root, commodities);
      price := column;
    }

    /** The id-level child lookup of the account tree. */
    ghost function Kids(): Tree.Kids
      reads this, objAccTree
    {
      LegacyTreeIndex.LegacyView(objAccTree.childLookup)
    }

    /** Monthly totals of the direct children of `parentId` over the splits in
        the window, one column per child in lookup order. A parent that is no
        key of the lookup fails: iterating the `None` that `get` returns is a
        TypeError. */
    method GetSplits(parentId: Id, startDate: Option<Date>, endDate: Option<Date>, ghost rank: map<Id, nat>)
      returns (r: Result<Frame<real>, Fault>)
      requires Valid() && Ranked(Kids(), rank)
      ensures r.Failure? <==> ChildRows(dfAccounts, Some(parentId)) == []
      ensures r.Failure? ==> r.error == NotIterable
      ensures r.Success? ==>
                r.value == MonthlyTable(Kids(), rank, ChildRows(dfAccounts, Some(parentId)),
                                        dfSplits, price, WindowMask(dfSplits, startDate, endDate))
    {
      var lstDirectChildren := if Some(parentId) in objAccTree.childLookup
                               then Some(objAccTree.childLookup[Some(parentId)]) else None;
      var idxDateRng := DateRangeMask(dfSplits, startDate, endDate);
      var index := MonthIndex(dfSplits, idxDateRng);
      if lstDirectChildren.None? {
        return Failure(NotIterable);
      }
      var dfGrouped := GroupColumns(lstDirectChildren.value, idxDateRng, index, rank);
      r := Success(FillNa(dfGrouped));
    }

    /** The loop of `GetSplits`: one column per direct child, assigned in
        lookup order; months without an entry are left undefined. */
    method GroupColumns(children: seq<Account>, mask: seq<bool>, index: seq<Month>, ghost rank: map<Id, nat>)
      returns (dfGrouped: Frame<Option<real>>)
      requires Ranked(Kids(), rank)
      requires |dfSplits| == |price| == |mask|
      ensures FillNa(dfGrouped) == Grouped(Kids(), rank, children, dfSplits, price, mask, index)
    {
      ghost var kids := Kids();
      dfGrouped := Frame(index, [], []);
      assert FillNa(dfGrouped) == Grouped(kids, rank, children[..0], dfSplits, price, mask, index);
      var i := 0;
      while i < |children|
        invariant 0 <= i <= |children|
        invariant |dfGrouped.data| == |dfGrouped.columns|
        invariant FillNa(dfGrouped) == Grouped(kids, rank, children[..i], dfSplits, price, mask, index)
      {
        GroupedStep(kids, rank, children, i, dfSplits, price, mask, index, dfGrouped, Contributors(kids, rank, children[i]));
        dfGrouped := AddChildColumn(dfGrouped, children[i], mask, index, rank);
        i := i + 1;
      }
      assert children[..i] == children;
    }

    /** One pass of that loop: the descendant list of `childAcc` is fetched
        as a new list, the child appended to it unless it is a placeholder,
        and the resulting column assigned under the child's name. */
    method AddChildColumn(dfGrouped: Frame<Option<real>>, childAcc: Account, mask: seq<bool>, index: seq<Month>,
                          ghost rank: map<Id, nat>)
      returns (r: Frame<Option<real>>)
      requires Ranked(Kids(), rank)
      requires |dfSplits| == |price| == |mask| && |dfGrouped.data| == |dfGrouped.columns|
      ensures r == SetColumn(dfGrouped, childAcc.name,
                             GroupedColumn(dfSplits, price, mask, Contributors(Kids(), rank, childAcc), index))
    {
      var lstChildren := objAccTree.GetParentChildren(childAcc.guid, rank);
      assert lstChildren.items + [] == lstChildren.items;
      if childAcc.placeholder == 0 {
        lstChildren.Append(childAcc.guid);
      }
      var column := GroupedColumn(dfSplits, price, mask, lstChildren.items, index);
      r := SetColumn(dfGrouped, childAcc.name, column);
    }
  }
}
