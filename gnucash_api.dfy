/** The data API of `src/gnucashApi/gnucash_api.py`: an in-memory snapshot of
    a GnuCash book (accounts, splits with their transaction data, and the
    latest price of each commodity), the account tree built over it, and the
    monthly grouping of a parent account's direct children. */
module GnucashApi {
  import opened Wrappers
  import opened Ledger
  import opened Tree
  import opened Frames
  import opened Normalize
  import opened Aggregation
  import TreeIndex

  class GnuCashDataAPI {
    /** The `accounts` table. */
    const dfAccounts: seq<Account>
    /** The latest price row of every commodity quoted in the reporting currency. */
    const dfCommodities: map<Id, Price>
    /** The account tree over `dfAccounts`. */
    const accountTree: TreeIndex.TreeSearch
    /** The commodity of the root account. */
    const rootCurrency: Id
    /** The splits joined with their transactions. */
    var dfSplits: seq<Split>
    /** The `price` column: each split's amount in the reporting currency. */
    var price: seq<Option<real>>

    ghost predicate Valid()
      reads this, accountTree
    {
      accountTree.nodes == dfAccounts && accountTree.Valid() &&
      RootCurrency(dfAccounts) == Some(rootCurrency) &&
      |price| == |dfSplits| &&
      forall i | 0 <= i < |dfSplits| :: price[i] == SplitValue(dfSplits[i], rootCurrency, dfCommodities)
    }

    /** Opens a snapshot: builds the tree, finds the reporting currency and
        prices every split. A book without a root account fails with the
        IndexError of the root-currency lookup. */
    static method Open(accounts: seq<Account>, splits: seq<Split>, commodities: map<Id, Price>)
      returns (r: Result<GnuCashDataAPI, Fault>)
      ensures r.Failure? <==> RootCurrency(accounts).None?
      ensures r.Failure? ==> r.error == NoRootAccount
      ensures r.Success? ==>
                fresh(r.value) && fresh(r.value.accountTree) && r.value.Valid() &&
                r.value.dfAccounts == accounts && r.value.dfSplits == splits &&
                r.value.dfCommodities == commodities
    {
      var root := RootCurrency(accounts);
      if root.None? {
        return Failure(NoRootAccount);
      }
      var api := new GnuCashDataAPI(accounts, splits, commodities, root.value);
      r := Success(api);
    }

    constructor (accounts: seq<Account>, splits: seq<Split>, commodities: map<Id, Price>, root: Id)
      requires RootCurrency(accounts) == Some(root)
      ensures fresh(accountTree) && Valid()
      ensures dfAccounts == accounts && dfSplits == splits && dfCommodities == commodities && rootCurrency == root
    {
      dfAccounts := accounts;
      dfCommodities := commodities;
      var tree := new TreeIndex.TreeSearch(accounts);
      accountTree := tree;
      rootCurrency := root;
      dfSplits := splits;
      var column := PriceColumn(splits, root, commodities);
      price := column;
    }

    /** The id-level child lookup of the account tree. */
    ghost function Kids(): Tree.Kids
      reads this, accountTree
    {
      ViewOf(accountTree.childLookup)
    }

    /** Monthly totals of the direct children of `parentGuid` over the splits
        in the window: one column per child, in child order, summing the
        splits booked to the child's descendants and, unless it is a
        placeholder, to the child itself. A parent without children fails
        (iterating the `None` the child lookup gives is a TypeError). */
    method GroupChildAccountsMonthly(parentGuid: Id, startDate: Option<Date>, endDate: Option<Date>,
                                     ghost rank: map<Id, nat>)
      returns (r: Result<Frame<real>, Fault>)
      requires Valid() && Ranked(Kids(), rank)
      ensures r.Failure? <==> ChildRows(dfAccounts, Some(parentGuid)) == []
      ensures r.Failure? ==> r.error == NotIterable
      ensures r.Success? ==>
                r.value == MonthlyTable(Kids(), rank, ChildRows(dfAccounts, Some(parentGuid)),
                                        dfSplits, price, WindowMask(dfSplits, startDate, endDate))
    {
      var directChildren := accountTree.GetDirectSubNodes(parentGuid);
      var idxDateRange := DateRangeMask(dfSplits, startDate, endDate);
      var index := MonthIndex(dfSplits, idxDateRange);
      if directChildren.None? {
        return Failure(NotIterable);
      }
      var dfGrouped := GroupColumns(directChildren.value, idxDateRange, index, rank);
      r := Success(FillNa(dfGrouped));
    }

    /** The loop of `GroupChildAccountsMonthly`: for each child in turn, the
        child's descendants (and the child itself unless it is a placeholder)
        are collected and their in-range amounts summed by month into a column
        named after the child; months without an entry are left undefined. */
    method GroupColumns(children: seq<Account>, mask: seq<bool>, index: seq<Month>, ghost rank: map<Id, nat>)
      returns (dfGrouped: Frame<Option<real>>)
      requires accountTree.Valid() && Ranked(Kids(), rank)
      requires |dfSplits| == |price| == |mask|
      ensures FillNa(dfGrouped) == Grouped(Kids(), rank, children, dfSplits, price, mask, index)
    {
      ghost var kids := Kids();
      var splits, values := dfSplits, price;
      dfGrouped := Frame(index, [], []);
      assert FillNa(dfGrouped) == Grouped(kids, rank, children[..0], splits, values, mask, index);
      var i := 0;
      while i < |children|
        invariant 0 <= i <= |children|
        invariant |dfGrouped.data| == |dfGrouped.columns|
        invariant FillNa(dfGrouped) == Grouped(kids, rank, children[..i], splits, values, mask, index)
      {
        GroupedStep(kids, rank, children, i, splits, values, mask, index, dfGrouped, Contributors(kids, rank, children[i]));
        dfGrouped := AddChildColumn(dfGrouped, children[i], mask, index, rank);
        i := i + 1;
      }
      assert children[..i] == children;
    }

    /** One pass of that loop: the column of `child` assigned under its name. */
    method AddChildColumn(dfGrouped: Frame<Option<real>>, child: Account, mask: seq<bool>, index: seq<Month>,
                          ghost rank: map<Id, nat>)
      returns (r: Frame<Option<real>>)
      requires accountTree.Valid() && Ranked(Kids(), rank)
      requires |dfSplits| == |price| == |mask| && |dfGrouped.data| == |dfGrouped.columns|
      ensures r == SetColumn(dfGrouped, child.name,
                             GroupedColumn(dfSplits, price, mask, Contributors(Kids(), rank, child), index))
    {
      var lstChildren := accountTree.GetSubNodes(child.guid, rank);
      assert lstChildren + [] == lstChildren;
      if child.placeholder == 0 {
        lstChildren := lstChildren + [child.guid];
      }
      var column := GroupedColumn(dfSplits, price, mask, lstChildren, index);
      r := SetColumn(dfGrouped, child.name, column);
    }
  }
}
