# pyGnuCash core in Dafny

This project models the computational core of pyGnuCash, a set of Python
helpers that read a GnuCash book and prepare monthly expense reports. The
model covers four parts.

- **Account tree.** The flat `accounts` table becomes a parent-to-children
  lookup, built in one pass over the rows. The lookup answers two queries:
  the direct children of an account, and all of its descendants in
  pre-order.
  - `TreeIndex`: the current `TreeSearch`.
  - `LegacyTreeIndex`: the older `TreeSearch`. Its search shares a mutable
    default list between calls.
  - `Hierarchy`: the earliest variant, `treeAccounts`. It links nested
    dictionary nodes in place and searches them by a key.
  - `Tree`: the pre-order walk (`Walk`) that all three are proved against,
    plus its properties. The walk is exactly the descendants, every id
    appears once, and sibling subtrees are disjoint.
- **Normalisation.** `Normalize` finds the reporting currency, the
  commodity of the root account, and prices every split in it. A split in
  the root currency is worth `value_num / value_denom`. Any other split is
  worth that times the latest price ratio of its currency.
- **Monthly aggregation.** `Aggregation` builds the month index, the
  date-window mask and the per-child grouped columns. The two data classes
  run the loop that fills the table in place:
  - `GnucashApi.GnuCashDataAPI`, from `src/gnucashApi/gnucash_api.py`;
  - `GnucashAcc.GnuCashAccess`, from `GnucashAcc.py`.

  `Rollup` proves what the table means. With distinct child names, each
  month's row adds up to the amount booked in the parent's subtree that
  month.
- **Top-N collapse.** `TopN` keeps the `n` largest columns of a table (or
  entries of a series) and sums the rest into `"others"`. It proves that
  the total is preserved and that the kept entries are the largest.

Money is exact: amounts are `real` numbers built from the integer
numerator/denominator pairs GnuCash stores. An undefined amount (pandas
NaN) is `None`. Acyclicity of the account tree is a ghost `rank` witness:
every child ranks below its parent. The recursive searches terminate on
such trees.

## Model

| member | source | states |
|---|---|---|
| TreeIndex.IdList.Append | src/gnucashApi/tree_search.py:89 | `list.append`: the list object gains exactly the new id at its end |
| TreeIndex.TreeSearch.constructor | src/gnucashApi/tree_search.py:18-45 | after the pass over the rows, every parent id keys exactly its child rows in table order; ids without children are no key |
| Tree.RootInNoList | src/gnucashApi/tree_search.py:35 | a row without a parent is in no child list of the built lookup |
| TreeIndex.TreeSearch.GetDirectSubNodes | src/gnucashApi/tree_search.py:60-68 | gives `None` exactly when the account has no child rows, otherwise exactly its child rows in table order |
| TreeIndex.TreeSearch.GetSubNodes | src/gnucashApi/tree_search.py:47-58 | returns the pre-order walk below the account: all of its descendants, each once, the account itself excluded |
| TreeIndex.TreeSearch.SearchTree | src/gnucashApi/tree_search.py:70-94 | appends the walk below the account to the list it was given (or to a fresh list when given none) and returns that same list object |
| Tree.WalkIsDescendants | src/gnucashApi/tree_search.py:70-94 | an id is in the walk from `p` iff it is reached from `p` by one or more parent-to-child steps |
| Tree.WalkDistinct | src/gnucashApi/tree_search.py:70-94 | when every account has one parent, the walk lists no id twice |
| Tree.SiblingsApart | src/gnucashApi/tree_search.py:83-92 | two different children of one parent have disjoint subtrees, neither lying inside the other |
| Tree.WalkExcludesStart | src/gnucashApi/tree_search.py:70-94 | the account searched from never appears in its own result |
| Tree.WalkRankFree | src/gnucashApi/tree_search.py:70-94 | the result of the search depends only on the lookup, not on the acyclicity witness chosen |
| Tree.BuiltUniqueParents | src/gnucashApi/tree_search.py:34-45 | in a lookup built from rows with distinct guids, every id sits in at most one child list, once |
| Tree.ChildRowsMember | src/gnucashApi/tree_search.py:34-45 | a row is in the child list of `key` iff it is a row of the table whose parent column is `key` |
| Tree.LastRoot | treeSearch.py:54-55 | the row the older builds set aside as the root is the last row whose parent is the root marker, and there is none iff no row has that parent |
| LegacyTreeIndex.TreeSearch.constructor | treeSearch.py:16-33 | stores its inputs, builds the lookup and records the last root row |
| LegacyTreeIndex.TreeSearch.CreateChildLookup | treeSearch.py:35-55 | every parent value other than the root marker keys exactly the rows carrying it; the marker keys nothing; `strParent` becomes the last marker row and is left as it was when there is none |
| LegacyTreeIndex.TreeSearch.SearchTree | treeSearch.py:57-72 | appends the walk below the account to the list given or, when none is given, to the default list the instance was built with, which every such call shares; returns that list object and `level + 1` |
| LegacyTreeIndex.TreeSearch.GetParentChildren | GnucashAcc.py:127 | the descendant query `getSplits` relies on: a fresh list holding the walk below the account |
| LegacyTreeIndex.SharedDefaultDemo | treeSearch.py:57 | two searches for the same account without a list argument: the second result also holds the first one's ids, `[b, b]` instead of `[b]` |
| Hierarchy.DictNode.constructor | openConnection_backup.py:62 | a dictionary copy of the account row with no `children` entry yet |
| Hierarchy.Flat2Tree | openConnection_backup.py:54-65 | the lookup of node copies holds exactly each parent's child rows in table order; the root returned is a copy of the last row without a parent, and there is none iff no row lacks a parent; the root and every node in the lookup are new objects without a `children` entry, and the root is in no list |
| Hierarchy.BuildHierarchy | openConnection_backup.py:67-75 | returns the node it was given; that node and every node listed under its subtree get `children` set to their lookup list, or `None` when that list is empty; nodes already linked stay linked; no node outside that node and its subtree is changed |
| Hierarchy.BuildEach | openConnection_backup.py:69-70 | after the loop over a node's children, every node in the children's subtrees is linked, and no other node is changed |
| Hierarchy.ContainsOccurs | openConnection_backup.py:78 | Python's substring test `key in s` holds iff `key` occurs in `s` at some position |
| Hierarchy.FirstHit | openConnection_backup.py:77-84 | an id of the sequence whose guid contains the key and that has children; `None` iff no id in it is one |
| Hierarchy.FindIdFirstHit | openConnection_backup.py:77-84 | the recursive search's answer is the first hit of the pre-order sequence that starts at the node itself |
| Hierarchy.FindItem | openConnection_backup.py:77-84 | on a linked hierarchy, returns the children of the first node in pre-order whose guid contains the key and that has children; `None` when there is none |
| Normalize.RootCurrency | src/gnucashApi/gnucash_api.py:102-112 | `None` iff no row is of type ROOT with name "Root Account"; otherwise the commodity of the first such row |
| Normalize.NamedRowsFacts | src/gnucashApi/gnucash_api.py:122-123 | the name mask selects exactly one row iff exactly one account has that name, and that row is every row the mask keeps |
| Normalize.GetAccountGuid | src/gnucashApi/gnucash_api.py:114-126 | succeeds iff exactly one account has the name, with that account's guid; otherwise fails carrying the number of accounts with that name, counted over the positions of the table, which is 0 iff no account has the name |
| Normalize.GetAccGuidAsWritten | GnucashAcc.py:93-98 | succeeds exactly when the corrected lookup does, with the same guid; every failure is the same TypeError, with no count |
| Normalize.AsWrittenLosesCount | GnucashAcc.py:98 | a book with no match and a book with two matches fail identically as written, while the corrected lookup reports 0 and 2 |
| Normalize.SplitValue | src/gnucashApi/gnucash_api.py:88-98 | in the root currency, the amount times `value_denom` is `value_num`; otherwise the amount times both denominators is the product of both numerators; undefined exactly when a denominator is zero or the currency has no price row |
| Normalize.RootValueIgnoresPrices | src/gnucashApi/gnucash_api.py:89-92 | a split in the root currency is worth the same under any price table |
| Normalize.PriceScales | src/gnucashApi/gnucash_api.py:95-98 | a foreign split's amount is linear in its currency's price: a price ratio `k` times as large gives an amount defined in the same cases and `k` times as large |
| Normalize.PriceColumn | src/gnucashApi/gnucash_api.py:88-98 | the two-pass column assignment gives every split its amount in the reporting currency, position by position |
| Aggregation.DateRangeMask | src/gnucashApi/gnucash_api.py:147-156 | one flag per split, set iff its post date is on or after the start (when given) and on or before the end (when given) |
| Aggregation.WindowBounds | src/gnucashApi/gnucash_api.py:150-156 | a window whose start is after its end admits no date; a window from a day to the same day admits exactly that day |
| Aggregation.MonthIndex | src/gnucashApi/gnucash_api.py:158-160 | strictly ascending, and a month is in it iff some in-window split was posted in that month |
| Aggregation.AscendingUnique | src/gnucashApi/gnucash_api.py:160 | two strictly ascending month lists with the same members are equal, so the index is determined by the set of months |
| Aggregation.FillGrouped | src/gnucashApi/gnucash_api.py:174-177 | after `fillna(0)`, a grouped column holds in every month the summed amount of the listed accounts, zero where the group had no entry |
| Aggregation.ColumnTotal | src/gnucashApi/gnucash_api.py:171-177 | the cells of a filled column add up to the in-window amount booked to its accounts over all months |
| Aggregation.ContributorsAreSubtree | src/gnucashApi/gnucash_api.py:164-167 | an account feeds a child's column iff it lies below the child, or is the child itself and the child is not a placeholder |
| Aggregation.GroupedColumns | src/gnucashApi/gnucash_api.py:162-174 | with distinct child names, the grouped table has one column per child, named after it, in child order |
| Aggregation.MonthlyTableCells | src/gnucashApi/gnucash_api.py:162-177 | with distinct child names, the finished table is well shaped; the cell of a child and month is the in-window amount of that month booked to the child's contributors; the column total is their whole in-window amount |
| Aggregation.GroupedStep | src/gnucashApi/gnucash_api.py:164-174 | assigning one more child column extends the table for the children so far to the table for one more child |
| GnucashApi.GnuCashDataAPI.Open | src/gnucashApi/gnucash_api.py:81-112 | fails iff the book has no root account; otherwise a fresh snapshot of the inputs with its tree built and every split priced |
| GnucashApi.GnuCashDataAPI.constructor | src/gnucashApi/gnucash_api.py:81-98 | keeps the tables, builds the account tree over the accounts and sets the price column to each split's reporting-currency amount |
| GnucashApi.GnuCashDataAPI.GroupChildAccountsMonthly | src/gnucashApi/gnucash_api.py:128-179 | fails (iterating `None`) iff the parent has no children; otherwise the table of monthly in-window sums, one column per child in child order, over the child's descendants plus the child unless it is a placeholder, with missing months filled with 0 |
| GnucashApi.GnuCashDataAPI.GroupColumns | src/gnucashApi/gnucash_api.py:162-174 | the loop leaves, once filled, exactly the grouped table of all children |
| GnucashApi.GnuCashDataAPI.AddChildColumn | src/gnucashApi/gnucash_api.py:164-174 | one pass assigns the child's column under its name, summed over exactly the child's contributors |
| GnucashAcc.GnuCashAccess.Open | GnucashAcc.py:21-90 | fails iff the book has no root account; otherwise a fresh snapshot over the older tree with every split priced |
| GnucashAcc.GnuCashAccess.constructor | GnucashAcc.py:21-80 | builds the older tree with the default root marker, records its last root row and prices every split |
| GnucashAcc.GnuCashAccess.GetSplits | GnucashAcc.py:100-137 | fails iff the parent keys no entry of the lookup; otherwise the same monthly table as the newer API for that parent's children |
| GnucashAcc.GnuCashAccess.GroupColumns | GnucashAcc.py:126-133 | the loop leaves, once filled, exactly the grouped table of all children |
| GnucashAcc.GnuCashAccess.AddChildColumn | GnucashAcc.py:127-133 | one pass assigns the child's column under its name, summed over exactly the child's contributors, on a fresh descendant list |
| Rollup.RowIsSubtreeTotal | src/gnucashApi/gnucash_api.py:128-179 | with distinct child names and no in-window split booked straight to a placeholder child, each month's row sums to that month's in-window amount booked anywhere below the parent |
| Rollup.CollapsedRowIsSubtreeTotal | src/gnucashApi/gnucash_api.py:195-198 | after the top-N collapse of that table, every month's row still sums to the parent's subtree amount |
| Rollup.CellSumUnion | src/gnucashApi/gnucash_api.py:171-174 | the cell over two disjoint account lists is the sum of their cells |
| TopN.TotalRemove | src/gnucashApi/gnucash_api.py:198 | taking one entry out of a list lowers its total by exactly that entry |
| TopN.GatherPermutation | src/gnucashApi/gnucash_api.py:196-198 | the total over positions picked in any order is the same for every rearrangement of the positions |
| TopN.SplitTotal | src/gnucashApi/gnucash_api.py:196-198 | the kept part and the rest of a ranking together total the whole |
| TopN.SortDesc | src/gnucashApi/gnucash_api.py:196 | the sort gives a rearrangement of its input positions in order of non-increasing key |
| TopN.SortRanks | src/gnucashApi/gnucash_api.py:196 | sorting all positions gives a ranking: every position once, by non-increasing key |
| TopN.RankingCovers | src/gnucashApi/gnucash_api.py:196 | every column appears in a ranking |
| TopN.Cut | src/gnucashApi/gnucash_api.py:197-198 | the end of the slice `[:n]`: `n` capped at the length for `n >= 0`, counted from the end for negative `n` |
| TopN.CollapseTableShape | src/gnucashApi/gnucash_api.py:195-198 | the collapsed table keeps the `min(n, width)` top-ranked columns unchanged, in rank order, then `"others"` holding the row sums of the rest |
| TopN.CollapseTableConserves | src/gnucashApi/gnucash_api.py:195-198 | every row of the collapsed table has the same total as the row of the original |
| TopN.CollapseTableKeepsLargest | src/gnucashApi/gnucash_api.py:196-197 | every kept column totals at least as much as every column folded into `"others"` |
| TopN.CollapseSeriesShape | src/gnucashApi/gnucash_api.py:200-203 | the collapsed series keeps the `min(n, length)` largest entries in descending order, then `"others"` holding the sum of the rest |
| TopN.CollapseSeriesConserves | src/gnucashApi/gnucash_api.py:200-203 | the collapsed series has the total of the original |
| TopN.GetTopAccounts | src/gnucashApi/gnucash_api.py:181-206 | axis 1 on a table and axis 0 on a series give the collapse for some descending ranking; a shape that does not fit the axis, or any other axis, fails (`getTOP` at GnucashAcc.py:139-167 is the same code) |

## Left out

- SQL ingestion is not modelled. The tables arrive as parameters: the
  `accounts` rows, the splits joined with their transactions, and the
  latest price per commodity already reduced to one row each.
- Report rendering is not modelled: `create_report_item`, `Reportitem.py`,
  `gnucash_report.py` and the report scripts are presentation and file
  output.
- Floating point is replaced by exact rationals. A zero denominator gives
  an undefined amount rather than an infinity.
- Dates are plain year/month/day values. Parsing and the `"%Y-%m"`
  formatting of `post_month` are not modelled; a month is a (year, month)
  pair ordered the same way.
- pandas sums skip NaN. An undefined split amount (no price row, or a zero
  denominator) contributes 0 to its cell rather than raising an error.
- Ties in the descending sort are left open. `TopN.GetTopAccounts` promises
  the collapse for some ranking, and every lemma holds for every ranking.
  The exact tie order of pandas' sort is not modelled.
- TopN.Cut: the contract states only the non-negative case and that the cut never passes the end; the body counts a negative `n` from the end as Python slicing does.
- `TopN.GetTopAccounts` requires distinct column names on a table. pandas
  would select every duplicate of a name.
- `TopN.CollapseTableShape` and the series collapse do not model the NaN
  cells that `fillna` at lines 205 and 166 would clear. Their inputs are
  already filled tables.
- The recursive searches and the hierarchy build assume an acyclic lookup,
  given by the `rank` witness. On a cyclic table the source recurses until
  Python stops it; that path is not modelled.
- `getParentChildren`, called at GnucashAcc.py:127, is not part of this
  model's source. It is modelled as the descendant query of the older tree,
  returning a new list.
- `_childs2List` and `_flatlist` of `openConnection_backup.py` are not
  modelled. They are unused flattening helpers outside the tree build and
  search.
- The older tree compares the parent column to the root marker with `is
  not`, Python's identity test. It is modelled as inequality of values,
  which agrees for the default marker `None`.
- LegacyTreeIndex.TreeSearch.SearchTree: the default list is a constructor
  argument, so sharing is per instance. `GnucashAcc.GnuCashAccess` builds
  its tree with a new list of its own. Python's `lstSearchTree=[]` is one
  list for every `TreeSearch` in the process; that cross-instance sharing
  is captured only when the caller passes the same list to each
  constructor. The application path never reaches the default, because
  `getParentChildren` passes a new list.
- `Hierarchy.Flat2Tree` returns no root when no record lacks a parent. The
  source raises UnboundLocalError there.
- For a parent without children, the lookup's `.get` returns `None` and
  the `for` over it raises a TypeError. `GroupChildAccountsMonthly` and
  `GetSplits` fail with `NotIterable` there. An empty table may have been
  meant, but nothing in the code says so, and the model keeps the error.
- TopN.CollapseTableConserves, TopN.CollapseTableShape, TopN.CollapseSeriesConserves
  and TopN.CollapseSeriesShape require that no column or label is already
  called `"others"`. When a kept column has that name, the assignment at
  gnucash_api.py:198 (GnucashAcc.py:159) overwrites it. For example, take
  a table with columns `others` and `x` and totals 5 and 1, with
  `top_number` 1: the result has the single column `others`, holding the
  values of `x`, and each row total drops by the `others` amount. The same
  precondition carries over to Rollup.CollapsedRowIsSubtreeTotal, as a
  child account named `others`.

## Findings

| source | as written | input that shows it | evidently intended | confidence | as-written member | corrected member |
|---|---|---|---|---|---|---|
| treeSearch.py:57 | the default `lstSearchTree=[]` is one list shared by every call without a list argument | two calls `searchTree("r", "guid")` on a tree with one child `b` of `r`: the second returns `[b, b]` | each call without a list starts from an empty list, as `_search_tree` in `src/gnucashApi/tree_search.py:79-80` does | high, not executed | LegacyTreeIndex.SharedDefaultDemo | TreeIndex.TreeSearch.GetSubNodes |
| GnucashAcc.py:98 | `raise("%s Datasets found" % ...)` raises a string, which Python rejects with a TypeError | an account name with no match and one with two matches both give the same TypeError | raise an exception carrying the count, as `get_account_guid` in `src/gnucashApi/gnucash_api.py:126` does | high, not executed | Normalize.AsWrittenLosesCount | Normalize.GetAccountGuid |
