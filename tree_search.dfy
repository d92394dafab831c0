/** The account tree of `src/gnucashApi/tree_search.py`: a child lookup filled
    row by row from the flat account table, answering direct-children and
    all-descendants queries. */
module TreeIndex {
  import opened Wrappers
  import opened Ledger
  import opened Tree

  /** A Python list of ids. The search appends to the list object it is given,
      so every holder of the object sees the appends. */
  class IdList {
    var items: seq<Id>

    constructor ()
      ensures items == []
    {
      items := [];
    }

    method Append(x: Id)
      modifies this
      ensures items == old(items) + [x]
    {
      items := items + [x];
    }
  }

  class TreeSearch {
    /** The account rows, one per node. */
    const nodes: seq<Account>
    /** Parent id to its direct child rows (copies), in row order. */
    var childLookup: map<Id, seq<Account>>

    ghost predicate Valid()
      reads this
    {
      BuiltFrom(childLookup, nodes)
    }

    /** One pass over the rows: a row with a parent is appended to that
        parent's list, created on first use; the root row is skipped. */
    constructor (nodes: seq<Account>)
      ensures this.nodes == nodes && Valid()
    {
      this.nodes := nodes;
      childLookup := map[];
      new;
      var i := 0;
      while i < |nodes|
        invariant 0 <= i <= |nodes|
        invariant this.nodes == nodes
        invariant BuiltFrom(childLookup, nodes[..i])
      {
        var node := nodes[i];
        BuiltFromStep(childLookup, nodes, i);
        if node.parentGuid.Some? {
          var parentId := node.parentGuid.value;
          var subNodes := if parentId in childLookup then childLookup[parentId] else [];
          childLookup := childLookup[parentId := subNodes + [node]];
        }
        i := i + 1;
      }
      assert nodes[..i] == nodes;
    }

    /** The stored list for `parentNodeId`; `None`, not an empty list, when it
        has no children. */
    function GetDirectSubNodes(parentNodeId: Id): (r: Option<seq<Account>>)
      reads this
      requires Valid()
      ensures r.None? <==> ChildRows(nodes, Some(parentNodeId)) == []
      ensures r.Some? ==> r.value == ChildRows(nodes, Some(parentNodeId))
    {
      if parentNodeId in childLookup then Some(childLookup[parentNodeId]) else None
    }

    /** All descendants of `parentNodeId`, searched into a fresh list. */
    method GetSubNodes(parentNodeId: Id, ghost rank: map<Id, nat>) returns (r: seq<Id>)
      requires Ranked(ViewOf(childLookup), rank)
      ensures r == Walk(ViewOf(childLookup), rank, parentNodeId)
    {
      var searchList := new IdList();
      var treeSearchList := SearchTree(parentNodeId, searchList, rank);
      r := treeSearchList.items;
    }

    /** Appends, in pre-order, every descendant of `parentNodeId` to the list
        object it is given (a fresh one when given none) and returns that object. */
    method SearchTree(parentNodeId: Id, searchList: IdList?, ghost rank: map<Id, nat>) returns (result: IdList)
      requires Ranked(ViewOf(childLookup), rank)
      modifies searchList
      ensures searchList != null ==> result == searchList
      ensures searchList == null ==> fresh(result)
      ensures result.items ==
              (if searchList != null then old(searchList.items) else []) + Walk(ViewOf(childLookup), rank, parentNodeId)
      decreases RankOf(rank, parentNodeId)
    {
      if searchList == null {
        result := new IdList();
      } else {
        result := searchList;
      }
      ghost var kids := ViewOf(childLookup);
      ghost var start := result.items;
      var subNodes := if parentNodeId in childLookup then childLookup[parentNodeId] else [];
      ghost var cs := Guids(subNodes);
      ghost var bound := RankOf(rank, parentNodeId);
      assert cs == ChildrenOf(kids, parentNodeId);
      ChildrenBelow(kids, rank, parentNodeId);
      if |subNodes| > 0 {
        var i := 0;
        while i < |subNodes|
          invariant 0 <= i <= |subNodes|
          invariant forall c | c in cs :: c in rank && rank[c] < bound
          invariant result.items == start + WalkList(kids, rank, cs[..i], bound)
        {
          var childId := subNodes[i].guid;
          ghost var before := result.items;
          result.Append(childId);
          var _ := SearchTree(childId, result, rank);
          WalkListExtend(kids, rank, cs, i, bound, start, before, result.items);
          i := i + 1;
        }
        assert cs[..i] == cs;
      }
    }
  }
}
