/** The older account tree of `treeSearch.py`: the child lookup is keyed by the
    parent column as read (so a missing parent is a key of its own), rows whose
    parent is the root marker are set aside as the parent row, and the
    descendant search appends into a list that defaults to one object shared
    by every call. */
module LegacyTreeIndex {
  import opened Wrappers
  import opened Ledger
  import opened Tree
  import TreeIndex

  type Lookup = map<Option<Id>, seq<Account>>

  /** Every parent value other than the root marker keys exactly the rows
      that carry it, in row order; the root marker keys nothing. */
  ghost predicate LegacyBuilt(lookup: Lookup, nodes: seq<Account>, rootId: Option<Id>) {
    forall key ::
      (key in lookup <==> key != rootId && ChildRows(nodes, key) != []) &&
      (key in lookup ==> lookup[key] == ChildRows(nodes, key))
  }

  /** The id-level view the search walks: it only ever looks up ids, so the
      entry for a missing parent is never reached. */
  function LegacyView(lookup: Lookup): Kids {
    map k | k in lookup && k.Some? :: k.value := Guids(lookup[k])
  }

  /** Reading one more row: a row whose parent is not the marker extends the
      list of that parent value; a marker row changes no list. */
  lemma LegacyBuiltStep(lookup: Lookup, nodes: seq<Account>, i: nat, rootId: Option<Id>)
    requires i < |nodes| && LegacyBuilt(lookup, nodes[..i], rootId)
    ensures nodes[i].parentGuid == rootId ==> LegacyBuilt(lookup, nodes[..i + 1], rootId)
    ensures nodes[i].parentGuid != rootId ==>
              var q := nodes[i].parentGuid;
              LegacyBuilt(lookup[q := (if q in lookup then lookup[q] else []) + [nodes[i]]], nodes[..i + 1], rootId)
  {
    forall key
      ensures ChildRows(nodes[..i + 1], key) ==
              ChildRows(nodes[..i], key) + (if nodes[i].parentGuid == key then [nodes[i]] else [])
    {
      ChildRowsStep(nodes, i, key);
    }
  }

  class TreeSearch {
    /** The account rows, one per node. */
    const nodes: seq<Account>
    /** The parent value that marks the root row (`None` by default). */
    const rootId: Option<Id>
    /** The list object created once as the search's default argument and
        shared by every call that passes no list. */
    const sharedDefault: TreeIndex.IdList
    /** Parent value to its direct child rows (copies), in row order. */
    var childLookup: Lookup
    /** The root row set aside by the last lookup build; `None` until one is seen. */
    var parent: Option<Account>

    ghost predicate Valid()
      reads this
    {
      LegacyBuilt(childLookup, nodes, rootId)
    }

    constructor (nodes: seq<Account>, rootId: Option<Id>, sharedDefault: TreeIndex.IdList)
      ensures this.nodes == nodes && this.rootId == rootId && this.sharedDefault == sharedDefault
      ensures Valid() && parent == LastRoot(nodes, rootId)
    {
      this.nodes := nodes;
      this.rootId := rootId;
      this.sharedDefault := sharedDefault;
      childLookup := map[];
      parent := None;
      new;
      CreateChildLookup();
    }

    /** Rebuilds the lookup from the rows and sets aside the last root row;
        a build that sees no root row keeps the previous one. */
    method CreateChildLookup()
      modifies this
      ensures Valid()
      ensures parent == if LastRoot(nodes, rootId).Some? then LastRoot(nodes, rootId) else old(parent)
    {
      childLookup := map[];
      var i := 0;
      while i < |nodes|
        invariant 0 <= i <= |nodes|
        invariant LegacyBuilt(childLookup, nodes[..i], rootId)
        invariant parent == if LastRoot(nodes[..i], rootId).Some? then LastRoot(nodes[..i], rootId) else old(parent)
      {
        var objChild := nodes[i];
        LegacyBuiltStep(childLookup, nodes, i, rootId);
        LastRootStep(nodes, i, rootId);
        if objChild.parentGuid != rootId {
          var parentId := objChild.parentGuid;
          var lstChildren := if parentId in childLookup then childLookup[parentId] else [];
          childLookup := childLookup[parentId := lstChildren + [objChild]];
        } else {
          parent := Some(objChild);
        }
        i := i + 1;
      }
      assert nodes[..i] == nodes;
    }

    /** Appends every descendant of `parentId` in pre-order to the given list,
        or to the shared default list when none is given, and returns that
        list with the caller's level plus one. */
    method SearchTree(parentId: Id, searchList: TreeIndex.IdList?, level: int, ghost rank: map<Id, nat>)
      returns (result: TreeIndex.IdList, newLevel: int)
      requires Ranked(LegacyView(childLookup), rank)
      modifies if searchList == null then sharedDefault else searchList
      ensures result == if searchList == null then sharedDefault else searchList
      ensures result.items == old(result.items) + Walk(LegacyView(childLookup), rank, parentId)
      ensures newLevel == level + 1
      decreases RankOf(rank, parentId)
    {
      result := if searchList == null then sharedDefault else searchList;
      ghost var kids := LegacyView(childLookup);
      ghost var start := result.items;
      var lstChildren := if Some(parentId) in childLookup then childLookup[Some(parentId)] else [];
      ghost var cs := Guids(lstChildren);
      ghost var bound := RankOf(rank, parentId);
      assert cs == ChildrenOf(kids, parentId);
      ChildrenBelow(kids, rank, parentId);
      newLevel := level + 1;
      if |lstChildren| > 0 {
        var i := 0;
        while i < |lstChildren|
          invariant 0 <= i <= |lstChildren|
          invariant forall c | c in cs :: c in rank && rank[c] < bound
          invariant result.items == start + WalkList(kids, rank, cs[..i], bound)
        {
          var childId := lstChildren[i].guid;
          ghost var before := result.items;
          result.Append(childId);
          var _, _ := SearchTree(childId, result, newLevel, rank);
          WalkListExtend(kids, rank, cs, i, bound, start, before, result.items);
          i := i + 1;
        }
        assert cs[..i] == cs;
      }
    }

    /** The descendant query the legacy aggregation relies on: every
        descendant of `parentId`, in pre-order, in a list of its own. */
    method GetParentChildren(parentId: Id, ghost rank: map<Id, nat>) returns (r: TreeIndex.IdList)
      requires Ranked(LegacyView(childLookup), rank)
      ensures fresh(r)
      ensures r.items == Walk(LegacyView(childLookup), rank, parentId)
    {
      r := new TreeIndex.IdList();
      var _, _ := SearchTree(parentId, r, 1, rank);
    }
  }

  const DemoRoot := Account("r", None, "Root Account", "ROOT", 0, "EUR")
  const DemoChild := Account("b", Some("r"), "Bank", "BANK", 0, "EUR")
  const DemoRank: map<Id, nat> := map["r" := 1, "b" := 0]

  /** The lookup built from a root row `r` and its one child row `b`. */
  lemma DemoLookup(lookup: Lookup)
    requires LegacyBuilt(lookup, [DemoRoot, DemoChild], None)
    ensures lookup == map[Some("r") := [DemoChild]]
  {
    forall key
      ensures ChildRows([DemoRoot, DemoChild], key) ==
              if key == Some("r") then [DemoChild] else if key == None then [DemoRoot] else []
    {
      ChildRowsStep([DemoRoot, DemoChild], 0, key);
      ChildRowsStep([DemoRoot, DemoChild], 1, key);
      assert [DemoRoot, DemoChild][..0] == [] && [DemoRoot, DemoChild][..2] == [DemoRoot, DemoChild];
    }
  }

  /** Searching that lookup from `r` yields `b` alone. */
  lemma DemoWalk()
    ensures Ranked(LegacyView(map[Some("r") := [DemoChild]]), DemoRank)
    ensures Walk(LegacyView(map[Some("r") := [DemoChild]]), DemoRank, "r") == ["b"]
  {
    var kids := LegacyView(map[Some("r") := [DemoChild]]);
    assert forall k | k in kids :: k == "r";
    assert kids["r"] == ["b"];
    assert Walk(kids, DemoRank, "b") == [];
    WalkListSingle(kids, DemoRank, "b", 1);
  }

  /** Two searches that both omit the list, on a root `r` with one child `b`:
      the second call returns the first call's ids again before its own. */
  method SharedDefaultDemo() returns (first: seq<Id>, second: seq<Id>)
    ensures first == ["b"]
    ensures second == first + ["b"]
  {
    var shared := new TreeIndex.IdList();
    var t := new TreeSearch([DemoRoot, DemoChild], None, shared);
    DemoLookup(t.childLookup);
    DemoWalk();
    var l1, _ := t.SearchTree("r", null, 1, DemoRank);
    first := l1.items;
    var l2, _ := t.SearchTree("r", null, 1, DemoRank);
    second := l2.items;
    assert l2 == l1;
  }
}
