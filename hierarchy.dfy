/** The earliest account tree, `treeAccounts` in `openConnection_backup.py`:
    account records become mutable dictionary nodes, a child lookup of node
    copies is filled in one pass, each reachable node then gets its
    `children` entry linked in place, and a search finds the children of the
    first node whose guid contains a key. */
module Hierarchy {
  import opened Wrappers
  import opened Ledger
  import opened Tree

  /** The `children` entry of a node dictionary: absent before the hierarchy
      is built, `None` for a leaf, otherwise the list of child nodes. */
  datatype Children = Unset | Null | Nodes(list: seq<DictNode>)

  /** One account record copied into a dictionary node. */
  class DictNode {
    const row: Account
    var children: Children

    constructor (row: Account)
      ensures this.row == row && children == Unset
    {
      this.row := row;
      children := Unset;
    }
  }

  type NodeLookup = map<Id, seq<DictNode>>

  function NodeGuids(ns: seq<DictNode>): (r: seq<Id>)
    ensures |r| == |ns| && forall i | 0 <= i < |ns| :: r[i] == ns[i].row.guid
  {
    seq(|ns|, i requires 0 <= i < |ns| => ns[i].row.guid)
  }

  function Rows(ns: seq<DictNode>): (r: seq<Account>)
    ensures |r| == |ns| && forall i | 0 <= i < |ns| :: r[i] == ns[i].row
  {
    seq(|ns|, i requires 0 <= i < |ns| => ns[i].row)
  }

  /** The id-level view of a node lookup. */
  function NodeView(lookup: NodeLookup): Kids {
    map p | p in lookup :: NodeGuids(lookup[p])
  }

  /** The records a node lookup holds, list by list. */
  function RowsOf(lookup: NodeLookup): map<Id, seq<Account>> {
    map p | p in lookup :: Rows(lookup[p])
  }

  function NodesOf(lookup: NodeLookup, g: Id): seq<DictNode> {
    if g in lookup then lookup[g] else []
  }

  lemma ViewChildren(lookup: NodeLookup, g: Id)
    ensures ChildrenOf(NodeView(lookup), g) == NodeGuids(NodesOf(lookup, g))
    ensures Expected(lookup, g).Nodes? <==> ChildrenOf(NodeView(lookup), g) != []
  {
  }

  ghost function AllNodes(lookup: NodeLookup): set<DictNode> {
    set p, i | p in lookup && 0 <= i < |lookup[p]| :: lookup[p][i]
  }

  /** The `children` entry a node with guid `g` is given: its lookup list
      when that is non-empty, `None` otherwise. */
  function Expected(lookup: NodeLookup, g: Id): Children {
    if g in lookup && lookup[g] != [] then Nodes(lookup[g]) else Null
  }

  ghost predicate Done(lookup: NodeLookup, n: DictNode)
    reads n
  {
    n.children == Expected(lookup, n.row.guid)
  }

  /** The nodes listed under `g` or under any descendant of `g`: the nodes a
      build from a node with guid `g` links. */
  ghost function Region(lookup: NodeLookup, rank: map<Id, nat>, g: Id): set<DictNode>
    requires Ranked(NodeView(lookup), rank)
  {
    set x, k | x in [g] + Walk(NodeView(lookup), rank, g) && 0 <= k < |NodesOf(lookup, x)| :: NodesOf(lookup, x)[k]
  }

  ghost predicate AllDone(lookup: NodeLookup, s: set<DictNode>)
    reads s
  {
    forall n | n in s :: Done(lookup, n)
  }

  lemma RowsOfUpdate(lookup: NodeLookup, q: Id, ns: seq<DictNode>)
    ensures RowsOf(lookup[q := ns]) == RowsOf(lookup)[q := Rows(ns)]
  {
    var l := RowsOf(lookup[q := ns]);
    var r := RowsOf(lookup)[q := Rows(ns)];
    assert l.Keys == r.Keys;
    forall p | p in l
      ensures l[p] == r[p]
    {
    }
  }

  lemma RowsAppend(ns: seq<DictNode>, n: DictNode)
    ensures Rows(ns + [n]) == Rows(ns) + [n.row]
  {
  }

  /** Appending a copy of record `i` to its parent's list extends the
      records the lookup holds exactly as reading that record does. */
  lemma Flat2TreeStep(lookup: NodeLookup, records: seq<Account>, i: nat, n: DictNode)
    requires i < |records| && BuiltFrom(RowsOf(lookup), records[..i])
    requires records[i].parentGuid.Some? && n.row == records[i]
    ensures BuiltFrom(RowsOf(lookup[records[i].parentGuid.value := NodesOf(lookup, records[i].parentGuid.value) + [n]]), records[..i + 1])
  {
    var q := records[i].parentGuid.value;
    var rows := RowsOf(lookup);
    BuiltFromStep(rows, records, i);
    RowsOfUpdate(lookup, q, NodesOf(lookup, q) + [n]);
    RowsAppend(NodesOf(lookup, q), n);
    assert Rows(NodesOf(lookup, q)) == if q in rows then rows[q] else [];
  }

  /** Appending a node to one list adds exactly that node to the lookup's nodes. */
  lemma AllNodesAppend(lookup: NodeLookup, q: Id, n: DictNode)
    ensures AllNodes(lookup[q := NodesOf(lookup, q) + [n]]) == AllNodes(lookup) + {n}
  {
    var after := lookup[q := NodesOf(lookup, q) + [n]];
    forall m | m in AllNodes(after)
      ensures m in AllNodes(lookup) + {n}
    {
      var p, k :| p in after && 0 <= k < |after[p]| && after[p][k] == m;
      if p == q && k < |NodesOf(lookup, q)| {
        assert lookup[q][k] == m;
      }
    }
    forall m | m in AllNodes(lookup) + {n}
      ensures m in AllNodes(after)
    {
      if m == n {
        assert after[q][|NodesOf(lookup, q)|] == n;
      } else {
        var p, k :| p in lookup && 0 <= k < |lookup[p]| && lookup[p][k] == m;
        assert after[p][k] == m;
      }
    }
  }

  /** One record of that pass: a fresh copy is appended to its parent's
      list, or set aside as the root when the record has no parent.
      `made` is the set of nodes the lookup holds, none of them given
      a `children` entry yet. */
  method ReadRecord(lookup: NodeLookup, root: Option<DictNode>, child: Account, ghost made: set<DictNode>)
    returns (nextLookup: NodeLookup, nextRoot: Option<DictNode>, copy: DictNode, ghost nextMade: set<DictNode>)
    requires forall n | n in made :: n.children == Unset
    requires root.Some? ==> root.value.children == Unset && root.value !in made
    ensures fresh(copy) && copy.row == child
    ensures child.parentGuid.Some? ==>
              nextRoot == root && nextMade == made + {copy} &&
              nextLookup == lookup[child.parentGuid.value := NodesOf(lookup, child.parentGuid.value) + [copy]]
    ensures child.parentGuid.None? ==> nextRoot == Some(copy) && nextLookup == lookup && nextMade == made
    ensures forall n | n in nextMade :: n.children == Unset
    ensures nextRoot.Some? ==> nextRoot.value.children == Unset && nextRoot.value !in nextMade
  {
    copy := new DictNode(child);
    nextLookup, nextRoot, nextMade := lookup, root, made;
    if child.parentGuid.Some? {
      var parentId := child.parentGuid.value;
      var children := if parentId in lookup then lookup[parentId] else [];
      nextLookup := lookup[parentId := children + [copy]];
      nextMade := made + {copy};
    } else {
      nextRoot := Some(copy);
    }
  }

  /** What reading record `i` does to the lookup's rows, to the root and
      to the set of nodes the lookup holds. */
  lemma RecordStep(records: seq<Account>, i: nat, lookup: NodeLookup, nextLookup: NodeLookup,
                   root: Option<DictNode>, nextRoot: Option<DictNode>, copy: DictNode)
    requires i < |records| && copy.row == records[i]
    requires BuiltFrom(RowsOf(lookup), records[..i])
    requires root.None? <==> LastRoot(records[..i], None).None?
    requires root.Some? ==> Some(root.value.row) == LastRoot(records[..i], None)
    requires records[i].parentGuid.Some? ==>
               nextRoot == root &&
               nextLookup == lookup[records[i].parentGuid.value := NodesOf(lookup, records[i].parentGuid.value) + [copy]]
    requires records[i].parentGuid.None? ==> nextRoot == Some(copy) && nextLookup == lookup
    ensures BuiltFrom(RowsOf(nextLookup), records[..i + 1])
    ensures nextRoot.None? <==> LastRoot(records[..i + 1], None).None?
    ensures nextRoot.Some? ==> Some(nextRoot.value.row) == LastRoot(records[..i + 1], None)
    ensures records[i].parentGuid.Some? ==> AllNodes(nextLookup) == AllNodes(lookup) + {copy}
  {
    LastRootStep(records, i, None);
    if records[i].parentGuid.Some? {
      Flat2TreeStep(lookup, records, i, copy);
      AllNodesAppend(lookup, records[i].parentGuid.value, copy);
    } else {
      BuiltFromStep(RowsOf(lookup), records, i);
    }
  }

  /** One pass over the records: a copy of each record with a parent is
      appended to that parent's list, created on first use; the record
      without a parent is copied aside as the root, the last such record
      winning, and with no such record there is no root to return. */
  method Flat2Tree(records: seq<Account>) returns (root: Option<DictNode>, lookup: NodeLookup)
    ensures root.None? <==> LastRoot(records, None).None?
    ensures root.Some? ==> Some(root.value.row) == LastRoot(records, None)
    ensures BuiltFrom(RowsOf(lookup), records)
    ensures root.Some? ==> fresh(root.value) && root.value.children == Unset && root.value !in AllNodes(lookup)
    ensures forall n | n in AllNodes(lookup) :: fresh(n) && n.children == Unset
  {
    lookup := map[];
    root := None;
    var i := 0;
    ghost var made: set<DictNode> := {};
    assert records[..0] == [];
    while i < |records|
      invariant 0 <= i <= |records|
      invariant root.None? <==> LastRoot(records[..i], None).None?
      invariant root.Some? ==> Some(root.value.row) == LastRoot(records[..i], None)
      invariant BuiltFrom(RowsOf(lookup), records[..i])
      invariant AllNodes(lookup) == made && fresh(made)
      invariant forall n | n in made :: n.children == Unset
      invariant root.Some? ==> fresh(root.value) && root.value.children == Unset && root.value !in made
    {
      var nextLookup, nextRoot, copy;
      nextLookup, nextRoot, copy, made := ReadRecord(lookup, root, records[i], made);
      RecordStep(records, i, lookup, nextLookup, root, nextRoot, copy);
      lookup, root := nextLookup, nextRoot;
      i := i + 1;
    }
    assert records[..i] == records;
  }

  /** A child of `g` is in the region of `g`, and so is the child's own region. */
  lemma RegionOfChild(lookup: NodeLookup, rank: map<Id, nat>, g: Id, i: nat)
    requires Ranked(NodeView(lookup), rank)
    requires i < |NodesOf(lookup, g)|
    ensures NodesOf(lookup, g)[i] in Region(lookup, rank, g)
    ensures Region(lookup, rank, NodesOf(lookup, g)[i].row.guid) <= Region(lookup, rank, g)
  {
    var view := NodeView(lookup);
    var c := NodesOf(lookup, g)[i].row.guid;
    assert ChildrenOf(view, g)[i] == c;
    assert g in [g] + Walk(view, rank, g);
    forall n | n in Region(lookup, rank, c)
      ensures n in Region(lookup, rank, g)
    {
      var x, k :| x in [c] + Walk(view, rank, c) && 0 <= k < |NodesOf(lookup, x)| && n == NodesOf(lookup, x)[k];
      ChildWalkInside(view, rank, g, i, x);
      assert x in [g] + Walk(view, rank, g);
    }
  }

  lemma RegionInside(lookup: NodeLookup, rank: map<Id, nat>, g: Id)
    requires Ranked(NodeView(lookup), rank)
    ensures Region(lookup, rank, g) <= AllNodes(lookup)
  {
    forall n | n in Region(lookup, rank, g)
      ensures n in AllNodes(lookup)
    {
      var x, k :| x in [g] + Walk(NodeView(lookup), rank, g) && 0 <= k < |NodesOf(lookup, x)| && n == NodesOf(lookup, x)[k];
      assert x in lookup && lookup[x][k] == n;
    }
  }

  /** The nodes `ns` together with their regions. */
  ghost function Cover(lookup: NodeLookup, rank: map<Id, nat>, ns: seq<DictNode>): set<DictNode>
    requires Ranked(NodeView(lookup), rank)
    decreases |ns|
  {
    if ns == [] then {}
    else Cover(lookup, rank, ns[..|ns| - 1]) + {ns[|ns| - 1]} + Region(lookup, rank, ns[|ns| - 1].row.guid)
  }

  lemma CoverStep(lookup: NodeLookup, rank: map<Id, nat>, ns: seq<DictNode>, i: nat)
    requires Ranked(NodeView(lookup), rank)
    requires i < |ns|
    ensures Cover(lookup, rank, ns[..i + 1]) == Cover(lookup, rank, ns[..i]) + {ns[i]} + Region(lookup, rank, ns[i].row.guid)
  {
    assert ns[..i + 1][..i] == ns[..i];
  }

  lemma {:induction false} CoverMember(lookup: NodeLookup, rank: map<Id, nat>, ns: seq<DictNode>, k: nat)
    requires Ranked(NodeView(lookup), rank)
    requires k < |ns|
    ensures ns[k] in Cover(lookup, rank, ns)
    ensures Region(lookup, rank, ns[k].row.guid) <= Cover(lookup, rank, ns)
    decreases |ns|
  {
    if k < |ns| - 1 {
      CoverMember(lookup, rank, ns[..|ns| - 1], k);
    }
  }

  /** A node listed under `g` or under a descendant of `g` is one of the
      children of `g` or lies in a child's region. */
  lemma CoverHolds(lookup: NodeLookup, rank: map<Id, nat>, g: Id, x: Id, j: nat)
    requires Ranked(NodeView(lookup), rank)
    requires x in [g] + Walk(NodeView(lookup), rank, g) && j < |NodesOf(lookup, x)|
    ensures NodesOf(lookup, x)[j] in Cover(lookup, rank, NodesOf(lookup, g))
  {
    var view := NodeView(lookup);
    var children := NodesOf(lookup, g);
    if x == g {
      CoverMember(lookup, rank, children, j);
    } else {
      WalkMember(view, rank, g, x);
      var k :| 0 <= k < |children| && (x == children[k].row.guid || x in Walk(view, rank, children[k].row.guid));
      assert ChildrenOf(view, g)[k] == children[k].row.guid;
      assert x in [children[k].row.guid] + Walk(view, rank, children[k].row.guid);
      CoverMember(lookup, rank, children, k);
    }
  }

  /** The region of `g` is covered by its children and their regions. */
  lemma RegionCover(lookup: NodeLookup, rank: map<Id, nat>, g: Id)
    requires Ranked(NodeView(lookup), rank)
    ensures Region(lookup, rank, g) <= Cover(lookup, rank, NodesOf(lookup, g))
  {
    forall n | n in Region(lookup, rank, g)
      ensures n in Cover(lookup, rank, NodesOf(lookup, g))
    {
      var x, j :| x in [g] + Walk(NodeView(lookup), rank, g) && 0 <= j < |NodesOf(lookup, x)| && n == NodesOf(lookup, x)[j];
      CoverHolds(lookup, rank, g, x, j);
    }
  }

  /** The children of `g` and their regions all lie in the region of `g`. */
  lemma {:induction false} CoverWithin(lookup: NodeLookup, rank: map<Id, nat>, ns: seq<DictNode>, g: Id)
    requires Ranked(NodeView(lookup), rank)
    requires forall k | 0 <= k < |ns| :: ns[k] in Region(lookup, rank, g) && Region(lookup, rank, ns[k].row.guid) <= Region(lookup, rank, g)
    ensures Cover(lookup, rank, ns) <= Region(lookup, rank, g)
    decreases |ns|
  {
    if ns != [] {
      CoverWithin(lookup, rank, ns[..|ns| - 1], g);
    }
  }

  /** The nodes a build from the children of `g` may touch lie below `g`. */
  lemma CoverInRegion(lookup: NodeLookup, rank: map<Id, nat>, g: Id)
    requires Ranked(NodeView(lookup), rank)
    ensures Cover(lookup, rank, NodesOf(lookup, g)) <= Region(lookup, rank, g)
  {
    forall k | 0 <= k < |NodesOf(lookup, g)|
      ensures NodesOf(lookup, g)[k] in Region(lookup, rank, g)
      ensures Region(lookup, rank, NodesOf(lookup, g)[k].row.guid) <= Region(lookup, rank, g)
    {
      RegionOfChild(lookup, rank, g, k);
    }
    CoverWithin(lookup, rank, NodesOf(lookup, g), g);
  }

  /** Links `children` into `parent` and every node below it: each gets its
      lookup list, or `None` when that is empty. Nodes are only ever set to
      their expected entry; the same object is returned. */
  method BuildHierarchy(parent: DictNode, lookup: NodeLookup, ghost rank: map<Id, nat>) returns (r: DictNode)
    requires Ranked(NodeView(lookup), rank)
    modifies {parent} + Region(lookup, rank, parent.row.guid)
    ensures r == parent
    ensures Done(lookup, parent) && AllDone(lookup, Region(lookup, rank, parent.row.guid))
    ensures forall n: DictNode | old(allocated(n)) && old(Done(lookup, n)) :: Done(lookup, n)
    decreases RankOf(rank, parent.row.guid), 1
  {
    var children := if parent.row.guid in lookup then lookup[parent.row.guid] else [];
    assert children == NodesOf(lookup, parent.row.guid);
    CoverInRegion(lookup, rank, parent.row.guid);
    BuildEach(children, lookup, rank, parent.row.guid);
    RegionCover(lookup, rank, parent.row.guid);
    if |children| > 0 {
      parent.children := Nodes(children);
    } else {
      parent.children := Null;
    }
    r := parent;
  }

  /** The loop of `BuildHierarchy` over the children of a node with guid `g`:
      builds from each child in turn. */
  method BuildEach(children: seq<DictNode>, lookup: NodeLookup, ghost rank: map<Id, nat>, ghost g: Id)
    requires Ranked(NodeView(lookup), rank)
    requires children == NodesOf(lookup, g)
    modifies Cover(lookup, rank, children)
    ensures AllDone(lookup, Cover(lookup, rank, children))
    ensures forall n: DictNode | old(allocated(n)) && old(Done(lookup, n)) :: Done(lookup, n)
    decreases RankOf(rank, g), 0
  {
    ghost var view := NodeView(lookup);
    ghost var done: set<DictNode> := {};
    var i := 0;
    while i < |children|
      invariant 0 <= i <= |children|
      invariant done == Cover(lookup, rank, children[..i])
      invariant AllDone(lookup, done)
      invariant forall n: DictNode | old(allocated(n)) && old(Done(lookup, n)) :: Done(lookup, n)
    {
      CoverMember(lookup, rank, children, i);
      assert ChildrenOf(view, g)[i] == children[i].row.guid;
      ChildBelow(view, rank, g, i);
      CoverStep(lookup, rank, children, i);
      var _ := BuildHierarchy(children[i], lookup, rank);
      done := Cover(lookup, rank, children[..i + 1]);
      i := i + 1;
    }
    assert children[..i] == children;
  }

  /** `key` occurs in `s` starting at index `i`. */
  predicate OccursAt(s: string, key: string, i: nat) {
    i + |key| <= |s| && s[i..i + |key|] == key
  }

  /** Python's `key in s` on strings: `key` is a prefix of `s` or of one of
      its suffixes. */
  function Contains(s: string, key: string): bool
    decreases |s|
  {
    key <= s || (s != [] && Contains(s[1..], key))
  }

  /** `Contains` holds exactly when `key` occurs in `s` as a contiguous run. */
  lemma {:induction false} ContainsOccurs(s: string, key: string)
    ensures Contains(s, key) <==> exists i: nat :: OccursAt(s, key, i)
    decreases |s|
  {
    if key <= s {
      assert OccursAt(s, key, 0);
    } else if s != [] {
      ContainsOccurs(s[1..], key);
      if Contains(s[1..], key) {
        var i: nat :| OccursAt(s[1..], key, i);
        assert s[1..][i..i + |key|] == s[i + 1..i + 1 + |key|];
        assert OccursAt(s, key, i + 1);
      }
      if exists i: nat :: OccursAt(s, key, i) {
        var i: nat :| OccursAt(s, key, i);
        if i > 0 {
          assert s[1..][i - 1..i - 1 + |key|] == s[i..i + |key|];
          assert OccursAt(s[1..], key, i - 1);
        }
      }
    }
  }

  /** A node whose guid contains `key` and that has children: the nodes the
      search can return. */
  predicate Hit(view: Kids, key: string, x: Id) {
    Contains(x, key) && ChildrenOf(view, x) != []
  }

  /** The first id of `s` that is a hit. */
  function FirstHit(view: Kids, key: string, s: seq<Id>): (r: Option<Id>)
    ensures r.Some? ==> r.value in s && Hit(view, key, r.value)
    ensures r.None? <==> forall x | x in s :: !Hit(view, key, x)
    decreases |s|
  {
    if s == [] then None
    else if Hit(view, key, s[0]) then Some(s[0])
    else FirstHit(view, key, s[1..])
  }

  lemma {:induction false} FirstHitAppend(view: Kids, key: string, a: seq<Id>, b: seq<Id>)
    ensures FirstHit(view, key, a + b) == if FirstHit(view, key, a).Some? then FirstHit(view, key, a) else FirstHit(view, key, b)
    decreases |a|
  {
    if a == [] {
      assert a + b == b;
    } else {
      assert (a + b)[0] == a[0] && (a + b)[1..] == a[1..] + b;
      FirstHitAppend(view, key, a[1..], b);
    }
  }

  /** The children of the first hit, as the search reports them. */
  function Report(lookup: NodeLookup, hit: Option<Id>): Option<seq<DictNode>> {
    if hit.Some? then Some(NodesOf(lookup, hit.value)) else None
  }

  /** The search over ids, in the shape of the recursion: a matching id
      ends the search (with nothing when it is a leaf); otherwise the
      children are searched in order and the first one that finds
      something wins. */
  ghost function FindId(view: Kids, rank: map<Id, nat>, key: string, g: Id): Option<Id>
    requires Ranked(view, rank)
    decreases RankOf(rank, g), 1, 0
  {
    if Contains(g, key) then (if ChildrenOf(view, g) != [] then Some(g) else None)
    else FindList(view, rank, key, ChildrenOf(view, g), RankOf(rank, g))
  }

  ghost function FindList(view: Kids, rank: map<Id, nat>, key: string, cs: seq<Id>, bound: nat): Option<Id>
    requires Ranked(view, rank)
    requires forall c | c in cs :: c in rank && rank[c] < bound
    decreases bound, 0, |cs|
  {
    if cs == [] then None
    else if FindId(view, rank, key, cs[0]).Some? then FindId(view, rank, key, cs[0])
    else FindList(view, rank, key, cs[1..], bound)
  }

  /** The recursive search finds the first hit of the pre-order walk that
      starts at `g` itself. */
  lemma {:induction false} FindIdFirstHit(view: Kids, rank: map<Id, nat>, key: string, g: Id)
    requires Ranked(view, rank)
    ensures FindId(view, rank, key, g) == FirstHit(view, key, [g] + Walk(view, rank, g))
    decreases RankOf(rank, g), 1, 0
  {
    var cs := ChildrenOf(view, g);
    FirstHitAppend(view, key, [g], Walk(view, rank, g));
    FindListFirstHit(view, rank, key, cs, RankOf(rank, g));
  }

  lemma {:induction false} FindListFirstHit(view: Kids, rank: map<Id, nat>, key: string, cs: seq<Id>, bound: nat)
    requires Ranked(view, rank)
    requires forall c | c in cs :: c in rank && rank[c] < bound
    ensures FindList(view, rank, key, cs, bound) == FirstHit(view, key, WalkList(view, rank, cs, bound))
    decreases bound, 0, |cs|
  {
    if cs != [] {
      FindIdFirstHit(view, rank, key, cs[0]);
      FindListFirstHit(view, rank, key, cs[1..], bound);
      FirstHitAppend(view, key, [cs[0]] + Walk(view, rank, cs[0]), WalkList(view, rank, cs[1..], bound));
    }
  }

  /** Searches `obj` and the nodes below it in pre-order and returns the
      `children` of the first node whose guid contains `key`, skipping
      matches that are leaves; `None` when there is no such node. */
  method FindItem(obj: DictNode, key: string, ghost lookup: NodeLookup, ghost rank: map<Id, nat>)
    returns (r: Option<seq<DictNode>>)
    requires Ranked(NodeView(lookup), rank)
    requires Done(lookup, obj) && AllDone(lookup, Region(lookup, rank, obj.row.guid))
    ensures r == Report(lookup, FindId(NodeView(lookup), rank, key, obj.row.guid))
    decreases RankOf(rank, obj.row.guid)
  {
    ghost var view := NodeView(lookup);
    ghost var g := obj.row.guid;
    ghost var cs := ChildrenOf(view, g);
    ghost var bound := RankOf(rank, g);
    ViewChildren(lookup, g);
    if Contains(obj.row.guid, key) {
      if obj.children.Nodes? {
        return Some(obj.children.list);
      }
      return None;
    }
    if obj.children.Nodes? {
      var list := obj.children.list;
      assert list == NodesOf(lookup, g) && |cs| == |list|;
      ChildrenBelow(view, rank, g);
      var i := 0;
      while i < |list|
        invariant 0 <= i <= |list|
        invariant FindList(view, rank, key, cs, bound) == FindList(view, rank, key, cs[i..], bound)
      {
        assert cs[i] == list[i].row.guid;
        assert cs[i..][1..] == cs[i + 1..];
        RegionOfChild(lookup, rank, g, i);
        assert Done(lookup, list[i]);
        assert AllDone(lookup, Region(lookup, rank, cs[i]));
        ChildBelow(view, rank, g, i);
        var item := FindItem(list[i], key, lookup, rank);
        if item.Some? {
          return item;
        }
        assert FindList(view, rank, key, cs[i..], bound) == FindList(view, rank, key, cs[i + 1..], bound);
        i := i + 1;
      }
    }
    r := None;
  }
}
