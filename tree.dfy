/** The descendant search shared by every revision of the account tree: a
    pre-order walk over a child lookup that maps a parent id to the ordered
    ids of its direct children. The walk is the specification the imperative
    searches are proved against; the lemmas here say what it computes. */
module Tree {
  import opened Wrappers
  import opened Ledger

  /** The id-level view of a child lookup: parent id to its direct children, in order. */
  type Kids = map<Id, seq<Id>>

  /** The lookup's `.get(p, [])`. */
  function ChildrenOf(kids: Kids, p: Id): seq<Id> {
    if p in kids then kids[p] else []
  }

  function RankOf(rank: map<Id, nat>, p: Id): nat {
    if p in rank then rank[p] else 0
  }

  /** `rank` witnesses that the lookup is acyclic: every child ranks strictly
      below its parent. The walk terminates exactly on such lookups. */
  ghost predicate Ranked(kids: Kids, rank: map<Id, nat>) {
    forall p | p in kids :: p in rank && forall c | c in kids[p] :: c in rank && rank[c] < rank[p]
  }

  /** Each id occurs in at most one child list, and there at most once: every
      node has a single parent (guids are unique). */
  ghost predicate UniqueParents(kids: Kids) {
    forall p, q, i, j | p in kids && q in kids && 0 <= i < |kids[p]| && 0 <= j < |kids[q]| && kids[p][i] == kids[q][j] ::
      p == q && i == j
  }

  ghost predicate Distinct(s: seq<Id>) {
    forall i, j | 0 <= i < j < |s| :: s[i] != s[j]
  }

  /** The ids a recursive search appends below `p`: each child, immediately
      followed by that child's own subtree, children in lookup order. */
  ghost function Walk(kids: Kids, rank: map<Id, nat>, p: Id): seq<Id>
    requires Ranked(kids, rank)
    decreases RankOf(rank, p), 1, 0
  {
    WalkList(kids, rank, ChildrenOf(kids, p), RankOf(rank, p))
  }

  ghost function WalkList(kids: Kids, rank: map<Id, nat>, cs: seq<Id>, bound: nat): seq<Id>
    requires Ranked(kids, rank)
    requires forall c | c in cs :: c in rank && rank[c] < bound
    decreases bound, 0, |cs|
  {
    if cs == [] then [] else [cs[0]] + Walk(kids, rank, cs[0]) + WalkList(kids, rank, cs[1..], bound)
  }

  /** `x` is reached from `p` by exactly `n` parent-to-child steps: the
      reference notion of descendant, independent of the walk. */
  ghost predicate Reaches(kids: Kids, p: Id, x: Id, n: nat)
    decreases n
  {
    if n == 0 then x == p
    else exists i :: 0 <= i < |ChildrenOf(kids, p)| && Reaches(kids, ChildrenOf(kids, p)[i], x, n - 1)
  }

  /** Walking a concatenation of sibling lists walks each list in turn; this is
      what lets a loop over the children append one subtree at a time. */
  lemma {:induction false} WalkListAppend(kids: Kids, rank: map<Id, nat>, a: seq<Id>, b: seq<Id>, bound: nat)
    requires Ranked(kids, rank)
    requires forall c | c in a + b :: c in rank && rank[c] < bound
    ensures WalkList(kids, rank, a + b, bound) == WalkList(kids, rank, a, bound) + WalkList(kids, rank, b, bound)
    decreases |a|
  {
    if a == [] {
      assert a + b == b;
    } else {
      assert (a + b)[0] == a[0];
      assert (a + b)[1..] == a[1..] + b;
      WalkListAppend(kids, rank, a[1..], b, bound);
    }
  }

  lemma {:induction false} WalkListMember(kids: Kids, rank: map<Id, nat>, cs: seq<Id>, bound: nat, x: Id)
    requires Ranked(kids, rank)
    requires forall c | c in cs :: c in rank && rank[c] < bound
    ensures x in WalkList(kids, rank, cs, bound) <==>
            exists i :: 0 <= i < |cs| && (x == cs[i] || x in Walk(kids, rank, cs[i]))
    decreases |cs|
  {
    if cs != [] {
      WalkListMember(kids, rank, cs[1..], bound, x);
      if exists i :: 0 <= i < |cs| && (x == cs[i] || x in Walk(kids, rank, cs[i])) {
        var i :| 0 <= i < |cs| && (x == cs[i] || x in Walk(kids, rank, cs[i]));
        if i > 0 {
          assert cs[1..][i - 1] == cs[i];
        }
      }
      if x in WalkList(kids, rank, cs[1..], bound) {
        var i :| 0 <= i < |cs[1..]| && (x == cs[1..][i] || x in Walk(kids, rank, cs[1..][i]));
        assert cs[i + 1] == cs[1..][i];
      }
    }
  }

  /** Membership in the walk of `p`: a direct child of `p`, or in the walk of one. */
  lemma WalkMember(kids: Kids, rank: map<Id, nat>, p: Id, x: Id)
    requires Ranked(kids, rank)
    ensures x in Walk(kids, rank, p) <==>
            exists i :: 0 <= i < |ChildrenOf(kids, p)| &&
              (x == ChildrenOf(kids, p)[i] || x in Walk(kids, rank, ChildrenOf(kids, p)[i]))
  {
    WalkListMember(kids, rank, ChildrenOf(kids, p), RankOf(rank, p), x);
  }

  /** Every id the walk of `p` yields ranks strictly below `p`. */
  lemma {:induction false} WalkBelow(kids: Kids, rank: map<Id, nat>, p: Id, x: Id)
    requires Ranked(kids, rank)
    requires x in Walk(kids, rank, p)
    ensures x in rank && rank[x] < RankOf(rank, p)
    decreases RankOf(rank, p), 1, 0
  {
    WalkListBelow(kids, rank, ChildrenOf(kids, p), RankOf(rank, p), x);
  }

  lemma {:induction false} WalkListBelow(kids: Kids, rank: map<Id, nat>, cs: seq<Id>, bound: nat, x: Id)
    requires Ranked(kids, rank)
    requires forall c | c in cs :: c in rank && rank[c] < bound
    requires x in WalkList(kids, rank, cs, bound)
    ensures x in rank && rank[x] < bound
    decreases bound, 0, |cs|
  {
    if x != cs[0] {
      if x in Walk(kids, rank, cs[0]) {
        WalkBelow(kids, rank, cs[0], x);
      } else {
        WalkListBelow(kids, rank, cs[1..], bound, x);
      }
    }
  }

  /** A direct child ranks strictly below its parent. */
  lemma ChildBelow(kids: Kids, rank: map<Id, nat>, p: Id, i: nat)
    requires Ranked(kids, rank)
    requires i < |ChildrenOf(kids, p)|
    ensures ChildrenOf(kids, p)[i] in rank && rank[ChildrenOf(kids, p)[i]] < RankOf(rank, p)
  {
    assert ChildrenOf(kids, p)[i] in kids[p];
  }

  /** Walking one more sibling appends that sibling and its own walk. */
  lemma WalkListSnoc(kids: Kids, rank: map<Id, nat>, cs: seq<Id>, i: nat, bound: nat)
    requires Ranked(kids, rank)
    requires forall c | c in cs :: c in rank && rank[c] < bound
    requires i < |cs|
    ensures WalkList(kids, rank, cs[..i + 1], bound) == WalkList(kids, rank, cs[..i], bound) + [cs[i]] + Walk(kids, rank, cs[i])
  {
    assert cs[..i + 1] == cs[..i] + [cs[i]];
    assert cs[i] in cs;
    WalkListAppend(kids, rank, cs[..i], [cs[i]], bound);
    WalkListSingle(kids, rank, cs[i], bound);
  }

  /** A search loop that has appended the walks of the first `i` siblings
      to `start`, and then appends sibling `i` and its walk, has appended the
      walks of the first `i + 1`. */
  lemma WalkListExtend(kids: Kids, rank: map<Id, nat>, cs: seq<Id>, i: nat, bound: nat,
                       start: seq<Id>, before: seq<Id>, after: seq<Id>)
    requires Ranked(kids, rank)
    requires forall c | c in cs :: c in rank && rank[c] < bound
    requires i < |cs|
    requires before == start + WalkList(kids, rank, cs[..i], bound)
    requires after == before + [cs[i]] + Walk(kids, rank, cs[i])
    ensures after == start + WalkList(kids, rank, cs[..i + 1], bound)
  {
    WalkListSnoc(kids, rank, cs, i, bound);
  }

  lemma ChildrenBelow(kids: Kids, rank: map<Id, nat>, p: Id)
    requires Ranked(kids, rank)
    ensures forall c | c in ChildrenOf(kids, p) :: c in rank && rank[c] < RankOf(rank, p)
  {
  }

  /** Walking one child is the child followed by its own walk. */
  lemma WalkListSingle(kids: Kids, rank: map<Id, nat>, c: Id, bound: nat)
    requires Ranked(kids, rank)
    requires c in rank && rank[c] < bound
    ensures WalkList(kids, rank, [c], bound) == [c] + Walk(kids, rank, c)
  {
    assert [c][1..] == [];
  }

  /** The walk never yields the id it started from. */
  lemma WalkExcludesStart(kids: Kids, rank: map<Id, nat>, p: Id)
    requires Ranked(kids, rank)
    ensures p !in Walk(kids, rank, p)
  {
    if p in Walk(kids, rank, p) {
      WalkBelow(kids, rank, p, p);
    }
  }

  /** The walk does not depend on which acyclicity witness is used: two
      searches from the same id over the same lookup give equal lists. */
  lemma {:induction false} WalkRankFree(kids: Kids, r1: map<Id, nat>, r2: map<Id, nat>, p: Id)
    requires Ranked(kids, r1) && Ranked(kids, r2)
    ensures Walk(kids, r1, p) == Walk(kids, r2, p)
    decreases RankOf(r1, p), 1, 0
  {
    WalkListRankFree(kids, r1, r2, ChildrenOf(kids, p), RankOf(r1, p), RankOf(r2, p));
  }

  lemma {:induction false} WalkListRankFree(kids: Kids, r1: map<Id, nat>, r2: map<Id, nat>, cs: seq<Id>, b1: nat, b2: nat)
    requires Ranked(kids, r1) && Ranked(kids, r2)
    requires forall c | c in cs :: c in r1 && r1[c] < b1
    requires forall c | c in cs :: c in r2 && r2[c] < b2
    ensures WalkList(kids, r1, cs, b1) == WalkList(kids, r2, cs, b2)
    decreases b1, 0, |cs|
  {
    if cs != [] {
      WalkRankFree(kids, r1, r2, cs[0]);
      WalkListRankFree(kids, r1, r2, cs[1..], b1, b2);
    }
  }

  /** The walk yields exactly the ids reachable from `p` in one or more steps. */
  lemma WalkIsDescendants(kids: Kids, rank: map<Id, nat>, p: Id, x: Id)
    requires Ranked(kids, rank)
    ensures x in Walk(kids, rank, p) <==> exists n: nat :: 1 <= n && Reaches(kids, p, x, n)
  {
    if x in Walk(kids, rank, p) {
      WalkReaches(kids, rank, p, x);
    }
    if exists n: nat :: 1 <= n && Reaches(kids, p, x, n) {
      var n: nat :| 1 <= n && Reaches(kids, p, x, n);
      ReachesInWalk(kids, rank, p, x, n);
    }
  }

  lemma {:induction false} WalkReaches(kids: Kids, rank: map<Id, nat>, p: Id, x: Id)
    requires Ranked(kids, rank)
    requires x in Walk(kids, rank, p)
    ensures exists n: nat :: 1 <= n && Reaches(kids, p, x, n)
    decreases RankOf(rank, p)
  {
    var cs := ChildrenOf(kids, p);
    WalkMember(kids, rank, p, x);
    var i :| 0 <= i < |cs| && (x == cs[i] || x in Walk(kids, rank, cs[i]));
    if x == cs[i] {
      assert Reaches(kids, cs[i], x, 0);
      assert Reaches(kids, p, x, 1);
    } else {
      assert cs[i] in kids[p];
      WalkReaches(kids, rank, cs[i], x);
      var n: nat :| 1 <= n && Reaches(kids, cs[i], x, n);
      assert Reaches(kids, p, x, n + 1);
    }
  }

  lemma {:induction false} ReachesInWalk(kids: Kids, rank: map<Id, nat>, p: Id, x: Id, n: nat)
    requires Ranked(kids, rank)
    requires 1 <= n && Reaches(kids, p, x, n)
    ensures x in Walk(kids, rank, p)
    decreases n
  {
    var cs := ChildrenOf(kids, p);
    var i :| 0 <= i < |cs| && Reaches(kids, cs[i], x, n - 1);
    if n > 1 {
      ReachesInWalk(kids, rank, cs[i], x, n - 1);
    }
    WalkMember(kids, rank, p, x);
  }

  /** The walk of a child is contained in the walk of its parent. */
  lemma ChildWalkInside(kids: Kids, rank: map<Id, nat>, p: Id, i: nat, x: Id)
    requires Ranked(kids, rank)
    requires i < |ChildrenOf(kids, p)|
    requires x == ChildrenOf(kids, p)[i] || x in Walk(kids, rank, ChildrenOf(kids, p)[i])
    ensures x in Walk(kids, rank, p)
  {
    WalkMember(kids, rank, p, x);
  }

  /** Every id in the walk of `q` has its parent in the walk too, or is a child of `q`. */
  lemma {:induction false} ParentInWalk(kids: Kids, rank: map<Id, nat>, q: Id, x: Id)
    requires Ranked(kids, rank)
    requires x in Walk(kids, rank, q)
    ensures exists y :: y in kids && x in kids[y] && (y == q || y in Walk(kids, rank, q))
    decreases RankOf(rank, q)
  {
    var cs := ChildrenOf(kids, q);
    WalkMember(kids, rank, q, x);
    var i :| 0 <= i < |cs| && (x == cs[i] || x in Walk(kids, rank, cs[i]));
    if x == cs[i] {
      assert q in kids && x in kids[q];
    } else {
      assert cs[i] in kids[q];
      ParentInWalk(kids, rank, cs[i], x);
      var y :| y in kids && x in kids[y] && (y == cs[i] || y in Walk(kids, rank, cs[i]));
      ChildWalkInside(kids, rank, q, i, y);
    }
  }

  lemma OneParent(kids: Kids, x: Id, y1: Id, y2: Id)
    requires UniqueParents(kids)
    requires y1 in kids && x in kids[y1]
    requires y2 in kids && x in kids[y2]
    ensures y1 == y2
  {
    var i :| 0 <= i < |kids[y1]| && kids[y1][i] == x;
    var j :| 0 <= j < |kids[y2]| && kids[y2][j] == x;
  }

  /** Two walks that share an id are nested: one starts inside the other. */
  lemma {:induction false} SharedDescendant(kids: Kids, rank: map<Id, nat>, x: Id, a: Id, b: Id)
    requires Ranked(kids, rank) && UniqueParents(kids)
    requires x in Walk(kids, rank, a) && x in Walk(kids, rank, b)
    ensures a == b || a in Walk(kids, rank, b) || b in Walk(kids, rank, a)
    decreases RankOf(rank, a) - RankOf(rank, x)
  {
    WalkBelow(kids, rank, a, x);
    ParentInWalk(kids, rank, a, x);
    ParentInWalk(kids, rank, b, x);
    var y1 :| y1 in kids && x in kids[y1] && (y1 == a || y1 in Walk(kids, rank, a));
    var y2 :| y2 in kids && x in kids[y2] && (y2 == b || y2 in Walk(kids, rank, b));
    OneParent(kids, x, y1, y2);
    if y1 != a && y2 != b {
      WalkBelow(kids, rank, a, y1);
      SharedDescendant(kids, rank, y1, a, b);
    }
  }

  /** A child of `p` is not inside the walk of a sibling. */
  lemma NotInSibling(kids: Kids, rank: map<Id, nat>, p: Id, i: nat, j: nat)
    requires Ranked(kids, rank) && UniqueParents(kids)
    requires i < |ChildrenOf(kids, p)| && j < |ChildrenOf(kids, p)|
    ensures ChildrenOf(kids, p)[i] !in Walk(kids, rank, ChildrenOf(kids, p)[j])
  {
    var cs := ChildrenOf(kids, p);
    if cs[i] in Walk(kids, rank, cs[j]) {
      ParentInWalk(kids, rank, cs[j], cs[i]);
      var y :| y in kids && cs[i] in kids[y] && (y == cs[j] || y in Walk(kids, rank, cs[j]));
      assert cs[i] in kids[p];
      OneParent(kids, cs[i], y, p);
      if y == cs[j] {
        assert false;
      } else {
        WalkBelow(kids, rank, cs[j], p);
        assert false;
      }
    }
  }

  ghost predicate Apart(kids: Kids, rank: map<Id, nat>, a: Id, b: Id)
    requires Ranked(kids, rank)
  {
    a != b && a !in Walk(kids, rank, b) && b !in Walk(kids, rank, a) &&
    forall x | x in Walk(kids, rank, a) :: x !in Walk(kids, rank, b)
  }

  /** Distinct children of one parent have disjoint subtrees. */
  lemma SiblingsApart(kids: Kids, rank: map<Id, nat>, p: Id, i: nat, j: nat)
    requires Ranked(kids, rank) && UniqueParents(kids)
    requires i < |ChildrenOf(kids, p)| && j < |ChildrenOf(kids, p)| && i != j
    ensures Apart(kids, rank, ChildrenOf(kids, p)[i], ChildrenOf(kids, p)[j])
  {
    var cs := ChildrenOf(kids, p);
    NotInSibling(kids, rank, p, i, j);
    NotInSibling(kids, rank, p, j, i);
    forall x | x in Walk(kids, rank, cs[i])
      ensures x !in Walk(kids, rank, cs[j])
    {
      if x in Walk(kids, rank, cs[j]) {
        SharedDescendant(kids, rank, x, cs[i], cs[j]);
      }
    }
  }

  lemma DistinctConcat(a: seq<Id>, b: seq<Id>)
    requires Distinct(a) && Distinct(b)
    requires forall x | x in a :: x !in b
    ensures Distinct(a + b)
  {
    forall i, j | 0 <= i < j < |a + b|
      ensures (a + b)[i] != (a + b)[j]
    {
      if i < |a| && |a| <= j {
        assert (a + b)[i] in a;
        assert (a + b)[j] == b[j - |a|];
      }
    }
  }

  /** On a tree (acyclic, one parent per node) the walk lists every
      descendant exactly once. */
  lemma {:induction false} WalkDistinct(kids: Kids, rank: map<Id, nat>, p: Id)
    requires Ranked(kids, rank) && UniqueParents(kids)
    ensures Distinct(Walk(kids, rank, p))
    decreases RankOf(rank, p), 1, 0
  {
    var cs := ChildrenOf(kids, p);
    forall i, j | 0 <= i < j < |cs|
      ensures Apart(kids, rank, cs[i], cs[j])
    {
      SiblingsApart(kids, rank, p, i, j);
    }
    WalkListDistinct(kids, rank, cs, RankOf(rank, p));
  }

  lemma {:induction false} WalkListDistinct(kids: Kids, rank: map<Id, nat>, cs: seq<Id>, bound: nat)
    requires Ranked(kids, rank) && UniqueParents(kids)
    requires forall c | c in cs :: c in rank && rank[c] < bound
    requires forall i, j | 0 <= i < j < |cs| :: Apart(kids, rank, cs[i], cs[j])
    ensures Distinct(WalkList(kids, rank, cs, bound))
    decreases bound, 0, |cs|
  {
    if cs != [] {
      var c := cs[0];
      var rest := cs[1..];
      WalkDistinct(kids, rank, c);
      WalkExcludesStart(kids, rank, c);
      DistinctConcat([c], Walk(kids, rank, c));
      forall i, j | 0 <= i < j < |rest|
        ensures Apart(kids, rank, rest[i], rest[j])
      {
        assert rest[i] == cs[i + 1] && rest[j] == cs[j + 1];
      }
      WalkListDistinct(kids, rank, rest, bound);
      forall x | x in [c] + Walk(kids, rank, c)
        ensures x !in WalkList(kids, rank, rest, bound)
      {
        WalkListMember(kids, rank, rest, bound, x);
      }
      DistinctConcat([c] + Walk(kids, rank, c), WalkList(kids, rank, rest, bound));
    }
  }

  // ---------------------------------------------------------------------
  // Child lookups built from account rows

  /** The rows of `nodes` whose parent column equals `key`, in row order: the
      reference definition of a parent's child list. */
  function ChildRows(nodes: seq<Account>, key: Option<Id>): seq<Account>
    decreases |nodes|
  {
    if nodes == [] then []
    else
      var last := nodes[|nodes| - 1];
      ChildRows(nodes[..|nodes| - 1], key) + (if last.parentGuid == key then [last] else [])
  }

  function Guids(rows: seq<Account>): (r: seq<Id>)
    ensures |r| == |rows| && forall i | 0 <= i < |rows| :: r[i] == rows[i].guid
  {
    seq(|rows|, i requires 0 <= i < |rows| => rows[i].guid)
  }

  /** The id-level view of a lookup whose lists hold account rows. */
  function ViewOf(lookup: map<Id, seq<Account>>): Kids {
    map p | p in lookup :: Guids(lookup[p])
  }

  /** `lookup` holds, for every parent id that has children, exactly its child
      rows in row order, and no entry for an id without children. */
  ghost predicate BuiltFrom(lookup: map<Id, seq<Account>>, nodes: seq<Account>) {
    forall p ::
      (p in lookup <==> ChildRows(nodes, Some(p)) != []) &&
      (p in lookup ==> lookup[p] == ChildRows(nodes, Some(p)))
  }

  /** Reading one more row extends the parent's list of that row by it and
      leaves every other list alone; a row without a parent changes nothing. */
  lemma ChildRowsStep(nodes: seq<Account>, i: nat, key: Option<Id>)
    requires i < |nodes|
    ensures ChildRows(nodes[..i + 1], key) ==
            ChildRows(nodes[..i], key) + (if nodes[i].parentGuid == key then [nodes[i]] else [])
  {
    assert nodes[..i + 1][..i] == nodes[..i];
  }

  /** One row read into a lookup built from the rows before it gives the
      lookup built from the rows up to and including it. */
  lemma BuiltFromStep(lookup: map<Id, seq<Account>>, nodes: seq<Account>, i: nat)
    requires i < |nodes| && BuiltFrom(lookup, nodes[..i])
    ensures nodes[i].parentGuid.None? ==> BuiltFrom(lookup, nodes[..i + 1])
    ensures nodes[i].parentGuid.Some? ==>
              var q := nodes[i].parentGuid.value;
              BuiltFrom(lookup[q := (if q in lookup then lookup[q] else []) + [nodes[i]]], nodes[..i + 1])
  {
    forall p
      ensures ChildRows(nodes[..i + 1], Some(p)) ==
              ChildRows(nodes[..i], Some(p)) + (if nodes[i].parentGuid == Some(p) then [nodes[i]] else [])
    {
      ChildRowsStep(nodes, i, Some(p));
    }
  }

  /** The last row whose parent column is `rootId`, if any: a one-pass
      build that sets such rows aside keeps overwriting the one before. */
  function LastRoot(nodes: seq<Account>, rootId: Option<Id>): (r: Option<Account>)
    ensures r.None? ==> forall j | 0 <= j < |nodes| :: nodes[j].parentGuid != rootId
    ensures r.Some? ==> exists i | 0 <= i < |nodes| :: nodes[i] == r.value && r.value.parentGuid == rootId &&
                          forall j | i < j < |nodes| :: nodes[j].parentGuid != rootId
    decreases |nodes|
  {
    if nodes == [] then None
    else if nodes[|nodes| - 1].parentGuid == rootId then Some(nodes[|nodes| - 1])
    else
      var r := LastRoot(nodes[..|nodes| - 1], rootId);
      assert r.Some? ==> exists i | 0 <= i < |nodes| - 1 :: nodes[i] == r.value && r.value.parentGuid == rootId &&
                           forall j | i < j < |nodes| :: nodes[j].parentGuid != rootId;
      r
  }

  lemma LastRootStep(nodes: seq<Account>, i: nat, rootId: Option<Id>)
    requires i < |nodes|
    ensures LastRoot(nodes[..i + 1], rootId) ==
            if nodes[i].parentGuid == rootId then Some(nodes[i]) else LastRoot(nodes[..i], rootId)
  {
    assert nodes[..i + 1][..i] == nodes[..i];
  }

  ghost predicate DistinctGuids(nodes: seq<Account>) {
    forall i, j | 0 <= i < j < |nodes| :: nodes[i].guid != nodes[j].guid
  }

  /** A child list holds exactly the rows whose parent column is the key. */
  lemma {:induction false} ChildRowsMember(nodes: seq<Account>, key: Option<Id>, a: Account)
    ensures a in ChildRows(nodes, key) <==> a in nodes && a.parentGuid == key
    decreases |nodes|
  {
    if nodes != [] {
      var init := nodes[..|nodes| - 1];
      ChildRowsMember(init, key, a);
      assert nodes == init + [nodes[|nodes| - 1]];
    }
  }

  lemma {:induction false} ChildRowsDistinct(nodes: seq<Account>, key: Option<Id>)
    requires DistinctGuids(nodes)
    ensures DistinctGuids(ChildRows(nodes, key))
    decreases |nodes|
  {
    if nodes != [] {
      var init := nodes[..|nodes| - 1];
      var last := nodes[|nodes| - 1];
      ChildRowsDistinct(init, key);
      forall e | e in ChildRows(init, key)
        ensures e.guid != last.guid
      {
        ChildRowsMember(init, key, e);
        var k :| 0 <= k < |init| && init[k] == e;
        assert nodes[k] == e;
      }
    }
  }

  /** A row without a parent (the root) is in no child list. */
  lemma RootInNoList(lookup: map<Id, seq<Account>>, nodes: seq<Account>, a: Account)
    requires BuiltFrom(lookup, nodes)
    requires a.parentGuid == None
    ensures forall p | p in lookup :: a !in lookup[p]
  {
    forall p | p in lookup
      ensures a !in lookup[p]
    {
      ChildRowsMember(nodes, Some(p), a);
    }
  }

  /** With unique guids, a lookup built from the rows gives each node one parent,
      so the walk over it lists each descendant exactly once. */
  lemma BuiltUniqueParents(lookup: map<Id, seq<Account>>, nodes: seq<Account>)
    requires BuiltFrom(lookup, nodes) && DistinctGuids(nodes)
    ensures UniqueParents(ViewOf(lookup))
  {
    var kids := ViewOf(lookup);
    forall p, q, i, j | p in kids && q in kids && 0 <= i < |kids[p]| && 0 <= j < |kids[q]| && kids[p][i] == kids[q][j]
      ensures p == q && i == j
    {
      var a := lookup[p][i];
      var b := lookup[q][j];
      ChildRowsMember(nodes, Some(p), a);
      ChildRowsMember(nodes, Some(q), b);
      var k1 :| 0 <= k1 < |nodes| && nodes[k1] == a;
      var k2 :| 0 <= k2 < |nodes| && nodes[k2] == b;
      ChildRowsDistinct(nodes, Some(p));
    }
  }
}
