/** Which tree a stored node shows, and where the payload's own tree comes to be shown. */
module Shown {
  import opened Types
  import opened Sorting
  import opened Payload
  import opened Flatten
  import opened Closure

  lemma {:induction false} SortAllAt(ts: seq<Tree>, i: int)
    requires 0 <= i < |ts|
    ensures |SortAll(ts)| == |ts|
    ensures SortAll(ts)[i] == Tree(ts[i].id, ts[i].typ, SortBy(SortAll(ts[i].children), TreeId))
  {
    if ts[1..] == [] {
    } else {
      SortAllAt(ts[1..], if i > 0 then i - 1 else 0);
    }
  }

  lemma {:induction false} SortAllSize(ts: seq<Tree>)
    ensures |SortAll(ts)| == |ts|
  {
    if ts != [] {
      SortAllAt(ts, 0);
    }
  }

  /** Sorting the children moves no id in or out of the list. */
  lemma {:induction false} SortedKidsList(ts: seq<Tree>, c: int)
    ensures ListsId(SortBy(SortAll(ts), TreeId), c) <==> ListsId(ts, c)
  {
    var a := SortAll(ts);
    var b := SortBy(a, TreeId);
    SortByCorrect(a, TreeId);
    SortAllSize(ts);
    if ListsId(b, c) {
      var i :| 0 <= i < |b| && b[i].id == c;
      assert b[i] in multiset(b);
      var j :| 0 <= j < |a| && a[j] == b[i];
      SortAllAt(ts, j);
    }
    if ListsId(ts, c) {
      var i :| 0 <= i < |ts| && ts[i].id == c;
      SortAllAt(ts, i);
      assert a[i] in multiset(b);
      var j :| 0 <= j < |b| && b[j] == a[i];
    }
  }

  lemma {:induction false} RootInIdSet(ts: seq<Tree>, i: int)
    requires 0 <= i < |ts|
    ensures ts[i].id in IdSet(ts) && IdSet(ts[i].children) <= IdSet(ts)
  {
    if i == 0 {
    } else {
      RootInIdSet(ts[1..], i - 1);
    }
  }

  lemma {:induction false} DistinctRoots(ts: seq<Tree>, i: int, j: int)
    requires Distinct(ts) && 0 <= i < j < |ts|
    ensures ts[i].id != ts[j].id
  {
    if i == 0 {
      RootInIdSet(ts[1..], j - 1);
    } else {
      DistinctRoots(ts[1..], i - 1, j - 1);
    }
  }

  lemma {:induction false} SortedKidsAscend(ts: seq<Tree>)
    requires Distinct(ts)
    ensures Ascending(SortBy(SortAll(ts), TreeId))
  {
    var a := SortAll(ts);
    SortAllSize(ts);
    forall i, j | 0 <= i < j < |a|
      ensures TreeId(a[i]) != TreeId(a[j])
    {
      SortAllAt(ts, i);
      SortAllAt(ts, j);
      DistinctRoots(ts, i, j);
    }
    SortByUnique(a, TreeId);
    SortByCorrect(a, TreeId);
    var b := SortBy(a, TreeId);
    forall i, j | 0 <= i < j < |b|
      ensures b[i].id < b[j].id
    {
      assert TreeId(b[i]) <= TreeId(b[j]) && TreeId(b[i]) != TreeId(b[j]);
    }
  }

  /** Where a node of `ts` hangs: under `parent` if it is one of the roots, else inside `ts`. */
  lemma {:induction false} AgreesWhere(n: Nodes, ts: seq<Tree>, parent: Option<int>, c: int)
    requires Agrees(n, ts, parent) && c in IdSet(ts)
    ensures c in n
    ensures (ListsId(ts, c) && n[c].parent == parent) || (n[c].parent.Some? && n[c].parent.value in IdSet(ts))
  {
    if c == ts[0].id {
    } else if c in IdSet(ts[0].children) {
      AgreesWhere(n, ts[0].children, Some(ts[0].id), c);
    } else {
      AgreesWhere(n, ts[1..], parent, c);
      if ListsId(ts[1..], c) {
        var i :| 0 <= i < |ts[1..]| && ts[1..][i].id == c;
        assert ts[i + 1].id == c;
      }
    }
  }

  lemma {:induction false} AgreesRoots(n: Nodes, ts: seq<Tree>, parent: Option<int>, i: int)
    requires Agrees(n, ts, parent) && 0 <= i < |ts|
    ensures ts[i].id in n && n[ts[i].id] == NodeRec(ts[i].typ, parent)
    ensures Agrees(n, ts[i].children, Some(ts[i].id))
  {
    if i == 0 {
    } else {
      AgreesRoots(n, ts[1..], parent, i - 1);
    }
  }

  lemma {:induction false} DistinctAt(ts: seq<Tree>, i: int)
    requires Distinct(ts) && 0 <= i < |ts|
    ensures ts[i].id !in IdSet(ts[i].children) && Distinct(ts[i].children)
  {
    if i == 0 {
    } else {
      DistinctAt(ts[1..], i - 1);
    }
  }

  /** No node outside `ids` hangs from a node inside. */
  ghost predicate NothingBelow(n: Nodes, ids: set<int>)
  {
    forall c :: c in n && c !in ids && n[c].parent.Some? ==> n[c].parent.value !in ids
  }

  /** Of the nodes of a distinct forest, those hanging from one of its roots are that root's children. */
  lemma {:induction false} ChildrenListed(n: Nodes, ts: seq<Tree>, parent: Option<int>, i: int, c: int)
    requires Agrees(n, ts, parent) && Distinct(ts) && 0 <= i < |ts| && c in IdSet(ts)
    requires parent.Some? ==> parent.value !in IdSet(ts)
    requires IsChild(n, c, ts[i].id)
    ensures ListsId(ts[i].children, c)
  {
    var rest := ts[1..];
    RootInIdSet(ts, i);
    if c == ts[0].id {
    } else if c in IdSet(ts[0].children) {
      AgreesWhere(n, ts[0].children, Some(ts[0].id), c);
      if i > 0 {
        RootInIdSet(rest, i - 1);
      }
    } else {
      AgreesWhere(n, rest, parent, c);
      if i > 0 {
        ChildrenListed(n, rest, parent, i - 1, c);
      }
    }
  }

  lemma {:induction false} SubNothingBelow(n: Nodes, ts: seq<Tree>, parent: Option<int>, i: int)
    requires Agrees(n, ts, parent) && Distinct(ts) && NothingBelow(n, IdSet(ts)) && 0 <= i < |ts|
    requires parent.Some? ==> parent.value !in IdSet(ts)
    ensures NothingBelow(n, IdSet(ts[i].children))
  {
    var t, sub := ts[i], IdSet(ts[i].children);
    RootInIdSet(ts, i);
    forall c | c in n && c !in sub && n[c].parent.Some?
      ensures n[c].parent.value !in sub
    {
      if n[c].parent.value in sub {
        assert c in IdSet(ts);
        NotBelowSibling(n, ts, parent, i, c);
      }
    }
  }

  lemma {:induction false} NotBelowSibling(n: Nodes, ts: seq<Tree>, parent: Option<int>, i: int, c: int)
    requires Agrees(n, ts, parent) && Distinct(ts) && 0 <= i < |ts|
    requires parent.Some? ==> parent.value !in IdSet(ts)
    requires c in IdSet(ts) && c !in IdSet(ts[i].children)
    ensures c in n && (n[c].parent.Some? ==> n[c].parent.value !in IdSet(ts[i].children))
  {
    var rest := ts[1..];
    RootInIdSet(ts, i);
    if c == ts[0].id {
    } else if c in IdSet(ts[0].children) {
      AgreesWhere(n, ts[0].children, Some(ts[0].id), c);
      RootInIdSet(rest, i - 1);
    } else if i == 0 {
      AgreesWhere(n, rest, parent, c);
    } else {
      NotBelowSibling(n, rest, parent, i - 1, c);
    }
  }

  /** The children of a sorted node are the stored ones. */
  lemma {:induction false} SortedKidsStored(n: Nodes, ts: seq<Tree>, parent: Option<int>, i: int, c: int)
    requires Agrees(n, ts, parent) && Distinct(ts) && NothingBelow(n, IdSet(ts)) && 0 <= i < |ts|
    requires parent.Some? ==> parent.value !in IdSet(ts)
    ensures ListsId(SortBy(SortAll(ts[i].children), TreeId), c) <==> IsChild(n, c, ts[i].id)
  {
    var t := ts[i];
    SortedKidsList(t.children, c);
    if ListsId(t.children, c) {
      var k :| 0 <= k < |t.children| && t.children[k].id == c;
      AgreesRoots(n, ts, parent, i);
      AgreesRoots(n, t.children, Some(t.id), k);
    }
    if IsChild(n, c, t.id) {
      RootInIdSet(ts, i);
      assert c in IdSet(ts);
      ChildrenListed(n, ts, parent, i, c);
    }
  }

  /** A table that carries a payload without repeated ids, and hangs nothing else under it,
      shows the payload with children sorted by id at every level. */
  lemma {:induction false} SortedIsShown(n: Nodes, ts: seq<Tree>, parent: Option<int>, i: int)
    requires Agrees(n, ts, parent) && Distinct(ts) && NothingBelow(n, IdSet(ts)) && 0 <= i < |ts|
    requires parent.Some? ==> parent.value !in IdSet(ts)
    ensures |SortAll(ts)| == |ts| && SortAll(ts)[i].id == ts[i].id
    ensures Shows(n, SortAll(ts)[i])
    decreases ts[i]
  {
    SortAllAt(ts, i);
    AgreesRoots(n, ts, parent, i);
    DistinctAt(ts, i);
    SubNothingBelow(n, ts, parent, i);
    RootInIdSet(ts, i);
    var t, u := ts[i], SortAll(ts)[i];
    SortedKidsAscend(t.children);
    forall c
      ensures ListsId(u.children, c) <==> IsChild(n, c, u.id)
    {
      SortedKidsStored(n, ts, parent, i, c);
    }
    forall k | 0 <= k < |u.children|
      ensures Shows(n, u.children[k])
    {
      var a := SortAll(t.children);
      SortByCorrect(a, TreeId);
      SortAllSize(t.children);
      assert u.children[k] in multiset(u.children);
      var l :| 0 <= l < |a| && a[l] == u.children[k];
      SortedIsShown(n, t.children, Some(t.id), l);
    }
  }

  /** Rows a table holds make it agree with the nesting they came from. */
  lemma {:induction false} AgreesFromRows(n: Nodes, ts: seq<Tree>, parent: Option<int>, depth: nat)
    requires forall e :: e in Dfs(ts, parent, depth) ==> e.id in n && n[e.id] == NodeRec(e.typ, e.parent)
    ensures Agrees(n, ts, parent)
  {
    if ts == [] {
    } else {
      var head := PayloadNode(ts[0].id, ts[0].typ, parent, depth);
      assert head in Dfs(ts, parent, depth);
      AgreesFromRows(n, ts[0].children, Some(ts[0].id), depth + 1);
      AgreesFromRows(n, ts[1..], parent, depth);
    }
  }

  lemma {:induction false} DfsDepth(ts: seq<Tree>, parent: Option<int>, depth: nat, e: PayloadNode)
    requires e in Dfs(ts, parent, depth)
    ensures e.depth >= depth
  {
    if e in Dfs(ts[0].children, Some(ts[0].id), depth + 1) {
      DfsDepth(ts[0].children, Some(ts[0].id), depth + 1, e);
    } else if e in Dfs(ts[1..], parent, depth) {
      DfsDepth(ts[1..], parent, depth, e);
    }
  }

  /** A table that agrees with a nesting holds the rows of its preorder listing. */
  lemma {:induction false} AgreesRows(n: Nodes, ts: seq<Tree>, parent: Option<int>, depth: nat, e: PayloadNode)
    requires Agrees(n, ts, parent) && e in Dfs(ts, parent, depth)
    ensures e.id in n && n[e.id] == NodeRec(e.typ, e.parent)
  {
    if e in Dfs(ts[0].children, Some(ts[0].id), depth + 1) {
      AgreesRows(n, ts[0].children, Some(ts[0].id), depth + 1, e);
    } else if e in Dfs(ts[1..], parent, depth) {
      AgreesRows(n, ts[1..], parent, depth, e);
    }
  }

  /** A table with the flattened payload in it agrees with the payload. */
  lemma {:induction false} PayloadAgrees(n: Nodes, p: Tree, s: seq<PayloadNode>, rootParent: Option<int>)
    requires Flattened(p) == Ok(s)
    requires forall x :: x in PayloadTable(s, rootParent) ==> x in n && n[x] == PayloadTable(s, rootParent)[x]
    ensures Agrees(n, [p], rootParent) && Distinct([p]) && IdSet([p]) == IdsOf(s)
  {
    FlattenMeaning(p);
    PayloadTableAt(s, rootParent);
    var rows := Dfs([p], None, 0);
    assert s[0].id == p.id;
    forall e | e in Dfs(p.children, Some(p.id), 1)
      ensures e.id in n && n[e.id] == NodeRec(e.typ, e.parent)
    {
      DfsDepth(p.children, Some(p.id), 1, e);
      assert e in multiset(rows);
      var i :| 0 <= i < |s| && s[i] == e;
    }
    AgreesFromRows(n, p.children, Some(p.id), 1);
    assert [p][1..] == [];
  }

  lemma {:induction false} SortedAlone(ts: seq<Tree>, i: int)
    requires 0 <= i < |ts|
    ensures |SortAll(ts)| == |ts| && SortAll(ts)[i] == Sorted(ts[i])
  {
    SortAllAt(ts, i);
    SortAllAt([ts[i]], 0);
  }

  lemma {:induction false} OccursUnder(ts: seq<Tree>, t: Tree) returns (i: int)
    requires Occurs(ts, t)
    ensures 0 <= i < |ts| && (t == ts[i] || Occurs(ts[i].children, t))
  {
    if ts[0] == t || Occurs(ts[0].children, t) {
      i := 0;
    } else {
      i := OccursUnder(ts[1..], t);
      i := i + 1;
    }
  }

  /** Under the same conditions every node nested in the payload shows its own sorted subtree. */
  lemma {:induction false} EachSortedIsShown(n: Nodes, ts: seq<Tree>, parent: Option<int>, t: Tree)
    requires Agrees(n, ts, parent) && Distinct(ts) && NothingBelow(n, IdSet(ts)) && Occurs(ts, t)
    requires parent.Some? ==> parent.value !in IdSet(ts)
    ensures Shows(n, Sorted(t)) && Sorted(t).id == t.id
    decreases ts
  {
    var i := OccursUnder(ts, t);
    if t == ts[i] {
      SortedAlone(ts, i);
      SortedIsShown(n, ts, parent, i);
    } else {
      AgreesRoots(n, ts, parent, i);
      DistinctAt(ts, i);
      SubNothingBelow(n, ts, parent, i);
      EachSortedIsShown(n, ts[i].children, Some(ts[i].id), t);
    }
  }

  /** A table with the flattened payload in it shows each payload node's sorted subtree, if nothing
      else hangs under the payload and its root hangs outside. */
  lemma {:induction false} PayloadShown(n: Nodes, p: Tree, s: seq<PayloadNode>, rootParent: Option<int>, t: Tree)
    requires Flattened(p) == Ok(s) && Occurs([p], t)
    requires forall x :: x in PayloadTable(s, rootParent) ==> x in n && n[x] == PayloadTable(s, rootParent)[x]
    requires NothingBelow(n, IdsOf(s))
    requires rootParent.Some? ==> rootParent.value !in IdsOf(s)
    ensures Shows(n, Sorted(t)) && Sorted(t).id == t.id
  {
    PayloadAgrees(n, p, s, rootParent);
    EachSortedIsShown(n, [p], rootParent, t);
  }
}
