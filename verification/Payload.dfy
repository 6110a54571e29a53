/** Posted hierarchies as values, and two definitions the loops are measured against:
    the preorder listing of a payload, and what it means for a tree to show a stored node. */
module Payload {
  import opened Types
  import opened Sorting

  function TreeId(t: Tree): int { t.id }

  /** Every node of `ts` in preorder, each with its parent and depth. */
  ghost function Dfs(ts: seq<Tree>, parent: Option<int>, depth: nat): seq<PayloadNode>
  {
    if ts == [] then []
    else [PayloadNode(ts[0].id, ts[0].typ, parent, depth)]
         + Dfs(ts[0].children, Some(ts[0].id), depth + 1)
         + Dfs(ts[1..], parent, depth)
  }

  /** The ids occurring in `ts`. */
  ghost function IdSet(ts: seq<Tree>): set<int>
  {
    if ts == [] then {}
    else {ts[0].id} + IdSet(ts[0].children) + IdSet(ts[1..])
  }

  /** No id occurs twice in `ts`. */
  ghost predicate Distinct(ts: seq<Tree>)
  {
    ts != [] ==>
      && ts[0].id !in IdSet(ts[0].children)
      && ts[0].id !in IdSet(ts[1..])
      && IdSet(ts[0].children) !! IdSet(ts[1..])
      && Distinct(ts[0].children)
      && Distinct(ts[1..])
  }

  /** `t` is one of `ts` or nested somewhere inside. */
  ghost predicate Occurs(ts: seq<Tree>, t: Tree)
  {
    ts != [] && (ts[0] == t || Occurs(ts[0].children, t) || Occurs(ts[1..], t))
  }

  /** The same hierarchies with the children of every node in ascending id order. */
  function SortAll(ts: seq<Tree>): seq<Tree>
  {
    if ts == [] then []
    else [Tree(ts[0].id, ts[0].typ, SortBy(SortAll(ts[0].children), TreeId))] + SortAll(ts[1..])
  }

  function Sorted(t: Tree): Tree
  {
    SortAll([t])[0]
  }

  /** `n` holds every node of `ts` with the type and the parent the nesting gives it. */
  ghost predicate Agrees(n: Nodes, ts: seq<Tree>, parent: Option<int>)
  {
    ts != [] ==>
      && ts[0].id in n && n[ts[0].id] == NodeRec(ts[0].typ, parent)
      && Agrees(n, ts[0].children, Some(ts[0].id))
      && Agrees(n, ts[1..], parent)
  }

  ghost predicate IsChild(n: Nodes, c: int, p: int)
  {
    c in n && n[c].parent == Some(p)
  }

  ghost predicate ListsId(ts: seq<Tree>, c: int)
  {
    exists i :: 0 <= i < |ts| && ts[i].id == c
  }

  /** `t` is what is stored at `t.id` and below: the right types, every stored child and no
      other, in ascending id order at every level. */
  ghost predicate Shows(n: Nodes, t: Tree)
    decreases t
  {
    && t.id in n && n[t.id].typ == t.typ
    && Ascending(t.children)
    && (forall c :: ListsId(t.children, c) <==> IsChild(n, c, t.id))
    && (forall i :: 0 <= i < |t.children| ==> Shows(n, t.children[i]))
  }

  ghost predicate Ascending(ts: seq<Tree>)
  {
    forall i, j :: 0 <= i < j < |ts| ==> ts[i].id < ts[j].id
  }

  lemma {:induction false} HeadListed(ts: seq<Tree>)
    requires ts != []
    ensures ListsId(ts, ts[0].id)
  {
  }

  lemma {:induction false} AscendingUnique(a: seq<Tree>, b: seq<Tree>)
    requires Ascending(a) && Ascending(b)
    requires forall c :: ListsId(a, c) <==> ListsId(b, c)
    ensures |a| == |b|
    ensures forall i :: 0 <= i < |a| ==> a[i].id == b[i].id
  {
    if a == [] {
      if b != [] {
        HeadListed(b);
      }
    } else {
      HeadListed(a);
      HeadListed(b);
      assert a[0].id == b[0].id;
      var a', b' := a[1..], b[1..];
      forall c
        ensures ListsId(a', c) <==> ListsId(b', c)
      {
        TailLists(a, c);
        TailLists(b, c);
      }
      AscendingUnique(a', b');
    }
  }

  lemma {:induction false} TailLists(a: seq<Tree>, c: int)
    requires Ascending(a) && a != []
    ensures ListsId(a[1..], c) <==> ListsId(a, c) && c != a[0].id
  {
    if ListsId(a[1..], c) {
      var i :| 0 <= i < |a[1..]| && a[1..][i].id == c;
      assert a[i + 1].id == c;
    }
    if ListsId(a, c) && c != a[0].id {
      var i :| 0 <= i < |a| && a[i].id == c;
      assert a[1..][i - 1].id == c;
    }
  }

  /** A stored node is shown by one tree only. */
  lemma {:induction false} ShowsUnique(n: Nodes, t: Tree, u: Tree)
    requires Shows(n, t) && Shows(n, u) && t.id == u.id
    ensures t == u
    decreases t
  {
    AscendingUnique(t.children, u.children);
    forall i | 0 <= i < |t.children|
      ensures t.children[i] == u.children[i]
    {
      ShowsUnique(n, t.children[i], u.children[i]);
    }
    assert t.children == u.children;
  }
}
