/** What a post means to a reader: the posted tree, every other tree, and posting again. */
module Effects {
  import opened Types
  import opened Forest
  import opened Payload
  import opened Flatten
  import opened Closure
  import opened Statements
  import opened Index
  import opened Post
  import opened Shown
  import opened Reading

  // ----- Store then fetch

  lemma NothingBelowPayload(n: Nodes, s: seq<PayloadNode>)
    requires Accepts(n, s)
    ensures NothingBelow(PostNodes(n, s), IdsOf(s))
  {
    var m := PostNodes(n, s);
    GraftedTables(n, s);
    PayloadTableAt(s, ParentOf(n, s[0].id));
    forall c | c in m && c !in IdsOf(s) && m[c].parent.Some?
      ensures m[c].parent.value !in IdsOf(s)
    {
      var q := m[c].parent.value;
      assert Anc(n, c, 1) == Anc(n, q, 0);
      OutsideUp(n, s, c, 1, q);
      if q in IdsOf(s) {
        PayloadInDesc(n, s, q);
      }
    }
  }

  lemma RootParentOutside(n: Nodes, s: seq<PayloadNode>)
    requires Accepts(n, s) && ParentOf(n, s[0].id).Some?
    ensures ParentOf(n, s[0].id).value !in IdsOf(s)
  {
    var r := s[0].id;
    var q := n[r].parent.value;
    assert Anc(n, r, 1) == Anc(n, q, 0);
    AncestorsHas(n, r, q, 1);
  }

  /** After an accepted post every payload node shows its part of the payload, sorted by id at
      every level. */
  lemma {:induction false} PayloadFetched(n: Nodes, p: Tree, t: Tree)
    requires RefClosed(n) && Acyclic(n) && Posted(n, p).Ok? && Occurs([p], t)
    ensures Fetches(Posted(n, p).value, t.id, Found(Sorted(t)))
  {
    PostedAccepts(n, p);
    var s := Flattened(p).value;
    GraftedTables(n, s);
    NothingBelowPayload(n, s);
    if ParentOf(n, p.id).Some? {
      RootParentOutside(n, s);
    }
    PayloadShown(PostNodes(n, s), p, s, ParentOf(n, p.id), t);
  }

  /** Store then fetch: the posted root shows the payload. */
  lemma {:induction false} StoreThenFetch(n: Nodes, p: Tree)
    requires RefClosed(n) && Acyclic(n) && Posted(n, p).Ok?
    ensures Fetches(Posted(n, p).value, p.id, Found(Sorted(p)))
  {
    PayloadFetched(n, p, p);
  }

  /** What is no longer there: of the ids outside the payload, those never stored and those that
      lay below a payload node. */
  lemma {:induction false} GoneAfter(n: Nodes, p: Tree, q: int)
    requires RefClosed(n) && Acyclic(n) && Posted(n, p).Ok?
    ensures Fetches(Posted(n, p).value, q, NotFound) <==>
      q !in IdSet([p]) && (q !in n || exists x, k: nat :: x in IdSet([p]) && Above(n, x, q, k))
  {
    PostedAccepts(n, p);
    var s := Flattened(p).value;
    PayloadTableAt(s, ParentOf(n, p.id));
    if q in n && exists x, k: nat :: x in IdSet([p]) && Above(n, x, q, k) {
      var x, k: nat :| x in IdSet([p]) && Above(n, x, q, k);
      DescHas(n, IdSet([p]), x, q, k);
    }
    if q in Desc(n, IdSet([p])) {
      var x, k := DescBy(n, IdSet([p]), q);
      assert Above(n, x, q, k);
    }
  }

  /** The forest after an accepted post, told from the payload's nesting alone: every nested node is
      stored with its type under the node it is nested in, the root where it hung before; a node that
      is not named is there exactly when it was and nothing above it is named, and is unchanged. */
  lemma {:induction false} PostedTable(n: Nodes, p: Tree, x: int)
    requires RefClosed(n) && Acyclic(n) && Posted(n, p).Ok?
    ensures Agrees(Posted(n, p).value, [p], ParentOf(n, p.id))
    ensures x in IdSet([p]) ==> x in Posted(n, p).value
    ensures x !in IdSet([p]) ==>
      (x in Posted(n, p).value <==> x in n && forall s, k: nat :: s in IdSet([p]) ==> !Above(n, s, x, k))
    ensures x !in IdSet([p]) && x in Posted(n, p).value ==> Posted(n, p).value[x] == n[x]
  {
    PostedAccepts(n, p);
    var s := Flattened(p).value;
    GraftedTables(n, s);
    PayloadTableAt(s, ParentOf(n, p.id));
    PayloadAgrees(Posted(n, p).value, p, s, ParentOf(n, p.id));
    if x in n && x !in IdSet([p]) {
      if x in Desc(n, IdSet([p])) {
        var q, k := DescBy(n, IdSet([p]), x);
        assert Above(n, q, x, k);
      } else {
        forall q, k: nat | q in IdSet([p])
          ensures !Above(n, q, x, k)
        {
          if Above(n, q, x, k) {
            DescHas(n, IdSet([p]), q, x, k);
          }
        }
      }
    }
  }

  // ----- Every other tree

  /** Children after a post: the graft where its id stood, no other node named in `ids`, and the
      rest edited in turn. */
  ghost function EditKids(ts: seq<Tree>, ids: set<int>, graft: Tree): seq<Tree>
  {
    if ts == [] then []
    else
      (if ts[0].id == graft.id then [graft]
       else if ts[0].id in ids then []
       else [Tree(ts[0].id, ts[0].typ, EditKids(ts[0].children, ids, graft))])
      + EditKids(ts[1..], ids, graft)
  }

  ghost function Edit(t: Tree, ids: set<int>, graft: Tree): Tree
  {
    Tree(t.id, t.typ, EditKids(t.children, ids, graft))
  }

  lemma {:induction false} EditKidFrom(ts: seq<Tree>, ids: set<int>, graft: Tree, j: int) returns (i: int)
    requires 0 <= j < |EditKids(ts, ids, graft)|
    ensures 0 <= i < |ts| && EditKids(ts, ids, graft)[j].id == ts[i].id
    ensures ts[i].id == graft.id || ts[i].id !in ids
    ensures EditKids(ts, ids, graft)[j] == if ts[i].id == graft.id then graft else Edit(ts[i], ids, graft)
  {
    var rest := EditKids(ts[1..], ids, graft);
    var skip := |EditKids(ts, ids, graft)| - |rest|;
    if j < skip {
      i := 0;
    } else {
      i := EditKidFrom(ts[1..], ids, graft, j - skip);
      i := i + 1;
    }
  }

  lemma {:induction false} EditKidHas(ts: seq<Tree>, ids: set<int>, graft: Tree, i: int)
    requires 0 <= i < |ts| && (ts[i].id == graft.id || ts[i].id !in ids)
    ensures ListsId(EditKids(ts, ids, graft), ts[i].id)
  {
    var all, rest := EditKids(ts, ids, graft), EditKids(ts[1..], ids, graft);
    if i == 0 {
      assert all[0].id == ts[0].id;
    } else {
      EditKidHas(ts[1..], ids, graft, i - 1);
      var j :| 0 <= j < |rest| && rest[j].id == ts[i].id;
      assert all[|all| - |rest| + j] == rest[j];
    }
  }

  lemma {:induction false} EditAscends(ts: seq<Tree>, ids: set<int>, graft: Tree)
    requires Ascending(ts)
    ensures Ascending(EditKids(ts, ids, graft))
  {
    if ts == [] {
    } else {
      var all, rest := EditKids(ts, ids, graft), EditKids(ts[1..], ids, graft);
      EditAscends(ts[1..], ids, graft);
      forall j | 0 <= j < |rest|
        ensures ts[0].id < rest[j].id
      {
        var i := EditKidFrom(ts[1..], ids, graft, j);
        assert ts[1..][i] == ts[i + 1];
      }
    }
  }

  /** Whose children change: below a node out of the payload's reach, the posted root stays and
      every other payload node leaves. */
  lemma ChildrenAfter(n: Nodes, s: seq<PayloadNode>, q: int, c: int)
    requires Accepts(n, s) && q in n && q !in Desc(n, IdsOf(s))
    ensures IsChild(PostNodes(n, s), c, q) <==> IsChild(n, c, q) && (c == s[0].id || c !in IdsOf(s))
  {
    var m := PostNodes(n, s);
    GraftedTables(n, s);
    PayloadTableAt(s, ParentOf(n, s[0].id));
    if q in IdsOf(s) {
      PayloadInDesc(n, s, q);
    }
    if c in IdsOf(s) {
      var i := IdIndex(s, c);
      if i > 0 {
        var j := ParentIndex(s, i);
        assert s[j].id in IdsOf(s);
      }
    } else if IsChild(n, c, q) {
      NotUnder(n, s, q, c);
    }
  }

  lemma NotUnder(n: Nodes, s: seq<PayloadNode>, q: int, c: int)
    requires q in n && q !in Desc(n, IdsOf(s)) && IsChild(n, c, q) && c !in IdsOf(s)
    ensures c !in Desc(n, IdsOf(s))
  {
    if c in Desc(n, IdsOf(s)) {
      var x, k := DescBy(n, IdsOf(s), c);
      DescHas(n, IdsOf(s), x, q, k - 1);
    }
  }

  /** The exact effect of a post on a tree it does not reach into from above: every subtree at a
      payload id is pruned, and where the posted root hung stands the sorted payload. */
  lemma {:induction false} OthersEdited(n: Nodes, p: Tree, t: Tree)
    requires RefClosed(n) && Acyclic(n) && Posted(n, p).Ok?
    requires Shows(n, t) && t.id !in Desc(n, IdSet([p]))
    ensures Shows(Posted(n, p).value, Edit(t, IdSet([p]), Sorted(p)))
    decreases t
  {
    PostedAccepts(n, p);
    StoreThenFetch(n, p);
    var s, ids, graft := Flattened(p).value, IdSet([p]), Sorted(p);
    var m, u := PostNodes(n, s), Edit(t, IdSet([p]), Sorted(p));
    GraftedTables(n, s);
    EditAscends(t.children, ids, graft);
    forall c
      ensures ListsId(u.children, c) <==> IsChild(m, c, t.id)
    {
      ChildrenAfter(n, s, t.id, c);
      EditedLists(t.children, ids, graft, c);
    }
    forall j | 0 <= j < |u.children|
      ensures Shows(m, u.children[j])
    {
      var i := EditKidFrom(t.children, ids, graft, j);
      if t.children[i].id != graft.id {
        assert ListsId(t.children, t.children[i].id);
        NotUnder(n, s, t.id, t.children[i].id);
        OthersEdited(n, p, t.children[i]);
      }
    }
  }

  lemma {:induction false} EditedLists(ts: seq<Tree>, ids: set<int>, graft: Tree, c: int)
    ensures ListsId(EditKids(ts, ids, graft), c) <==> ListsId(ts, c) && (c == graft.id || c !in ids)
  {
    var us := EditKids(ts, ids, graft);
    if ListsId(us, c) {
      var j :| 0 <= j < |us| && us[j].id == c;
      var i := EditKidFrom(ts, ids, graft, j);
    }
    if ListsId(ts, c) && (c == graft.id || c !in ids) {
      var i :| 0 <= i < |ts| && ts[i].id == c;
      EditKidHas(ts, ids, graft, i);
    }
  }

  lemma {:induction false} EditNothing(ts: seq<Tree>, ids: set<int>, graft: Tree)
    requires IdSet(ts) !! ids && graft.id in ids
    ensures EditKids(ts, ids, graft) == ts
  {
    if ts == [] {
    } else {
      EditNothing(ts[0].children, ids, graft);
      EditNothing(ts[1..], ids, graft);
      assert [ts[0]] + ts[1..] == ts;
    }
  }

  // ----- The ids a stored tree covers

  ghost predicate AllShown(n: Nodes, ts: seq<Tree>)
  {
    forall i :: 0 <= i < |ts| ==> Shows(n, ts[i])
  }

  lemma {:induction false} IdsBelow(n: Nodes, ts: seq<Tree>, x: int) returns (i: int, k: nat)
    requires AllShown(n, ts) && x in IdSet(ts)
    ensures x in n && 0 <= i < |ts| && Anc(n, x, k) == Some(ts[i].id)
  {
    assert Shows(n, ts[0]);
    if x == ts[0].id {
      i, k := 0, 0;
    } else if x in IdSet(ts[0].children) {
      i, k := IdsBelow(n, ts[0].children, x);
      assert ListsId(ts[0].children, ts[0].children[i].id);
      AncSplit(n, x, k, 1);
      i, k := 0, k + 1;
    } else {
      assert forall j :: 0 <= j < |ts[1..]| ==> ts[1..][j] == ts[j + 1];
      i, k := IdsBelow(n, ts[1..], x);
      i := i + 1;
    }
  }

  lemma {:induction false} BelowInIds(n: Nodes, t: Tree, x: int, k: nat)
    requires Shows(n, t) && x in n && Anc(n, x, k) == Some(t.id)
    ensures x in IdSet([t])
    decreases k
  {
    if k == 0 {
    } else {
      AncSplit(n, x, k - 1, 1);
      var c := Anc(n, x, k - 1).value;
      assert IsChild(n, c, t.id);
      var i :| 0 <= i < |t.children| && t.children[i].id == c;
      BelowInIds(n, t.children[i], x, k - 1);
      RootInIdSet(t.children, i);
      assert [t.children[i]][1..] == [];
    }
  }

  /** A shown tree covers exactly what is stored at or below its root. */
  lemma {:induction false} ShownIds(n: Nodes, t: Tree)
    requires Shows(n, t)
    ensures IdSet([t]) == Desc(n, {t.id})
  {
    forall x | x in IdSet([t])
      ensures x in Desc(n, {t.id})
    {
      var i, k := IdsBelow(n, [t], x);
      DescHas(n, {t.id}, t.id, x, k);
    }
    forall x | x in Desc(n, {t.id})
      ensures x in IdSet([t])
    {
      var s, k := DescBy(n, {t.id}, x);
      BelowInIds(n, t, x, k);
    }
  }

  /** A tree outside the payload's reach that holds no payload id keeps its rows in both tables. */
  lemma {:induction false} OthersUntouched(t: Tables, u: Tables, p: Tree, tree: Tree, x: int, y: int)
    requires Inv(t) && Acyclic(t.nodes) && Posted(t.nodes, p).Ok?
    requires Inv(u) && u.nodes == Posted(t.nodes, p).value
    requires Shows(t.nodes, tree) && tree.id !in Desc(t.nodes, IdSet([p])) && IdSet([tree]) !! IdSet([p])
    requires x in IdSet([tree])
    ensures Shows(u.nodes, tree)
    ensures x in t.nodes && x in u.nodes && u.nodes[x] == t.nodes[x]
    ensures SameRow(t, u, Key(y, x)) && SameRow(t, u, Key(x, y))
    ensures forall p :: p == Key(x, y) || p == Key(y, x) ==>
      (p in t.closure <==> p in u.closure) && (p in t.closure ==> t.closure[p] == u.closure[p])
  {
    var n, ids := t.nodes, IdSet([p]);
    PostedAccepts(n, p);
    var s := Flattened(p).value;
    FlattenMeaning(p);
    SortAllAt([p], 0);
    assert p.id in ids;
    OthersEdited(n, p, tree);
    EditNothing(tree.children, ids, Sorted(p));
    assert Shows(u.nodes, tree);
    TreeOutside(n, s, tree, x);
    RowsByDescendant(t, u, s, y, x);
    ShownIds(n, tree);
    ShownIds(u.nodes, tree);
    assert x in Desc(u.nodes, {tree.id});
    RowsByAncestor(t, u, s, tree, x, y);
  }

  ghost predicate SameRow(t: Tables, u: Tables, p: Key)
  {
    (p in t.closure <==> p in u.closure) && (p in t.closure ==> t.closure[p] == u.closure[p])
  }

  /** A shown tree rooted outside the reach of `ids`, and holding none of them, lies outside it. */
  lemma {:induction false} TreeBeyond(n: Nodes, ids: set<int>, tree: Tree, x: int)
    requires RefClosed(n) && Shows(n, tree) && tree.id !in Desc(n, ids)
    requires IdSet([tree]) !! ids && x in IdSet([tree])
    ensures x in n && x !in Desc(n, ids)
  {
    var i, k := IdsBelow(n, [tree], x);
    if x in Desc(n, ids) {
      var q, j := DescBy(n, ids, x);
      if j <= k {
        AncSplit(n, x, j, k - j);
        AncStored(n, x, j);
        BelowInIds(n, tree, q, k - j);
      } else {
        AncSplit(n, x, k, j - k);
        DescHas(n, ids, q, tree.id, j - k);
      }
    }
  }

  lemma {:induction false} TreeOutside(n: Nodes, s: seq<PayloadNode>, tree: Tree, x: int)
    requires Accepts(n, s) && Shows(n, tree) && tree.id !in Desc(n, IdsOf(s))
    requires IdSet([tree]) !! IdsOf(s) && x in IdSet([tree])
    ensures x in n && x !in Desc(n, IdsOf(s))
    ensures x in PostNodes(n, s) && PostNodes(n, s)[x] == n[x]
  {
    TreeBeyond(n, IdsOf(s), tree, x);
    GraftedTables(n, s);
  }

  /** Rows whose descendant lies outside the payload's reach stay as they were. */
  lemma RowsByDescendant(t: Tables, u: Tables, s: seq<PayloadNode>, a: int, d: int)
    requires Inv(t) && Accepts(t.nodes, s) && Inv(u) && u.nodes == PostNodes(t.nodes, s)
    requires d in t.nodes && d !in Desc(t.nodes, IdsOf(s))
    ensures SameRow(t, u, Key(a, d))
  {
    var p := Key(a, d);
    GraftedTables(t.nodes, s);
    if p in t.closure {
      assert RowRight(t, p);
      OutsideWalk(t.nodes, s, u.nodes, d, t.closure[p]);
      RowFor(u, d, t.closure[p], a);
    }
    if p in u.closure {
      assert RowRight(u, p);
      OutsideWalk(t.nodes, s, u.nodes, d, u.closure[p]);
      RowFor(t, d, u.closure[p], a);
    }
  }

  lemma {:induction false} RowsByAncestor(t: Tables, u: Tables, s: seq<PayloadNode>, tree: Tree, a: int, d: int)
    requires Inv(t) && Accepts(t.nodes, s) && Inv(u) && u.nodes == PostNodes(t.nodes, s)
    requires Shows(t.nodes, tree) && Shows(u.nodes, tree) && a in IdSet([tree])
    requires tree.id !in Desc(t.nodes, IdsOf(s)) && IdSet([tree]) !! IdsOf(s)
    ensures SameRow(t, u, Key(a, d))
  {
    var p := Key(a, d);
    if p in t.closure {
      assert RowRight(t, p);
      BelowMember(t.nodes, tree, a, d, t.closure[p]);
      TreeOutside(t.nodes, s, tree, d);
      RowsByDescendant(t, u, s, a, d);
    }
    if p in u.closure {
      assert RowRight(u, p);
      BelowMember(u.nodes, tree, a, d, u.closure[p]);
      TreeOutside(t.nodes, s, tree, d);
      RowsByDescendant(t, u, s, a, d);
    }
  }

  lemma {:induction false} BelowMember(n: Nodes, tree: Tree, a: int, d: int, k: nat)
    requires Shows(n, tree) && a in IdSet([tree]) && d in n && Anc(n, d, k) == Some(a)
    ensures d in IdSet([tree])
  {
    var i, j := IdsBelow(n, [tree], a);
    AncSplit(n, d, k, j);
    BelowInIds(n, tree, d, k + j);
  }
}
