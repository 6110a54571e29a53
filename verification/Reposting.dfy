/** Two posts: what a fetch returned changes nothing, the last payload over the same ids wins, and
    posts out of each other's reach commute. */
module Reposting {
  import opened Types
  import opened Forest
  import opened Payload
  import opened Flatten
  import opened Closure
  import opened Statements
  import opened Index
  import opened Post
  import opened Cycles
  import opened WritePath
  import opened Effects

  /** One node cannot have two of a set of siblings above it. */
  lemma OneAbove(n: Nodes, x: int, k: nat, l: nat)
    requires RefClosed(n) && Acyclic(n) && x in n && Anc(n, x, k).Some? && Anc(n, x, l).Some?
    requires Anc(n, x, k).value in n && Anc(n, x, l).value in n
    requires n[Anc(n, x, k).value].parent == n[Anc(n, x, l).value].parent
    ensures Anc(n, x, k) == Anc(n, x, l)
  {
    AncSplit(n, x, k, 1);
    AncSplit(n, x, l, 1);
    if Anc(n, x, k + 1).Some? {
      AncOnce(n, x, k + 1, l + 1);
    } else if k < l {
      AncSplit(n, x, k + 1, l - k - 1);
    } else if l < k {
      AncSplit(n, x, l + 1, k - l - 1);
    }
  }

  ghost predicate RootsUnder(n: Nodes, ts: seq<Tree>, parent: Option<int>)
  {
    forall i :: 0 <= i < |ts| ==> ts[i].id in n && n[ts[i].id].parent == parent
  }

  lemma {:induction false} ChildrenUnder(n: Nodes, t: Tree)
    requires Shows(n, t)
    ensures RootsUnder(n, t.children, Some(t.id)) && AllShown(n, t.children) && Ascending(t.children)
  {
    forall i | 0 <= i < |t.children|
      ensures IsChild(n, t.children[i].id, t.id)
    {
      assert ListsId(t.children, t.children[i].id);
    }
  }

  lemma {:induction false} TailShown(n: Nodes, ts: seq<Tree>, parent: Option<int>)
    requires ts != [] && AllShown(n, ts) && Ascending(ts) && RootsUnder(n, ts, parent)
    ensures AllShown(n, ts[1..]) && Ascending(ts[1..]) && RootsUnder(n, ts[1..], parent)
    ensures Shows(n, ts[0])
  {
    assert forall i :: 0 <= i < |ts[1..]| ==> ts[1..][i] == ts[i + 1];
  }

  lemma {:induction false} SiblingsApart(n: Nodes, ts: seq<Tree>, parent: Option<int>, x: int)
    requires RefClosed(n) && Acyclic(n)
    requires ts != [] && AllShown(n, ts) && Ascending(ts) && RootsUnder(n, ts, parent)
    requires x in n && AtOrAbove(n, ts[0].id, x)
    ensures x !in IdSet(ts[1..])
  {
    TailShown(n, ts, parent);
    if x in IdSet(ts[1..]) {
      var i, l := IdsBelow(n, ts[1..], x);
      var k: nat :| Above(n, ts[0].id, x, k);
      assert ts[1..][i] == ts[i + 1];
      OneAbove(n, x, k, l);
    }
  }

  /** A forest shows no node twice. */
  lemma {:induction false} ShownDistinct(n: Nodes, ts: seq<Tree>, parent: Option<int>)
    requires RefClosed(n) && Acyclic(n)
    requires AllShown(n, ts) && Ascending(ts) && RootsUnder(n, ts, parent)
    ensures Distinct(ts)
  {
    if ts == [] {
    } else {
      var t := ts[0];
      TailShown(n, ts, parent);
      ChildrenUnder(n, t);
      ShownDistinct(n, t.children, Some(t.id));
      ShownDistinct(n, ts[1..], parent);
      forall x | x in IdSet(t.children)
        ensures x in n && x != t.id && AtOrAbove(n, t.id, x)
      {
        var i, k := IdsBelow(n, t.children, x);
        AncSplit(n, x, k, 1);
        assert Above(n, t.id, x, k + 1);
        NoReturn(n, x, k + 1);
      }
      forall x | x in {t.id} + IdSet(t.children)
        ensures x !in IdSet(ts[1..])
      {
        if x == t.id {
          assert Above(n, t.id, x, 0);
        }
        SiblingsApart(n, ts, parent, x);
      }
    }
  }

  lemma {:induction false} ShownRows(n: Nodes, ts: seq<Tree>, parent: Option<int>, depth: nat, e: PayloadNode)
    requires AllShown(n, ts) && RootsUnder(n, ts, parent) && e in Dfs(ts, parent, depth)
    ensures e.id in n && n[e.id] == NodeRec(e.typ, e.parent)
  {
    assert Shows(n, ts[0]);
    if e in Dfs(ts[0].children, Some(ts[0].id), depth + 1) {
      ChildrenUnder(n, ts[0]);
      ShownRows(n, ts[0].children, Some(ts[0].id), depth + 1, e);
    } else if e in Dfs(ts[1..], parent, depth) {
      assert forall i :: 0 <= i < |ts[1..]| ==> ts[1..][i] == ts[i + 1];
      ShownRows(n, ts[1..], parent, depth, e);
    }
  }

  /** The rows a shown tree flattens to are the stored ones. */
  lemma {:induction false} ShownTable(n: Nodes, t: Tree, s: seq<PayloadNode>, i: int)
    requires Shows(n, t) && Flattened(t) == Ok(s) && 0 <= i < |s|
    ensures s[i].id in n
    ensures n[s[i].id] == NodeRec(s[i].typ, if i == 0 then n[t.id].parent else s[i].parent)
  {
    FlattenMeaning(t);
    if i > 0 {
      NotRoot(s, i);
      assert s[i] in multiset(Dfs([t], None, 0));
      DfsHead([t], None, 0);
      ChildrenUnder(n, t);
      ShownRows(n, t.children, Some(t.id), 1, s[i]);
    }
  }

  lemma {:induction false} ShownTableStored(n: Nodes, t: Tree, s: seq<PayloadNode>)
    requires Shows(n, t) && Flattened(t) == Ok(s) && Flat(s)
    ensures forall x :: x in PayloadTable(s, ParentOf(n, t.id)) ==>
      x in n && n[x] == PayloadTable(s, ParentOf(n, t.id))[x]
  {
    PayloadTableAt(s, ParentOf(n, t.id));
    forall x | x in PayloadTable(s, ParentOf(n, t.id))
      ensures x in n && n[x] == PayloadTable(s, ParentOf(n, t.id))[x]
    {
      var i := IdIndex(s, x);
      ShownTable(n, t, s, i);
    }
  }

  lemma {:induction false} ShownFlattens(n: Nodes, t: Tree)
    requires RefClosed(n) && Acyclic(n) && Shows(n, t)
    ensures Flattened(t).Ok? && Accepts(n, Flattened(t).value)
    ensures Flattened(t).value[0].id == t.id && IdsOf(Flattened(t).value) == IdSet([t])
  {
    ShownDistinct(n, [t], n[t.id].parent);
    FlattenMeaning(t);
    forall a | a in IdSet([t]) && a in Ancestors(n, t.id)
      ensures false
    {
      var k := AncestorsBy(n, t.id, a);
      var i, j := IdsBelow(n, [t], a);
      AncSplit(n, t.id, k, j);
      NoReturn(n, t.id, k + j);
    }
  }

  lemma {:induction false} DescOfShown(n: Nodes, t: Tree)
    requires Shows(n, t)
    ensures Desc(n, IdSet([t])) == IdSet([t])
  {
    forall x | x in Desc(n, IdSet([t]))
      ensures x in IdSet([t])
    {
      var s, k := DescBy(n, IdSet([t]), x);
      BelowMember(n, t, s, x, k);
    }
    forall x | x in IdSet([t])
      ensures x in Desc(n, IdSet([t]))
    {
      var i, k := IdsBelow(n, [t], x);
      DescHas(n, IdSet([t]), x, x, 0);
    }
  }

  lemma PutBack<K, V>(m: map<K, V>, ks: set<K>, x: map<K, V>)
    requires x.Keys == ks && ks <= m.Keys && forall k :: k in x ==> m[k] == x[k]
    ensures (m - ks) + x == m
  {
  }

  lemma Overwritten<K, V>(m: map<K, V>, x: map<K, V>, y: map<K, V>)
    requires x.Keys == y.Keys
    ensures ((m + x) - x.Keys) + y == m + y
  {
  }

  lemma {:induction false} RepostSameForest(n: Nodes, t: Tree)
    requires RefClosed(n) && Acyclic(n) && Shows(n, t)
    ensures Posted(n, t) == Ok(n)
  {
    ShownFlattens(n, t);
    DescOfShown(n, t);
    var s := Flattened(t).value;
    var table := PayloadTable(s, ParentOf(n, t.id));
    PayloadTableAt(s, ParentOf(n, t.id));
    ShownTableStored(n, t, s);
    assert IdsOf(s) * Ancestors(n, t.id) == {};
    PutBack(n, Desc(n, IdsOf(s)), table);
  }

  /** Posting what a fetch returned is accepted and leaves both tables as they are. */
  lemma {:induction false} RepostUnchanged(t: Tables, tree: Tree, u: Tables)
    requires Inv(t) && Shows(t.nodes, tree)
    ensures PostTakes(t, tree, u) <==> u == t
  {
    InvAcyclic(t);
    RepostSameForest(t.nodes, tree);
    PostTakesPosted(t, tree, u);
    if PostTakes(t, tree, u) {
      ExactUnique(t, u);
    }
  }

  lemma NothingLeftBelow(n: Nodes, s: seq<PayloadNode>, x: int)
    requires Accepts(n, s) && x in n && x !in Desc(n, IdsOf(s))
    ensures x !in Desc(PostNodes(n, s), IdsOf(s))
  {
    GraftedTables(n, s);
    if x in Desc(PostNodes(n, s), IdsOf(s)) {
      var q, k := DescBy(PostNodes(n, s), IdsOf(s), x);
      OutsideWalk(n, s, PostNodes(n, s), x, k);
      DescHas(n, IdsOf(s), q, x, k);
    }
  }

  lemma PostKeeps(n: Nodes, s: seq<PayloadNode>, x: int)
    requires Flat(s)
    ensures x in PostNodes(n, s) <==> x in IdsOf(s) || (x in n && x !in Desc(n, IdsOf(s)))
  {
    PayloadTableAt(s, ParentOf(n, s[0].id));
  }

  lemma DescAfter(n: Nodes, s: seq<PayloadNode>)
    requires Accepts(n, s)
    ensures Desc(PostNodes(n, s), IdsOf(s)) == IdsOf(s)
  {
    var m, ids := PostNodes(n, s), IdsOf(s);
    forall x | x in Desc(m, ids)
      ensures x in ids
    {
      PostKeeps(n, s, x);
      if x !in ids {
        NothingLeftBelow(n, s, x);
      }
    }
    forall x | x in ids
      ensures x in Desc(m, ids)
    {
      PostKeeps(n, s, x);
      DescHas(m, ids, x, x, 0);
    }
  }

  lemma AncestorsAfter(n: Nodes, s: seq<PayloadNode>)
    requires Accepts(n, s)
    ensures Ancestors(PostNodes(n, s), s[0].id) == Ancestors(n, s[0].id)
  {
    var m, r := PostNodes(n, s), s[0].id;
    GraftedTables(n, s);
    PostRefClosed(n, s);
    forall a | a in Ancestors(m, r)
      ensures a in Ancestors(n, r)
    {
      var k := AncestorsBy(m, r, a);
      RootWalk(n, s, m, k);
      AncestorsHas(n, r, a, k);
    }
    forall a | a in Ancestors(n, r)
      ensures a in Ancestors(m, r)
    {
      var k := AncestorsBy(n, r, a);
      RootWalk(n, s, m, k);
      AncestorsHas(m, r, a, k);
    }
  }

  lemma {:induction false} LaterPostDecides(n: Nodes, p: Tree, q: Tree)
    requires RefClosed(n) && Acyclic(n) && Posted(n, p).Ok? && Flattened(q).Ok?
    requires p.id == q.id && IdSet([p]) == IdSet([q])
    ensures Posted(n, q).Ok? && Posted(Posted(n, p).value, q) == Posted(n, q)
  {
    PostedAccepts(n, p);
    FlattenMeaning(q);
    var s, u := Flattened(p).value, Flattened(q).value;
    var m := PostNodes(n, s);
    DescAfter(n, s);
    AncestorsAfter(n, s);
    PayloadTableAt(s, ParentOf(n, p.id));
    PayloadTableAt(u, ParentOf(n, p.id));
    assert ParentOf(m, p.id) == ParentOf(n, p.id);
    Overwritten(n - Desc(n, IdsOf(s)), PayloadTable(s, ParentOf(n, p.id)), PayloadTable(u, ParentOf(n, p.id)));
    assert IdsOf(u) * Ancestors(n, q.id) == {};
    assert IdsOf(u) * Ancestors(m, q.id) == {};
  }

  /** Of two payloads with one root and one set of ids, the first accepted, the later is accepted
      too and decides alone: posting both leaves the tables that posting the second leaves. */
  lemma {:induction false} LaterPostWins(t: Tables, p: Tree, q: Tree, u: Tables) returns (v: Tables)
    requires Inv(t) && PostTakes(t, p, u) && Flattened(q).Ok?
    requires p.id == q.id && IdSet([p]) == IdSet([q])
    ensures PostTakes(u, q, v) && PostTakes(t, q, v)
  {
    InvAcyclic(t);
    PostTakesPosted(t, p, u);
    LaterPostDecides(t.nodes, p, q);
    v := PostResult(t, q);
    PostTakesPosted(u, q, v);
  }

  lemma {:induction false} PostResult(t: Tables, p: Tree) returns (u: Tables)
    requires Inv(t) && Posted(t.nodes, p).Ok?
    ensures PostTakes(t, p, u) && Posted(t.nodes, p) == Ok(u.nodes) && Inv(u)
  {
    InvAcyclic(t);
    PostedAccepts(t.nodes, p);
    var n := Posted(t.nodes, p).value;
    PostForest(t.nodes, Flattened(p).value);
    ForestIndexed(n);
    u := Tables(n, IndexOf(n));
    PostTakesPosted(t, p, u);
  }

  // ----- Posts out of each other's reach

  /** What a payload can touch: the ids it names and all that is stored below them. */
  ghost function Reach(n: Nodes, ids: set<int>): set<int>
  {
    ids + Desc(n, ids)
  }

  ghost predicate Apart(n: Nodes, s: seq<PayloadNode>, u: seq<PayloadNode>)
  {
    Accepts(n, s) && Accepts(n, u) && Reach(n, IdsOf(s)) !! Reach(n, IdsOf(u))
  }

  /** Whether a node lies at or below the other payload's ids is not for this post to change. */
  lemma OtherDescKept(n: Nodes, s: seq<PayloadNode>, u: seq<PayloadNode>, x: int)
    requires Apart(n, s, u)
    ensures x in Desc(PostNodes(n, s), IdsOf(u)) <==> x in Desc(n, IdsOf(u))
  {
    var m := PostNodes(n, s);
    PostKeeps(n, s, x);
    GraftedTables(n, s);
    if x in Desc(m, IdsOf(u)) {
      var q, k := DescBy(m, IdsOf(u), x);
      if x in IdsOf(s) {
        PayloadApart(n, s, u, x, k, q);
      } else {
        OutsideWalk(n, s, m, x, k);
        DescHas(n, IdsOf(u), q, x, k);
      }
    }
    if x in Desc(n, IdsOf(u)) {
      var q, k := DescBy(n, IdsOf(u), x);
      OutsideWalk(n, s, m, x, k);
      DescHas(m, IdsOf(u), q, x, k);
    }
  }

  /** Walking up from a payload node never comes to the other payload. */
  lemma PayloadApart(n: Nodes, s: seq<PayloadNode>, u: seq<PayloadNode>, x: int, k: nat, q: int)
    requires Apart(n, s, u) && x in IdsOf(s) && q in IdsOf(u)
    ensures Anc(PostNodes(n, s), x, k) != Some(q)
  {
    var r := s[0].id;
    var i := IdIndex(s, x);
    GraftedTables(n, s);
    PayloadWalk(n, s, PostNodes(n, s), i, k);
    if k <= s[i].depth {
      assert s[Lift(s, i, k)].id in IdsOf(s);
    } else if Anc(n, r, k - s[i].depth) == Some(q) {
      assert r in IdsOf(s);
      DescHas(n, IdsOf(u), q, r, k - s[i].depth);
    }
  }

  /** The other post is still accepted, and its root still hangs where it hung. */
  lemma OtherAccepted(n: Nodes, s: seq<PayloadNode>, u: seq<PayloadNode>)
    requires Apart(n, s, u)
    ensures Accepts(PostNodes(n, s), u)
    ensures ParentOf(PostNodes(n, s), u[0].id) == ParentOf(n, u[0].id)
  {
    var m, r := PostNodes(n, s), u[0].id;
    assert r in IdsOf(u);
    PostKeeps(n, s, r);
    GraftedTables(n, s);
    PostForest(n, s);
    forall a | a in Ancestors(m, r)
      ensures a !in IdsOf(u)
    {
      var k := AncestorsBy(m, r, a);
      OutsideWalk(n, s, m, r, k);
      AncestorsHas(n, r, a, k);
    }
  }

  lemma WritesCommute<K, V>(m: map<K, V>, ds: set<K>, x: map<K, V>, es: set<K>, y: map<K, V>)
    requires (x.Keys + ds) !! (y.Keys + es)
    ensures (((m - ds) + x) - es) + y == (((m - es) + y) - ds) + x
  {
  }

  lemma PostAfterOther(n: Nodes, s: seq<PayloadNode>, u: seq<PayloadNode>)
    requires Apart(n, s, u)
    ensures PostNodes(PostNodes(n, s), u)
         == (PostNodes(n, s) - Desc(n, IdsOf(u))) + PayloadTable(u, ParentOf(n, u[0].id))
  {
    OtherAccepted(n, s, u);
    forall x
      ensures x in Desc(PostNodes(n, s), IdsOf(u)) <==> x in Desc(n, IdsOf(u))
    {
      OtherDescKept(n, s, u, x);
    }
    assert Desc(PostNodes(n, s), IdsOf(u)) == Desc(n, IdsOf(u));
  }

  lemma ApartCommute(n: Nodes, s: seq<PayloadNode>, u: seq<PayloadNode>)
    requires Apart(n, s, u)
    ensures PostNodes(PostNodes(n, s), u) == PostNodes(PostNodes(n, u), s)
  {
    PostAfterOther(n, s, u);
    PostAfterOther(n, u, s);
    PayloadTableAt(s, ParentOf(n, s[0].id));
    PayloadTableAt(u, ParentOf(n, u[0].id));
    var a, b := PayloadTable(s, ParentOf(n, s[0].id)), PayloadTable(u, ParentOf(n, u[0].id));
    var ds, es := Desc(n, IdsOf(s)), Desc(n, IdsOf(u));
    assert Reach(n, IdsOf(s)) == a.Keys + ds && Reach(n, IdsOf(u)) == b.Keys + es;
    WritesCommute(n, ds, a, es, b);
  }

  lemma {:induction false} OtherPosted(n: Nodes, p: Tree, q: Tree)
    requires RefClosed(n) && Acyclic(n) && Posted(n, p).Ok? && Posted(n, q).Ok?
    requires Reach(n, IdSet([p])) !! Reach(n, IdSet([q]))
    ensures Flattened(p).Ok? && Flattened(q).Ok? && Apart(n, Flattened(p).value, Flattened(q).value)
    ensures Posted(Posted(n, p).value, q) == Ok(PostNodes(Posted(n, p).value, Flattened(q).value))
  {
    PostedAccepts(n, p);
    PostedAccepts(n, q);
    OtherAccepted(n, Flattened(p).value, Flattened(q).value);
    assert IdsOf(Flattened(q).value) * Ancestors(PostNodes(n, Flattened(p).value), q.id) == {};
  }

  /** The one lock also puts in order posts that do not touch each other. That order decides
      nothing: whichever of two such posts goes first, the other is still accepted and the
      tables end up the same. */
  lemma {:induction false} DisjointPostsCommute(t: Tables, p: Tree, q: Tree, u: Tables, v: Tables)
    returns (w: Tables)
    requires Inv(t) && PostTakes(t, p, u) && PostTakes(t, q, v)
    requires (IdSet([p]) + Desc(t.nodes, IdSet([p]))) !! (IdSet([q]) + Desc(t.nodes, IdSet([q])))
    ensures PostTakes(u, q, w) && PostTakes(v, p, w)
  {
    InvAcyclic(t);
    PostTakesPosted(t, p, u);
    PostTakesPosted(t, q, v);
    OtherPosted(t.nodes, p, q);
    OtherPosted(t.nodes, q, p);
    ApartCommute(t.nodes, Flattened(p).value, Flattened(q).value);
    w := PostResult(u, q);
    PostTakesPosted(v, p, w);
  }
}
