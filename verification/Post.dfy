/** What one post does to the forest, and why its statements bring the index along. */
module Post {
  import opened Types
  import opened Forest
  import opened Payload
  import opened Flatten
  import opened Closure
  import opened Statements

  datatype Rejection =
    | Repeated(id: int)  // the payload names this id twice
    | Cycle(id: int)     // this payload id already lies above the posted root

  /** The payload written over `n`, its root hanging where it hangs in `n`: the parents as they
      stand right after the upsert, doomed nodes still in place. */
  ghost function WithPayload(n: Nodes, s: seq<PayloadNode>): Nodes
    requires s != []
  {
    n + PayloadTable(s, ParentOf(n, s[0].id))
  }

  /** The forest after a post: everything below a payload id goes, the payload is put in its
      place, and the posted root stays where it hangs. */
  ghost function PostNodes(n: Nodes, s: seq<PayloadNode>): Nodes
    requires s != []
  {
    (n - Desc(n, IdsOf(s))) + PayloadTable(s, ParentOf(n, s[0].id))
  }

  /** A flattened payload that names nothing above its own root, over a stored forest. */
  ghost predicate Accepts(n: Nodes, s: seq<PayloadNode>)
  {
    && RefClosed(n) && Acyclic(n)
    && Flat(s) && IdsOf(s) !! Ancestors(n, s[0].id)
  }

  /** `m` has the payload in place and has not touched what lies outside it. */
  ghost predicate Grafted(n: Nodes, s: seq<PayloadNode>, m: Nodes)
    requires s != []
  {
    && (forall x :: x in PayloadTable(s, ParentOf(n, s[0].id)) ==>
          x in m && m[x] == PayloadTable(s, ParentOf(n, s[0].id))[x])
    && (forall x :: x in n && x !in Desc(n, IdsOf(s)) ==> x in m && m[x] == n[x])
  }

  lemma PayloadInDesc(n: Nodes, s: seq<PayloadNode>, x: int)
    requires x in n && x in IdsOf(s)
    ensures x in Desc(n, IdsOf(s))
  {
    DescHas(n, IdsOf(s), x, x, 0);
  }

  /** Both the table after the upsert and the table after the whole post are grafted. */
  lemma GraftedTables(n: Nodes, s: seq<PayloadNode>)
    requires Flat(s)
    ensures Grafted(n, s, WithPayload(n, s))
    ensures Grafted(n, s, PostNodes(n, s))
  {
    PayloadTableAt(s, ParentOf(n, s[0].id));
    forall x | x in n && x !in Desc(n, IdsOf(s))
      ensures x !in IdsOf(s)
    {
      if x in IdsOf(s) {
        PayloadInDesc(n, s, x);
      }
    }
  }

  /** Nothing above a node outside the payload's reach is inside it. */
  lemma OutsideUp(n: Nodes, s: seq<PayloadNode>, x: int, k: nat, a: int)
    requires RefClosed(n) && x in n && x !in Desc(n, IdsOf(s)) && Anc(n, x, k) == Some(a)
    ensures a in n && a !in Desc(n, IdsOf(s))
  {
    AncStored(n, x, k);
    if a in Desc(n, IdsOf(s)) {
      DescDown(n, IdsOf(s), a, x, k);
    }
  }

  lemma {:induction false} OutsideWalk(n: Nodes, s: seq<PayloadNode>, m: Nodes, x: int, k: nat)
    requires RefClosed(n) && s != [] && Grafted(n, s, m) && x in n && x !in Desc(n, IdsOf(s))
    ensures Anc(m, x, k) == Anc(n, x, k)
    decreases k
  {
    if k == 0 {
    } else if n[x].parent.Some? {
      var q := n[x].parent.value;
      assert Anc(n, q, 0) == Some(q);
      OutsideUp(n, s, x, 1, q);
      OutsideWalk(n, s, m, q, k - 1);
    }
  }

  /** The key to it all: with the cycle check passed, no captured ancestor of the posted root is
      about to be deleted or rewritten. Otherwise some payload id would lie above the root. */
  lemma AboveRootOutside(n: Nodes, s: seq<PayloadNode>, k: nat, a: int)
    requires Accepts(n, s) && k > 0 && Anc(n, s[0].id, k) == Some(a)
    ensures a in n && a !in Desc(n, IdsOf(s))
  {
    AncestorsHas(n, s[0].id, a, k);
    if a in Desc(n, IdsOf(s)) {
      var q, j := DescBy(n, IdsOf(s), a);
      AncSplit(n, s[0].id, k, j);
      AncestorsHas(n, s[0].id, q, k + j);
    }
  }

  /** The chain above the posted root is what it was. */
  lemma RootWalk(n: Nodes, s: seq<PayloadNode>, m: Nodes, k: nat)
    requires Accepts(n, s) && Grafted(n, s, m)
    ensures Anc(m, s[0].id, k) == Anc(n, s[0].id, k)
  {
    var r := s[0].id;
    PayloadTableAt(s, ParentOf(n, r));
    assert m[r].parent == ParentOf(n, r);
    if k > 0 && r in n && n[r].parent.Some? {
      var q := n[r].parent.value;
      assert Anc(n, r, 1) == Anc(n, q, 0);
      AboveRootOutside(n, s, 1, q);
      OutsideWalk(n, s, m, q, k - 1);
    }
  }

  lemma GraftedCarries(n: Nodes, s: seq<PayloadNode>, m: Nodes)
    requires Flat(s) && Grafted(n, s, m)
    ensures Carries(m, s)
  {
    PayloadTableAt(s, ParentOf(n, s[0].id));
  }

  /** From a payload node: up through the payload to its root, then on as the root always did. */
  lemma PayloadWalk(n: Nodes, s: seq<PayloadNode>, m: Nodes, i: int, k: nat)
    requires Accepts(n, s) && Grafted(n, s, m) && 0 <= i < |s|
    ensures k <= s[i].depth ==> Anc(m, s[i].id, k) == Some(s[Lift(s, i, k)].id)
    ensures k > s[i].depth ==> Anc(m, s[i].id, k) == Anc(n, s[0].id, k - s[i].depth)
  {
    GraftedCarries(n, s, m);
    if k <= s[i].depth {
      WalkUp(m, s, i, k);
    } else {
      WalkPastRoot(m, s, i, k - s[i].depth);
      RootWalk(n, s, m, k - s[i].depth);
    }
  }

  lemma IdIndex(s: seq<PayloadNode>, x: int) returns (i: int)
    requires x in IdsOf(s)
    ensures 0 <= i < |s| && s[i].id == x
  {
    i :| 0 <= i < |s| && s[i].id == x;
  }

  /** Wherever in the list a parent comes, it is stored once the payload is written. */
  lemma UpsertRefClosed(n: Nodes, s: seq<PayloadNode>)
    requires RefClosed(n) && Flat(s)
    ensures RefClosed(WithPayload(n, s))
  {
    var m := WithPayload(n, s);
    PayloadTableAt(s, ParentOf(n, s[0].id));
    forall x | x in m && m[x].parent.Some?
      ensures m[x].parent.value in m
    {
      if x in IdsOf(s) {
        var i := IdIndex(s, x);
        if i > 0 {
          var j := ParentIndex(s, i);
          assert s[j].id in IdsOf(s);
        }
      }
    }
  }

  lemma PostRefClosed(n: Nodes, s: seq<PayloadNode>)
    requires Accepts(n, s)
    ensures RefClosed(PostNodes(n, s))
  {
    var r, m := s[0].id, PostNodes(n, s);
    PayloadTableAt(s, ParentOf(n, r));
    GraftedTables(n, s);
    forall x | x in m && m[x].parent.Some?
      ensures m[x].parent.value in m
    {
      var q := m[x].parent.value;
      if x in IdsOf(s) {
        var i := IdIndex(s, x);
        if i > 0 {
          var j := ParentIndex(s, i);
          assert s[j].id in IdsOf(s);
        } else {
          assert Anc(n, r, 1) == Anc(n, q, 0);
          AboveRootOutside(n, s, 1, q);
        }
      } else {
        assert Anc(n, x, 1) == Anc(n, q, 0);
        OutsideUp(n, s, x, 1, q);
      }
    }
  }

  // ----- The post as a function of the forest alone

  ghost predicate IsLeast(ids: set<int>, m: int)
  {
    m in ids && forall y :: y in ids ==> m <= y
  }

  lemma {:induction false} LeastOf(ids: set<int>) returns (m: int)
    requires ids != {}
    ensures IsLeast(ids, m)
    decreases |ids|
  {
    m := Pick(ids);
    var rest := ids - {m};
    if rest == {} {
      assert ids == {m};
    } else {
      var l := LeastOf(rest);
      assert ids == rest + {m};
      m := if m < l then m else l;
    }
  }

  lemma LeastExists(ids: set<int>)
    requires ids != {}
    ensures exists m :: m in ids && forall y :: y in ids ==> m <= y
  {
    var m := LeastOf(ids);
    assert m in ids;
  }

  function Least(ids: set<int>): (m: int)
    requires ids != {}
    ensures m in ids && forall y :: y in ids ==> m <= y
  {
    LeastExists(ids);
    var m :| m in ids && forall y :: y in ids ==> m <= y;
    m
  }

  /** A post with no index anywhere: ancestors and descendants found by walking up. */
  ghost function Posted(n: Nodes, p: Tree): Result<Nodes, Rejection>
  {
    match Flattened(p)
    case Err(x) => Err(Repeated(x))
    case Ok(s) =>
      var above := IdsOf(s) * Ancestors(n, p.id);
      FlattenMeaning(p);
      if above != {} then Err(Cycle(Least(above))) else Ok(PostNodes(n, s))
  }

  lemma {:induction false} PostedAccepts(n: Nodes, p: Tree)
    requires RefClosed(n) && Acyclic(n) && Posted(n, p).Ok?
    ensures Flattened(p).Ok? && Accepts(n, Flattened(p).value)
    ensures Flattened(p).value[0].id == p.id
    ensures IdsOf(Flattened(p).value) == IdSet([p])
  {
    FlattenMeaning(p);
  }

  /** `x` is the least payload id above the posted root. */
  ghost predicate LeastAbove(n: Nodes, p: Tree, x: int)
  {
    && x in IdSet([p]) && StrictlyAbove(n, x, p.id)
    && forall y :: y in IdSet([p]) && StrictlyAbove(n, y, p.id) ==> x <= y
  }

  lemma LeastAboveOnce(n: Nodes, p: Tree, x: int, y: int)
    requires LeastAbove(n, p, x) && LeastAbove(n, p, y)
    ensures x == y && x in IdSet([p]) && StrictlyAbove(n, x, p.id)
  {
  }

  /** Exactly when a post is rejected, and which id it names. */
  lemma {:induction false} PostedExactly(n: Nodes, p: Tree)
    requires RefClosed(n)
    ensures Posted(n, p).Ok? <==> Distinct([p]) && forall x :: x in IdSet([p]) ==> !StrictlyAbove(n, x, p.id)
    ensures !Distinct([p]) ==>
      exists i :: FirstRepeat(Listing(p), i) && Posted(n, p) == Err(Repeated(Listing(p)[i].id))
    ensures Distinct([p]) && (exists x :: x in IdSet([p]) && StrictlyAbove(n, x, p.id)) ==>
      exists x :: LeastAbove(n, p, x) && Posted(n, p) == Err(Cycle(x))
    ensures Posted(n, p).Err? && Posted(n, p).error.Cycle? ==>
      && Posted(n, p).error.id in IdSet([p]) && StrictlyAbove(n, Posted(n, p).error.id, p.id)
      && forall y :: y in IdSet([p]) && StrictlyAbove(n, y, p.id) ==> Posted(n, p).error.id <= y
  {
    FlattenMeaning(p);
    forall x | StrictlyAbove(n, x, p.id)
      ensures x in Ancestors(n, p.id)
    {
      var k: nat :| k > 0 && Above(n, x, p.id, k);
      AncestorsHas(n, p.id, x, k);
    }
    if Distinct([p]) && exists x :: x in IdSet([p]) && StrictlyAbove(n, x, p.id) {
      var above := IdSet([p]) * Ancestors(n, p.id);
      var x :| x in IdSet([p]) && StrictlyAbove(n, x, p.id);
      assert x in above;
      forall y | y in IdSet([p]) && StrictlyAbove(n, y, p.id)
        ensures Least(above) <= y
      {
        assert y in above;
      }
      assert LeastAbove(n, p, Least(above));
    }
  }
}
