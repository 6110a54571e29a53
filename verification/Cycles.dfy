/** One check is the whole cycle test. */
module Cycles {
  import opened Types
  import opened Forest
  import opened Flatten
  import opened Closure
  import opened Statements
  import opened Post

  /** Walking up after the upsert is walking up before it, until the walk meets a payload node. */
  lemma {:induction false} WalkUntilPayload(n: Nodes, s: seq<PayloadNode>, x: int, k: nat)
    returns (hit: bool, j: nat)
    requires Flat(s)
    ensures !hit ==> Anc(WithPayload(n, s), x, k) == Anc(n, x, k)
    ensures hit ==> j < k && Anc(WithPayload(n, s), x, j).Some? && Anc(WithPayload(n, s), x, j).value in IdsOf(s)
    decreases k
  {
    var u := WithPayload(n, s);
    PayloadTableAt(s, ParentOf(n, s[0].id));
    hit, j := false, 0;
    if k == 0 {
    } else {
      if x in IdsOf(s) {
        hit := true;
      } else if x in n && n[x].parent.Some? {
        hit, j := WalkUntilPayload(n, s, n[x].parent.value, k - 1);
        j := j + 1;
      }
    }
  }

  /** No payload node comes back to itself unless it was above the posted root. */
  lemma PayloadNotOnCycle(n: Nodes, s: seq<PayloadNode>, m: Nodes, i: int, k: nat)
    requires Accepts(n, s) && Grafted(n, s, m) && 0 <= i < |s| && k > 0
    ensures Anc(m, s[i].id, k) != Some(s[i].id)
  {
    PayloadWalk(n, s, m, i, k);
    assert s[i].id in IdsOf(s);
    if k <= s[i].depth {
      assert Lift(s, i, k) != i;
    } else if Anc(n, s[0].id, k - s[i].depth) == Some(s[i].id) {
      AncestorsHas(n, s[0].id, s[i].id, k - s[i].depth);
    }
  }

  lemma CheckSuffices(n: Nodes, s: seq<PayloadNode>, x: int, k: nat)
    requires Accepts(n, s) && x in WithPayload(n, s)
    ensures !OnCycle(WithPayload(n, s), x, k)
  {
    var u := WithPayload(n, s);
    GraftedTables(n, s);
    if OnCycle(u, x, k) {
      var hit, j := WalkUntilPayload(n, s, x, k);
      if hit {
        var i := IdIndex(s, Anc(u, x, j).value);
        AncSplit(u, x, j, k);
        AncSplit(u, x, k, j);
        PayloadNotOnCycle(n, s, u, i, k);
      } else if x in n {
        NoReturn(n, x, k);
      } else {
        PayloadTableAt(s, ParentOf(n, s[0].id));
        var i := IdIndex(s, x);
        PayloadNotOnCycle(n, s, u, i, k);
      }
    }
  }

  /** If a payload node was above the root, the root still reaches one after the upsert. */
  lemma RootReachesPayload(n: Nodes, s: seq<PayloadNode>, a: int) returns (i: int, m: nat)
    requires RefClosed(n) && Flat(s) && a in IdsOf(s) && a in Ancestors(n, s[0].id)
    ensures 0 <= i < |s| && m > 0 && Anc(WithPayload(n, s), s[0].id, m) == Some(s[i].id)
  {
    var u, r := WithPayload(n, s), s[0].id;
    var k := AncestorsBy(n, r, a);
    PayloadTableAt(s, ParentOf(n, r));
    var q := n[r].parent.value;
    assert u[r].parent == Some(q);
    var hit, j := WalkUntilPayload(n, s, q, k - 1);
    if !hit {
      j := k - 1;
    }
    i := IdIndex(s, Anc(u, q, j).value);
    m := j + 1;
  }

  lemma WithPayloadCarries(n: Nodes, s: seq<PayloadNode>)
    requires Flat(s)
    ensures Carries(WithPayload(n, s), s) && s[0].id in WithPayload(n, s)
  {
    PayloadTableAt(s, ParentOf(n, s[0].id));
  }

  lemma CheckNeeded(n: Nodes, s: seq<PayloadNode>, a: int)
    requires RefClosed(n) && Flat(s) && a in IdsOf(s) && a in Ancestors(n, s[0].id)
    ensures !Acyclic(WithPayload(n, s))
  {
    var u, r := WithPayload(n, s), s[0].id;
    var i, m := RootReachesPayload(n, s, a);
    WithPayloadCarries(n, s);
    WalkPastRoot(u, s, i, 0);
    AncSplit(u, r, m, s[i].depth);
    assert OnCycle(u, r, m + s[i].depth);
  }

  /** Over a stored forest, the payload shares no id with the ancestors of its root exactly when
      the parents after the upsert are still acyclic. */
  lemma CycleCheckExact(n: Nodes, s: seq<PayloadNode>)
    requires RefClosed(n) && Acyclic(n) && Flat(s)
    ensures IdsOf(s) !! Ancestors(n, s[0].id) <==> Acyclic(WithPayload(n, s))
  {
    if IdsOf(s) !! Ancestors(n, s[0].id) {
      forall x, k: nat | x in WithPayload(n, s)
        ensures !OnCycle(WithPayload(n, s), x, k)
      {
        CheckSuffices(n, s, x, k);
      }
    } else {
      var a :| a in IdsOf(s) && a in Ancestors(n, s[0].id);
      CheckNeeded(n, s, a);
    }
  }

  /** An accepted post leaves a forest. */
  lemma PostForest(n: Nodes, s: seq<PayloadNode>)
    requires Accepts(n, s)
    ensures RefClosed(PostNodes(n, s)) && Acyclic(PostNodes(n, s))
  {
    var m := PostNodes(n, s);
    PostRefClosed(n, s);
    GraftedTables(n, s);
    PayloadTableAt(s, ParentOf(n, s[0].id));
    forall x, k: nat | x in m
      ensures !OnCycle(m, x, k)
    {
      if k > 0 {
        if x in IdsOf(s) {
          var i := IdIndex(s, x);
          PayloadNotOnCycle(n, s, m, i, k);
        } else {
          OutsideWalk(n, s, m, x, k);
          NoReturn(n, x, k);
        }
      }
    }
  }
}
