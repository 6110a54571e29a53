/** When the closure table is right, and what its queries then mean. */
module Index {
  import opened Types
  import opened Forest
  import opened Statements

  /** This closure row is true of the parents: `depth` steps up from the descendant is the ancestor. */
  ghost predicate RowRight(t: Tables, p: Key)
    requires p in t.closure
  {
    p.descendant in t.nodes && t.closure[p] >= 0 && Anc(t.nodes, p.descendant, t.closure[p]) == Some(p.ancestor)
  }

  /** What `k` steps up from `d` reaches has its closure row, with distance `k`. */
  ghost predicate RowPresent(t: Tables, d: int, k: nat)
  {
    Anc(t.nodes, d, k).Some? ==>
      && Key(Anc(t.nodes, d, k).value, d) in t.closure
      && t.closure[Key(Anc(t.nodes, d, k).value, d)] == k
  }

  /** The closure table is the reflexive-transitive closure of the parents, with distances:
      no row wrong and none missing. */
  ghost predicate Exact(t: Tables)
  {
    && (forall p :: p in t.closure ==> RowRight(t, p))
    && (forall d, k: nat :: d in t.nodes ==> RowPresent(t, d, k))
  }

  /** What every committed state satisfies. */
  ghost predicate Inv(t: Tables)
  {
    RefClosed(t.nodes) && Exact(t)
  }

  /** An exact closure exists only over a forest: a cycle would need two distances for one pair. */
  lemma InvAcyclic(t: Tables)
    requires Inv(t)
    ensures Acyclic(t.nodes)
  {
    forall x, k: nat | x in t.nodes
      ensures !OnCycle(t.nodes, x, k)
    {
      assert RowPresent(t, x, k) && RowPresent(t, x, 0);
    }
  }

  lemma RowFor(t: Tables, d: int, k: nat, a: int)
    requires Exact(t) && d in t.nodes && Anc(t.nodes, d, k) == Some(a)
    ensures Key(a, d) in t.closure && t.closure[Key(a, d)] == k
  {
    assert RowPresent(t, d, k);
  }

  /** The parents determine the index. */
  lemma ExactUnique(t: Tables, u: Tables)
    requires Exact(t) && Exact(u) && t.nodes == u.nodes
    ensures t == u
  {
    forall p | p in t.closure
      ensures p in u.closure && u.closure[p] == t.closure[p]
    {
      assert RowRight(t, p);
      RowFor(u, p.descendant, t.closure[p], p.ancestor);
    }
    forall p | p in u.closure
      ensures p in t.closure
    {
      assert RowRight(u, p);
      RowFor(t, p.descendant, u.closure[p], p.ancestor);
    }
  }

  /** Reading descendants out of the index is walking up the parents. */
  lemma DescendantsAreDesc(t: Tables, ids: set<int>)
    requires Inv(t)
    ensures DescendantIds(t, ids) == Desc(t.nodes, ids)
  {
    forall x | x in DescendantIds(t, ids)
      ensures x in Desc(t.nodes, ids)
    {
      var p :| p in t.closure && p.ancestor in ids && p.descendant == x;
      assert RowRight(t, p);
      DescHas(t.nodes, ids, p.ancestor, x, t.closure[p]);
    }
    forall x | x in Desc(t.nodes, ids)
      ensures x in DescendantIds(t, ids)
    {
      var s, k := DescBy(t.nodes, ids, x);
      RowFor(t, x, k, s);
      assert Key(s, x).ancestor in ids;
    }
  }

  /** Reading ancestors out of the index is walking up from `r`, with the distances walked. */
  lemma AncestorRowsWalk(t: Tables, r: int, row: AncestorRow)
    requires Inv(t)
    ensures row in AncestorRows(t, r) <==>
      r in t.nodes && row.depth > 0 && Anc(t.nodes, r, row.depth) == Some(row.ancestor)
  {
    if row in AncestorRows(t, r) {
      var p :| p in t.closure && p.descendant == r && t.closure[p] > 0 && row == AncestorRow(p.ancestor, t.closure[p]);
      assert RowRight(t, p);
    }
    if r in t.nodes && row.depth > 0 && Anc(t.nodes, r, row.depth) == Some(row.ancestor) {
      RowFor(t, r, row.depth, row.ancestor);
      assert Key(row.ancestor, r).descendant == r;
    }
  }

  /** The ids `fetch_ancestor_depths` names. */
  function AncestorIds(rows: set<AncestorRow>): set<int>
  {
    set row | row in rows :: row.ancestor
  }

  lemma AncestorIdsAreAncestors(t: Tables, r: int)
    requires Inv(t)
    ensures AncestorIds(AncestorRows(t, r)) == Ancestors(t.nodes, r)
  {
    forall a | a in AncestorIds(AncestorRows(t, r))
      ensures a in Ancestors(t.nodes, r)
    {
      var row :| row in AncestorRows(t, r) && row.ancestor == a;
      AncestorRowsWalk(t, r, row);
      AncestorsHas(t.nodes, r, a, row.depth);
    }
    forall a | a in Ancestors(t.nodes, r)
      ensures a in AncestorIds(AncestorRows(t, r))
    {
      var k := AncestorsBy(t.nodes, r, a);
      AncestorsHas(t.nodes, r, a, k);
      AncestorRowsWalk(t, r, AncestorRow(a, k));
    }
  }

  /** How far above `d` the node `a` is. */
  ghost function Distance(n: Nodes, a: int, d: int): (k: nat)
    requires AtOrAbove(n, a, d)
    ensures Above(n, a, d, k)
  {
    var k: nat :| Above(n, a, d, k);
    k
  }

  ghost function Pairs(n: Nodes): set<Key>
  {
    set a, d | a in n && d in n :: Key(a, d)
  }

  /** The index a forest calls for. */
  ghost function IndexOf(n: Nodes): map<Key, int>
  {
    map p | p in Pairs(n) && AtOrAbove(n, p.ancestor, p.descendant) :: Distance(n, p.ancestor, p.descendant)
  }

  /** Every forest has its exact index. */
  lemma ForestIndexed(n: Nodes)
    requires RefClosed(n) && Acyclic(n)
    ensures Inv(Tables(n, IndexOf(n)))
  {
    var t := Tables(n, IndexOf(n));
    forall d, k: nat | d in n
      ensures RowPresent(t, d, k)
    {
      if Anc(n, d, k).Some? {
        var a := Anc(n, d, k).value;
        AncStored(n, d, k);
        assert Above(n, a, d, k) && Key(a, d) in Pairs(n);
        AncOnce(n, d, k, Distance(n, a, d));
      }
    }
  }

  /** Over parents that are all stored, being a forest and having an exact index are the same thing. */
  lemma ForestExactlyWhenIndexed(n: Nodes)
    requires RefClosed(n)
    ensures Acyclic(n) <==> exists closure :: Exact(Tables(n, closure))
  {
    if Acyclic(n) {
      ForestIndexed(n);
    }
    if exists closure :: Exact(Tables(n, closure)) {
      var closure :| Exact(Tables(n, closure));
      InvAcyclic(Tables(n, closure));
    }
  }
}
