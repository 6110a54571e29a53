/** The schema's constraints, as what an accepted statement leaves behind. */
module Constraints {
  import opened Types
  import opened Forest
  import opened Statements
  import opened Index

  /** `fk_nodes_parent`: of the upserts that name no row twice, exactly those leaving every parent
      stored are accepted, wherever in the list a parent comes. */
  lemma UpsertGuardsParents(v: Tables, rows: seq<NodeRow>)
    requires RefClosed(v.nodes) && !RepeatsId(rows)
    ensures Upsert(v, rows).Ok? <==> RefClosed(v.nodes + RowTable(rows))
  {
    var after := v.nodes + RowTable(rows);
    RowTableAt(rows);
    if RefClosed(after) {
      forall i | 0 <= i < |rows| && rows[i].parent.Some?
        ensures rows[i].parent.value in after
      {
        assert rows[i].id in after && after[rows[i].id].parent == rows[i].parent;
      }
    }
    if !MissesParent(after, rows) {
      forall x | x in after && after[x].parent.Some?
        ensures after[x].parent.value in after
      {
        if x in RowTable(rows) {
          var i :| 0 <= i < |rows| && rows[i].id == x;
          assert !(rows[i].parent.Some? && rows[i].parent.value !in after);
        }
      }
    }
  }

  /** RESTRICT: exactly the deletes that orphan nobody are accepted. */
  lemma DeleteGuardsParents(v: Tables, ids: set<int>)
    requires RefClosed(v.nodes)
    ensures Delete(v, ids).Ok? <==> RefClosed(v.nodes - ids)
  {
    var gone := ids * v.nodes.Keys;
    assert v.nodes - ids == v.nodes - gone;
    if RefClosed(v.nodes - gone) {
      forall x | x in v.nodes && x !in gone && v.nodes[x].parent.Some?
        ensures v.nodes[x].parent.value !in gone
      {
        assert x in v.nodes - gone;
      }
    }
  }

  /** Both foreign keys of the closure table. */
  ghost predicate EndpointsStored(t: Tables)
  {
    forall p :: p in t.closure ==> p.ancestor in t.nodes && p.descendant in t.nodes
  }

  /** A delete takes along every closure row naming what it deletes, at either end, and no other. */
  lemma DeleteCascades(v: Tables, ids: set<int>)
    requires EndpointsStored(v) && Delete(v, ids).Ok?
    ensures var u := View(v, Delete(v, ids).value);
      && u == Tables(v.nodes - ids, v.closure - KeysTouching(v, ids)) && EndpointsStored(u)
      && forall p :: p in u.closure <==> p in v.closure && p.ancestor !in ids && p.descendant !in ids
  {
    var gone := ids * v.nodes.Keys;
    OverlayRemoved(v.nodes, gone);
    OverlayRemoved(v.closure, KeysTouching(v, gone));
    assert v.nodes - ids == v.nodes - gone;
    assert KeysTouching(v, ids) == KeysTouching(v, gone);
  }

  ghost function NamedIds(rows: seq<NodeRow>): set<int>
  {
    set i | 0 <= i < |rows| :: rows[i].id
  }

  lemma {:induction false} RowTableNames(rows: seq<NodeRow>)
    requires !RepeatsId(rows)
    ensures RowTable(rows).Keys == NamedIds(rows)
  {
    RowTableAt(rows);
    forall x | x in RowTable(rows)
      ensures x in NamedIds(rows)
    {
      var i :| 0 <= i < |rows| && rows[i].id == x;
    }
  }

  lemma AddedGone<K, V>(m: map<K, V>, x: map<K, V>)
    ensures (m + x) - x.Keys == m - x.Keys
  {
  }

  /** An accepted upsert gives each id it names the stated type and parent, new or not, and leaves
      every other node and the closure table alone. */
  lemma UpsertWrites(v: Tables, rows: seq<NodeRow>)
    requires Upsert(v, rows).Ok?
    ensures var u := View(v, Upsert(v, rows).value);
      && u == Tables(v.nodes + RowTable(rows), v.closure)
      && (forall i :: 0 <= i < |rows| ==>
            rows[i].id in u.nodes && u.nodes[rows[i].id] == NodeRec(rows[i].typ, rows[i].parent))
      && u.nodes - NamedIds(rows) == v.nodes - NamedIds(rows)
  {
    RowTableAt(rows);
    OverlayWritten(v.nodes, RowTable(rows));
    OverlayNothing(v.closure);
    RowTableNames(rows);
    AddedGone(v.nodes, RowTable(rows));
  }

  /** Clearing takes exactly the rows of the given descendants. */
  lemma ClearTakes(v: Tables, ids: set<int>)
    ensures var u := View(v, ClearClosure(v, ids));
      && u == Tables(v.nodes, v.closure - KeysUnder(v, ids))
      && forall p :: p in u.closure <==> p in v.closure && p.descendant !in ids
  {
    OverlayNothing(v.nodes);
    OverlayRemoved(v.closure, KeysUnder(v, ids));
  }

  ghost function NamedPairs(rows: seq<ClosureRow>): set<Key>
  {
    set i | 0 <= i < |rows| :: PairOf(rows[i])
  }

  lemma {:induction false} PairTableNames(rows: seq<ClosureRow>)
    requires !RepeatsPair(rows)
    ensures PairTable(rows).Keys == NamedPairs(rows)
  {
    PairTableAt(rows);
    forall p | p in PairTable(rows)
      ensures p in NamedPairs(rows)
    {
      var i :| 0 <= i < |rows| && PairOf(rows[i]) == p;
    }
  }

  lemma {:induction false} NewPairs(v: Tables, rows: seq<ClosureRow>)
    requires !RepeatsPair(rows) && forall i :: 0 <= i < |rows| ==> !StoredAlready(v, rows[i])
    ensures PairTable(rows).Keys !! v.closure.Keys
  {
    PairTableNames(rows);
    forall p | p in NamedPairs(rows)
      ensures p !in v.closure
    {
      var i :| 0 <= i < |rows| && PairOf(rows[i]) == p;
      assert !StoredAlready(v, rows[i]);
    }
  }

  lemma NewGone<K, V>(m: map<K, V>, x: map<K, V>)
    requires x.Keys !! m.Keys
    ensures (m + x) - x.Keys == m
  {
  }

  lemma InsertedView(v: Tables, rows: seq<ClosureRow>)
    requires InsertClosure(v, rows).Ok?
    ensures View(v, InsertClosure(v, rows).value) == Tables(v.nodes, v.closure + PairTable(rows))
  {
    OverlayNothing(v.nodes);
    OverlayWritten(v.closure, PairTable(rows));
  }

  /** An accepted insert stores each row under its pair; without those pairs the table is what it was. */
  lemma InsertAdds(v: Tables, rows: seq<ClosureRow>)
    requires InsertClosure(v, rows).Ok?
    ensures var u := View(v, InsertClosure(v, rows).value);
      && u == Tables(v.nodes, v.closure + PairTable(rows))
      && (forall i :: 0 <= i < |rows| ==>
            PairOf(rows[i]) in u.closure && u.closure[PairOf(rows[i])] == rows[i].depth)
      && u.closure - NamedPairs(rows) == v.closure
  {
    InsertedView(v, rows);
    PairTableAt(rows);
    PairTableNames(rows);
    NewPairs(v, rows);
    NewGone(v.closure, PairTable(rows));
  }

  ghost predicate ConstraintsHold(t: Tables)
  {
    EndpointsStored(t) && !TwoParents(t.closure) && forall p :: p in t.closure ==> t.closure[p] >= 0
  }

  lemma AcceptedHolds(v: Tables, rows: seq<ClosureRow>)
    requires ConstraintsHold(v) && InsertClosure(v, rows).Ok?
    ensures ConstraintsHold(Tables(v.nodes, v.closure + PairTable(rows)))
  {
    var after := v.closure + PairTable(rows);
    PairTableAt(rows);
    forall p | p in after
      ensures p.ancestor in v.nodes && p.descendant in v.nodes && after[p] >= 0
    {
      if p in PairTable(rows) {
        var i :| 0 <= i < |rows| && PairOf(rows[i]) == p;
        assert !BelowZero(rows[i]) && !MissesEndpoint(v, rows[i]);
      }
    }
  }

  lemma HoldingAccepted(v: Tables, rows: seq<ClosureRow>)
    requires !RepeatsPair(rows) && forall i :: 0 <= i < |rows| ==> !StoredAlready(v, rows[i])
    requires ConstraintsHold(Tables(v.nodes, v.closure + PairTable(rows)))
    ensures InsertClosure(v, rows).Ok?
  {
    var after := v.closure + PairTable(rows);
    PairTableAt(rows);
    forall i | 0 <= i < |rows|
      ensures !BelowZero(rows[i]) && !MissesEndpoint(v, rows[i])
    {
      assert PairOf(rows[i]) in after;
    }
  }

  /** The insert is accepted exactly when it adds only new pairs, each once, and the closure
      table still meets its constraints. */
  lemma InsertGuardsClosure(v: Tables, rows: seq<ClosureRow>)
    requires ConstraintsHold(v)
    ensures InsertClosure(v, rows).Ok? <==>
      && !RepeatsPair(rows)
      && (forall i :: 0 <= i < |rows| ==> !StoredAlready(v, rows[i]))
      && ConstraintsHold(Tables(v.nodes, v.closure + PairTable(rows)))
  {
    if InsertClosure(v, rows).Ok? {
      AcceptedHolds(v, rows);
    } else if !RepeatsPair(rows) && (forall i :: 0 <= i < |rows| ==> !StoredAlready(v, rows[i]))
              && ConstraintsHold(Tables(v.nodes, v.closure + PairTable(rows))) {
      HoldingAccepted(v, rows);
    }
  }

  // ----- Each refusal, told from the rows alone

  /** The upsert is refused for a row named twice, or else for a parent that is neither stored nor
      among the rows. */
  lemma UpsertRefused(v: Tables, rows: seq<NodeRow>)
    ensures Upsert(v, rows) == Err(RowTouchedTwice) <==>
      exists i, j :: 0 <= i < j < |rows| && rows[i].id == rows[j].id
    ensures Upsert(v, rows) == Err(MissingParent) <==>
      && (forall i, j :: 0 <= i < j < |rows| ==> rows[i].id != rows[j].id)
      && exists i :: 0 <= i < |rows| && rows[i].parent.Some?
                     && rows[i].parent.value !in v.nodes && rows[i].parent.value !in NamedIds(rows)
    ensures Upsert(v, rows).Err? ==> Upsert(v, rows).error in {RowTouchedTwice, MissingParent}
  {
    if !RepeatsId(rows) {
      RowTableNames(rows);
    }
  }

  /** The delete is refused when a node that stays hangs from a stored one that goes. */
  lemma DeleteRefused(v: Tables, ids: set<int>)
    ensures Delete(v, ids) == Err(Restricted) <==>
      exists x :: x in v.nodes && x !in ids && v.nodes[x].parent.Some?
                  && v.nodes[x].parent.value in ids && v.nodes[x].parent.value in v.nodes
    ensures Delete(v, ids).Err? ==> Delete(v, ids).error == Restricted
  {
    var gone := ids * v.nodes.Keys;
    assert forall x :: x in v.nodes ==> (x in gone <==> x in ids);
  }

  /** A stored row or one of `rows` makes `a` the parent of `d`. */
  ghost predicate StatesParent(v: Tables, rows: seq<ClosureRow>, a: int, d: int)
  {
    || (Key(a, d) in v.closure && v.closure[Key(a, d)] == 1)
    || ClosureRow(a, d, 1) in rows
  }

  lemma PairTableIs(rows: seq<ClosureRow>, p: Key)
    requires !RepeatsPair(rows)
    ensures p in PairTable(rows) ==> ClosureRow(p.ancestor, p.descendant, PairTable(rows)[p]) in rows
    ensures forall d :: ClosureRow(p.ancestor, p.descendant, d) in rows ==>
      p in PairTable(rows) && PairTable(rows)[p] == d
  {
    PairTableAt(rows);
    if p in PairTable(rows) {
      var i :| 0 <= i < |rows| && PairOf(rows[i]) == p;
      assert rows[i] == ClosureRow(p.ancestor, p.descendant, PairTable(rows)[p]);
    }
    forall d | ClosureRow(p.ancestor, p.descendant, d) in rows
      ensures p in PairTable(rows) && PairTable(rows)[p] == d
    {
      var i :| 0 <= i < |rows| && rows[i] == ClosureRow(p.ancestor, p.descendant, d);
      assert PairOf(rows[i]) == p;
    }
  }

  /** With no pair stored twice, the table after the insert states the parents that the stored and
      the new rows state. */
  lemma ParentsAfterInsert(v: Tables, rows: seq<ClosureRow>, a: int, d: int)
    requires !RepeatsPair(rows) && forall i :: 0 <= i < |rows| ==> !StoredAlready(v, rows[i])
    ensures StatesParent(v, rows, a, d) <==>
      Key(a, d) in v.closure + PairTable(rows) && (v.closure + PairTable(rows))[Key(a, d)] == 1
  {
    PairTableIs(rows, Key(a, d));
    NewPairs(v, rows);
  }

  /** `uq_node_single_parent`: with distinct new pairs, the index trips exactly when some node would
      be stated to have two parents. */
  lemma TwoParentsMeans(v: Tables, rows: seq<ClosureRow>)
    requires !RepeatsPair(rows) && forall i :: 0 <= i < |rows| ==> !StoredAlready(v, rows[i])
    ensures TwoParents(v.closure + PairTable(rows)) <==>
      exists a, b, d :: a != b && StatesParent(v, rows, a, d) && StatesParent(v, rows, b, d)
  {
    var after := v.closure + PairTable(rows);
    if TwoParents(after) {
      var p, q :| p in after && q in after && TwoParentRows(after, p, q);
      assert p == Key(p.ancestor, p.descendant) && q == Key(q.ancestor, p.descendant);
      ParentsAfterInsert(v, rows, p.ancestor, p.descendant);
      ParentsAfterInsert(v, rows, q.ancestor, p.descendant);
    }
    if exists a, b, d :: a != b && StatesParent(v, rows, a, d) && StatesParent(v, rows, b, d) {
      var a, b, d :| a != b && StatesParent(v, rows, a, d) && StatesParent(v, rows, b, d);
      ParentsAfterInsert(v, rows, a, d);
      ParentsAfterInsert(v, rows, b, d);
      assert TwoParentRows(after, Key(a, d), Key(b, d));
    }
  }

  ghost predicate SamePair(a: ClosureRow, b: ClosureRow)
  {
    a.ancestor == b.ancestor && a.descendant == b.descendant
  }

  /** A pair is inserted twice, or is stored already. */
  ghost predicate PairTaken(v: Tables, rows: seq<ClosureRow>)
  {
    || (exists i, j :: 0 <= i < j < |rows| && SamePair(rows[i], rows[j]))
    || (exists row :: row in rows && Key(row.ancestor, row.descendant) in v.closure)
  }

  lemma PairTakenMeans(v: Tables, rows: seq<ClosureRow>)
    ensures PairTaken(v, rows) <==> RepeatsPair(rows) || exists i :: 0 <= i < |rows| && StoredAlready(v, rows[i])
  {
    if exists row :: row in rows && Key(row.ancestor, row.descendant) in v.closure {
      var row :| row in rows && Key(row.ancestor, row.descendant) in v.closure;
      var i :| 0 <= i < |rows| && rows[i] == row;
      assert StoredAlready(v, rows[i]);
    }
    if exists i, j :: 0 <= i < j < |rows| && SamePair(rows[i], rows[j]) {
      var i, j :| 0 <= i < j < |rows| && SamePair(rows[i], rows[j]);
      assert PairOf(rows[i]) == PairOf(rows[j]);
    }
    if RepeatsPair(rows) {
      var i, j :| 0 <= i < j < |rows| && PairOf(rows[i]) == PairOf(rows[j]);
      assert SamePair(rows[i], rows[j]);
    }
    if exists i :: 0 <= i < |rows| && StoredAlready(v, rows[i]) {
      var i :| 0 <= i < |rows| && StoredAlready(v, rows[i]);
      assert rows[i] in rows;
    }
  }

  /** The insert is refused for a pair that is taken; else for a negative distance; else for an end
      that is not stored; else for a second parent. Otherwise it is accepted. */
  lemma InsertRefused(v: Tables, rows: seq<ClosureRow>)
    ensures var r := InsertClosure(v, rows);
      if PairTaken(v, rows) then r == Err(DuplicatePair)
      else if exists row :: row in rows && row.depth < 0 then r == Err(NegativeDepth)
      else if exists row :: row in rows && (row.ancestor !in v.nodes || row.descendant !in v.nodes) then
        r == Err(MissingEndpoint)
      else if exists a, b, d :: a != b && StatesParent(v, rows, a, d) && StatesParent(v, rows, b, d) then
        r == Err(SecondParent)
      else r.Ok?
  {
    PairTakenMeans(v, rows);
    InsertChecks(v, rows);
    if !PairTaken(v, rows) {
      TwoParentsMeans(v, rows);
    }
  }

  lemma InsertChecks(v: Tables, rows: seq<ClosureRow>)
    ensures (exists row :: row in rows && row.depth < 0) <==> exists i :: 0 <= i < |rows| && BelowZero(rows[i])
    ensures (exists row :: row in rows && (row.ancestor !in v.nodes || row.descendant !in v.nodes)) <==>
      exists i :: 0 <= i < |rows| && MissesEndpoint(v, rows[i])
  {
    forall row | row in rows
      ensures row.depth < 0 ==> exists i :: 0 <= i < |rows| && BelowZero(rows[i])
      ensures row.ancestor !in v.nodes || row.descendant !in v.nodes ==>
        exists i :: 0 <= i < |rows| && MissesEndpoint(v, rows[i])
    {
      var i :| 0 <= i < |rows| && rows[i] == row;
      assert BelowZero(rows[i]) <==> row.depth < 0;
      assert MissesEndpoint(v, rows[i]) <==> row.ancestor !in v.nodes || row.descendant !in v.nodes;
    }
    forall i | 0 <= i < |rows|
      ensures rows[i] in rows
    {
    }
  }

  /** In the table an accepted insert leaves, nothing has two parents. */
  lemma OneParentEach(v: Tables, rows: seq<ClosureRow>, p: Key, q: Key)
    requires InsertClosure(v, rows).Ok?
    requires var u := View(v, InsertClosure(v, rows).value);
      p in u.closure && q in u.closure && u.closure[p] == 1 && u.closure[q] == 1 && p.descendant == q.descendant
    ensures p == q
  {
    InsertedView(v, rows);
    var after := v.closure + PairTable(rows);
    assert !TwoParentRows(after, p, q);
  }

  /** Over an exact index, one row that gives a node a second parent is refused for just that. */
  lemma SecondParentRefused(t: Tables, a: int, d: int)
    requires Inv(t) && d in t.nodes && t.nodes[d].parent.Some? && a in t.nodes
    requires a != t.nodes[d].parent.value && Key(a, d) !in t.closure
    ensures InsertClosure(t, [ClosureRow(a, d, 1)]) == Err(SecondParent)
  {
    var rows, q := [ClosureRow(a, d, 1)], t.nodes[d].parent.value;
    assert Anc(t.nodes, d, 1) == Anc(t.nodes, q, 0);
    RowFor(t, d, 1, q);
    assert StatesParent(t, rows, q, d) && StatesParent(t, rows, a, d);
    InsertRefused(t, rows);
  }

  /** An exact index meets every constraint of the closure table. */
  lemma InvConstraints(t: Tables)
    requires Inv(t)
    ensures ConstraintsHold(t)
    ensures forall p :: p in t.closure ==> p.ancestor in t.nodes && p.descendant in t.nodes && t.closure[p] >= 0
    ensures forall p, q :: p in t.closure && q in t.closure && t.closure[p] == 1 && t.closure[q] == 1 ==>
      p.descendant == q.descendant ==> p == q
  {
    forall p | p in t.closure
      ensures p.ancestor in t.nodes && p.descendant in t.nodes && t.closure[p] >= 0
    {
      assert RowRight(t, p);
      AncStored(t.nodes, p.descendant, t.closure[p]);
    }
    forall p, q | p in t.closure && q in t.closure
      ensures !TwoParentRows(t.closure, p, q)
      ensures p.descendant == q.descendant && t.closure[p] == 1 && t.closure[q] == 1 ==> p == q
    {
      assert RowRight(t, p) && RowRight(t, q);
    }
  }

  /** So does any part of its rows. */
  lemma PartConstraints(t: Tables, u: Tables)
    requires ConstraintsHold(t) && u.nodes == t.nodes
    requires forall p :: p in u.closure ==> p in t.closure && t.closure[p] == u.closure[p]
    ensures ConstraintsHold(u)
  {
    forall p, q | p in u.closure && q in u.closure
      ensures !TwoParentRows(u.closure, p, q)
    {
      assert !TwoParentRows(t.closure, p, q);
    }
  }

  /** What the schema cannot see: these two nodes are each other's parent, and every constraint of
      both tables, the single-parent index included, is met. */
  lemma ConstraintsAllowCycle(typ: NodeType)
    ensures var t := Tables(map[1 := NodeRec(typ, Some(2)), 2 := NodeRec(typ, Some(1))],
                            map[Key(1, 1) := 0, Key(2, 2) := 0, Key(2, 1) := 1, Key(1, 2) := 1]);
      RefClosed(t.nodes) && ConstraintsHold(t) && !Acyclic(t.nodes)
  {
    var n: Nodes := map[1 := NodeRec(typ, Some(2)), 2 := NodeRec(typ, Some(1))];
    assert Anc(n, 1, 2) == Anc(n, 2, 1) == Anc(n, 1, 0);
    assert OnCycle(n, 1, 2);
  }
}
