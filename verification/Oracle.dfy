/** `closure_from_parent_edges`: the closure rebuilt from the parents alone, against which the
    stored one is compared. */
module Oracle {
  import opened Types
  import opened Forest
  import opened Index

  /** The two ways the rebuild stops: its guard against cycles, or a parent that is not stored. */
  datatype Trouble = CycleAbove(node: int) | NotStored(id: int)

  /** `row` is what walking up from its descendant gives. */
  ghost predicate Walked(n: Nodes, row: ClosureRow)
  {
    row.descendant in n && row.depth >= 0 && Anc(n, row.descendant, row.depth) == Some(row.ancestor)
  }

  ghost predicate WalkedFrom(n: Nodes, x: int, below: int, row: ClosureRow)
  {
    row.descendant == x && row.depth < below && Walked(n, row)
  }

  lemma AncNext(n: Nodes, x: int, k: nat)
    ensures Anc(n, x, k + 1) == match Anc(n, x, k) {
      case Some(a) => (if a in n then n[a].parent else None)
      case None => None }
  {
    AncSplit(n, x, k, 1);
    if Anc(n, x, k).Some? {
      var a := Anc(n, x, k).value;
      if a in n && n[a].parent.Some? {
        assert Anc(n, a, 1) == Anc(n, n[a].parent.value, 0);
      }
    }
  }

  lemma NoneAfter(n: Nodes, x: int, k: nat, row: ClosureRow)
    requires Anc(n, x, k).None? && row.descendant == x && Walked(n, row)
    ensures row.depth < k
  {
    if row.depth >= k {
      AncSplit(n, x, k, row.depth - k);
    }
  }

  /** `q` is not stored, and some stored node names it as its parent. */
  ghost predicate MissingParent(n: Nodes, q: int)
  {
    q !in n && exists y :: y in n && n[y].parent == Some(q)
  }

  /** What the rebuild complains of is there: a cycle at or above the named node, or a parent
      that is not stored. */
  ghost predicate Justified(n: Nodes, e: Trouble)
  {
    match e
    case CycleAbove(x) => x in n && MeetsCycle(n, x)
    case NotStored(q) => MissingParent(n, q)
  }

  /** A walk that meets a cycle is at one node twice. */
  lemma CycleComesBack(n: Nodes, x: int)
    requires MeetsCycle(n, x)
    ensures exists i: nat, m: nat :: i < m && Anc(n, x, i).Some? && Anc(n, x, i) == Anc(n, x, m)
  {
    var i: nat, m: nat :| CycleAt(n, x, i, m);
    AncSplit(n, x, i, m);
    assert i < i + m && Anc(n, x, i) == Anc(n, x, i + m);
  }

  lemma JustifiedBroken(n: Nodes, e: Trouble)
    requires Justified(n, e)
    ensures !RefClosed(n) || !Acyclic(n)
  {
    if e.CycleAbove? {
      MeetsCycleNotAcyclic(n, e.node);
    }
  }

  /** All chains from `done` end inside the table. */
  ghost predicate Ends(n: Nodes, x: int)
  {
    exists k: nat :: Anc(n, x, k).None?
  }

  lemma EndsNoCycle(n: Nodes, x: int, k: nat)
    requires Ends(n, x)
    ensures !OnCycle(n, x, k)
  {
    if OnCycle(n, x, k) {
      var e: nat :| Anc(n, x, e).None?;
      Laps(n, x, k, e);
    }
  }

  lemma {:induction false} Laps(n: Nodes, x: int, k: nat, e: nat)
    requires OnCycle(n, x, k)
    ensures Anc(n, x, e).Some?
    decreases e
  {
    if e < k {
      AncSplit(n, x, e, k - e);
    } else {
      Laps(n, x, k, e - k);
      AncSplit(n, x, k, e - k);
    }
  }

  /** The rebuild succeeds exactly on reference-closed forests, and then its rows are exactly
      those walking up gives. When the guard at `depth <= len(parents)` trips, the walk from the
      node it names does meet a cycle; the other failure names a parent that is not stored. */
  method ClosureFromParentEdges(n: Nodes) returns (r: Result<set<ClosureRow>, Trouble>)
    ensures r.Ok? <==> RefClosed(n) && Acyclic(n)
    ensures r.Err? ==> Justified(n, r.error)
    ensures r.Err? && r.error.CycleAbove? ==>
      r.error.node in n && exists i: nat, m: nat :: i < m && Anc(n, r.error.node, i).Some?
                                                    && Anc(n, r.error.node, i) == Anc(n, r.error.node, m)
    ensures r.Err? && r.error.NotStored? ==>
      r.error.id !in n && exists y :: y in n && n[y].parent == Some(r.error.id)
    ensures r.Ok? ==> forall row :: row in r.value <==> Walked(n, row)
  {
    var rows: set<ClosureRow> := {};
    var left := n.Keys;
    while left != {}
      invariant left <= n.Keys
      invariant forall row :: row in rows <==> row.descendant !in left && Walked(n, row)
      invariant forall x :: x in n && x !in left ==> Ends(n, x)
      invariant forall x :: x in n && x !in left && n[x].parent.Some? ==> n[x].parent.value in n
      decreases |left|
    {
      ghost var some := Pick(left);
      var x :| x in left;
      ghost var before := rows;
      rows := rows + {ClosureRow(x, x, 0)};
      var ancestor := n[x].parent;
      var depth := 1;
      AncNext(n, x, 0);
      while ancestor.Some?
        invariant 1 <= depth <= |n| + 1
        invariant ancestor == Anc(n, x, depth)
        invariant forall row :: row in rows <==> row in before || WalkedFrom(n, x, depth, row)
        invariant Anc(n, x, depth - 1).Some? && Anc(n, x, depth - 1).value in n
        invariant ancestor == n[Anc(n, x, depth - 1).value].parent
        invariant depth > 1 && n[x].parent.Some? ==> n[x].parent.value in n
        decreases |n| + 1 - depth
      {
        rows := rows + {ClosureRow(ancestor.value, x, depth)};
        if depth > |n| {
          LongChainMeetsCycle(n, x, depth - 1);
          CycleComesBack(n, x);
          JustifiedBroken(n, CycleAbove(x));
          return Err(CycleAbove(x));
        }
        if ancestor.value !in n {
          ghost var child := Anc(n, x, depth - 1).value;
          assert child in n && n[child].parent == Some(ancestor.value);
          JustifiedBroken(n, NotStored(ancestor.value));
          return Err(NotStored(ancestor.value));
        }
        AncNext(n, x, depth);
        ancestor := n[ancestor.value].parent;
        depth := depth + 1;
      }
      assert Ends(n, x);
      forall row
        ensures row in rows <==> row.descendant !in left - {x} && Walked(n, row)
      {
        if row.descendant == x && Walked(n, row) {
          NoneAfter(n, x, depth, row);
        }
      }
      left := left - {x};
    }
    forall x, k: nat | x in n
      ensures !OnCycle(n, x, k)
    {
      EndsNoCycle(n, x, k);
    }
    return Ok(rows);
  }

  ghost function StoredRows(t: Tables): set<ClosureRow>
  {
    set p | p in t.closure :: ClosureRow(p.ancestor, p.descendant, t.closure[p])
  }

  /** Comparing the stored rows with the rebuilt ones is a complete test: they are the same set
      exactly when the index is exact. */
  lemma ComparisonDecides(t: Tables, rebuilt: set<ClosureRow>)
    requires forall row :: row in rebuilt <==> Walked(t.nodes, row)
    ensures StoredRows(t) == rebuilt <==> Exact(t)
  {
    if Exact(t) {
      forall row | row in StoredRows(t)
        ensures row in rebuilt
      {
        var p :| p in t.closure && row == ClosureRow(p.ancestor, p.descendant, t.closure[p]);
        assert RowRight(t, p);
      }
      forall row | row in rebuilt
        ensures row in StoredRows(t)
      {
        RowFor(t, row.descendant, row.depth, row.ancestor);
        var p := Key(row.ancestor, row.descendant);
        assert row == ClosureRow(p.ancestor, p.descendant, t.closure[p]);
      }
    }
    if StoredRows(t) == rebuilt {
      forall p | p in t.closure
        ensures RowRight(t, p)
      {
        assert ClosureRow(p.ancestor, p.descendant, t.closure[p]) in StoredRows(t);
      }
      forall d, k: nat | d in t.nodes
        ensures RowPresent(t, d, k)
      {
        if Anc(t.nodes, d, k).Some? {
          var row := ClosureRow(Anc(t.nodes, d, k).value, d, k);
          assert Walked(t.nodes, row) && row in StoredRows(t);
          var p :| p in t.closure && row == ClosureRow(p.ancestor, p.descendant, t.closure[p]);
        }
      }
    }
  }

  /** Every stored distance is below the number of stored nodes. */
  lemma DepthsBounded(t: Tables, p: Key)
    requires Inv(t) && p in t.closure
    ensures 0 <= t.closure[p] < |t.nodes|
  {
    assert RowRight(t, p);
    InvAcyclic(t);
    ChainBounded(t.nodes, p.descendant, t.closure[p]);
  }
}
