/** The statements of `store_hierarchy`, one after another: none is refused, and the last one
    leaves an exact index. */
module WritePath {
  import opened Types
  import opened Forest
  import opened Flatten
  import opened Closure
  import opened Statements
  import opened Constraints
  import opened Index
  import opened Post

  /** What holds once the payload is flattened, the lock is held, the ancestors are captured
      and the cycle check has passed. */
  ghost predicate Ready(t: Tables, s: seq<PayloadNode>, captured: seq<AncestorRow>)
  {
    && Inv(t) && Flat(s)
    && Lists(captured, AncestorRows(t, s[0].id))
    && IdsOf(s) !! AncestorIds(AncestorRows(t, s[0].id))
  }

  ghost function Root(s: seq<PayloadNode>): int
    requires s != []
  {
    s[0].id
  }

  /** The stored nodes the payload drops. */
  ghost function Doomed(t: Tables, s: seq<PayloadNode>): set<int>
  {
    DescendantIds(t, IdsOf(s)) - IdsOf(s)
  }

  ghost function UpsertRows(t: Tables, s: seq<PayloadNode>): seq<NodeRow>
    requires s != []
  {
    PayloadRows(s, ParentOf(t.nodes, Root(s)))
  }

  ghost function AfterUpsert(t: Tables, s: seq<PayloadNode>): Tables
    requires s != []
  {
    Tables(WithPayload(t.nodes, s), t.closure)
  }

  ghost function AfterDelete(t: Tables, s: seq<PayloadNode>): Tables
    requires s != []
  {
    var u := AfterUpsert(t, s);
    Tables(u.nodes - Doomed(t, s), u.closure - KeysTouching(u, Doomed(t, s)))
  }

  ghost function AfterClear(t: Tables, s: seq<PayloadNode>): Tables
    requires s != []
  {
    var u := AfterDelete(t, s);
    Tables(u.nodes, u.closure - KeysUnder(u, IdsOf(s)))
  }

  ghost function NewRows(s: seq<PayloadNode>, captured: seq<AncestorRow>): seq<ClosureRow>
  {
    ClosureOf(PayloadTable(s, None), s, captured)
  }

  ghost function AfterInsert(t: Tables, s: seq<PayloadNode>, captured: seq<AncestorRow>): Tables
    requires s != []
  {
    var u := AfterClear(t, s);
    Tables(u.nodes, u.closure + PairTable(NewRows(s, captured)))
  }

  lemma ReadyAccepts(t: Tables, s: seq<PayloadNode>, captured: seq<AncestorRow>)
    requires Ready(t, s, captured)
    ensures Accepts(t.nodes, s)
    ensures DescendantIds(t, IdsOf(s)) == Desc(t.nodes, IdsOf(s))
  {
    InvAcyclic(t);
    AncestorIdsAreAncestors(t, Root(s));
    DescendantsAreDesc(t, IdsOf(s));
  }

  // ----- The nodes table

  /** The upsert names no row twice, and every parent it names is stored when it ends. */
  lemma UpsertAccepted(t: Tables, s: seq<PayloadNode>, captured: seq<AncestorRow>)
    requires Ready(t, s, captured)
    ensures Upsert(t, UpsertRows(t, s)).Ok?
    ensures View(t, Upsert(t, UpsertRows(t, s)).value) == AfterUpsert(t, s)
  {
    UpsertRefClosed(t.nodes, s);
    UpsertGuardsParents(t, UpsertRows(t, s));
    UpsertWrites(t, UpsertRows(t, s));
  }

  lemma DeletedNodes(t: Tables, s: seq<PayloadNode>, captured: seq<AncestorRow>)
    requires Ready(t, s, captured)
    ensures AfterDelete(t, s).nodes == PostNodes(t.nodes, s)
  {
    ReadyAccepts(t, s, captured);
    PayloadTableAt(s, ParentOf(t.nodes, Root(s)));
  }

  lemma UpsertEndpoints(t: Tables, s: seq<PayloadNode>)
    requires Inv(t) && s != []
    ensures EndpointsStored(AfterUpsert(t, s))
  {
    InvConstraints(t);
  }

  lemma NobodyOrphaned(t: Tables, s: seq<PayloadNode>, captured: seq<AncestorRow>)
    requires Ready(t, s, captured)
    ensures Delete(AfterUpsert(t, s), Doomed(t, s)).Ok?
  {
    ReadyAccepts(t, s, captured);
    DeletedNodes(t, s, captured);
    UpsertRefClosed(t.nodes, s);
    PostRefClosed(t.nodes, s);
    DeleteGuardsParents(AfterUpsert(t, s), Doomed(t, s));
  }

  /** Once the payload is in place, what is doomed is closed under descendants: the delete
      orphans nobody. */
  lemma DeleteAccepted(t: Tables, s: seq<PayloadNode>, captured: seq<AncestorRow>)
    requires Ready(t, s, captured)
    ensures Delete(AfterUpsert(t, s), Doomed(t, s)).Ok?
    ensures View(AfterUpsert(t, s), Delete(AfterUpsert(t, s), Doomed(t, s)).value) == AfterDelete(t, s)
    ensures Doomed(t, s) == {} ==> AfterDelete(t, s) == AfterUpsert(t, s)
  {
    NobodyOrphaned(t, s, captured);
    UpsertEndpoints(t, s);
    DeleteCascades(AfterUpsert(t, s), Doomed(t, s));
  }

  /** Deleting first would be refused exactly when the payload moves some stored node out from
      under a node that is going away. */
  lemma DeleteFirstRefused(t: Tables, s: seq<PayloadNode>)
    requires Inv(t) && Flat(s)
    ensures Delete(t, Doomed(t, s)) == Err(Restricted) <==>
      exists x :: x in IdsOf(s) && x in t.nodes && t.nodes[x].parent.Some? && t.nodes[x].parent.value in Doomed(t, s)
  {
    var n, gone := t.nodes, Doomed(t, s);
    DescendantsAreDesc(t, IdsOf(s));
    assert gone * n.Keys == gone;
    forall x | x in n && x !in gone && n[x].parent.Some? && n[x].parent.value in gone
      ensures x in IdsOf(s)
    {
      assert Anc(n, x, 1) == Anc(n, n[x].parent.value, 0);
      DescDown(n, IdsOf(s), n[x].parent.value, x, 1);
    }
  }

  // ----- The closure table

  /** The rows the two deletes leave are exactly those of the descendants outside the payload's
      reach, and none of them names a payload node or a doomed node as ancestor. */
  lemma RowsLeftAlone(t: Tables, s: seq<PayloadNode>, p: Key)
    requires Inv(t) && Flat(s)
    ensures p in AfterClear(t, s).closure <==> p in t.closure && p.descendant !in Desc(t.nodes, IdsOf(s))
    ensures p in AfterClear(t, s).closure ==>
      p.ancestor !in Desc(t.nodes, IdsOf(s)) && AfterClear(t, s).closure[p] == t.closure[p]
  {
    DescendantsAreDesc(t, IdsOf(s));
    if p in t.closure {
      assert RowRight(t, p);
      if p.descendant !in Desc(t.nodes, IdsOf(s)) {
        OutsideUp(t.nodes, s, p.descendant, t.closure[p], p.ancestor);
        if p.descendant in IdsOf(s) {
          PayloadInDesc(t.nodes, s, p.descendant);
        }
      }
    }
  }

  /** The captured rows are distinct ids outside the payload, each at its distance above the root. */
  lemma CapturedOutside(t: Tables, s: seq<PayloadNode>, captured: seq<AncestorRow>)
    requires Ready(t, s, captured)
    ensures Outside(s, captured)
    ensures forall j :: 0 <= j < |captured| ==>
      && captured[j].depth > 0
      && Anc(t.nodes, Root(s), captured[j].depth) == Some(captured[j].ancestor)
      && captured[j].ancestor in PostNodes(t.nodes, s)
  {
    var r := Root(s);
    ReadyAccepts(t, s, captured);
    GraftedTables(t.nodes, s);
    forall j | 0 <= j < |captured|
      ensures r in t.nodes && captured[j].depth > 0
      ensures Anc(t.nodes, r, captured[j].depth) == Some(captured[j].ancestor)
      ensures captured[j].ancestor in PostNodes(t.nodes, s)
      ensures captured[j].ancestor !in IdsOf(s)
    {
      var row := captured[j];
      assert row in AncestorRows(t, r);
      AncestorRowsWalk(t, r, row);
      AboveRootOutside(t.nodes, s, row.depth, row.ancestor);
      assert row.ancestor in AncestorIds(AncestorRows(t, r));
    }
    forall i, j | 0 <= i < j < |captured|
      ensures captured[i].ancestor != captured[j].ancestor
    {
      assert captured[i] != captured[j];
      if captured[i].ancestor == captured[j].ancestor {
        AncOnce(t.nodes, r, captured[i].depth, captured[j].depth);
      }
    }
  }

  lemma WalkRowRight(t: Tables, s: seq<PayloadNode>, captured: seq<AncestorRow>, i: int, k: nat)
    requires Ready(t, s, captured) && 0 <= i < |s| && k <= s[i].depth
    ensures var row := WalkRows(PayloadTable(s, None), s[i])[k];
      && row.depth == k && row.descendant == s[i].id && row.ancestor in IdsOf(s)
      && Anc(PostNodes(t.nodes, s), s[i].id, k) == Some(row.ancestor)
  {
    ReadyAccepts(t, s, captured);
    GraftedTables(t.nodes, s);
    PayloadCarried(s, None);
    WalkAncestor(PayloadTable(s, None), s, i, k);
    PayloadWalk(t.nodes, s, PostNodes(t.nodes, s), i, k);
  }

  lemma GraftRowRight(t: Tables, s: seq<PayloadNode>, captured: seq<AncestorRow>, i: int, j: int)
    requires Ready(t, s, captured) && 0 <= i < |s| && 0 <= j < |captured|
    ensures var row := GraftRows(s[i], captured)[j];
      && row.depth > s[i].depth && row.descendant == s[i].id && row.ancestor in PostNodes(t.nodes, s)
      && Anc(PostNodes(t.nodes, s), s[i].id, row.depth) == Some(row.ancestor)
  {
    ReadyAccepts(t, s, captured);
    GraftedTables(t.nodes, s);
    CapturedOutside(t, s, captured);
    PayloadWalk(t.nodes, s, PostNodes(t.nodes, s), i, captured[j].depth + s[i].depth);
  }

  /** Every row `closure_rows` emits states a true distance in the new forest. */
  lemma NewRowRight(t: Tables, s: seq<PayloadNode>, captured: seq<AncestorRow>, row: ClosureRow)
    requires Ready(t, s, captured) && row in NewRows(s, captured)
    ensures row.depth >= 0 && row.descendant in IdsOf(s)
    ensures row.ancestor in PostNodes(t.nodes, s) && row.descendant in PostNodes(t.nodes, s)
    ensures Anc(PostNodes(t.nodes, s), row.descendant, row.depth) == Some(row.ancestor)
  {
    var n, pt := t.nodes, PayloadTable(s, None);
    PayloadTableAt(s, ParentOf(n, Root(s)));
    var i := ClosureFrom(pt, s, captured, row);
    assert s[i].id in IdsOf(s);
    if row in WalkRows(pt, s[i]) {
      var k :| 0 <= k < |WalkRows(pt, s[i])| && WalkRows(pt, s[i])[k] == row;
      WalkRowRight(t, s, captured, i, k);
    } else {
      var j :| 0 <= j < |GraftRows(s[i], captured)| && GraftRows(s[i], captured)[j] == row;
      GraftRowRight(t, s, captured, i, j);
    }
  }

  /** Every step up from a payload node in the new forest has its row among those emitted. */
  lemma NewRowPresent(t: Tables, s: seq<PayloadNode>, captured: seq<AncestorRow>, i: int, k: nat)
    requires Ready(t, s, captured) && 0 <= i < |s|
    requires Anc(PostNodes(t.nodes, s), s[i].id, k).Some?
    ensures ClosureRow(Anc(PostNodes(t.nodes, s), s[i].id, k).value, s[i].id, k) in NewRows(s, captured)
  {
    var n, m, pt := t.nodes, PostNodes(t.nodes, s), PayloadTable(s, None);
    var row := ClosureRow(Anc(m, s[i].id, k).value, s[i].id, k);
    ReadyAccepts(t, s, captured);
    GraftedTables(n, s);
    PayloadCarried(s, None);
    PayloadWalk(n, s, m, i, k);
    if k <= s[i].depth {
      WalkAncestor(pt, s, i, k);
      assert WalkRows(pt, s[i])[k] == row;
    } else {
      var up := AncestorRow(row.ancestor, k - s[i].depth);
      AncestorsHas(n, Root(s), up.ancestor, up.depth);
      AncestorRowsWalk(t, Root(s), up);
      var j :| 0 <= j < |captured| && captured[j] == up;
      assert GraftRows(s[i], captured)[j] == row;
    }
    ClosureHas(pt, s, captured, i, row);
  }

  lemma InsertedPairs(s: seq<PayloadNode>, captured: seq<AncestorRow>, p: Key) returns (row: ClosureRow)
    requires !RepeatsPair(NewRows(s, captured)) && p in PairTable(NewRows(s, captured))
    ensures row in NewRows(s, captured) && PairOf(row) == p && PairTable(NewRows(s, captured))[p] == row.depth
  {
    var rows := NewRows(s, captured);
    PairTableAt(rows);
    var i :| 0 <= i < |rows| && PairOf(rows[i]) == p;
    row := rows[i];
  }

  lemma AllRowsRight(t: Tables, s: seq<PayloadNode>, captured: seq<AncestorRow>, p: Key)
    requires Ready(t, s, captured) && p in AfterInsert(t, s, captured).closure
    ensures RowRight(AfterInsert(t, s, captured), p)
  {
    var u := AfterInsert(t, s, captured);
    ReadyAccepts(t, s, captured);
    DeletedNodes(t, s, captured);
    CapturedOutside(t, s, captured);
    NoPairTwice(s, captured);
    if p in PairTable(NewRows(s, captured)) {
      var row := InsertedPairs(s, captured, p);
      NewRowRight(t, s, captured, row);
    } else {
      RowsLeftAlone(t, s, p);
      assert RowRight(t, p);
      GraftedTables(t.nodes, s);
      OutsideWalk(t.nodes, s, u.nodes, p.descendant, t.closure[p]);
    }
  }

  lemma AllRowsPresent(t: Tables, s: seq<PayloadNode>, captured: seq<AncestorRow>, d: int, k: nat)
    requires Ready(t, s, captured) && d in PostNodes(t.nodes, s)
    ensures RowPresent(AfterInsert(t, s, captured), d, k)
  {
    var u := AfterInsert(t, s, captured);
    ReadyAccepts(t, s, captured);
    DeletedNodes(t, s, captured);
    CapturedOutside(t, s, captured);
    NoPairTwice(s, captured);
    PayloadTableAt(s, ParentOf(t.nodes, Root(s)));
    if Anc(u.nodes, d, k).Some? {
      var p := Key(Anc(u.nodes, d, k).value, d);
      if d in IdsOf(s) {
        var i := IdIndex(s, d);
        NewRowPresent(t, s, captured, i, k);
        PairTableAt(NewRows(s, captured));
      } else {
        GraftedTables(t.nodes, s);
        OutsideWalk(t.nodes, s, u.nodes, d, k);
        RowFor(t, d, k, p.ancestor);
        RowsLeftAlone(t, s, p);
        if p in PairTable(NewRows(s, captured)) {
          var row := InsertedPairs(s, captured, p);
          NewRowRight(t, s, captured, row);
        }
      }
    }
  }

  /** After the last statement the forest is what the post makes of it and the index is exact. */
  lemma InvAfterInsert(t: Tables, s: seq<PayloadNode>, captured: seq<AncestorRow>)
    requires Ready(t, s, captured)
    ensures AfterInsert(t, s, captured).nodes == PostNodes(t.nodes, s)
    ensures Inv(AfterInsert(t, s, captured))
  {
    var u := AfterInsert(t, s, captured);
    DeletedNodes(t, s, captured);
    ReadyAccepts(t, s, captured);
    PostRefClosed(t.nodes, s);
    forall p | p in u.closure
      ensures RowRight(u, p)
    {
      AllRowsRight(t, s, captured, p);
    }
    forall d, k: nat | d in u.nodes
      ensures RowPresent(u, d, k)
    {
      AllRowsPresent(t, s, captured, d, k);
    }
  }

  /** No pair about to be inserted is still stored. */
  lemma NewPairsUnused(t: Tables, s: seq<PayloadNode>, captured: seq<AncestorRow>)
    requires Ready(t, s, captured) && !RepeatsPair(NewRows(s, captured))
    ensures forall i :: 0 <= i < |NewRows(s, captured)| ==> !StoredAlready(AfterClear(t, s), NewRows(s, captured)[i])
    ensures PairTable(NewRows(s, captured)).Keys !! AfterClear(t, s).closure.Keys
  {
    var v, rows := AfterClear(t, s), NewRows(s, captured);
    forall i | 0 <= i < |rows|
      ensures !StoredAlready(v, rows[i])
    {
      assert rows[i] in rows;
      NewRowRight(t, s, captured, rows[i]);
    }
    NewPairs(v, rows);
  }

  /** The inserted rows repeat no pair, stored or new, name stored endpoints at distances that
      are not negative, and leave at most one depth-1 row per descendant. */
  lemma InsertAccepted(t: Tables, s: seq<PayloadNode>, captured: seq<AncestorRow>)
    requires Ready(t, s, captured)
    ensures InsertClosure(AfterClear(t, s), NewRows(s, captured)).Ok?
    ensures View(AfterClear(t, s), InsertClosure(AfterClear(t, s), NewRows(s, captured)).value)
         == AfterInsert(t, s, captured)
  {
    var v, rows, u := AfterClear(t, s), NewRows(s, captured), AfterInsert(t, s, captured);
    CapturedOutside(t, s, captured);
    NoPairTwice(s, captured);
    NewPairsUnused(t, s, captured);
    InvAfterInsert(t, s, captured);
    InvConstraints(u);
    PartConstraints(u, v);
    InsertGuardsClosure(v, rows);
    InsertAdds(v, rows);
  }

  /** Were the closure rows of a post to come with one more, giving the payload node `x` a second
      parent, the single-parent index alone would refuse them. */
  lemma StrayParentRefused(t: Tables, s: seq<PayloadNode>, captured: seq<AncestorRow>, a: int, x: int)
    requires Ready(t, s, captured) && x in IdsOf(s) && a in PostNodes(t.nodes, s)
    requires x in PostNodes(t.nodes, s) && PostNodes(t.nodes, s)[x].parent.Some?
    requires PostNodes(t.nodes, s)[x].parent.value != a
    requires Key(a, x) !in AfterInsert(t, s, captured).closure
    ensures InsertClosure(AfterClear(t, s), NewRows(s, captured) + [ClosureRow(a, x, 1)]) == Err(SecondParent)
  {
    var m, rows, extra := PostNodes(t.nodes, s), NewRows(s, captured), ClosureRow(a, x, 1);
    var v, all, q := AfterClear(t, s), rows + [extra], m[x].parent.value;
    InvAfterInsert(t, s, captured);
    CapturedOutside(t, s, captured);
    NoPairTwice(s, captured);
    var i := IdIndex(s, x);
    assert Anc(m, x, 1) == Anc(m, q, 0);
    NewRowPresent(t, s, captured, i, 1);
    assert StatesParent(v, all, q, x) && StatesParent(v, all, a, x);
    StrayPairNew(t, s, captured, a, x);
    StrayChecks(t, s, captured, a, x);
    InsertRefused(v, all);
  }

  lemma StrayPairOnce(t: Tables, s: seq<PayloadNode>, captured: seq<AncestorRow>, a: int, x: int)
    requires s != [] && Key(a, x) !in AfterInsert(t, s, captured).closure && !RepeatsPair(NewRows(s, captured))
    ensures !RepeatsPair(NewRows(s, captured) + [ClosureRow(a, x, 1)])
  {
    var rows := NewRows(s, captured);
    var all := rows + [ClosureRow(a, x, 1)];
    PairTableAt(rows);
    forall i, j | 0 <= i < j < |all|
      ensures PairOf(all[i]) != PairOf(all[j])
    {
      assert PairOf(rows[i]) in PairTable(rows);
    }
  }

  lemma StrayPairNew(t: Tables, s: seq<PayloadNode>, captured: seq<AncestorRow>, a: int, x: int)
    requires Ready(t, s, captured) && Key(a, x) !in AfterInsert(t, s, captured).closure
    requires !RepeatsPair(NewRows(s, captured))
    ensures !PairTaken(AfterClear(t, s), NewRows(s, captured) + [ClosureRow(a, x, 1)])
  {
    var v, rows := AfterClear(t, s), NewRows(s, captured);
    var all := rows + [ClosureRow(a, x, 1)];
    NewPairsUnused(t, s, captured);
    StrayPairOnce(t, s, captured, a, x);
    PairTakenMeans(v, all);
    forall i | 0 <= i < |all|
      ensures !StoredAlready(v, all[i])
    {
      assert i < |rows| ==> all[i] == rows[i];
    }
  }

  lemma StrayChecks(t: Tables, s: seq<PayloadNode>, captured: seq<AncestorRow>, a: int, x: int)
    requires Ready(t, s, captured) && a in PostNodes(t.nodes, s) && x in PostNodes(t.nodes, s)
    ensures forall row :: row in NewRows(s, captured) + [ClosureRow(a, x, 1)] ==>
      row.depth >= 0 && row.ancestor in AfterClear(t, s).nodes && row.descendant in AfterClear(t, s).nodes
  {
    DeletedNodes(t, s, captured);
    forall row | row in NewRows(s, captured)
      ensures row.depth >= 0 && row.ancestor in AfterClear(t, s).nodes && row.descendant in AfterClear(t, s).nodes
    {
      NewRowRight(t, s, captured, row);
    }
  }

  // ----- The whole write

  /** The statements of one accepted post of `p`, alone over `t`, leave `u`. */
  ghost predicate PostTakes(t: Tables, p: Tree, u: Tables)
  {
    && Flattened(p).Ok? && Flattened(p).value != []
    && exists captured :: Ready(t, Flattened(p).value, captured) && u == AfterInsert(t, Flattened(p).value, captured)
  }

  lemma {:induction false} PostedReady(t: Tables, p: Tree, captured: seq<AncestorRow>)
    requires Inv(t) && Posted(t.nodes, p).Ok? && Lists(captured, AncestorRows(t, p.id))
    ensures Flattened(p).Ok? && Ready(t, Flattened(p).value, captured)
    ensures Posted(t.nodes, p).value == PostNodes(t.nodes, Flattened(p).value)
  {
    InvAcyclic(t);
    PostedAccepts(t.nodes, p);
    AncestorIdsAreAncestors(t, p.id);
  }

  lemma {:induction false} ReadyPosted(t: Tables, p: Tree, captured: seq<AncestorRow>)
    requires Flattened(p).Ok? && Ready(t, Flattened(p).value, captured)
    ensures Posted(t.nodes, p) == Ok(PostNodes(t.nodes, Flattened(p).value))
  {
    FlattenMeaning(p);
    AncestorIdsAreAncestors(t, p.id);
  }

  /** Whatever order the captured rows come in, the statements take an exact index to the one
      exact index of the forest the post makes, and they do so exactly when the forest accepts it. */
  lemma {:induction false} PostTakesPosted(t: Tables, p: Tree, u: Tables)
    requires Inv(t)
    ensures PostTakes(t, p, u) <==> Posted(t.nodes, p) == Ok(u.nodes) && Inv(u)
  {
    if PostTakes(t, p, u) {
      var captured :| Ready(t, Flattened(p).value, captured) && u == AfterInsert(t, Flattened(p).value, captured);
      InvAfterInsert(t, Flattened(p).value, captured);
      ReadyPosted(t, p, captured);
    }
    if Posted(t.nodes, p) == Ok(u.nodes) && Inv(u) {
      var captured := ListExists(AncestorRows(t, p.id));
      PostedReady(t, p, captured);
      InvAfterInsert(t, Flattened(p).value, captured);
      ExactUnique(u, AfterInsert(t, Flattened(p).value, captured));
    }
  }

  /** The order of the captured rows leaves no trace. */
  lemma {:induction false} PostTakesOnce(t: Tables, p: Tree, u: Tables, v: Tables)
    requires PostTakes(t, p, u) && PostTakes(t, p, v)
    ensures u == v
  {
    PostTakesPosted(t, p, u);
    PostTakesPosted(t, p, v);
    ExactUnique(u, v);
  }
}
