/** The repository's own descriptions of what the database should contain, walked out of the
    nesting: the read of a stored hierarchy, and its closure. */
module Fixtures {
  import opened Types
  import opened Sorting
  import opened Payload
  import opened Forest
  import opened Flatten
  import opened Closure
  import opened Statements
  import opened Index
  import opened Post
  import opened Shown
  import opened Reading
  import opened Reposting
  import opened Oracle

  // ----- subtree_rows

  lemma AsReadConcat(a: seq<PayloadNode>, b: seq<PayloadNode>)
    ensures AsRead(a + b) == AsRead(a) + AsRead(b)
  {
  }

  /** Level by level, each sorted by id: the breadth-first listing, with the root's stated parent. */
  method SubtreeRowsOf(hierarchy: Tree, rootParent: Option<int>) returns (rows: seq<SubtreeRow>)
    ensures rows == AsRead(Bfs([Item(hierarchy, rootParent)], 0))
  {
    rows := [];
    var level := [Item(hierarchy, rootParent)];
    var depth: nat := 0;
    while |level| > 0
      invariant rows + AsRead(Bfs(level, depth)) == AsRead(Bfs([Item(hierarchy, rootParent)], 0))
      decreases |Under(level, depth)|
    {
      LevelShrinks(level, depth);
      level := SortBy(level, ItemId);
      AsReadConcat(Rows(level, depth), Bfs(Expand(level), depth + 1));
      rows := rows + AsRead(Rows(level, depth));
      level := Expand(level);
      depth := depth + 1;
    }
  }

  /** Only the root row depends on where the root hangs. */
  lemma {:induction false} ListingUnder(p: Tree, rootParent: Option<int>)
    ensures Listing(p) != [] && Listing(p)[0] == PayloadNode(p.id, p.typ, None, 0)
    ensures Bfs([Item(p, rootParent)], 0) == [PayloadNode(p.id, p.typ, rootParent, 0)] + Listing(p)[1..]
  {
    var a, b := [Item(p, rootParent)], [Item(p, None)];
    assert a[1..] == [] && b[1..] == [];
    assert SortBy(a, ItemId) == a && SortBy(b, ItemId) == b;
    assert Expand(a) == Expand(b);
    assert Rows(a, 0) == [Row(a[0], 0)] && Rows(b, 0) == [Row(b[0], 0)];
  }

  /** Row `i` of the listing when the root hangs from `rootParent`. */
  ghost function StatedRow(s: seq<PayloadNode>, rootParent: Option<int>, i: int): SubtreeRow
    requires 0 <= i < |s|
  {
    SubtreeRow(s[i].id, s[i].typ, if i == 0 then rootParent else s[i].parent, s[i].depth)
  }

  lemma {:induction false} ListedRowAt(p: Tree, rootParent: Option<int>)
    requires Flattened(p).Ok?
    ensures var s, rows := Flattened(p).value, AsRead(Bfs([Item(p, rootParent)], 0));
      |rows| == |s| && forall i :: 0 <= i < |s| ==> rows[i] == StatedRow(s, rootParent, i)
  {
    ListingUnder(p, rootParent);
    FlattenedIsListing(p);
  }

  lemma {:induction false} ListedRows(p: Tree, rootParent: Option<int>)
    requires Flattened(p).Ok?
    ensures var s, rows := Flattened(p).value, AsRead(Bfs([Item(p, rootParent)], 0));
      && |rows| == |s| && InReadOrder(rows)
      && forall i :: 0 <= i < |s| ==> rows[i] == StatedRow(s, rootParent, i)
  {
    var s, rows := Flattened(p).value, AsRead(Bfs([Item(p, rootParent)], 0));
    ListedRowAt(p, rootParent);
    FlattenMeaning(p);
    forall i, j | 0 <= i < j < |rows|
      ensures ReadsBefore(rows[i], rows[j])
    {
      assert rows[i] == StatedRow(s, rootParent, i) && rows[j] == StatedRow(s, rootParent, j);
      assert Before(s[i], s[j]);
    }
  }

  /** Right after an accepted post, reading the posted root returns exactly the rows this walk
      lists, in this order. */
  lemma {:induction false} ReadIsListing(n: Nodes, u: Tables, p: Tree)
    requires RefClosed(n) && Acyclic(n) && Posted(n, p) == Ok(u.nodes) && Inv(u)
    ensures IsRead(u, p.id, AsRead(Bfs([Item(p, ParentOf(n, p.id))], 0)))
  {
    PostedAccepts(n, p);
    var s, rows := Flattened(p).value, AsRead(Bfs([Item(p, ParentOf(n, p.id))], 0));
    ListedRows(p, ParentOf(n, p.id));
    forall x
      ensures x in rows <==> x in SubtreeRows(u, p.id)
    {
      if x in rows {
        var i :| 0 <= i < |rows| && rows[i] == x;
        ListedIsStored(n, s, u, i, x);
      }
      if x in SubtreeRows(u, p.id) {
        var i := StoredIsListed(n, s, u, x);
        assert rows[i] == x;
      }
    }
  }

  lemma ListedIsStored(n: Nodes, s: seq<PayloadNode>, u: Tables, i: int, x: SubtreeRow)
    requires Accepts(n, s) && u.nodes == PostNodes(n, s) && Inv(u) && 0 <= i < |s|
    requires x == StatedRow(s, ParentOf(n, s[0].id), i)
    ensures x in SubtreeRows(u, s[0].id)
  {
    GraftedTables(n, s);
    PayloadTableAt(s, ParentOf(n, s[0].id));
    PayloadWalk(n, s, u.nodes, i, s[i].depth);
    OneRoot(s, i);
    ReadRow(u, s[0].id, x);
  }

  lemma BelowRootListed(n: Nodes, s: seq<PayloadNode>, x: int, k: nat)
    requires Accepts(n, s) && x in PostNodes(n, s) && Anc(PostNodes(n, s), x, k) == Some(s[0].id)
    ensures x in IdsOf(s)
  {
    assert s[0].id in IdsOf(s);
    DescHas(PostNodes(n, s), IdsOf(s), s[0].id, x, k);
    DescAfter(n, s);
  }

  lemma StoredIsListed(n: Nodes, s: seq<PayloadNode>, u: Tables, x: SubtreeRow) returns (i: int)
    requires Accepts(n, s) && u.nodes == PostNodes(n, s) && Inv(u)
    requires x in SubtreeRows(u, s[0].id)
    ensures 0 <= i < |s|
    ensures x == StatedRow(s, ParentOf(n, s[0].id), i)
  {
    ReadRow(u, s[0].id, x);
    BelowRootListed(n, s, x.id, x.depth);
    i := IdIndex(s, x.id);
    GraftedTables(n, s);
    PayloadTableAt(s, ParentOf(n, s[0].id));
    PayloadWalk(n, s, u.nodes, i, s[i].depth);
    OneRoot(s, i);
    InvAcyclic(u);
    AncOnce(u.nodes, x.id, x.depth, s[i].depth);
  }

  // ----- closure_rows

  /** The rows naming the last node of `chain` as descendant, nearest ancestor first. */
  function ChainRows(chain: seq<int>): (r: seq<ClosureRow>)
    requires chain != []
    ensures |r| == |chain|
  {
    seq(|chain|, k requires 0 <= k < |chain| =>
      ClosureRow(chain[|chain| - 1 - k], chain[|chain| - 1], k))
  }

  /** Every row of the nodes in `ts`, which hang at the end of the chain `above`. */
  ghost function NestedRows(ts: seq<Tree>, above: seq<int>): multiset<ClosureRow>
  {
    if ts == [] then multiset{}
    else multiset(ChainRows(above + [ts[0].id]))
         + NestedRows(ts[0].children, above + [ts[0].id])
         + NestedRows(ts[1..], above)
  }

  datatype Visit = Visit(node: Tree, above: seq<int>)

  function VisitsFor(ts: seq<Tree>, above: seq<int>): (r: seq<Visit>)
    ensures |r| == |ts|
  {
    seq(|ts|, i requires 0 <= i < |ts| => Visit(ts[i], above))
  }

  ghost function Owed(pending: seq<Visit>): multiset<ClosureRow>
  {
    if pending == [] then multiset{}
    else NestedRows([pending[0].node], pending[0].above) + Owed(pending[1..])
  }

  ghost function Remaining(pending: seq<Visit>): nat
  {
    if pending == [] then 0 else |Dfs([pending[0].node], None, 0)| + Remaining(pending[1..])
  }

  lemma {:induction false} OwedConcat(a: seq<Visit>, b: seq<Visit>)
    ensures Owed(a + b) == Owed(a) + Owed(b)
    ensures Remaining(a + b) == Remaining(a) + Remaining(b)
  {
    if a == [] {
      assert a + b == b;
    } else {
      assert (a + b)[1..] == a[1..] + b;
      OwedConcat(a[1..], b);
    }
  }

  lemma {:induction false} DfsLength(ts: seq<Tree>, p: Option<int>, d: nat, q: Option<int>, e: nat)
    ensures |Dfs(ts, p, d)| == |Dfs(ts, q, e)|
  {
    if ts == [] {
    } else {
      DfsLength(ts[1..], p, d, q, e);
      DfsLength(ts[0].children, Some(ts[0].id), d + 1, Some(ts[0].id), e + 1);
    }
  }

  lemma {:induction false} NestedHead(ts: seq<Tree>, above: seq<int>)
    requires ts != []
    ensures NestedRows([ts[0]], above)
         == multiset(ChainRows(above + [ts[0].id])) + NestedRows(ts[0].children, above + [ts[0].id])
    ensures NestedRows(ts, above) == NestedRows([ts[0]], above) + NestedRows(ts[1..], above)
  {
    assert [ts[0]][1..] == [];
  }

  lemma {:induction false} OwedOne(t: Visit)
    ensures Owed([t]) == NestedRows([t.node], t.above)
    ensures Remaining([t]) == |Dfs([t.node], None, 0)|
  {
    assert [t][1..] == [];
  }

  lemma {:induction false} OwedVisits(ts: seq<Tree>, above: seq<int>)
    ensures Owed(VisitsFor(ts, above)) == NestedRows(ts, above)
    ensures Remaining(VisitsFor(ts, above)) == |Dfs(ts, None, 0)|
  {
    if ts == [] {
    } else {
      var visits, head, rest := VisitsFor(ts, above), Visit(ts[0], above), VisitsFor(ts[1..], above);
      assert visits == [head] + rest;
      OwedConcat([head], rest);
      OwedOne(head);
      OwedVisits(ts[1..], above);
      NestedHead(ts, above);
      DfsHead(ts, None, 0);
    }
  }

  /** Popping a visit leaves its rows done and its children's owed. */
  lemma {:induction false} PopVisit(pending: seq<Visit>)
    requires pending != []
    ensures var l := |pending| - 1;
      var t := pending[l].node;
      var chain := pending[l].above + [t.id];
      var rest := pending[..l] + VisitsFor(t.children, chain);
      && Owed(pending) == multiset(ChainRows(chain)) + Owed(rest)
      && Remaining(rest) < Remaining(pending)
  {
    var l := |pending| - 1;
    var top := pending[l];
    var t := top.node;
    var chain := top.above + [t.id];
    assert pending == pending[..l] + [top];
    OwedConcat(pending[..l], [top]);
    OwedOne(top);
    OwedConcat(pending[..l], VisitsFor(t.children, chain));
    OwedVisits(t.children, chain);
    NestedHead([t], top.above);
    DfsHead([t], None, 0);
    DfsLength(t.children, Some(t.id), 1, None, 0);
  }

  /** The stack of pending nodes, each with the chain above it. */
  method NestedClosureRows(hierarchy: Tree) returns (rows: seq<ClosureRow>)
    ensures multiset(rows) == NestedRows([hierarchy], [])
  {
    rows := [];
    var pending := [Visit(hierarchy, [])];
    assert pending[1..] == [];
    while |pending| > 0
      invariant multiset(rows) + Owed(pending) == NestedRows([hierarchy], [])
      decreases Remaining(pending)
    {
      PopVisit(pending);
      var visit := pending[|pending| - 1];
      pending := pending[..|pending| - 1];
      var chain := visit.above + [visit.node.id];
      rows := rows + ChainRows(chain);
      pending := pending + VisitsFor(visit.node.children, chain);
    }
  }

  /** `chain` is the walk up from `x`, read backwards. */
  ghost predicate ChainTo(n: Nodes, x: int, chain: seq<int>)
  {
    && (forall k :: 0 <= k < |chain| ==> Anc(n, x, k) == Some(chain[|chain| - 1 - k]))
    && Anc(n, x, |chain|).None?
  }

  /** `above` is the walk up from `parent`, read backwards. */
  ghost predicate ChainAbove(n: Nodes, parent: Option<int>, above: seq<int>)
  {
    match parent
    case None => above == []
    case Some(q) => ChainTo(n, q, above)
  }

  lemma ChainGrowsDown(n: Nodes, x: int, above: seq<int>)
    requires x in n && ChainAbove(n, n[x].parent, above)
    ensures ChainTo(n, x, above + [x])
  {
    var chain := above + [x];
    forall k | 0 <= k < |chain|
      ensures Anc(n, x, k) == Some(chain[|chain| - 1 - k])
    {
      if k > 0 {
        assert Anc(n, n[x].parent.value, k - 1) == Some(above[|above| - 1 - (k - 1)]);
      }
    }
  }

  lemma ChainRowsWalked(n: Nodes, x: int, chain: seq<int>, row: ClosureRow)
    requires x in n && chain != [] && chain[|chain| - 1] == x && ChainTo(n, x, chain)
    ensures row in ChainRows(chain) <==> row.descendant == x && Walked(n, row)
  {
    if row in ChainRows(chain) {
      var k :| 0 <= k < |chain| && ChainRows(chain)[k] == row;
    }
    if row.descendant == x && Walked(n, row) {
      NoneAfter(n, x, |chain|, row);
      assert ChainRows(chain)[row.depth] == row;
    }
  }

  lemma {:induction false} NestedRowsWalked(n: Nodes, ts: seq<Tree>, parent: Option<int>, above: seq<int>,
                                            row: ClosureRow)
    requires Agrees(n, ts, parent) && ChainAbove(n, parent, above)
    ensures row in NestedRows(ts, above) <==> row.descendant in IdSet(ts) && Walked(n, row)
  {
    if ts == [] {
    } else {
      var x, chain := ts[0].id, above + [ts[0].id];
      ChainGrowsDown(n, x, above);
      ChainRowsWalked(n, x, chain, row);
      assert row in multiset(ChainRows(chain)) <==> row in ChainRows(chain);
      NestedRowsWalked(n, ts[0].children, Some(x), chain, row);
      NestedRowsWalked(n, ts[1..], parent, above, row);
    }
  }

  /** The rows carried forward over a flattened payload that captured nothing. */
  lemma ForwardRowsWalked(s: seq<PayloadNode>, row: ClosureRow)
    requires Flat(s)
    ensures row in ClosureOf(PayloadTable(s, None), s, [])
        <==> row.descendant in IdsOf(s) && Walked(PayloadTable(s, None), row)
  {
    var n := PayloadTable(s, None);
    PayloadTableAt(s, None);
    PayloadCarried(s, None);
    if row in ClosureOf(n, s, []) {
      var i := ClosureFrom(n, s, [], row);
      var k :| 0 <= k < |WalkRows(n, s[i])| && WalkRows(n, s[i])[k] == row;
      WalkUp(n, s, i, k);
      assert s[i].id in IdsOf(s);
    }
    if row.descendant in IdsOf(s) && Walked(n, row) {
      var i := IdIndex(s, row.descendant);
      WithinDepth(s, i, row);
      assert WalkRows(n, s[i])[row.depth] == row;
      ClosureHas(n, s, [], i, row);
    }
  }

  lemma WithinDepth(s: seq<PayloadNode>, i: int, row: ClosureRow)
    requires Flat(s) && 0 <= i < |s| && row.descendant == s[i].id && Walked(PayloadTable(s, None), row)
    ensures row.depth <= s[i].depth
  {
    var n := PayloadTable(s, None);
    PayloadTableAt(s, None);
    PayloadCarried(s, None);
    if row.depth > s[i].depth {
      WalkPastRoot(n, s, i, row.depth - s[i].depth);
    }
  }

  /** Two derivations of one closure: the rows carried forward over the flattened payload and the
      rows walked out of the nesting are the same set. */
  lemma {:induction false} DerivationsAgree(p: Tree, row: ClosureRow)
    requires Flattened(p).Ok?
    ensures row in ClosureOf(PayloadTable(Flattened(p).value, None), Flattened(p).value, [])
        <==> row in NestedRows([p], [])
  {
    FlattenMeaning(p);
    var s := Flattened(p).value;
    var n := PayloadTable(s, None);
    PayloadAgrees(n, p, s, None);
    NestedRowsWalked(n, [p], None, [], row);
    ForwardRowsWalked(s, row);
  }
}
