/** What a fetch answers: the subtree read of an exact index nests into the tree that is stored,
    and nesting undoes flattening. */
module Reading {
  import opened Types
  import opened Sorting
  import opened Payload
  import opened Forest
  import opened Flatten
  import opened Closure
  import opened Statements
  import opened Index
  import opened Post
  import opened Shown
  import opened Assemble

  /** What `get_hierarchy` makes of the rows: a failed parent lookup, no node, or a tree. */
  datatype Answer = LookupFailed | NotFound | Found(tree: Tree)

  ghost function Nest(rows: seq<SubtreeRow>): Answer
    requires DistinctRows(rows)
  {
    if !ParentsEarlier(rows) then LookupFailed
    else if rows == [] then NotFound
    else Found(TreeFrom(rows, 0))
  }

  /** The primary key already makes the ids of a subtree read distinct. */
  lemma ReadDistinct(t: Tables, r: int, rows: seq<SubtreeRow>)
    requires IsRead(t, r, rows)
    ensures DistinctRows(rows)
  {
    forall i, j | 0 <= i < j < |rows|
      ensures rows[i].id != rows[j].id
    {
      assert rows[i] in SubtreeRows(t, r) && rows[j] in SubtreeRows(t, r);
      var p :| p in t.closure && p.ancestor == r && p.descendant in t.nodes && rows[i] == SubtreeRowOf(t, p);
      var q :| q in t.closure && q.ancestor == r && q.descendant in t.nodes && rows[j] == SubtreeRowOf(t, q);
      assert ReadsBefore(rows[i], rows[j]);
      assert p == Key(r, rows[i].id) && q == Key(r, rows[j].id);
    }
  }

  ghost predicate RowStored(n: Nodes, row: SubtreeRow)
  {
    row.id in n && n[row.id] == NodeRec(row.typ, row.parent)
  }

  /** If row `j` hangs from row `i`, it lies one level deeper. */
  ghost predicate LevelDown(rows: seq<SubtreeRow>, i: int, j: int)
    requires 0 <= i < |rows| && 0 < j < |rows|
  {
    rows[j].parent == Some(rows[i].id) ==> rows[j].depth == rows[i].depth + 1
  }

  ghost predicate LaterRow(rows: seq<SubtreeRow>, c: int)
  {
    exists j :: 0 < j < |rows| && rows[j].id == c
  }

  /** Every stored child of row `i` has a row, not the first. */
  ghost predicate KidsPresent(n: Nodes, rows: seq<SubtreeRow>, i: int)
    requires 0 <= i < |rows|
  {
    forall c :: IsChild(n, c, rows[i].id) ==> LaterRow(rows, c)
  }

  /** `rows` are stored nodes with their children, a level deeper each, in read order. */
  ghost predicate Complete(n: Nodes, rows: seq<SubtreeRow>)
  {
    && DistinctRows(rows) && ParentsEarlier(rows) && InReadOrder(rows)
    && (forall i :: 0 <= i < |rows| ==> RowStored(n, rows[i]) && KidsPresent(n, rows, i))
    && (forall i, j :: 0 <= i < |rows| && 0 < j < |rows| ==> LevelDown(rows, i, j))
  }

  lemma KidsAscend(n: Nodes, rows: seq<SubtreeRow>, i: int)
    requires Complete(n, rows) && 0 <= i < |rows|
    ensures Ascending(TreeFrom(rows, i).children)
  {
    var ks, t := KidIndices(rows, rows[i].id, |rows|), TreeFrom(rows, i);
    KidIndicesComplete(rows, rows[i].id, |rows|);
    forall k, l | 0 <= k < l < |ks|
      ensures t.children[k].id < t.children[l].id
    {
      assert ReadsBefore(rows[ks[k]], rows[ks[l]]);
      assert LevelDown(rows, i, ks[k]) && LevelDown(rows, i, ks[l]);
    }
  }

  lemma KidIsStored(n: Nodes, rows: seq<SubtreeRow>, i: int, k: int)
    requires Complete(n, rows) && 0 <= i < |rows| && 0 <= k < |TreeFrom(rows, i).children|
    ensures IsChild(n, TreeFrom(rows, i).children[k].id, rows[i].id)
  {
    var ks := KidIndices(rows, rows[i].id, |rows|);
    assert RowStored(n, rows[ks[k]]);
  }

  lemma StoredIsKid(n: Nodes, rows: seq<SubtreeRow>, i: int, c: int)
    requires Complete(n, rows) && 0 <= i < |rows| && IsChild(n, c, rows[i].id)
    ensures ListsId(TreeFrom(rows, i).children, c)
  {
    var ks, t := KidIndices(rows, rows[i].id, |rows|), TreeFrom(rows, i);
    assert KidsPresent(n, rows, i) && LaterRow(rows, c);
    var j :| 0 < j < |rows| && rows[j].id == c;
    assert RowStored(n, rows[j]);
    KidIndicesComplete(rows, rows[i].id, |rows|);
    var k :| 0 <= k < |ks| && ks[k] == j;
    assert t.children[k].id == c;
  }

  /** Nesting a complete list of rows shows what is stored. */
  lemma {:induction false} CompleteShows(n: Nodes, rows: seq<SubtreeRow>, i: int)
    requires Complete(n, rows) && 0 <= i < |rows|
    ensures Shows(n, TreeFrom(rows, i))
    decreases |rows| - i
  {
    var ks, t := KidIndices(rows, rows[i].id, |rows|), TreeFrom(rows, i);
    assert RowStored(n, rows[i]);
    KidsAscend(n, rows, i);
    forall c
      ensures ListsId(t.children, c) <==> IsChild(n, c, t.id)
    {
      if ListsId(t.children, c) {
        var k :| 0 <= k < |t.children| && t.children[k].id == c;
        KidIsStored(n, rows, i, k);
      }
      if IsChild(n, c, t.id) {
        StoredIsKid(n, rows, i, c);
      }
    }
    forall k | 0 <= k < |t.children|
      ensures Shows(n, t.children[k])
    {
      KidLater(rows, i, ks[k]);
      CompleteShows(n, rows, ks[k]);
    }
  }

  // ----- The read of a stored node

  lemma ReadRow(t: Tables, r: int, row: SubtreeRow)
    requires Inv(t)
    ensures row in SubtreeRows(t, r) <==>
      RowStored(t.nodes, row) && row.depth >= 0 && Anc(t.nodes, row.id, row.depth) == Some(r)
  {
    if row in SubtreeRows(t, r) {
      var p :| p in t.closure && p.ancestor == r && p.descendant in t.nodes && row == SubtreeRowOf(t, p);
      assert RowRight(t, p);
    }
    if RowStored(t.nodes, row) && row.depth >= 0 && Anc(t.nodes, row.id, row.depth) == Some(r) {
      RowFor(t, row.id, row.depth, r);
      var p := Key(r, row.id);
      assert row == SubtreeRowOf(t, p);
    }
  }

  lemma ReadHas(t: Tables, r: int, rows: seq<SubtreeRow>, x: int, k: nat) returns (i: int)
    requires Inv(t) && IsRead(t, r, rows) && x in t.nodes && Anc(t.nodes, x, k) == Some(r)
    ensures 0 <= i < |rows| && rows[i].id == x && rows[i].depth == k
  {
    var row := SubtreeRow(x, t.nodes[x].typ, t.nodes[x].parent, k);
    ReadRow(t, r, row);
    i :| 0 <= i < |rows| && rows[i] == row;
  }

  lemma ReadAt(t: Tables, r: int, rows: seq<SubtreeRow>, i: int)
    requires Inv(t) && IsRead(t, r, rows) && 0 <= i < |rows|
    ensures RowStored(t.nodes, rows[i]) && rows[i].depth >= 0
    ensures Anc(t.nodes, rows[i].id, rows[i].depth) == Some(r)
    ensures rows[0].id == r && rows[0].depth == 0 && r in t.nodes
    ensures i > 0 ==> rows[i].depth > 0
  {
    assert rows[i] in SubtreeRows(t, r) && rows[0] in SubtreeRows(t, r);
    ReadRow(t, r, rows[i]);
    ReadRow(t, r, rows[0]);
    AncStored(t.nodes, rows[i].id, rows[i].depth);
    var j := ReadHas(t, r, rows, r, 0);
    if j > 0 {
      assert ReadsBefore(rows[0], rows[j]);
    }
    if i > 0 {
      assert ReadsBefore(rows[0], rows[i]);
    }
  }

  lemma DepthsAscend(rows: seq<SubtreeRow>, i: int, j: int)
    requires InReadOrder(rows) && 0 <= i < |rows| && 0 <= j < |rows|
    ensures i <= j ==> rows[i].depth <= rows[j].depth
  {
    if i < j {
      assert ReadsBefore(rows[i], rows[j]);
    }
  }

  lemma ReadParentEarlier(t: Tables, r: int, rows: seq<SubtreeRow>, i: int)
    requires Inv(t) && IsRead(t, r, rows) && 0 < i < |rows|
    ensures ParentEarlier(rows, i)
  {
    ReadAt(t, r, rows, i);
    var q := rows[i].parent.value;
    var j := ReadHas(t, r, rows, q, rows[i].depth - 1);
    DepthsAscend(rows, i, j);
    assert rows[..i][j].id == q;
  }

  lemma ReadLevels(t: Tables, r: int, rows: seq<SubtreeRow>, i: int, j: int)
    requires Inv(t) && IsRead(t, r, rows) && 0 <= i < |rows| && 0 < j < |rows|
    ensures LevelDown(rows, i, j)
  {
    if rows[j].parent == Some(rows[i].id) {
      InvAcyclic(t);
      ReadAt(t, r, rows, i);
      ReadAt(t, r, rows, j);
      AncOnce(t.nodes, rows[j].id, rows[j].depth, rows[i].depth + 1);
    }
  }

  lemma ReadKids(t: Tables, r: int, rows: seq<SubtreeRow>, i: int)
    requires Inv(t) && IsRead(t, r, rows) && 0 <= i < |rows|
    ensures KidsPresent(t.nodes, rows, i)
  {
    ReadAt(t, r, rows, i);
    forall c | IsChild(t.nodes, c, rows[i].id)
      ensures LaterRow(rows, c)
    {
      var j := ReadHas(t, r, rows, c, rows[i].depth + 1);
      ReadAt(t, r, rows, j);
    }
  }

  /** The subtree read of a stored node is complete, and starts with the node itself. */
  lemma ReadComplete(t: Tables, r: int, rows: seq<SubtreeRow>)
    requires Inv(t) && IsRead(t, r, rows)
    ensures Complete(t.nodes, rows)
    ensures rows != [] <==> r in t.nodes
    ensures rows != [] ==> rows[0].id == r
  {
    ReadDistinct(t, r, rows);
    if r in t.nodes {
      var i := ReadHas(t, r, rows, r, 0);
    }
    if rows != [] {
      ReadAt(t, r, rows, 0);
    }
    forall i | 0 <= i < |rows|
      ensures RowStored(t.nodes, rows[i]) && KidsPresent(t.nodes, rows, i)
    {
      ReadAt(t, r, rows, i);
      ReadKids(t, r, rows, i);
    }
    forall i | 0 < i < |rows|
      ensures ParentEarlier(rows, i)
    {
      ReadParentEarlier(t, r, rows, i);
    }
    forall i, j | 0 <= i < |rows| && 0 < j < |rows|
      ensures LevelDown(rows, i, j)
    {
      ReadLevels(t, r, rows, i, j);
    }
  }

  /** What a fetch of `q` must answer over the stored forest. */
  ghost predicate Fetches(n: Nodes, q: int, a: Answer)
  {
    match a
    case LookupFailed => false
    case NotFound => q !in n
    case Found(t) => t.id == q && Shows(n, t)
  }

  /** Every parent is found, nothing is answered exactly for what is not stored, and otherwise
      the answer is the one tree the stored node shows. */
  lemma FetchAnswers(t: Tables, q: int, rows: seq<SubtreeRow>)
    requires Inv(t) && IsRead(t, q, rows)
    ensures DistinctRows(rows) && Fetches(t.nodes, q, Nest(rows))
  {
    ReadComplete(t, q, rows);
    if rows != [] {
      CompleteShows(t.nodes, rows, 0);
    }
  }

  lemma {:induction false} FetchUnique(n: Nodes, q: int, a: Answer, b: Answer)
    requires Fetches(n, q, a) && Fetches(n, q, b)
    ensures a == b
  {
    if a.Found? && b.Found? {
      ShowsUnique(n, a.tree, b.tree);
    }
  }

  // ----- Flattening and nesting undo each other

  /** The rows of a flattened payload, as the read of a stored root would return them. */
  function AsRead(s: seq<PayloadNode>): (r: seq<SubtreeRow>)
    ensures |r| == |s|
  {
    seq(|s|, i requires 0 <= i < |s| => SubtreeRow(s[i].id, s[i].typ, s[i].parent, s[i].depth))
  }

  lemma FlatKidsPresent(s: seq<PayloadNode>, i: int)
    requires Flat(s) && 0 <= i < |s|
    ensures RowStored(PayloadTable(s, None), AsRead(s)[i]) && KidsPresent(PayloadTable(s, None), AsRead(s), i)
  {
    var n, rows := PayloadTable(s, None), AsRead(s);
    PayloadTableAt(s, None);
    forall c | IsChild(n, c, rows[i].id)
      ensures LaterRow(rows, c)
    {
      var j := IdIndex(s, c);
      assert rows[j].id == c;
    }
  }

  lemma FlatComplete(s: seq<PayloadNode>)
    requires Flat(s) && StrictlyOrdered(s)
    ensures Complete(PayloadTable(s, None), AsRead(s))
  {
    var n, rows := PayloadTable(s, None), AsRead(s);
    PayloadTableAt(s, None);
    forall i | 0 < i < |rows|
      ensures ParentEarlier(rows, i)
    {
      var j := ParentIndex(s, i);
      assert rows[..i][j].id == s[j].id;
    }
    forall i, j | 0 <= i < j < |rows|
      ensures ReadsBefore(rows[i], rows[j])
    {
      assert Before(s[i], s[j]);
    }
    forall i, j | 0 <= i < |rows| && 0 < j < |rows|
      ensures LevelDown(rows, i, j)
    {
      var k := ParentIndex(s, j);
      assert s[k].id == s[i].id ==> k == i;
    }
    forall i | 0 <= i < |rows|
      ensures RowStored(n, rows[i]) && KidsPresent(n, rows, i)
    {
      FlatKidsPresent(s, i);
    }
  }

  /** Nesting the rows of a flattened payload gives the payload, sorted by id at every level. */
  lemma {:induction false} NestUndoesFlatten(p: Tree)
    requires Flattened(p).Ok?
    ensures DistinctRows(AsRead(Flattened(p).value))
    ensures Nest(AsRead(Flattened(p).value)) == Found(Sorted(p))
  {
    var s := Flattened(p).value;
    FlattenMeaning(p);
    FlatComplete(s);
    var n := PayloadTable(s, None);
    CompleteShows(n, AsRead(s), 0);
    PayloadTableAt(s, None);
    PayloadShown(n, p, s, None, p);
    ShowsUnique(n, TreeFrom(AsRead(s), 0), Sorted(p));
  }

  lemma {:induction false} DfsInsert(x: Tree, ts: seq<Tree>, parent: Option<int>, depth: nat)
    ensures multiset(Dfs(Insert(x, ts, TreeId), parent, depth))
         == multiset(Dfs([x], parent, depth)) + multiset(Dfs(ts, parent, depth))
  {
    var r := Insert(x, ts, TreeId);
    if ts == [] || TreeId(x) <= TreeId(ts[0]) {
      DfsHead(r, parent, depth);
      assert r[1..] == ts;
    } else {
      DfsInsert(x, ts[1..], parent, depth);
      DfsHead(r, parent, depth);
      DfsHead(ts, parent, depth);
      assert r[1..] == Insert(x, ts[1..], TreeId);
    }
  }

  lemma {:induction false} DfsSort(ts: seq<Tree>, parent: Option<int>, depth: nat)
    ensures multiset(Dfs(SortBy(ts, TreeId), parent, depth)) == multiset(Dfs(ts, parent, depth))
  {
    if ts == [] {
    } else {
      DfsSort(ts[1..], parent, depth);
      DfsInsert(ts[0], SortBy(ts[1..], TreeId), parent, depth);
      DfsHead(ts, parent, depth);
    }
  }

  /** Sorting the children of every node keeps every node, with its parent and depth. */
  lemma {:induction false} DfsSortAll(ts: seq<Tree>, parent: Option<int>, depth: nat)
    ensures multiset(Dfs(SortAll(ts), parent, depth)) == multiset(Dfs(ts, parent, depth))
  {
    if ts == [] {
    } else {
      var a, b := SortAll(ts), SortAll(ts[0].children);
      DfsSortAll(ts[0].children, Some(ts[0].id), depth + 1);
      DfsSortAll(ts[1..], parent, depth);
      DfsSort(b, Some(ts[0].id), depth + 1);
      DfsHead(ts, parent, depth);
      DfsHead(a, parent, depth);
      assert a[1..] == SortAll(ts[1..]);
    }
  }

  lemma HeadFirst(a: seq<PayloadNode>, x: PayloadNode)
    requires StrictlyOrdered(a) && x in a
    ensures x == a[0] || Before(a[0], x)
  {
    var i :| 0 <= i < |a| && a[i] == x;
  }

  lemma TailMultiset(a: seq<PayloadNode>)
    requires a != []
    ensures multiset(a[1..]) == multiset(a) - multiset{a[0]}
  {
    assert a == [a[0]] + a[1..];
  }

  lemma {:induction false} OrderedUnique(a: seq<PayloadNode>, b: seq<PayloadNode>)
    requires StrictlyOrdered(a) && StrictlyOrdered(b) && multiset(a) == multiset(b)
    ensures a == b
  {
    assert |multiset(a)| == |multiset(b)|;
    if a == [] {
    } else {
      assert a[0] in multiset(b) && b[0] in multiset(a);
      HeadFirst(a, b[0]);
      HeadFirst(b, a[0]);
      TailMultiset(a);
      TailMultiset(b);
      OrderedUnique(a[1..], b[1..]);
    }
  }

  /** Flattening the sorted payload gives the rows of the payload. */
  lemma {:induction false} FlattenOfSorted(p: Tree)
    requires Flattened(p).Ok?
    ensures Flattened(Sorted(p)) == Flattened(p)
  {
    var q := Sorted(p);
    SortAllSize([p]);
    assert [q] == SortAll([p]);
    DfsSortAll([p], None, 0);
    FlattenMeaning(p);
    FlattenMeaning(q);
    UniquePermutes(Dfs([p], None, 0), Dfs([q], None, 0));
    DfsIds([p], None, 0);
    DfsIds([q], None, 0);
    OrderedUnique(Flattened(p).value, Flattened(q).value);
  }
}
