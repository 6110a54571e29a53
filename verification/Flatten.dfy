/** `flatten_payload`: a posted hierarchy as rows, level by level and by id within a level. */
module Flatten {
  import opened Types
  import opened Sorting
  import opened Payload

  /** A node waiting in `level`, with the id of the node it was reached from. */
  datatype Item = Item(node: Tree, parent: Option<int>)

  function ItemId(i: Item): int { i.node.id }

  function Kids(ts: seq<Tree>, parent: int): (r: seq<Item>)
    ensures |r| == |ts|
    ensures forall i :: 0 <= i < |r| ==> r[i] == Item(ts[i], Some(parent))
  {
    seq(|ts|, i requires 0 <= i < |ts| => Item(ts[i], Some(parent)))
  }

  /** The next level: the children of every node of `level`, in order. */
  function Expand(level: seq<Item>): seq<Item>
  {
    if level == [] then []
    else Kids(level[0].node.children, level[0].node.id) + Expand(level[1..])
  }

  function Row(i: Item, depth: nat): PayloadNode
  {
    PayloadNode(i.node.id, i.node.typ, i.parent, depth)
  }

  function Rows(level: seq<Item>, depth: nat): seq<PayloadNode>
  {
    if level == [] then [] else [Row(level[0], depth)] + Rows(level[1..], depth)
  }

  /** The preorder listing of every node at or below `level`. */
  ghost function Under(level: seq<Item>, depth: nat): seq<PayloadNode>
  {
    if level == [] then []
    else Dfs([level[0].node], level[0].parent, depth) + Under(level[1..], depth)
  }

  /** The breadth-first listing: each level by id, then the level below it. */
  ghost function Bfs(level: seq<Item>, depth: nat): seq<PayloadNode>
    decreases |Under(level, depth)|
  {
    if level == [] then []
    else
      var s := SortBy(level, ItemId);
      LevelShrinks(level, depth);
      Rows(s, depth) + Bfs(Expand(s), depth + 1)
  }

  // ----- The multiset of rows: levels and preorder list the same nodes

  lemma {:induction false} UnderConcat(a: seq<Item>, b: seq<Item>, depth: nat)
    ensures Under(a + b, depth) == Under(a, depth) + Under(b, depth)
  {
    if a == [] {
      assert a + b == b;
    } else {
      assert (a + b)[1..] == a[1..] + b;
      UnderConcat(a[1..], b, depth);
    }
  }

  lemma {:induction false} UnderKids(ts: seq<Tree>, parent: int, depth: nat)
    ensures Under(Kids(ts, parent), depth) == Dfs(ts, Some(parent), depth)
  {
    if ts == [] {
    } else {
      var ks := Kids(ts, parent);
      assert ks[1..] == Kids(ts[1..], parent);
      UnderKids(ts[1..], parent, depth);
      DfsHead(ts, Some(parent), depth);
    }
  }

  lemma {:induction false} DfsHead(ts: seq<Tree>, parent: Option<int>, depth: nat)
    requires ts != []
    ensures Dfs([ts[0]], parent, depth)
         == [PayloadNode(ts[0].id, ts[0].typ, parent, depth)] + Dfs(ts[0].children, Some(ts[0].id), depth + 1)
    ensures Dfs(ts, parent, depth) == Dfs([ts[0]], parent, depth) + Dfs(ts[1..], parent, depth)
  {
    assert [ts[0]][1..] == [];
  }

  lemma {:induction false} UnderHead(level: seq<Item>, depth: nat)
    requires level != []
    ensures multiset(Under(level, depth)) == multiset(Under([level[0]], depth)) + multiset(Under(level[1..], depth))
  {
    UnderConcat([level[0]], level[1..], depth);
    assert level == [level[0]] + level[1..];
  }

  lemma {:induction false} UnderInsert(x: Item, s: seq<Item>, depth: nat)
    ensures multiset(Under(Insert(x, s, ItemId), depth)) == multiset(Under([x], depth)) + multiset(Under(s, depth))
  {
    if s == [] || ItemId(x) <= ItemId(s[0]) {
      UnderConcat([x], s, depth);
    } else {
      UnderInsert(x, s[1..], depth);
      UnderHead(Insert(x, s, ItemId), depth);
      UnderHead(s, depth);
    }
  }

  lemma {:induction false} UnderSort(level: seq<Item>, depth: nat)
    ensures multiset(Under(SortBy(level, ItemId), depth)) == multiset(Under(level, depth))
  {
    if level == [] {
    } else {
      UnderSort(level[1..], depth);
      UnderInsert(level[0], SortBy(level[1..], ItemId), depth);
      UnderHead(level, depth);
    }
  }

  /** One level and everything below the next is everything below this level. */
  lemma {:induction false} UnderExpand(level: seq<Item>, depth: nat)
    ensures multiset(Under(level, depth)) == multiset(Rows(level, depth)) + multiset(Under(Expand(level), depth + 1))
  {
    if level == [] {
    } else {
      var t := level[0].node;
      var ks := Kids(t.children, t.id);
      UnderExpand(level[1..], depth);
      UnderConcat(ks, Expand(level[1..]), depth + 1);
      UnderKids(t.children, t.id, depth + 1);
      DfsHead([t], level[0].parent, depth);
    }
  }

  lemma {:induction false} LevelShrinks(level: seq<Item>, depth: nat)
    requires level != []
    ensures |Under(Expand(SortBy(level, ItemId)), depth + 1)| < |Under(level, depth)|
  {
    var s := SortBy(level, ItemId);
    SortByCorrect(level, ItemId);
    UnderSort(level, depth);
    UnderExpand(s, depth);
    assert |multiset(Under(s, depth))| == |multiset(Under(level, depth))|;
    assert |multiset(Under(s, depth))|
        == |multiset(Rows(s, depth))| + |multiset(Under(Expand(s), depth + 1))|;
    assert Rows(s, depth) != [];
  }

  lemma {:induction false} BfsPermutes(level: seq<Item>, depth: nat)
    ensures multiset(Bfs(level, depth)) == multiset(Under(level, depth))
    decreases |Under(level, depth)|
  {
    if level == [] {
    } else {
      var s := SortBy(level, ItemId);
      LevelShrinks(level, depth);
      BfsPermutes(Expand(s), depth + 1);
      UnderSort(level, depth);
      UnderExpand(s, depth);
    }
  }

  // ----- The order of the rows

  ghost predicate InOrder(a: PayloadNode, b: PayloadNode)
  {
    a.depth < b.depth || (a.depth == b.depth && a.id <= b.id)
  }

  ghost predicate Ordered(s: seq<PayloadNode>)
  {
    forall i, j :: 0 <= i < j < |s| ==> InOrder(s[i], s[j])
  }

  lemma {:induction false} RowsAt(level: seq<Item>, depth: nat)
    ensures |Rows(level, depth)| == |level|
    ensures forall i :: 0 <= i < |level| ==> Rows(level, depth)[i] == Row(level[i], depth)
  {
    if level == [] {
    } else {
      RowsAt(level[1..], depth);
    }
  }

  lemma {:induction false} BfsOrdered(level: seq<Item>, depth: nat)
    ensures Ordered(Bfs(level, depth))
    ensures forall i :: 0 <= i < |Bfs(level, depth)| ==> Bfs(level, depth)[i].depth >= depth
    decreases |Under(level, depth)|
  {
    if level == [] {
    } else {
      var s := SortBy(level, ItemId);
      LevelShrinks(level, depth);
      BfsOrdered(Expand(s), depth + 1);
      RowsAt(s, depth);
      SortByCorrect(level, ItemId);
      forall i, j | 0 <= i < j < |s|
        ensures InOrder(Rows(s, depth)[i], Rows(s, depth)[j])
      {
        assert ItemId(s[i]) <= ItemId(s[j]);
      }
    }
  }

  /** Row `i` hangs from an earlier row one level up. */
  ghost predicate HangsFrom(s: seq<PayloadNode>, i: int, j: int)
    requires 0 <= i < |s|
  {
    0 <= j < i && s[i].parent == Some(s[j].id) && s[i].depth == s[j].depth + 1
  }

  ghost predicate Hangs(s: seq<PayloadNode>, i: int)
    requires 0 <= i < |s|
  {
    exists j :: HangsFrom(s, i, j)
  }

  lemma {:induction false} ExpandFrom(level: seq<Item>, k: int) returns (m: int)
    requires 0 <= k < |Expand(level)|
    ensures 0 <= m < |level| && Expand(level)[k].parent == Some(level[m].node.id)
  {
    var ks := Kids(level[0].node.children, level[0].node.id);
    if k < |ks| {
      m := 0;
    } else {
      m := ExpandFrom(level[1..], k - |ks|);
      m := m + 1;
    }
  }

  /** The first rows are the level itself, sorted; each of the next level's rows hangs from one. */
  lemma {:induction false} BfsTop(level: seq<Item>, depth: nat, i: int)
    requires 0 <= i < |level|
    ensures |SortBy(level, ItemId)| == |level| <= |Bfs(level, depth)|
    ensures Bfs(level, depth)[i] == Row(SortBy(level, ItemId)[i], depth)
    ensures SortBy(level, ItemId)[i] in level
  {
    var s := SortBy(level, ItemId);
    SortByCorrect(level, ItemId);
    RowsAt(s, depth);
    assert s[i] in multiset(s);
  }

  lemma {:induction false} BfsSplit(level: seq<Item>, depth: nat)
    requires level != []
    ensures var s := SortBy(level, ItemId);
      |s| == |level| == |Rows(s, depth)| && Bfs(level, depth) == Rows(s, depth) + Bfs(Expand(s), depth + 1)
  {
    SortByCorrect(level, ItemId);
    RowsAt(SortBy(level, ItemId), depth);
  }

  lemma {:induction false} BfsSecond(level: seq<Item>, depth: nat, all: seq<PayloadNode>, i: int) returns (m: int)
    requires all == Bfs(level, depth)
    requires level != [] && |level| <= i < |level| + |Expand(SortBy(level, ItemId))|
    ensures i < |all| && HangsFrom(all, i, m)
  {
    var s := SortBy(level, ItemId);
    BfsSplit(level, depth);
    RowsAt(s, depth);
    var e := Expand(s);
    var k := i - |s|;
    BfsTop(e, depth + 1, k);
    var x := SortBy(e, ItemId)[k];
    var l :| 0 <= l < |e| && e[l] == x;
    m := ExpandFrom(s, l);
    assert all[i] == Row(x, depth + 1) && all[m] == Row(s[m], depth);
  }

  /** What hangs in the rows below this level hangs in the whole listing. */
  lemma {:induction false} BfsDeeper(level: seq<Item>, depth: nat, all: seq<PayloadNode>, rest: seq<PayloadNode>,
                                     k: int, j: int)
    requires level != [] && all == Bfs(level, depth) && rest == Bfs(Expand(SortBy(level, ItemId)), depth + 1)
    requires 0 <= k < |rest| && HangsFrom(rest, k, j)
    ensures |all| == |level| + |rest| && HangsFrom(all, |level| + k, |level| + j)
  {
    BfsSplit(level, depth);
  }

  lemma {:induction false} BfsHangs(level: seq<Item>, depth: nat, all: seq<PayloadNode>, i: int) returns (j: int)
    requires all == Bfs(level, depth) && |level| <= i < |all|
    ensures HangsFrom(all, i, j)
    decreases |Under(level, depth)|
  {
    var below := Expand(SortBy(level, ItemId));
    var rest := Bfs(below, depth + 1);
    LevelShrinks(level, depth);
    BfsSplit(level, depth);
    if i < |level| + |below| {
      j := BfsSecond(level, depth, all, i);
    } else {
      j := BfsHangs(below, depth + 1, rest, i - |level|);
      BfsDeeper(level, depth, all, rest, i - |level|, j);
      j := |level| + j;
    }
  }

  // ----- Unique ids

  ghost function IdsOf(s: seq<PayloadNode>): set<int>
  {
    set i | 0 <= i < |s| :: s[i].id
  }

  ghost predicate UniqueIds(s: seq<PayloadNode>)
  {
    forall i, j :: 0 <= i < j < |s| ==> s[i].id != s[j].id
  }

  lemma {:induction false} UniqueByCount(s: seq<PayloadNode>)
    ensures |IdsOf(s)| <= |s|
    ensures UniqueIds(s) <==> |IdsOf(s)| == |s|
  {
    if s == [] {
      assert IdsOf(s) == {};
    } else {
      var head, rest := [s[0]], s[1..];
      UniqueByCount(rest);
      UniqueConcat(head, rest);
      assert s == head + rest;
      assert IdsOf(head) == {s[0].id} by { assert head[0].id in IdsOf(head); }
    }
  }

  lemma UniquePermutes(a: seq<PayloadNode>, b: seq<PayloadNode>)
    requires multiset(a) == multiset(b)
    ensures IdsOf(a) == IdsOf(b)
    ensures UniqueIds(a) <==> UniqueIds(b)
  {
    IdsSubset(a, b);
    IdsSubset(b, a);
    assert |multiset(a)| == |multiset(b)|;
    UniqueByCount(a);
    UniqueByCount(b);
  }

  lemma IdsSubset(a: seq<PayloadNode>, b: seq<PayloadNode>)
    requires multiset(a) == multiset(b)
    ensures IdsOf(a) <= IdsOf(b)
  {
    forall x | x in IdsOf(a)
      ensures x in IdsOf(b)
    {
      var i :| 0 <= i < |a| && a[i].id == x;
      assert a[i] in multiset(b);
      var j :| 0 <= j < |b| && b[j] == a[i];
    }
  }

  lemma UniqueConcat(a: seq<PayloadNode>, b: seq<PayloadNode>)
    ensures UniqueIds(a + b) <==> UniqueIds(a) && UniqueIds(b) && IdsOf(a) !! IdsOf(b)
    ensures IdsOf(a + b) == IdsOf(a) + IdsOf(b)
  {
    var c := a + b;
    assert forall i :: 0 <= i < |a| ==> c[i] == a[i];
    assert forall i :: 0 <= i < |b| ==> c[|a| + i] == b[i];
    assert IdsOf(c) == IdsOf(a) + IdsOf(b);
    if !(IdsOf(a) !! IdsOf(b)) {
      var x :| x in IdsOf(a) && x in IdsOf(b);
      var i :| 0 <= i < |a| && a[i].id == x;
      var j :| 0 <= j < |b| && b[j].id == x;
      assert c[i].id == c[|a| + j].id;
    }
    if UniqueIds(a) && UniqueIds(b) && IdsOf(a) !! IdsOf(b) {
      forall i, j | 0 <= i < j < |c|
        ensures c[i].id != c[j].id
      {
        if i < |a| <= j {
          assert c[i].id in IdsOf(a) && c[j].id in IdsOf(b);
        } else if |a| <= i {
          assert c[i] == b[i - |a|] && c[j] == b[j - |a|];
        }
      }
    }
    if UniqueIds(c) {
      forall i, j | 0 <= i < j < |b|
        ensures b[i].id != b[j].id
      {
        assert c[|a| + i] == b[i] && c[|a| + j] == b[j];
      }
    }
  }

  lemma {:induction false} DfsIds(ts: seq<Tree>, parent: Option<int>, depth: nat)
    ensures IdsOf(Dfs(ts, parent, depth)) == IdSet(ts)
    ensures UniqueIds(Dfs(ts, parent, depth)) <==> Distinct(ts)
  {
    if ts == [] {
    } else {
      var head := [PayloadNode(ts[0].id, ts[0].typ, parent, depth)];
      var below := Dfs(ts[0].children, Some(ts[0].id), depth + 1);
      var rest := Dfs(ts[1..], parent, depth);
      DfsIds(ts[0].children, Some(ts[0].id), depth + 1);
      DfsIds(ts[1..], parent, depth);
      UniqueConcat(head, below);
      UniqueConcat(head + below, rest);
      assert IdsOf(head) == {ts[0].id} by { assert head[0].id in IdsOf(head); }
    }
  }

  // ----- The loop, and what it returns

  /** What is left of the breadth-first listing, taken one row at a time until an id repeats. */
  ghost function Scan(done: seq<PayloadNode>, rest: seq<PayloadNode>): Result<seq<PayloadNode>, int>
    decreases |rest|
  {
    if rest == [] then Ok(done)
    else if rest[0].id in IdsOf(done) then Err(rest[0].id)
    else Scan(done + [rest[0]], rest[1..])
  }

  ghost function Listing(p: Tree): seq<PayloadNode>
  {
    Bfs([Item(p, None)], 0)
  }

  /** The rows of `p`, or the id that repeats. */
  ghost function Flattened(p: Tree): Result<seq<PayloadNode>, int>
  {
    Scan([], Listing(p))
  }

  lemma {:induction false} ScanRow(done: seq<PayloadNode>, level: seq<Item>, i: nat, depth: nat,
                                   below: seq<PayloadNode>)
    requires i < |level|
    ensures IdsOf(done + [Row(level[i], depth)]) == IdsOf(done) + {level[i].node.id}
    ensures level[i].node.id in IdsOf(done) ==>
      Scan(done, Rows(level[i..], depth) + below) == Err(level[i].node.id)
    ensures level[i].node.id !in IdsOf(done) ==>
      Scan(done, Rows(level[i..], depth) + below)
        == Scan(done + [Row(level[i], depth)], Rows(level[i + 1..], depth) + below)
  {
    var row := Row(level[i], depth);
    var rest := Rows(level[i..], depth) + below;
    assert level[i..][1..] == level[i + 1..];
    assert rest[0] == row && rest[1..] == Rows(level[i + 1..], depth) + below;
    UniqueConcat(done, [row]);
    assert IdsOf([row]) == {row.id} by { assert [row][0].id in IdsOf([row]); }
  }

  method FlattenPayload(payload: Tree) returns (r: Result<seq<PayloadNode>, int>)
    ensures r == Flattened(payload)
  {
    var nodes: seq<PayloadNode> := [];
    var seen: set<int> := {};
    var level := [Item(payload, None)];
    var depth: nat := 0;
    while |level| > 0
      invariant seen == IdsOf(nodes)
      invariant Scan(nodes, Bfs(level, depth)) == Flattened(payload)
      decreases |Under(level, depth)|
    {
      LevelShrinks(level, depth);
      level := SortBy(level, ItemId);
      ghost var below := Bfs(Expand(level), depth + 1);
      assert level[0..] == level;
      for i := 0 to |level|
        invariant seen == IdsOf(nodes)
        invariant Scan(nodes, Rows(level[i..], depth) + below) == Flattened(payload)
      {
        var item := level[i];
        ScanRow(nodes, level, i, depth, below);
        if item.node.id in seen {
          return Err(item.node.id);
        }
        seen := seen + {item.node.id};
        nodes := nodes + [PayloadNode(item.node.id, item.node.typ, item.parent, depth)];
      }
      assert Rows(level[|level|..], depth) + below == below;
      level := Expand(level);
      depth := depth + 1;
    }
    return Ok(nodes);
  }

  /** Row `i` is the first one whose id an earlier row already has. */
  ghost predicate FirstRepeat(s: seq<PayloadNode>, i: int)
  {
    0 <= i < |s| && UniqueIds(s[..i]) && s[i].id in IdsOf(s[..i])
  }

  lemma RepeatOf(s: seq<PayloadNode>, i: int) returns (k: int)
    requires FirstRepeat(s, i)
    ensures 0 <= k < i && s[k].id == s[i].id
    ensures !UniqueIds(s[..i + 1])
  {
    k :| 0 <= k < |s[..i]| && s[..i][k].id == s[i].id;
    assert s[..i + 1][k].id == s[..i + 1][i].id;
  }

  lemma PrefixUnique(s: seq<PayloadNode>, i: int, j: int)
    requires 0 <= i <= j <= |s| && UniqueIds(s[..j])
    ensures UniqueIds(s[..i])
  {
    forall k, l | 0 <= k < l < i
      ensures s[..i][k].id != s[..i][l].id
    {
      assert s[..j][k].id != s[..j][l].id;
    }
  }

  /** There is one first repeat at most, and an earlier row has its id. */
  lemma FirstRepeatOnce(s: seq<PayloadNode>, i: int, j: int)
    requires FirstRepeat(s, i) && FirstRepeat(s, j)
    ensures i == j && exists k :: 0 <= k < i && s[k].id == s[i].id
  {
    var k := RepeatOf(s, i);
    var l := RepeatOf(s, j);
    if i < j {
      PrefixUnique(s, i + 1, j);
    } else if j < i {
      PrefixUnique(s, j + 1, i);
    }
  }

  lemma {:induction false} ScanMeaning(done: seq<PayloadNode>, rest: seq<PayloadNode>)
    requires UniqueIds(done)
    ensures UniqueIds(done + rest) ==> Scan(done, rest) == Ok(done + rest)
    ensures !UniqueIds(done + rest) ==>
      Scan(done, rest).Err? && exists i :: FirstRepeat(done + rest, i) && (done + rest)[i].id == Scan(done, rest).error
    decreases |rest|
  {
    var all := done + rest;
    if rest == [] {
      assert all == done;
    } else if rest[0].id in IdsOf(done) {
      assert all[..|done|] == done && all[|done|] == rest[0];
      assert FirstRepeat(all, |done|);
      var j :| 0 <= j < |done| && done[j].id == rest[0].id;
      assert all[j].id == all[|done|].id;
    } else {
      var more := done + [rest[0]];
      assert more + rest[1..] == all;
      forall i, j | 0 <= i < j < |more|
        ensures more[i].id != more[j].id
      {
        if j == |done| {
          assert done[i].id in IdsOf(done);
        }
      }
      ScanMeaning(more, rest[1..]);
    }
  }

  ghost predicate Before(a: PayloadNode, b: PayloadNode)
  {
    a.depth < b.depth || (a.depth == b.depth && a.id < b.id)
  }

  ghost predicate StrictlyOrdered(s: seq<PayloadNode>)
  {
    forall i, j :: 0 <= i < j < |s| ==> Before(s[i], s[j])
  }

  /** What every later step relies on: one root, first; distinct ids; each other row hanging
      from an earlier one, one level up. */
  ghost predicate Flat(s: seq<PayloadNode>)
  {
    && s != [] && s[0].parent == None && s[0].depth == 0
    && UniqueIds(s)
    && forall i :: 0 < i < |s| ==> Hangs(s, i)
  }

  /** The listing that decides everything: the payload's nodes, each exactly as often as it
      occurs, by depth and then by id. */
  lemma {:induction false} ListingIsSortedPreorder(p: Tree)
    ensures multiset(Listing(p)) == multiset(Dfs([p], None, 0))
    ensures Ordered(Listing(p))
    ensures UniqueIds(Listing(p)) <==> Distinct([p])
    ensures IdsOf(Listing(p)) == IdSet([p])
  {
    var top := [Item(p, None)];
    BfsPermutes(top, 0);
    BfsOrdered(top, 0);
    assert top[1..] == [];
    assert Under(top, 0) == Dfs([p], None, 0);
    UniquePermutes(Listing(p), Dfs([p], None, 0));
    DfsIds([p], None, 0);
  }

  lemma {:induction false} ListingFlat(p: Tree)
    requires UniqueIds(Listing(p))
    ensures Flat(Listing(p)) && Listing(p)[0] == PayloadNode(p.id, p.typ, None, 0)
  {
    var top, s := [Item(p, None)], Listing(p);
    BfsTop(top, 0, 0);
    forall i | 0 < i < |s|
      ensures Hangs(s, i)
    {
      var j := BfsHangs(top, 0, s, i);
    }
  }

  lemma StrictFromUnique(s: seq<PayloadNode>)
    requires Ordered(s) && UniqueIds(s)
    ensures StrictlyOrdered(s)
  {
    forall i, j | 0 <= i < j < |s|
      ensures Before(s[i], s[j])
    {
      assert InOrder(s[i], s[j]);
    }
  }

  lemma {:induction false} FlattenedIsListing(p: Tree)
    ensures Flattened(p).Ok? <==> UniqueIds(Listing(p))
    ensures Flattened(p).Ok? ==> Flattened(p).value == Listing(p)
    ensures Flattened(p).Err? ==>
      exists i :: FirstRepeat(Listing(p), i) && Listing(p)[i].id == Flattened(p).error
  {
    ScanMeaning([], Listing(p));
    assert [] + Listing(p) == Listing(p);
  }

  /** Flattening succeeds exactly on payloads that name no id twice. Then it lists every node
      once with its true depth and parent, strictly by (depth, id), parents before children.
      Otherwise it names the id of the first row, in that same order, that repeats an earlier one. */
  lemma {:induction false} FlattenMeaning(p: Tree)
    ensures Flattened(p).Ok? <==> Distinct([p])
    ensures Flattened(p).Ok? ==>
      && multiset(Flattened(p).value) == multiset(Dfs([p], None, 0))
      && StrictlyOrdered(Flattened(p).value)
      && Flat(Flattened(p).value)
      && Flattened(p).value[0] == PayloadNode(p.id, p.typ, None, 0)
      && IdsOf(Flattened(p).value) == IdSet([p])
    ensures Flattened(p).Err? ==>
      exists i :: FirstRepeat(Listing(p), i) && Listing(p)[i].id == Flattened(p).error
  {
    FlattenedIsListing(p);
    ListingIsSortedPreorder(p);
    if Flattened(p).Ok? {
      ListingFlat(p);
      StrictFromUnique(Listing(p));
    }
  }
}
