/** `closure_rows`: every ancestor-descendant pair a flattened payload implies, computed in one
    forward pass and measured against walking up from each node. */
module Closure {
  import opened Types
  import opened Forest
  import opened Flatten
  import opened Statements

  /** The rows the upsert writes: the root keeps the parent it is given. */
  function PayloadRows(nodes: seq<PayloadNode>, rootParent: Option<int>): (r: seq<NodeRow>)
    ensures |r| == |nodes|
  {
    seq(|nodes|, i requires 0 <= i < |nodes| =>
      NodeRow(nodes[i].id, nodes[i].typ, if nodes[i].depth == 0 then rootParent else nodes[i].parent))
  }

  ghost function PayloadTable(nodes: seq<PayloadNode>, rootParent: Option<int>): Nodes
  {
    RowTable(PayloadRows(nodes, rootParent))
  }

  lemma NotRoot(s: seq<PayloadNode>, i: int)
    requires Flat(s) && 0 < i < |s|
    ensures s[i].depth > 0 && s[i].parent.Some?
  {
    assert Hangs(s, i);
  }

  lemma PayloadTableAt(nodes: seq<PayloadNode>, rootParent: Option<int>)
    requires Flat(nodes)
    ensures PayloadTable(nodes, rootParent).Keys == IdsOf(nodes)
    ensures forall i :: 0 <= i < |nodes| ==>
      && nodes[i].id in PayloadTable(nodes, rootParent)
      && PayloadTable(nodes, rootParent)[nodes[i].id]
         == NodeRec(nodes[i].typ, if i == 0 then rootParent else nodes[i].parent)
  {
    var rows := PayloadRows(nodes, rootParent);
    RowTableAt(rows);
    forall i | 0 <= i < |nodes|
      ensures rows[i].id == nodes[i].id
      ensures rows[i].parent == if i == 0 then rootParent else nodes[i].parent
    {
      if i > 0 {
        NotRoot(nodes, i);
      }
    }
    forall x | x in PayloadTable(nodes, rootParent)
      ensures x in IdsOf(nodes)
    {
      var i :| 0 <= i < |rows| && rows[i].id == x;
      assert nodes[i].id == x;
    }
    forall x | x in IdsOf(nodes)
      ensures x in PayloadTable(nodes, rootParent)
    {
      var i :| 0 <= i < |nodes| && nodes[i].id == x;
      assert rows[i].id == x;
    }
  }

  // ----- Walking up inside the payload

  /** `n` holds every payload node under its payload parent; the root may hang anywhere. */
  ghost predicate Carries(n: Nodes, s: seq<PayloadNode>)
  {
    forall i :: 0 < i < |s| ==> s[i].id in n && n[s[i].id].parent == s[i].parent
  }

  ghost function ParentIndex(s: seq<PayloadNode>, i: int): (j: int)
    requires Flat(s) && 0 < i < |s|
    ensures HangsFrom(s, i, j)
  {
    assert Hangs(s, i);
    var j :| HangsFrom(s, i, j); j
  }

  /** The row `k` levels above row `i`. */
  ghost function Lift(s: seq<PayloadNode>, i: int, k: nat): (j: int)
    requires Flat(s) && 0 <= i < |s| && k <= s[i].depth
    ensures 0 <= j <= i && s[j].depth == s[i].depth - k
    decreases k
  {
    if k == 0 then i else Lift(s, ParentIndex(s, i), k - 1)
  }

  lemma {:induction false} WalkUp(n: Nodes, s: seq<PayloadNode>, i: int, k: nat)
    requires Flat(s) && Carries(n, s) && 0 <= i < |s| && k <= s[i].depth
    ensures Anc(n, s[i].id, k) == Some(s[Lift(s, i, k)].id)
    decreases k
  {
    if k == 0 {
    } else {
      WalkUp(n, s, ParentIndex(s, i), k - 1);
    }
  }

  lemma OneRoot(s: seq<PayloadNode>, i: int)
    requires Flat(s) && 0 <= i < |s|
    ensures s[i].depth == 0 <==> i == 0
    ensures s[Lift(s, i, s[i].depth)].id == s[0].id
  {
    var j := Lift(s, i, s[i].depth);
    if j > 0 {
      NotRoot(s, j);
    }
    if i > 0 {
      NotRoot(s, i);
    }
  }

  /** Every payload node has the root above it, at its payload depth, and continues as the root does. */
  lemma WalkPastRoot(n: Nodes, s: seq<PayloadNode>, i: int, m: nat)
    requires Flat(s) && Carries(n, s) && 0 <= i < |s|
    ensures Anc(n, s[i].id, s[i].depth + m) == Anc(n, s[0].id, m)
  {
    WalkUp(n, s, i, s[i].depth);
    OneRoot(s, i);
    AncSplit(n, s[i].id, s[i].depth, m);
  }

  lemma {:induction false} DepthAtMostIndex(s: seq<PayloadNode>, i: int)
    requires Flat(s) && 0 <= i < |s|
    ensures s[i].depth <= i
    decreases i
  {
    if i == 0 {
    } else {
      DepthAtMostIndex(s, ParentIndex(s, i));
    }
  }

  // ----- The rows the pass must produce

  /** What `k` steps up from `x` contribute to the closure. */
  ghost function UpRow(n: Nodes, x: int, k: nat): ClosureRow
  {
    ClosureRow(match Anc(n, x, k) { case Some(a) => a case None => x }, x, k)
  }

  ghost function WalkRows(n: Nodes, node: PayloadNode): (r: seq<ClosureRow>)
    ensures |r| == node.depth + 1
  {
    seq(node.depth + 1, k requires 0 <= k => UpRow(n, node.id, k))
  }

  function GraftRows(node: PayloadNode, captured: seq<AncestorRow>): (r: seq<ClosureRow>)
    ensures |r| == |captured|
  {
    seq(|captured|, j requires 0 <= j < |captured| =>
      ClosureRow(captured[j].ancestor, node.id, captured[j].depth + node.depth))
  }

  /** Per node: the walk from the node itself up to the posted root, then the root's own
      ancestors, further away by the node's depth. */
  ghost function ClosureOf(n: Nodes, s: seq<PayloadNode>, captured: seq<AncestorRow>): seq<ClosureRow>
  {
    if s == [] then []
    else
      var last := s[|s| - 1];
      ClosureOf(n, s[..|s| - 1], captured) + WalkRows(n, last) + GraftRows(last, captured)
  }

  ghost predicate ParentMet(nodes: seq<PayloadNode>, j: int)
    requires 0 <= j < |nodes|
  {
    nodes[j].parent.Some? ==> nodes[j].parent.value in IdsOf(nodes[..j])
  }

  ghost predicate ParentsMet(nodes: seq<PayloadNode>, i: int)
    requires 0 <= i <= |nodes|
  {
    forall j :: 0 <= j < i ==> ParentMet(nodes, j)
  }

  ghost predicate ParentsFirst(s: seq<PayloadNode>)
  {
    ParentsMet(s, |s|)
  }

  /** `w` is the chain above `node` inside the payload, nearest first, with distances. */
  ghost predicate IsChain(n: Nodes, node: PayloadNode, w: seq<AncestorRow>)
  {
    && |w| == node.depth
    && forall k :: 0 <= k < |w| ==> w[k].depth == k + 1 && Anc(n, node.id, k + 1) == Some(w[k].ancestor)
  }

  function Deeper(w: seq<AncestorRow>): (r: seq<AncestorRow>)
    ensures |r| == |w|
  {
    seq(|w|, i requires 0 <= i < |w| => AncestorRow(w[i].ancestor, w[i].depth + 1))
  }

  function RowsFor(node: PayloadNode, w: seq<AncestorRow>): (r: seq<ClosureRow>)
    ensures |r| == |w|
  {
    seq(|w|, i requires 0 <= i < |w| => ClosureRow(w[i].ancestor, node.id, w[i].depth))
  }

  lemma ChainGrows(n: Nodes, s: seq<PayloadNode>, i: int, w: seq<AncestorRow>)
    requires Flat(s) && Carries(n, s) && 0 < i < |s|
    requires forall j :: 0 <= j < i && s[i].parent == Some(s[j].id) ==> IsChain(n, s[j], w)
    ensures s[i].parent.Some?
    ensures IsChain(n, s[i], [AncestorRow(s[i].parent.value, 1)] + Deeper(w))
  {
    var j := ParentIndex(s, i);
    assert IsChain(n, s[j], w);
  }

  lemma ChainIsWalk(n: Nodes, node: PayloadNode, w: seq<AncestorRow>)
    requires IsChain(n, node, w)
    ensures [ClosureRow(node.id, node.id, 0)] + RowsFor(node, w) == WalkRows(n, node)
  {
    var r := [ClosureRow(node.id, node.id, 0)] + RowsFor(node, w);
    forall k | 0 <= k < |r|
      ensures r[k] == WalkRows(n, node)[k]
    {
      if k > 0 {
        assert w[k - 1].depth == k;
      }
    }
  }

  lemma IdsTake(s: seq<PayloadNode>, i: int)
    requires 0 <= i < |s|
    ensures IdsOf(s[..i + 1]) == IdsOf(s[..i]) + {s[i].id}
  {
    assert s[..i + 1] == s[..i] + [s[i]];
    UniqueConcat(s[..i], [s[i]]);
    assert IdsOf([s[i]]) == {s[i].id} by { assert [s[i]][0].id in IdsOf([s[i]]); }
  }

  /** The state of the pass after its first `i` nodes. */
  ghost predicate Passed(n: Nodes, nodes: seq<PayloadNode>, i: int, within: map<int, seq<AncestorRow>>,
                         captured: seq<AncestorRow>, rows: seq<ClosureRow>)
    requires 0 <= i <= |nodes|
  {
    && (forall j :: 0 <= j < i ==> nodes[j].id in within && IsChain(n, nodes[j], within[nodes[j].id]))
    && rows == ClosureOf(n, nodes[..i], captured)
  }

  /** What one more node adds: its chain is its parent's, one deeper. */
  function ChainOf(node: PayloadNode, within: map<int, seq<AncestorRow>>): seq<AncestorRow>
    requires node.parent.Some? ==> node.parent.value in within
  {
    if node.parent.None? then [] else [AncestorRow(node.parent.value, 1)] + Deeper(within[node.parent.value])
  }

  lemma PassStep(n: Nodes, nodes: seq<PayloadNode>, i: int, within: map<int, seq<AncestorRow>>,
                 captured: seq<AncestorRow>, rows: seq<ClosureRow>)
    requires Flat(nodes) && Carries(n, nodes) && 0 <= i < |nodes|
    requires Passed(n, nodes, i, within, captured, rows)
    requires nodes[i].parent.Some? ==> nodes[i].parent.value in within
    ensures var chain := ChainOf(nodes[i], within);
      Passed(n, nodes, i + 1, within[nodes[i].id := chain], captured,
             rows + [ClosureRow(nodes[i].id, nodes[i].id, 0)] + RowsFor(nodes[i], chain)
             + GraftRows(nodes[i], captured))
  {
    var chain := ChainOf(nodes[i], within);
    if i > 0 {
      NotRoot(nodes, i);
      ChainGrows(n, nodes, i, within[nodes[i].parent.value]);
    }
    ChainIsWalk(n, nodes[i], chain);
    assert nodes[..i + 1][..i] == nodes[..i];
    assert rows + [ClosureRow(nodes[i].id, nodes[i].id, 0)] + RowsFor(nodes[i], chain)
      == rows + ([ClosureRow(nodes[i].id, nodes[i].id, 0)] + RowsFor(nodes[i], chain));
  }

  /** The pass fails, looking up a parent it has not met, exactly when some node comes before
      its parent. On a flattened payload it returns the rows that walking up gives. */
  method ClosureRows(nodes: seq<PayloadNode>, captured: seq<AncestorRow>)
    returns (r: Option<seq<ClosureRow>>)
    ensures r.Some? <==> ParentsFirst(nodes)
    ensures Flat(nodes) ==> r == Some(ClosureOf(PayloadTable(nodes, None), nodes, captured))
  {
    var rows: seq<ClosureRow> := [];
    var within: map<int, seq<AncestorRow>> := map[];
    ghost var n := PayloadTable(nodes, None);
    for i := 0 to |nodes|
      invariant within.Keys == IdsOf(nodes[..i])
      invariant ParentsMet(nodes, i)
      invariant Flat(nodes) ==> Passed(n, nodes, i, within, captured, rows)
    {
      var node := nodes[i];
      if node.parent.Some? && node.parent.value !in within {
        assert !ParentMet(nodes, i);
        if Flat(nodes) {
          FlatParentsFirst(nodes);
        }
        return None;
      }
      var chain := ChainOf(node, within);
      if Flat(nodes) {
        PayloadCarried(nodes, None);
        PassStep(n, nodes, i, within, captured, rows);
      }
      IdsTake(nodes, i);
      within := within[node.id := chain];
      rows := rows + [ClosureRow(node.id, node.id, 0)] + RowsFor(node, chain) + GraftRows(node, captured);
    }
    assert nodes[..|nodes|] == nodes;
    return Some(rows);
  }

  lemma FlatParentsFirst(s: seq<PayloadNode>)
    requires Flat(s)
    ensures ParentsFirst(s)
  {
    forall i | 0 <= i < |s| && s[i].parent.Some?
      ensures s[i].parent.value in IdsOf(s[..i])
    {
      var j := ParentIndex(s, i);
      assert s[..i][j].id == s[i].parent.value;
    }
  }

  lemma PayloadCarried(s: seq<PayloadNode>, rootParent: Option<int>)
    requires Flat(s)
    ensures Carries(PayloadTable(s, rootParent), s)
  {
    PayloadTableAt(s, rootParent);
  }

  // ----- What the rows are

  ghost predicate FromNode(n: Nodes, node: PayloadNode, captured: seq<AncestorRow>, row: ClosureRow)
  {
    row in WalkRows(n, node) || row in GraftRows(node, captured)
  }

  lemma {:induction false} ClosureFrom(n: Nodes, s: seq<PayloadNode>, captured: seq<AncestorRow>, row: ClosureRow)
    returns (i: int)
    requires row in ClosureOf(n, s, captured)
    ensures 0 <= i < |s| && FromNode(n, s[i], captured, row)
  {
    var l := |s| - 1;
    if FromNode(n, s[l], captured, row) {
      i := l;
    } else {
      i := ClosureFrom(n, s[..l], captured, row);
    }
  }

  lemma {:induction false} ClosureHas(n: Nodes, s: seq<PayloadNode>, captured: seq<AncestorRow>, i: int,
                                      row: ClosureRow)
    requires 0 <= i < |s| && FromNode(n, s[i], captured, row)
    ensures row in ClosureOf(n, s, captured)
  {
    if i == |s| - 1 {
    } else {
      ClosureHas(n, s[..|s| - 1], captured, i, row);
    }
  }

  /** Captured ancestors are distinct and lie outside the payload. */
  ghost predicate Outside(s: seq<PayloadNode>, captured: seq<AncestorRow>)
  {
    && (forall i, j :: 0 <= i < j < |captured| ==> captured[i].ancestor != captured[j].ancestor)
    && (forall i :: 0 <= i < |captured| ==> captured[i].ancestor !in IdsOf(s))
  }

  ghost function NodePairs(n: Nodes, node: PayloadNode, captured: seq<AncestorRow>): seq<ClosureRow>
  {
    WalkRows(n, node) + GraftRows(node, captured)
  }

  lemma {:induction false} WalkAncestor(n: Nodes, s: seq<PayloadNode>, i: int, k: nat)
    requires Flat(s) && Carries(n, s) && 0 <= i < |s| && k <= s[i].depth
    ensures WalkRows(n, s[i])[k] == ClosureRow(s[Lift(s, i, k)].id, s[i].id, k)
    ensures s[Lift(s, i, k)].id in IdsOf(s)
  {
    WalkUp(n, s, i, k);
  }

  lemma NodePairsDistinct(n: Nodes, s: seq<PayloadNode>, i: int, captured: seq<AncestorRow>)
    requires Flat(s) && Carries(n, s) && Outside(s, captured) && 0 <= i < |s|
    ensures !RepeatsPair(NodePairs(n, s[i], captured))
    ensures forall r :: r in NodePairs(n, s[i], captured) ==> r.descendant == s[i].id
  {
    var w, g, all := WalkRows(n, s[i]), GraftRows(s[i], captured), NodePairs(n, s[i], captured);
    forall a, b | 0 <= a < b < |all|
      ensures PairOf(all[a]) != PairOf(all[b])
    {
      if a < |w| {
        WalkAncestor(n, s, i, a);
        if b < |w| {
          WalkAncestor(n, s, i, b);
          assert s[Lift(s, i, a)].depth != s[Lift(s, i, b)].depth;
        } else {
          assert all[b] == g[b - |w|];
        }
      } else {
        assert all[a] == g[a - |w|] && all[b] == g[b - |w|];
      }
    }
  }

  lemma {:induction false} PairsDistinct(n: Nodes, s: seq<PayloadNode>, i: int, captured: seq<AncestorRow>)
    requires Flat(s) && Carries(n, s) && Outside(s, captured) && 0 <= i <= |s|
    ensures !RepeatsPair(ClosureOf(n, s[..i], captured))
    ensures forall r :: r in ClosureOf(n, s[..i], captured) ==> r.descendant in IdsOf(s[..i])
    decreases i
  {
    if i == 0 {
    } else {
      var l := i - 1;
      PairsDistinct(n, s, l, captured);
      NodePairsDistinct(n, s, l, captured);
      IdsTake(s, l);
      assert s[..i][..l] == s[..l];
      var x, y := ClosureOf(n, s[..l], captured), NodePairs(n, s[l], captured);
      assert ClosureOf(n, s[..i], captured) == x + y;
      assert s[l].id !in IdsOf(s[..l]);
      ConcatPairs(x, y);
    }
  }

  lemma ConcatPairs(x: seq<ClosureRow>, y: seq<ClosureRow>)
    requires !RepeatsPair(x) && !RepeatsPair(y)
    requires forall a, b :: a in x && b in y ==> a.descendant != b.descendant
    ensures !RepeatsPair(x + y)
  {
    var z := x + y;
    forall a, b | 0 <= a < b < |z|
      ensures PairOf(z[a]) != PairOf(z[b])
    {
      if a < |x| <= b {
        assert z[a] in x && z[b] in y;
      } else if |x| <= a {
        assert z[a] == y[a - |x|] && z[b] == y[b - |x|];
      }
    }
  }

  /** No ancestor-descendant pair is emitted twice, so the primary key cannot refuse the rows. */
  lemma NoPairTwice(s: seq<PayloadNode>, captured: seq<AncestorRow>)
    requires Flat(s) && Outside(s, captured)
    ensures !RepeatsPair(ClosureOf(PayloadTable(s, None), s, captured))
  {
    PayloadCarried(s, None);
    PairsDistinct(PayloadTable(s, None), s, |s|, captured);
    assert s[..|s|] == s;
  }

  // ----- How many rows there are

  /** One row per node for itself, one per level above it in the payload, one per captured ancestor. */
  ghost function RowCount(s: seq<PayloadNode>, captured: nat): nat
  {
    if s == [] then 0 else RowCount(s[..|s| - 1], captured) + 1 + s[|s| - 1].depth + captured
  }

  lemma {:induction false} ClosureSize(n: Nodes, s: seq<PayloadNode>, captured: seq<AncestorRow>)
    ensures |ClosureOf(n, s, captured)| == RowCount(s, |captured|)
  {
    if s == [] {
    } else {
      ClosureSize(n, s[..|s| - 1], captured);
    }
  }

  ghost predicate SingleChain(s: seq<PayloadNode>)
  {
    forall i :: 0 <= i < |s| ==> s[i].depth == i
  }

  lemma {:induction false} CountPrefix(s: seq<PayloadNode>, i: int, k: nat)
    requires Flat(s) && 0 <= i <= |s|
    ensures 2 * RowCount(s[..i], k) <= i * (i + 1) + 2 * (i * k)
    ensures 2 * RowCount(s[..i], k) == i * (i + 1) + 2 * (i * k) <==> SingleChain(s[..i])
    decreases i
  {
    if i == 0 {
    } else {
      var l := i - 1;
      CountPrefix(s, l, k);
      DepthAtMostIndex(s, l);
      assert s[..i][..l] == s[..l];
      assert i * (i + 1) == l * (l + 1) + 2 * i;
      assert i * k == l * k + k;
      assert SingleChain(s[..i]) <==> SingleChain(s[..l]) && s[l].depth == l by {
        assert forall j :: 0 <= j < l ==> s[..i][j] == s[..l][j];
        assert s[..i][l] == s[l];
      }
    }
  }

  /** `n` nodes under `k` captured ancestors imply at most n(n+1)/2 + nk closure rows, and exactly
      that many only when the payload is a single chain. */
  lemma {:induction false} ClosureSizeBound(s: seq<PayloadNode>, captured: seq<AncestorRow>)
    requires Flat(s)
    ensures var rows := |ClosureOf(PayloadTable(s, None), s, captured)|;
      && rows == RowCount(s, |captured|)
      && 2 * rows <= |s| * (|s| + 1) + 2 * (|s| * |captured|)
      && (2 * rows == |s| * (|s| + 1) + 2 * (|s| * |captured|) <==> SingleChain(s))
  {
    ClosureSize(PayloadTable(s, None), s, captured);
    CountPrefix(s, |s|, |captured|);
    assert s[..|s|] == s;
  }
}
