/** `assemble_tree`: one forward pass nests the flat rows of a subtree read, on the heap. */
module Assemble {
  import opened Types

  /** A node of an answer while it is being built: its children list grows in place. */
  class HierarchyNode {
    const id: int
    const typ: NodeType
    var children: seq<HierarchyNode>

    constructor (id: int, typ: NodeType)
      ensures this.id == id && this.typ == typ && children == []
    {
      this.id, this.typ, this.children := id, typ, [];
    }
  }

  /** What is reachable from `node` through children lists reads as the value `t`. */
  ghost predicate IsTree(node: HierarchyNode, t: Tree, heap: set<HierarchyNode>)
    reads heap
    decreases t
  {
    && node in heap && node.id == t.id && node.typ == t.typ
    && |node.children| == |t.children|
    && forall i :: 0 <= i < |t.children| ==> IsTree(node.children[i], t.children[i], heap)
  }

  /** What a node reads as is decided by what is linked below it. */
  lemma {:induction false} IsTreeOnce(node: HierarchyNode, t: Tree, u: Tree, heap: set<HierarchyNode>)
    requires IsTree(node, t, heap) && IsTree(node, u, heap)
    ensures t == u
    decreases t
  {
    forall i | 0 <= i < |t.children|
      ensures t.children[i] == u.children[i]
    {
      IsTreeOnce(node.children[i], t.children[i], u.children[i], heap);
    }
    assert t.children == u.children;
  }

  ghost predicate DistinctRows(rows: seq<SubtreeRow>)
  {
    forall i, j :: 0 <= i < j < |rows| ==> rows[i].id != rows[j].id
  }

  ghost function RowIds(rows: seq<SubtreeRow>): set<int>
  {
    set i | 0 <= i < |rows| :: rows[i].id
  }

  ghost predicate ParentEarlier(rows: seq<SubtreeRow>, i: int)
    requires 0 <= i < |rows|
  {
    rows[i].parent.Some? && rows[i].parent.value in RowIds(rows[..i])
  }

  /** Every row but the first comes after its parent. */
  ghost predicate ParentsEarlier(rows: seq<SubtreeRow>)
  {
    forall i :: 0 < i < |rows| ==> ParentEarlier(rows, i)
  }

  /** Row `i` is the first, past the top one, that does not come after its parent. */
  ghost predicate FirstOrphan(rows: seq<SubtreeRow>, i: int)
  {
    0 < i < |rows| && !ParentEarlier(rows, i) && forall j :: 0 < j < i ==> ParentEarlier(rows, j)
  }

  lemma FirstOrphanOnce(rows: seq<SubtreeRow>, i: int, j: int)
    requires FirstOrphan(rows, i) && FirstOrphan(rows, j)
    ensures i == j && !ParentsEarlier(rows)
    ensures rows[i].parent.Some? ==> forall k :: 0 <= k < i ==> rows[k].id != rows[i].parent.value
  {
    if rows[i].parent.Some? {
      forall k | 0 <= k < i
        ensures rows[k].id != rows[i].parent.value
      {
        assert rows[..i][k] == rows[k];
      }
    }
  }

  /** Where, among rows 1 to `hi`, the children of `id` are. */
  ghost function KidIndices(rows: seq<SubtreeRow>, id: int, hi: int): (ks: seq<int>)
    requires 0 <= hi <= |rows|
    ensures forall k :: 0 <= k < |ks| ==> 0 < ks[k] < hi && rows[ks[k]].parent == Some(id)
    decreases hi
  {
    if hi <= 1 then []
    else KidIndices(rows, id, hi - 1) + if rows[hi - 1].parent == Some(id) then [hi - 1] else []
  }

  lemma {:induction false} KidIndicesComplete(rows: seq<SubtreeRow>, id: int, hi: int)
    requires 0 <= hi <= |rows|
    ensures forall k, l :: 0 <= k < l < |KidIndices(rows, id, hi)| ==>
      KidIndices(rows, id, hi)[k] < KidIndices(rows, id, hi)[l]
    ensures forall i :: 0 < i < hi && rows[i].parent == Some(id) ==> i in KidIndices(rows, id, hi)
    decreases hi
  {
    if hi <= 1 {
    } else {
      KidIndicesComplete(rows, id, hi - 1);
    }
  }

  lemma KidLater(rows: seq<SubtreeRow>, i: int, j: int)
    requires DistinctRows(rows) && 0 <= i < |rows| && 0 <= j < |rows| && ParentEarlier(rows, j)
    requires rows[j].parent == Some(rows[i].id)
    ensures i < j
  {
    var l :| 0 <= l < |rows[..j]| && rows[..j][l].id == rows[i].id;
  }

  /** The tree the rows describe from row `i` down: its children are the rows naming it as
      parent, in row order. */
  ghost function TreeFrom(rows: seq<SubtreeRow>, i: int): (t: Tree)
    requires DistinctRows(rows) && ParentsEarlier(rows) && 0 <= i < |rows|
    ensures t.id == rows[i].id
    decreases |rows| - i
  {
    var ks := KidIndices(rows, rows[i].id, |rows|);
    Tree(rows[i].id, rows[i].typ,
         seq(|ks|, k requires 0 <= k < |ks| => KidLater(rows, i, ks[k]); TreeFrom(rows, ks[k])))
  }

  /** The list of children kept for row `j` holds, in order, the nodes built for its children so far. */
  ghost predicate KidsBuilt(rows: seq<SubtreeRow>, hi: int, built: map<int, HierarchyNode>,
                            kids: map<int, seq<HierarchyNode>>, j: int)
    requires 0 <= j < hi <= |rows|
  {
    && rows[j].id in built && rows[j].id in kids
    && built[rows[j].id].typ == rows[j].typ
    && var ks := KidIndices(rows, rows[j].id, hi);
       var list := kids[rows[j].id];
       && |list| == |ks|
       && forall k :: 0 <= k < |ks| ==> rows[ks[k]].id in built && list[k] == built[rows[ks[k]].id]
  }

  /** `kids` records the children lists of the nodes in `built`, all of them from `heap`. */
  ghost predicate Records(built: map<int, HierarchyNode>, kids: map<int, seq<HierarchyNode>>,
                          heap: set<HierarchyNode>)
    reads heap
  {
    && built.Keys == kids.Keys
    && forall x :: x in built ==> built[x] in heap && built[x].id == x && built[x].children == kids[x]
  }

  lemma {:induction false} BuiltTree(rows: seq<SubtreeRow>, built: map<int, HierarchyNode>,
                                     kids: map<int, seq<HierarchyNode>>, heap: set<HierarchyNode>, i: int)
    requires DistinctRows(rows) && ParentsEarlier(rows) && 0 <= i < |rows|
    requires Records(built, kids, heap)
    requires forall j :: 0 <= j < |rows| ==> KidsBuilt(rows, |rows|, built, kids, j)
    ensures rows[i].id in built && IsTree(built[rows[i].id], TreeFrom(rows, i), heap)
    decreases |rows| - i
  {
    var ks := KidIndices(rows, rows[i].id, |rows|);
    assert KidsBuilt(rows, |rows|, built, kids, i);
    var node, t := built[rows[i].id], TreeFrom(rows, i);
    forall k | 0 <= k < |t.children|
      ensures IsTree(node.children[k], t.children[k], heap)
    {
      KidLater(rows, i, ks[k]);
      BuiltTree(rows, built, kids, heap, ks[k]);
    }
  }

  lemma RowIdsTake(rows: seq<SubtreeRow>, i: int)
    requires 0 <= i < |rows|
    ensures RowIds(rows[..i + 1]) == RowIds(rows[..i]) + {rows[i].id}
  {
    var a, b := rows[..i], rows[..i + 1];
    forall x | x in RowIds(a) + {rows[i].id}
      ensures x in RowIds(b)
    {
      if x in RowIds(a) {
        var j :| 0 <= j < |a| && a[j].id == x;
        assert b[j].id == x;
      } else {
        assert b[i].id == x;
      }
    }
    forall x | x in RowIds(b)
      ensures x in RowIds(a) + {rows[i].id}
    {
      var j :| 0 <= j < |b| && b[j].id == x;
      if j < i {
        assert a[j].id == x;
      }
    }
  }

  ghost predicate Prefix(rows: seq<SubtreeRow>, i: int)
    requires 0 <= i <= |rows|
  {
    forall j :: 0 < j < i ==> ParentEarlier(rows, j)
  }

  lemma NoKidsYet(rows: seq<SubtreeRow>, i: int)
    requires DistinctRows(rows) && 0 <= i < |rows|
    requires forall j :: 0 < j <= i ==> ParentEarlier(rows, j)
    ensures KidIndices(rows, rows[i].id, i + 1) == []
  {
    var ks := KidIndices(rows, rows[i].id, i + 1);
    if ks != [] {
      KidLater(rows, i, ks[0]);
    }
  }

  /** The lists once `node` is appended to the one of `parent`, if there is one. */
  ghost function Appended(kids: map<int, seq<HierarchyNode>>, parent: Option<int>, node: HierarchyNode)
    : map<int, seq<HierarchyNode>>
  {
    map x | x in kids :: if parent == Some(x) then kids[x] + [node] else kids[x]
  }

  /** The lists after row `i`: its parent's has one node more, its own is empty. */
  ghost function Attached(rows: seq<SubtreeRow>, i: int, kids: map<int, seq<HierarchyNode>>, node: HierarchyNode)
    : map<int, seq<HierarchyNode>>
    requires 0 <= i < |rows|
  {
    Appended(kids, if i > 0 then rows[i].parent else None, node)[rows[i].id := []]
  }

  ghost predicate AllKidsBuilt(rows: seq<SubtreeRow>, hi: int, built: map<int, HierarchyNode>,
                               kids: map<int, seq<HierarchyNode>>)
    requires 0 <= hi <= |rows|
  {
    forall j :: 0 <= j < hi ==> KidsBuilt(rows, hi, built, kids, j)
  }

  lemma AttachOld(rows: seq<SubtreeRow>, i: int, built: map<int, HierarchyNode>,
                  kids: map<int, seq<HierarchyNode>>, node: HierarchyNode, j: int)
    requires 0 <= j < i < |rows| && rows[j].id != rows[i].id
    requires forall k :: 0 <= k < i ==> rows[k].id != rows[i].id
    requires KidsBuilt(rows, i, built, kids, j)
    ensures KidsBuilt(rows, i + 1, built[rows[i].id := node], Attached(rows, i, kids, node), j)
  {
    var past, now := KidIndices(rows, rows[j].id, i), KidIndices(rows, rows[j].id, i + 1);
    if rows[i].parent == Some(rows[j].id) {
      assert now == past + [i];
    } else {
      assert now == past;
    }
  }

  lemma AttachStep(rows: seq<SubtreeRow>, i: int, built: map<int, HierarchyNode>,
                   kids: map<int, seq<HierarchyNode>>, node: HierarchyNode)
    requires DistinctRows(rows) && 0 <= i < |rows|
    requires Prefix(rows, i + 1)
    requires AllKidsBuilt(rows, i, built, kids)
    requires node.typ == rows[i].typ
    ensures AllKidsBuilt(rows, i + 1, built[rows[i].id := node], Attached(rows, i, kids, node))
  {
    var built', kids', hi := built[rows[i].id := node], Attached(rows, i, kids, node), i + 1;
    forall j | 0 <= j < hi
      ensures KidsBuilt(rows, hi, built', kids', j)
    {
      if j == i {
        NoKidsYet(rows, i);
      } else {
        AttachOld(rows, i, built, kids, node, j);
      }
    }
  }

  /** The pass after its first `i` rows: every one of them but the first came after its parent,
      and the lists kept hold its children so far. */
  ghost predicate Nested(rows: seq<SubtreeRow>, i: int, built: map<int, HierarchyNode>,
                         kids: map<int, seq<HierarchyNode>>)
    requires 0 <= i <= |rows|
  {
    && built.Keys == RowIds(rows[..i]) && Prefix(rows, i)
    && (DistinctRows(rows) ==> AllKidsBuilt(rows, i, built, kids))
  }

  /** The row is the first, or its parent has been built. */
  predicate ParentBuilt(row: SubtreeRow, i: int, ids: set<int>)
  {
    i == 0 || (row.parent.Some? && row.parent.value in ids)
  }

  lemma NestedFails(rows: seq<SubtreeRow>, i: int, built: map<int, HierarchyNode>,
                    kids: map<int, seq<HierarchyNode>>)
    requires 0 <= i < |rows| && Nested(rows, i, built, kids) && !ParentBuilt(rows[i], i, built.Keys)
    ensures FirstOrphan(rows, i) && !ParentsEarlier(rows)
  {
    assert !ParentEarlier(rows, i);
  }

  lemma NestedStep(rows: seq<SubtreeRow>, i: int, built: map<int, HierarchyNode>,
                   kids: map<int, seq<HierarchyNode>>, node: HierarchyNode,
                   built': map<int, HierarchyNode>, kids': map<int, seq<HierarchyNode>>)
    requires 0 <= i < |rows| && Nested(rows, i, built, kids) && ParentBuilt(rows[i], i, built.Keys)
    requires node.typ == rows[i].typ
    requires built' == built[rows[i].id := node] && kids' == Attached(rows, i, kids, node)
    ensures Nested(rows, i + 1, built', kids')
  {
    RowIdsTake(rows, i);
    if DistinctRows(rows) {
      AttachStep(rows, i, built, kids, node);
    }
  }

  /** Files `node` under its id and appends it to the children of `parent`; no other list changes. */
  method Attach(parent: HierarchyNode?, node: HierarchyNode, built: map<int, HierarchyNode>,
                ghost kids: map<int, seq<HierarchyNode>>, ghost heap: set<HierarchyNode>)
    returns (built': map<int, HierarchyNode>, ghost kids': map<int, seq<HierarchyNode>>)
    requires Records(built, kids, heap) && node !in heap && node.children == []
    requires parent != null ==> parent.id in built && built[parent.id] == parent
    modifies if parent == null then {} else {parent}
    ensures built' == built[node.id := node]
    ensures kids' == Appended(kids, if parent == null then None else Some(parent.id), node)[node.id := []]
    ensures Records(built', kids', heap + {node})
  {
    built' := built[node.id := node];
    kids' := Appended(kids, if parent == null then None else Some(parent.id), node)[node.id := []];
    if parent != null {
      parent.children := parent.children + [node];
    }
  }

  /** Nesting fails exactly when some row after the first does not follow its parent, and then it
      is the parent of the first such row that it could not look up. Otherwise the nodes it built
      and linked in place read as the tree the rows describe; no rows give no node. */
  method AssembleTree(rows: seq<SubtreeRow>)
    returns (r: Result<HierarchyNode?, Option<int>>, ghost heap: set<HierarchyNode>)
    ensures r.Ok? <==> ParentsEarlier(rows)
    ensures r.Err? ==> exists i :: FirstOrphan(rows, i) && r.error == rows[i].parent
    ensures r.Ok? ==> (r.value == null <==> rows == [])
    ensures fresh(heap)
    ensures r.Ok? && rows != [] && DistinctRows(rows) ==> IsTree(r.value, TreeFrom(rows, 0), heap)
  {
    var built: map<int, HierarchyNode> := map[];
    var root: HierarchyNode? := null;
    ghost var kids: map<int, seq<HierarchyNode>> := map[];
    heap := {};
    for i := 0 to |rows|
      invariant Nested(rows, i, built, kids)
      invariant fresh(heap) && Records(built, kids, heap)
      invariant root == null <==> i == 0
      invariant DistinctRows(rows) && i > 0 ==> rows[0].id in built && root == built[rows[0].id]
    {
      var row := rows[i];
      var node := new HierarchyNode(row.id, row.typ);
      var parent: HierarchyNode? := null;
      if root == null {
        root := node;
      } else {
        if row.parent.None? || row.parent.value !in built {
          NestedFails(rows, i, built, kids);
          return Err(row.parent), {};
        }
        parent := built[row.parent.value];
      }
      ghost var before, lists := built, kids;
      built, kids := Attach(parent, node, built, kids, heap);
      NestedStep(rows, i, before, lists, node, built, kids);
      heap := heap + {node};
    }
    if rows != [] && DistinctRows(rows) {
      BuiltTree(rows, built, kids, heap, 0);
    }
    return Ok(root), heap;
  }
}
