/** The forest that `nodes.parent_id` stores, and what walking it upwards gives. */
module Forest {
  import opened Types

  /** The node `k` edges above `x`, if the chain of parents is that long. */
  ghost function Anc(n: Nodes, x: int, k: nat): Option<int>
    decreases k
  {
    if k == 0 then Some(x)
    else if x in n && n[x].parent.Some? then Anc(n, n[x].parent.value, k - 1)
    else None
  }

  ghost predicate RefClosed(n: Nodes)
  {
    forall x :: x in n && n[x].parent.Some? ==> n[x].parent.value in n
  }

  ghost predicate OnCycle(n: Nodes, x: int, k: nat)
  {
    k > 0 && Anc(n, x, k) == Some(x)
  }

  ghost predicate Acyclic(n: Nodes)
  {
    forall x, k: nat :: x in n ==> !OnCycle(n, x, k)
  }

  ghost predicate Above(n: Nodes, a: int, x: int, k: nat)
  {
    Anc(n, x, k) == Some(a)
  }

  /** `a` is `x` or an ancestor of `x`. */
  ghost predicate AtOrAbove(n: Nodes, a: int, x: int)
  {
    exists k: nat :: Above(n, a, x, k)
  }

  ghost predicate StrictlyAbove(n: Nodes, a: int, x: int)
  {
    exists k: nat :: k > 0 && Above(n, a, x, k)
  }

  /** Everything stored at or below any of `ids`. */
  ghost function Desc(n: Nodes, ids: set<int>): set<int>
  {
    set x | x in n && exists s :: s in ids && AtOrAbove(n, s, x)
  }

  /** Everything strictly above `r`. */
  ghost function Ancestors(n: Nodes, r: int): set<int>
  {
    set a | a in n && StrictlyAbove(n, a, r)
  }

  lemma {:induction false} AncSplit(n: Nodes, x: int, i: nat, j: nat)
    ensures Anc(n, x, i).Some? ==> Anc(n, x, i + j) == Anc(n, Anc(n, x, i).value, j)
    ensures Anc(n, x, i).None? ==> Anc(n, x, i + j).None?
    decreases i
  {
    if i == 0 {
    } else if x in n && n[x].parent.Some? {
      AncSplit(n, n[x].parent.value, i - 1, j);
    }
  }

  lemma {:induction false} AncStored(n: Nodes, x: int, k: nat)
    requires RefClosed(n) && x in n
    ensures Anc(n, x, k).Some? ==> Anc(n, x, k).value in n
    decreases k
  {
    if k == 0 {
    } else if n[x].parent.Some? {
      AncStored(n, n[x].parent.value, k - 1);
    }
  }

  lemma NoReturn(n: Nodes, x: int, k: nat)
    requires Acyclic(n) && x in n && k > 0
    ensures Anc(n, x, k) != Some(x)
  {
    assert !OnCycle(n, x, k);
  }

  /** In a forest a node meets each of its ancestors at one distance only. */
  lemma AncOnce(n: Nodes, x: int, i: nat, j: nat)
    requires RefClosed(n) && Acyclic(n) && x in n
    requires Anc(n, x, i).Some? && Anc(n, x, i) == Anc(n, x, j)
    ensures i == j
  {
    var lo, hi := if i < j then i else j, if i < j then j else i;
    var a := Anc(n, x, lo).value;
    AncSplit(n, x, lo, hi - lo);
    AncStored(n, x, lo);
    assert a in n && !OnCycle(n, a, hi - lo);
  }

  /** The nodes met on the first `k` steps up from `x`, `x` included. */
  ghost function Met(n: Nodes, x: int, k: nat): set<int>
    decreases k
  {
    if k == 0 then {x}
    else if x in n && n[x].parent.Some? then {x} + Met(n, n[x].parent.value, k - 1)
    else {x}
  }

  lemma {:induction false} MetAt(n: Nodes, x: int, k: nat, y: int) returns (i: nat)
    requires y in Met(n, x, k)
    ensures i <= k && Anc(n, x, i) == Some(y)
    decreases k
  {
    if y == x {
      i := 0;
    } else {
      i := MetAt(n, n[x].parent.value, k - 1, y);
      i := i + 1;
    }
  }

  /** `i` steps up from `x` stands a node that is `m` steps above itself. */
  ghost predicate CycleAt(n: Nodes, x: int, i: nat, m: nat)
  {
    Anc(n, x, i).Some? && OnCycle(n, Anc(n, x, i).value, m)
  }

  /** The walk up from `x` goes round a cycle. */
  ghost predicate MeetsCycle(n: Nodes, x: int)
  {
    exists i: nat, m: nat :: CycleAt(n, x, i, m)
  }

  /** A walk over stored nodes either meets a new one at every step or has come round a cycle. */
  lemma {:induction false} MetOrCycle(n: Nodes, x: int, k: nat) returns (i: nat, m: nat)
    requires Anc(n, x, k).Some? && Anc(n, x, k).value in n
    ensures (Met(n, x, k) <= n.Keys && |Met(n, x, k)| == k + 1) || CycleAt(n, x, i, m)
    decreases k
  {
    i, m := 0, 0;
    if k == 0 {
    } else {
      var p := n[x].parent.value;
      i, m := MetOrCycle(n, p, k - 1);
      if CycleAt(n, p, i, m) {
        i := i + 1;
      } else if x in Met(n, p, k - 1) {
        m := MetAt(n, p, k - 1, x);
        i, m := 0, m + 1;
      }
    }
  }

  lemma Pick<T>(ids: set<T>) returns (x: T)
    requires ids != {}
    ensures x in ids
  {
    x :| x in ids;
  }

  lemma {:induction false} SubsetSize<T>(a: set<T>, b: set<T>)
    requires a <= b
    ensures |a| <= |b|
  {
    if a == {} {
    } else {
      var x :| x in a;
      SubsetSize(a - {x}, b - {x});
    }
  }

  /** A chain as long as the table, all of it stored, has gone round a cycle. */
  lemma LongChainMeetsCycle(n: Nodes, x: int, k: nat)
    requires Anc(n, x, k).Some? && Anc(n, x, k).value in n && k >= |n|
    ensures MeetsCycle(n, x)
  {
    var i, m := MetOrCycle(n, x, k);
    if !CycleAt(n, x, i, m) {
      SubsetSize(Met(n, x, k), n.Keys);
    }
  }

  lemma MeetsCycleNotAcyclic(n: Nodes, x: int)
    requires MeetsCycle(n, x)
    ensures !Acyclic(n)
  {
    var i: nat, m: nat :| CycleAt(n, x, i, m);
    assert Anc(n, x, i).value in n;
  }

  /** Every chain of parents is shorter than the number of stored nodes. */
  lemma ChainBounded(n: Nodes, x: int, k: nat)
    requires RefClosed(n) && Acyclic(n) && x in n && Anc(n, x, k).Some?
    ensures k < |n|
  {
    AncStored(n, x, k);
    if k >= |n| {
      LongChainMeetsCycle(n, x, k);
      MeetsCycleNotAcyclic(n, x);
    }
  }

  lemma DescHas(n: Nodes, ids: set<int>, s: int, x: int, k: nat)
    requires x in n && s in ids && Anc(n, x, k) == Some(s)
    ensures x in Desc(n, ids)
  {
    assert Above(n, s, x, k);
    assert AtOrAbove(n, s, x);
  }

  lemma DescBy(n: Nodes, ids: set<int>, x: int) returns (s: int, k: nat)
    requires x in Desc(n, ids)
    ensures s in ids && Anc(n, x, k) == Some(s)
  {
    s :| s in ids && AtOrAbove(n, s, x);
    k :| Above(n, s, x, k);
  }

  lemma AncestorsHas(n: Nodes, r: int, a: int, k: nat)
    requires RefClosed(n) && k > 0 && Anc(n, r, k) == Some(a)
    ensures r in n && a in n && a in Ancestors(n, r)
  {
    AncStored(n, r, k);
    assert Above(n, a, r, k);
  }

  lemma AncestorsBy(n: Nodes, r: int, a: int) returns (k: nat)
    requires a in Ancestors(n, r)
    ensures k > 0 && Anc(n, r, k) == Some(a)
  {
    k :| k > 0 && Above(n, a, r, k);
  }

  /** Everything below a node below `ids` is itself below `ids`. */
  lemma DescDown(n: Nodes, ids: set<int>, y: int, x: int, k: nat)
    requires x in n && Anc(n, x, k) == Some(y) && y in Desc(n, ids)
    ensures x in Desc(n, ids)
  {
    var s, j := DescBy(n, ids, y);
    AncSplit(n, x, k, j);
    DescHas(n, ids, s, x, k + j);
  }
}
