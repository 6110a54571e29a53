/** The relational store: what each SQL statement reads, writes and refuses.

    A transaction's own writes are kept as row-level deltas over the committed tables. A
    statement computes its writes from the rows it can see, and every constraint is checked
    against the rows as they stand when the statement ends. */
module Statements {
  import opened Types

  /** Row writes: a value for a row inserted or updated, None for a row deleted. */
  datatype Delta = Delta(nodes: map<int, Option<NodeRec>>, closure: map<Key, Option<int>>)

  datatype Refusal =
    | RowTouchedTwice   // ON CONFLICT DO UPDATE names one row twice
    | MissingParent     // fk_nodes_parent, on insert or update
    | Restricted        // fk_nodes_parent, on delete
    | DuplicatePair     // primary key of node_closure
    | NegativeDepth     // ck_node_closure_depth_non_negative
    | MissingEndpoint   // fk_node_closure_ancestor, fk_node_closure_descendant
    | SecondParent      // uq_node_single_parent

  const NO_WRITES := Delta(map[], map[])

  function Overlay<K, V>(m: map<K, V>, d: map<K, Option<V>>): map<K, V>
  {
    map k | k in m.Keys + d.Keys && (k in d ==> d[k].Some?) :: if k in d then d[k].value else m[k]
  }

  /** The rows a transaction sees: what is committed, with its own writes on top. */
  function View(db: Tables, d: Delta): Tables
  {
    Tables(Overlay(db.nodes, d.nodes), Overlay(db.closure, d.closure))
  }

  function Then(d: Delta, w: Delta): Delta
  {
    Delta(d.nodes + w.nodes, d.closure + w.closure)
  }

  function Written<K, V>(m: map<K, V>): map<K, Option<V>>
  {
    map k | k in m :: Some(m[k])
  }

  function Removed<K, V>(ks: set<K>): map<K, Option<V>>
  {
    map k | k in ks :: None
  }

  lemma OverlayWritten<K, V>(m: map<K, V>, x: map<K, V>)
    ensures Overlay(m, Written(x)) == m + x
  {
  }

  lemma OverlayRemoved<K, V>(m: map<K, V>, ks: set<K>)
    ensures Overlay(m, Removed(ks)) == m - ks
  {
  }

  lemma OverlayNothing<K, V>(m: map<K, V>)
    ensures Overlay(m, map[]) == m
  {
  }

  lemma OverlayThen<K, V>(m: map<K, V>, d: map<K, Option<V>>, w: map<K, Option<V>>)
    ensures Overlay(m, d + w) == Overlay(Overlay(m, d), w)
  {
  }

  /** Adding a statement's writes to the delta changes the view as the statement says. */
  lemma ViewThen(db: Tables, d: Delta, w: Delta)
    ensures View(db, Then(d, w)) == View(View(db, d), w)
  {
    OverlayThen(db.nodes, d.nodes, w.nodes);
    OverlayThen(db.closure, d.closure, w.closure);
  }

  lemma ViewNothing(db: Tables)
    ensures View(db, NO_WRITES) == db
  {
    OverlayNothing(db.nodes);
    OverlayNothing(db.closure);
  }

  // ----- Reads

  /** `s` lists the rows of `rows`, each once, in whatever order the database returns them. */
  ghost predicate Lists<T(!new)>(s: seq<T>, rows: set<T>)
  {
    && (forall i, j :: 0 <= i < j < |s| ==> s[i] != s[j])
    && (forall x :: x in s <==> x in rows)
  }

  /** `fetch_ancestor_depths`: the rows above `r`, which come back in no particular order. */
  function AncestorRows(v: Tables, r: int): set<AncestorRow>
  {
    set p | p in v.closure && p.descendant == r && v.closure[p] > 0 :: AncestorRow(p.ancestor, v.closure[p])
  }

  /** `fetch_parent_id`: None for a root and for an id that is not stored. */
  function ParentOf(n: Nodes, r: int): Option<int>
  {
    if r in n then n[r].parent else None
  }

  /** `fetch_descendant_ids`. */
  function DescendantIds(v: Tables, ids: set<int>): set<int>
  {
    set p | p in v.closure && p.ancestor in ids :: p.descendant
  }

  function SubtreeRowOf(v: Tables, p: Key): SubtreeRow
    requires p in v.closure && p.descendant in v.nodes
  {
    SubtreeRow(p.descendant, v.nodes[p.descendant].typ, v.nodes[p.descendant].parent, v.closure[p])
  }

  function SubtreeRows(v: Tables, r: int): set<SubtreeRow>
  {
    set p | p in v.closure && p.ancestor == r && p.descendant in v.nodes :: SubtreeRowOf(v, p)
  }

  predicate ReadsBefore(a: SubtreeRow, b: SubtreeRow)
  {
    a.depth < b.depth || (a.depth == b.depth && a.id < b.id)
  }

  ghost predicate InReadOrder(rows: seq<SubtreeRow>)
  {
    forall i, j :: 0 <= i < j < |rows| ==> ReadsBefore(rows[i], rows[j])
  }

  /** `fetch_subtree_rows`: the join, ordered by depth and then id. */
  ghost predicate IsRead(v: Tables, r: int, rows: seq<SubtreeRow>)
  {
    InReadOrder(rows) && forall x :: x in rows <==> x in SubtreeRows(v, r)
  }

  lemma {:induction false} LeastRowExists(t: Tables, r: int, rest: set<SubtreeRow>) returns (m: SubtreeRow)
    requires rest != {} && rest <= SubtreeRows(t, r)
    ensures m in rest && forall x :: x in rest ==> x == m || ReadsBefore(m, x)
    decreases |rest|
  {
    var a :| a in rest;
    if rest == {a} {
      m := a;
    } else {
      var others := rest - {a};
      assert others != {};
      var b := LeastRowExists(t, r, others);
      OneRowPerId(t, r, a, b);
      m := if ReadsBefore(a, b) then a else b;
      forall x | x in rest
        ensures x == m || ReadsBefore(m, x)
      {
        assert x == a || x in others;
        OneRowPerId(t, r, a, x);
      }
    }
  }

  lemma OneRowPerId(t: Tables, r: int, a: SubtreeRow, b: SubtreeRow)
    requires a in SubtreeRows(t, r) && b in SubtreeRows(t, r)
    ensures a.id == b.id ==> a == b
  {
    var p :| p in t.closure && p.ancestor == r && p.descendant in t.nodes && a == SubtreeRowOf(t, p);
    var q :| q in t.closure && q.ancestor == r && q.descendant in t.nodes && b == SubtreeRowOf(t, q);
    assert p == Key(r, a.id) && q == Key(r, b.id);
  }

  /** Some order of the rows is the one the read returns. */
  lemma {:induction false} ReadExists(t: Tables, r: int, rest: set<SubtreeRow>) returns (rows: seq<SubtreeRow>)
    requires rest <= SubtreeRows(t, r)
    ensures InReadOrder(rows) && forall x :: x in rows <==> x in rest
    decreases |rest|
  {
    if rest == {} {
      rows := [];
    } else {
      var m := LeastRowExists(t, r, rest);
      var tail := ReadExists(t, r, rest - {m});
      rows := [m] + tail;
      forall i, j | 0 <= i < j < |rows|
        ensures ReadsBefore(rows[i], rows[j])
      {
        if i == 0 {
          assert rows[j] == tail[j - 1] && tail[j - 1] in tail;
        } else {
          assert rows[i] == tail[i - 1] && rows[j] == tail[j - 1];
        }
      }
    }
  }

  lemma {:induction false} ReadOrderUnique(a: seq<SubtreeRow>, b: seq<SubtreeRow>)
    requires InReadOrder(a) && InReadOrder(b) && forall x :: x in a <==> x in b
    ensures a == b
  {
    if a == [] {
      HeadIsRead(b);
    } else {
      assert a[0] in a && b[0] in b;
      HeadReadsFirst(a, b[0]);
      HeadReadsFirst(b, a[0]);
      forall x
        ensures x in a[1..] <==> x in b[1..]
      {
        TailHas(a, x);
        TailHas(b, x);
      }
      ReadOrderUnique(a[1..], b[1..]);
    }
  }

  lemma HeadIsRead(a: seq<SubtreeRow>)
    ensures a != [] ==> a[0] in a
  {
  }

  lemma HeadReadsFirst(a: seq<SubtreeRow>, x: SubtreeRow)
    requires InReadOrder(a) && x in a
    ensures x == a[0] || ReadsBefore(a[0], x)
  {
    var k :| 0 <= k < |a| && a[k] == x;
  }

  lemma TailHas(a: seq<SubtreeRow>, x: SubtreeRow)
    requires InReadOrder(a) && a != []
    ensures x in a[1..] <==> x in a && x != a[0]
  {
    if x in a[1..] {
      var k :| 0 <= k < |a[1..]| && a[1..][k] == x;
      assert ReadsBefore(a[0], a[k + 1]);
    }
  }

  /** A read of one state returns one list. */
  lemma ReadOnce(t: Tables, r: int, a: seq<SubtreeRow>, b: seq<SubtreeRow>)
    requires IsRead(t, r, a) && IsRead(t, r, b)
    ensures a == b
  {
    ReadOrderUnique(a, b);
  }

  lemma {:induction false} ListExists<T(!new)>(rows: set<T>) returns (s: seq<T>)
    ensures Lists(s, rows)
    decreases |rows|
  {
    if rows == {} {
      s := [];
    } else {
      var x :| x in rows;
      s := ListExists(rows - {x});
      s := [x] + s;
    }
  }

  // ----- Writes

  function RowTable(rows: seq<NodeRow>): Nodes
  {
    if rows == [] then map[]
    else
      var last := rows[|rows| - 1];
      RowTable(rows[..|rows| - 1])[last.id := NodeRec(last.typ, last.parent)]
  }

  function PairOf(row: ClosureRow): Key
  {
    Key(row.ancestor, row.descendant)
  }

  function PairTable(rows: seq<ClosureRow>): map<Key, int>
  {
    if rows == [] then map[]
    else
      var last := rows[|rows| - 1];
      PairTable(rows[..|rows| - 1])[PairOf(last) := last.depth]
  }

  predicate RepeatsId(rows: seq<NodeRow>)
  {
    exists i, j :: 0 <= i < j < |rows| && rows[i].id == rows[j].id
  }

  predicate MissesParent(after: Nodes, rows: seq<NodeRow>)
  {
    exists i :: 0 <= i < |rows| && rows[i].parent.Some? && rows[i].parent.value !in after
  }

  /** `upsert_nodes`: one INSERT ... ON CONFLICT (id) DO UPDATE over all of `rows`. */
  function Upsert(v: Tables, rows: seq<NodeRow>): Result<Delta, Refusal>
  {
    if RepeatsId(rows) then Err(RowTouchedTwice)
    else if MissesParent(v.nodes + RowTable(rows), rows) then Err(MissingParent)
    else Ok(Delta(Written(RowTable(rows)), map[]))
  }

  /** Some node that stays has a parent among `gone`. */
  predicate Orphans(n: Nodes, gone: set<int>)
  {
    exists x :: x in n && x !in gone && n[x].parent.Some? && n[x].parent.value in gone
  }

  /** `delete_nodes`: one DELETE naming all of `ids`; closure rows follow either endpoint. */
  function Delete(v: Tables, ids: set<int>): Result<Delta, Refusal>
  {
    var gone := ids * v.nodes.Keys;
    if Orphans(v.nodes, gone) then Err(Restricted)
    else Ok(Delta(Removed(gone), Removed(KeysTouching(v, gone))))
  }

  function KeysTouching(v: Tables, ids: set<int>): set<Key>
  {
    set p | p in v.closure && (p.ancestor in ids || p.descendant in ids)
  }

  function KeysUnder(v: Tables, ids: set<int>): set<Key>
  {
    set p | p in v.closure && p.descendant in ids
  }

  /** First statement of `replace_closure`: nothing references closure rows, so no refusal. */
  function ClearClosure(v: Tables, ids: set<int>): Delta
  {
    Delta(map[], Removed(KeysUnder(v, ids)))
  }

  predicate RepeatsPair(rows: seq<ClosureRow>)
  {
    exists i, j :: 0 <= i < j < |rows| && PairOf(rows[i]) == PairOf(rows[j])
  }

  predicate StoredAlready(v: Tables, row: ClosureRow) { PairOf(row) in v.closure }

  predicate BelowZero(row: ClosureRow) { row.depth < 0 }

  predicate MissesEndpoint(v: Tables, row: ClosureRow)
  {
    row.ancestor !in v.nodes || row.descendant !in v.nodes
  }

  /** Two depth-1 rows for one descendant. */
  predicate TwoParents(closure: map<Key, int>)
  {
    exists p, q :: p in closure && q in closure && TwoParentRows(closure, p, q)
  }

  predicate TwoParentRows(closure: map<Key, int>, p: Key, q: Key)
    requires p in closure && q in closure
  {
    p != q && p.descendant == q.descendant && closure[p] == 1 && closure[q] == 1
  }

  /** Second statement of `replace_closure`: one INSERT over all of `rows`. */
  function InsertClosure(v: Tables, rows: seq<ClosureRow>): Result<Delta, Refusal>
  {
    if RepeatsPair(rows) || exists i :: 0 <= i < |rows| && StoredAlready(v, rows[i]) then Err(DuplicatePair)
    else if exists i :: 0 <= i < |rows| && BelowZero(rows[i]) then Err(NegativeDepth)
    else if exists i :: 0 <= i < |rows| && MissesEndpoint(v, rows[i]) then Err(MissingEndpoint)
    else if TwoParents(v.closure + PairTable(rows)) then Err(SecondParent)
    else Ok(Delta(map[], Written(PairTable(rows))))
  }

  // ----- What the tables built from row lists hold

  lemma {:induction false} RowTableAt(rows: seq<NodeRow>)
    requires forall i, j :: 0 <= i < j < |rows| ==> rows[i].id != rows[j].id
    ensures forall i :: 0 <= i < |rows| ==>
      rows[i].id in RowTable(rows) && RowTable(rows)[rows[i].id] == NodeRec(rows[i].typ, rows[i].parent)
    ensures forall x :: x in RowTable(rows) ==> exists i :: 0 <= i < |rows| && rows[i].id == x
  {
    if rows == [] {
    } else {
      var init := rows[..|rows| - 1];
      RowTableAt(init);
      forall x | x in RowTable(rows)
        ensures exists i :: 0 <= i < |rows| && rows[i].id == x
      {
        if x in RowTable(init) {
          var i :| 0 <= i < |init| && init[i].id == x;
          assert rows[i].id == x;
        }
      }
      forall i | 0 <= i < |rows|
        ensures rows[i].id in RowTable(rows) && RowTable(rows)[rows[i].id] == NodeRec(rows[i].typ, rows[i].parent)
      {
        if i < |init| {
          assert init[i] == rows[i];
        }
      }
    }
  }

  lemma {:induction false} PairTableAt(rows: seq<ClosureRow>)
    requires forall i, j :: 0 <= i < j < |rows| ==> PairOf(rows[i]) != PairOf(rows[j])
    ensures forall i :: 0 <= i < |rows| ==>
      PairOf(rows[i]) in PairTable(rows) && PairTable(rows)[PairOf(rows[i])] == rows[i].depth
    ensures forall p :: p in PairTable(rows) ==> exists i :: 0 <= i < |rows| && PairOf(rows[i]) == p
  {
    if rows == [] {
    } else {
      var init := rows[..|rows| - 1];
      PairTableAt(init);
      forall p | p in PairTable(rows)
        ensures exists i :: 0 <= i < |rows| && PairOf(rows[i]) == p
      {
        if p in PairTable(init) {
          var i :| 0 <= i < |init| && PairOf(init[i]) == p;
          assert PairOf(rows[i]) == p;
        }
      }
      forall i | 0 <= i < |rows|
        ensures PairOf(rows[i]) in PairTable(rows) && PairTable(rows)[PairOf(rows[i])] == rows[i].depth
      {
        if i < |init| {
          assert init[i] == rows[i];
        }
      }
    }
  }
}
