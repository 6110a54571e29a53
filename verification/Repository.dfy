/** `PostgresHierarchyRepository`: one session's statements against the shared database. */
module Repository {
  import opened Types
  import opened Statements

  /** What all sessions share: the committed tables and the one write lock. */
  class Database {
    var tables: Tables
    var lockHolder: PostgresHierarchyRepository?

    constructor ()
      ensures tables == Tables(map[], map[]) && lockHolder == null
    {
      tables := Tables(map[], map[]);
      lockHolder := null;
    }
  }

  class PostgresHierarchyRepository {
    const db: Database
    var delta: Delta

    constructor (db: Database)
      ensures this.db == db && delta == NO_WRITES
    {
      this.db, delta := db, NO_WRITES;
    }

    /** The rows this session's next statement sees. */
    function Seen(): Tables
      reads this, db
    {
      View(db.tables, delta)
    }

    /** What is committed when this session gets the lock: if another session holds it, whatever
        that one and those ahead in the queue leave, which is `left`. */
    function Granted(left: Tables): Tables
      reads this, db
    {
      if db.lockHolder == null || db.lockHolder == this then db.tables else left
    }

    /** Returns once the lock is free, holding it. */
    method LockWrites(left: Tables)
      modifies db
      ensures db.lockHolder == this
      ensures db.tables == if old(db.lockHolder) in {null, this} then old(db.tables) else left
    {
      db.tables := Granted(left);
      db.lockHolder := this;
    }

    method FetchSubtreeRows(rootId: int) returns (rows: seq<SubtreeRow>)
      ensures IsRead(Seen(), rootId, rows)
    {
      rows := [];
      var rest := SubtreeRows(Seen(), rootId);
      while rest != {}
        invariant rest <= SubtreeRows(Seen(), rootId)
        invariant forall x :: x in rows || x in rest <==> x in SubtreeRows(Seen(), rootId)
        invariant InReadOrder(rows)
        invariant forall x, y :: x in rows && y in rest ==> ReadsBefore(x, y)
        decreases |rest|
      {
        ghost var l := LeastRowExists(Seen(), rootId, rest);
        var m :| m in rest && forall x :: x in rest ==> x == m || ReadsBefore(m, x);
        rows := rows + [m];
        rest := rest - {m};
      }
    }

    method FetchAncestorDepths(nodeId: int) returns (rows: seq<AncestorRow>)
      ensures Lists(rows, AncestorRows(Seen(), nodeId))
    {
      rows := [];
      var rest := AncestorRows(Seen(), nodeId);
      while rest != {}
        invariant forall x :: x in rows || x in rest <==> x in AncestorRows(Seen(), nodeId)
        invariant forall x :: x in rows ==> x !in rest
        invariant forall i, j :: 0 <= i < j < |rows| ==> rows[i] != rows[j]
        decreases |rest|
      {
        var m :| m in rest;
        rows := rows + [m];
        rest := rest - {m};
      }
    }

    method FetchParentId(nodeId: int) returns (parent: Option<int>)
      ensures parent == ParentOf(Seen().nodes, nodeId)
    {
      parent := ParentOf(Seen().nodes, nodeId);
    }

    method FetchDescendantIds(nodeIds: set<int>) returns (ids: set<int>)
      ensures ids == DescendantIds(Seen(), nodeIds)
    {
      ids := DescendantIds(Seen(), nodeIds);
    }

    /** Carries out a statement: its writes join the session's, or it is refused and leaves none. */
    method Execute(outcome: Result<Delta, Refusal>) returns (refused: Option<Refusal>)
      modifies this`delta
      ensures outcome.Ok? ==>
        refused == None && delta == Then(old(delta), outcome.value) && Seen() == View(old(Seen()), outcome.value)
      ensures outcome.Err? ==> refused == Some(outcome.error) && delta == old(delta)
    {
      match outcome
      case Err(e) =>
        refused := Some(e);
      case Ok(w) =>
        ViewThen(db.tables, delta, w);
        delta := Then(delta, w);
        refused := None;
    }

    method UpsertNodes(rows: seq<NodeRow>) returns (refused: Option<Refusal>)
      modifies this`delta
      ensures var outcome := Upsert(old(Seen()), rows);
        && (outcome.Ok? ==> refused == None && Seen() == View(old(Seen()), outcome.value))
        && (outcome.Err? ==> refused == Some(outcome.error) && Seen() == old(Seen()))
    {
      refused := Execute(Upsert(Seen(), rows));
    }

    method DeleteNodes(nodeIds: set<int>) returns (refused: Option<Refusal>)
      modifies this`delta
      ensures var outcome := Delete(old(Seen()), nodeIds);
        && (outcome.Ok? ==> refused == None && Seen() == View(old(Seen()), outcome.value))
        && (outcome.Err? ==> refused == Some(outcome.error) && Seen() == old(Seen()))
    {
      refused := Execute(Delete(Seen(), nodeIds));
    }

    method ReplaceClosure(descendantIds: set<int>, rows: seq<ClosureRow>) returns (refused: Option<Refusal>)
      modifies this`delta
      ensures var cleared := View(old(Seen()), ClearClosure(old(Seen()), descendantIds));
        var outcome := InsertClosure(cleared, rows);
        && (outcome.Ok? ==> refused == None && Seen() == View(cleared, outcome.value))
        && (outcome.Err? ==> refused == Some(outcome.error) && Seen() == cleared)
    {
      refused := Execute(Ok(ClearClosure(Seen(), descendantIds)));
      refused := Execute(InsertClosure(Seen(), rows));
    }

    /** Makes the session's rows the committed ones and gives up the lock. */
    method Commit()
      modifies this`delta, db
      ensures db.tables == old(Seen()) && delta == NO_WRITES
      ensures db.lockHolder == if old(db.lockHolder) == this then null else old(db.lockHolder)
    {
      db.tables := Seen();
      delta := NO_WRITES;
      if db.lockHolder == this {
        db.lockHolder := null;
      }
    }

    /** What closing the session does to anything left uncommitted. */
    method Rollback()
      modifies this`delta, db`lockHolder
      ensures db.tables == old(db.tables) && delta == NO_WRITES
      ensures db.lockHolder == if old(db.lockHolder) == this then null else old(db.lockHolder)
    {
      delta := NO_WRITES;
      if db.lockHolder == this {
        db.lockHolder := null;
      }
    }
  }
}
