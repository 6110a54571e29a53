/** `HierarchyService`: the two use cases, run against one session. */
module Service {
  import opened Types
  import opened Payload
  import opened Forest
  import opened Flatten
  import opened Closure
  import opened Statements
  import opened Index
  import opened Post
  import opened Constraints
  import opened WritePath
  import opened Assemble
  import opened Reading
  import opened Effects
  import opened Repository

  /** The ways a post can fail: rejected by the service, refused by a constraint, or a row
      naming a parent that is not at hand. */
  datatype Failure = Invalid(reason: Rejection) | Refused(constraint: Refusal) | KeyError

  /** The node returned reads as the answer. */
  ghost predicate ReadsAs(node: HierarchyNode?, a: Answer, heap: set<HierarchyNode>)
    reads heap
  {
    match a
    case LookupFailed => false
    case NotFound => node == null
    case Found(t) => node != null && IsTree(node, t, heap)
  }

  /** What is returned reads as one answer only. */
  lemma {:induction false} ReadsAsOnce(node: HierarchyNode?, a: Answer, b: Answer, heap: set<HierarchyNode>)
    requires ReadsAs(node, a, heap) && ReadsAs(node, b, heap)
    ensures a == b
  {
    if node != null {
      IsTreeOnce(node, a.tree, b.tree, heap);
    }
  }

  lemma {:induction false} RootFirst(p: Tree)
    ensures Flattened(p).Ok? ==> Flattened(p).value != [] && Flattened(p).value[0].id == p.id
  {
    FlattenMeaning(p);
  }

  /** The check on the captured rows decides as walking up from the root does; when it passes,
      the write can go ahead. */
  lemma {:induction false} CheckDecides(t: Tables, payload: Tree, nodes: seq<PayloadNode>, captured: seq<AncestorRow>)
    requires Inv(t) && Flattened(payload) == Ok(nodes)
    requires Lists(captured, AncestorRows(t, payload.id))
    ensures var above := IdsOf(nodes) * AncestorIds(set row | row in captured);
      && (above != {} ==> Posted(t.nodes, payload) == Err(Cycle(Least(above))))
      && (above == {} ==> Ready(t, nodes, captured) && Posted(t.nodes, payload) == Ok(PostNodes(t.nodes, nodes)))
  {
    FlattenMeaning(payload);
    assert (set row | row in captured) == AncestorRows(t, payload.id);
    InvAcyclic(t);
    AncestorIdsAreAncestors(t, payload.id);
  }

  /** Committing what the write left, with what was read back, finishes the post. */
  lemma {:induction false} WrittenIsDone(t: Tables, payload: Tree, nodes: seq<PayloadNode>, captured: seq<AncestorRow>,
                                         answer: Answer)
    requires Flattened(payload) == Ok(nodes) && Ready(t, nodes, captured)
    requires Fetches(AfterInsert(t, nodes, captured).nodes, payload.id, answer)
    ensures answer == Found(Sorted(payload))
    ensures Posted(t.nodes, payload) == Ok(AfterInsert(t, nodes, captured).nodes)
    ensures Inv(AfterInsert(t, nodes, captured))
  {
    var written := AfterInsert(t, nodes, captured);
    InvAfterInsert(t, nodes, captured);
    ReadyPosted(t, payload, captured);
    InvAcyclic(t);
    StoreThenFetch(t.nodes, payload);
    FetchUnique(written.nodes, payload.id, answer, Found(Sorted(payload)));
  }

  class HierarchyService {
    const repository: PostgresHierarchyRepository

    constructor (repository: PostgresHierarchyRepository)
      ensures this.repository == repository
    {
      this.repository := repository;
    }

    /** Over an exact index the fetch never trips, answers null for what is not stored, and
        otherwise the tree the node shows. */
    method GetHierarchy(nodeId: int)
      returns (r: Result<HierarchyNode?, Option<int>>, ghost answer: Answer, ghost heap: set<HierarchyNode>)
      ensures fresh(heap)
      ensures Inv(repository.Seen()) ==>
        r.Ok? && Fetches(repository.Seen().nodes, nodeId, answer) && ReadsAs(r.value, answer, heap)
    {
      var rows := repository.FetchSubtreeRows(nodeId);
      ReadDistinct(repository.Seen(), nodeId, rows);
      answer := Nest(rows);
      if Inv(repository.Seen()) {
        FetchAnswers(repository.Seen(), nodeId, rows);
      }
      r, heap := AssembleTree(rows);
    }

    /** The write proper, from reading the root's parent to inserting the closure rows. Over an
        exact index, with the cycle check passed, none of its statements is refused. */
    method WriteRows(nodes: seq<PayloadNode>, payloadIds: set<int>, captured: seq<AncestorRow>)
      returns (failed: Option<Failure>)
      requires nodes != [] && payloadIds == IdsOf(nodes)
      modifies repository`delta
      ensures Ready(old(repository.Seen()), nodes, captured) ==>
        failed == None && repository.Seen() == AfterInsert(old(repository.Seen()), nodes, captured)
    {
      ghost var t := repository.Seen();
      var rootParentId := repository.FetchParentId(nodes[0].id);
      var descendants := repository.FetchDescendantIds(payloadIds);
      var doomed := descendants - payloadIds;

      var refused := repository.UpsertNodes(PayloadRows(nodes, rootParentId));
      if Ready(t, nodes, captured) {
        UpsertAccepted(t, nodes, captured);
      }
      if refused.Some? {
        return Some(Refused(refused.value));
      }

      if doomed != {} {
        refused := repository.DeleteNodes(doomed);
        if Ready(t, nodes, captured) {
          DeleteAccepted(t, nodes, captured);
        }
        if refused.Some? {
          return Some(Refused(refused.value));
        }
      }
      if Ready(t, nodes, captured) {
        DeleteAccepted(t, nodes, captured);
        ClearTakes(AfterDelete(t, nodes), payloadIds);
        InsertAccepted(t, nodes, captured);
      }

      var rows := ClosureRows(nodes, captured);
      if rows.None? {
        return Some(KeyError);
      }
      refused := repository.ReplaceClosure(payloadIds, rows.value);
      if refused.Some? {
        return Some(Refused(refused.value));
      }
      return None;
    }

    /** The rows are written, read back and committed. */
    method WriteAndCommit(payload: Tree, nodes: seq<PayloadNode>, payloadIds: set<int>, captured: seq<AncestorRow>)
      returns (r: Result<HierarchyNode?, Failure>, ghost heap: set<HierarchyNode>)
      requires repository.delta == NO_WRITES && repository.db.lockHolder == repository
      requires Flattened(payload) == Ok(nodes) && nodes != [] && payloadIds == IdsOf(nodes)
      modifies repository`delta, repository.db
      ensures fresh(heap)
      ensures repository.db.lockHolder == if r.Ok? then null else repository
      ensures r.Err? ==> repository.db.tables == old(repository.db.tables)
      ensures Ready(old(repository.db.tables), nodes, captured) ==>
        PostDone(old(repository.db.tables), payload, repository.db.tables, r, heap)
    {
      ghost var t := repository.db.tables;
      ViewNothing(t);
      var failed := WriteRows(nodes, payloadIds, captured);
      if failed.Some? {
        return Err(failed.value), {};
      }
      if Ready(t, nodes, captured) {
        InvAfterInsert(t, nodes, captured);
      }
      var stored, answer, built := GetHierarchy(payload.id);
      if stored.Err? {
        return Err(KeyError), {};
      }
      if Ready(t, nodes, captured) {
        WrittenIsDone(t, payload, nodes, captured, answer);
      }
      repository.Commit();
      return Ok(stored.value), built;
    }

    /** What is committed when the post takes effect: a payload that repeats an id never waits
        for the lock. */
    ghost function Start(payload: Tree, left: Tables): Tables
      reads repository, repository.db
    {
      if Flattened(payload).Ok? then repository.Granted(left) else repository.db.tables
    }

    /** A post that fails leaves the committed tables as they were. Over an exact index it fails
        only by rejection, for exactly the reasons the forest alone gives; otherwise it commits
        exactly what the forest alone says, with an exact index, and returns the payload sorted
        by id at every level. A session holding the lock delays it, and then what that session
        leaves is what it works on. */
    method StoreHierarchy(payload: Tree, left: Tables)
      returns (r: Result<HierarchyNode?, Failure>, ghost heap: set<HierarchyNode>)
      requires repository.delta == NO_WRITES
      modifies repository`delta, repository.db
      ensures fresh(heap)
      ensures repository.db.lockHolder ==
        if Flattened(payload).Err? then old(repository.db.lockHolder) else if r.Ok? then null else repository
      ensures r.Err? ==> repository.db.tables == old(Start(payload, left))
      ensures !Distinct([payload]) ==>
        exists i :: FirstRepeat(Listing(payload), i) && r == Err(Invalid(Repeated(Listing(payload)[i].id)))
      ensures old(Inv(Start(payload, left))) ==>
        PostDone(old(Start(payload, left)), payload, repository.db.tables, r, heap)
    {
      var flat := FlattenPayload(payload);
      FlattenMeaning(payload);
      if flat.Err? {
        return Err(Invalid(Repeated(flat.error))), {};
      }
      var nodes := flat.value;
      var payloadIds := set i | 0 <= i < |nodes| :: nodes[i].id;
      RootFirst(payload);

      repository.LockWrites(left);
      ghost var t := repository.db.tables;
      ViewNothing(t);

      var captured := repository.FetchAncestorDepths(payload.id);
      var alreadyAbove := payloadIds * AncestorIds(set row | row in captured);
      if Inv(t) {
        CheckDecides(t, payload, nodes, captured);
      }
      if alreadyAbove != {} {
        return Err(Invalid(Cycle(Least(alreadyAbove)))), {};
      }
      r, heap := WriteAndCommit(payload, nodes, payloadIds, captured);
    }
  }

  /** What a finished post owes over tables that were exact. */
  ghost predicate PostDone(before: Tables, payload: Tree, after: Tables,
                           r: Result<HierarchyNode?, Failure>, heap: set<HierarchyNode>)
    reads heap
  {
    match Posted(before.nodes, payload)
    case Err(e) => r == Err(Invalid(e)) && after == before
    case Ok(n) => after.nodes == n && Inv(after) && r.Ok? && ReadsAs(r.value, Found(Sorted(payload)), heap)
  }

  /** A finished post, case by case. A payload that repeats an id is rejected for the first one to
      repeat; a payload that names an ancestor of its root is rejected for the least one; both leave
      the tables alone. Anything else is stored and returned whole. */
  lemma {:induction false} DoneMeans(before: Tables, payload: Tree, after: Tables,
                                     r: Result<HierarchyNode?, Failure>, heap: set<HierarchyNode>)
    requires Inv(before) && PostDone(before, payload, after, r, heap)
    ensures !Distinct([payload]) ==>
      after == before && exists i :: FirstRepeat(Listing(payload), i) && r == Err(Invalid(Repeated(Listing(payload)[i].id)))
    ensures (Distinct([payload]) && exists x :: x in IdSet([payload]) && StrictlyAbove(before.nodes, x, payload.id)) ==>
      after == before && exists x :: LeastAbove(before.nodes, payload, x) && r == Err(Invalid(Cycle(x)))
    ensures (Distinct([payload]) && forall x :: x in IdSet([payload]) ==> !StrictlyAbove(before.nodes, x, payload.id)) ==>
      && Posted(before.nodes, payload) == Ok(after.nodes) && Inv(after)
      && r.Ok? && r.value != null && IsTree(r.value, Sorted(payload), heap)
  {
    PostedExactly(before.nodes, payload);
  }

  /** What is committed when a request of a new session takes effect. */
  ghost function StartOf(db: Database, payload: Tree, left: Tables): Tables
    reads db
  {
    if Flattened(payload).Ok? && db.lockHolder != null then left else db.tables
  }

  /** One request: a session is opened, the post runs in it, and whatever is left is rolled back. */
  method HandlePost(db: Database, payload: Tree, left: Tables)
    returns (r: Result<HierarchyNode?, Failure>, ghost heap: set<HierarchyNode>)
    modifies db
    ensures fresh(heap)
    ensures db.lockHolder == if Flattened(payload).Err? then old(db.lockHolder) else null
    ensures r.Err? ==> db.tables == if Distinct([payload]) && old(db.lockHolder) != null then left else old(db.tables)
    ensures !Distinct([payload]) ==>
      exists i :: FirstRepeat(Listing(payload), i) && r == Err(Invalid(Repeated(Listing(payload)[i].id)))
    ensures old(Inv(StartOf(db, payload, left))) ==>
      PostDone(old(StartOf(db, payload, left)), payload, db.tables, r, heap) && Inv(db.tables)
  {
    var repository := new PostgresHierarchyRepository(db);
    var service := new HierarchyService(repository);
    assert service.Start(payload, left) == StartOf(db, payload, left);
    FlattenMeaning(payload);
    r, heap := service.StoreHierarchy(payload, left);
    repository.Rollback();
  }
}
