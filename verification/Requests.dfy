/** Requests running side by side: writers a statement at a time behind one transaction-scoped
    lock, readers a statement each, any request abandoned at any point.

    Isolation is Read Committed, PostgreSQL's default: each statement sees whatever is committed
    when it starts, with the rows its own transaction has written on top. A writer therefore
    keeps row-level writes and what it has read so far, never a copy of the tables, and nothing
    in a step looks at the lock except taking it. */
module Requests {
  import opened Types
  import opened Payload
  import opened Forest
  import opened Flatten
  import opened Closure
  import opened Statements
  import opened Index
  import opened Post
  import opened Constraints
  import opened WritePath
  import opened Assemble
  import opened Reading
  import opened Effects
  import opened Reposting

  datatype Phase =
    | Waiting | Locked | Captured | Placed | Scoped | Upserted | Pruned | Cleared | Indexed | ReadBack | Closed

  datatype Outcome =
    | Pending
    | Rejected(reason: Rejection)
    | Refused(constraint: Refusal)
    | Tripped               // the read-back named a parent that was not among its rows
    | Abandoned
    | Stored(answer: Answer)

  datatype Writer = Writer(payload: Tree, phase: Phase, captured: seq<AncestorRow>, rootParent: Option<int>,
                           doomed: set<int>, delta: Delta, answer: Answer, outcome: Outcome)

  /** What a client was told, in the order things took effect. */
  datatype Event =
    | PostEvent(writer: int, payload: Tree, outcome: Outcome)
    | FetchEvent(id: int, answer: Answer)

  datatype State = State(db: Tables, lock: Option<int>, writers: map<int, Writer>,
                         grants: seq<int>, history: seq<Event>)

  ghost predicate Init(s: State)
  {
    s == State(Tables(map[], map[]), None, map[], [], [])
  }

  ghost predicate Active(u: Writer)
  {
    u.phase != Waiting && u.phase != Closed
  }

  ghost function FlatOf(u: Writer): seq<PayloadNode>
    requires Flattened(u.payload).Ok?
  {
    Flattened(u.payload).value
  }

  ghost function AlreadyAbove(u: Writer): set<int>
    requires Flattened(u.payload).Ok?
  {
    IdsOf(FlatOf(u)) * AncestorIds(set row | row in u.captured)
  }

  // ----- One writer's statements

  /** What the next writing statement does to the rows the writer sees. */
  ghost function Statement(db: Tables, u: Writer): Result<Delta, Refusal>
    requires Flattened(u.payload).Ok?
  {
    var v := View(db, u.delta);
    match u.phase
    case Scoped => Upsert(v, PayloadRows(FlatOf(u), u.rootParent))
    case Upserted => if u.doomed == {} then Ok(NO_WRITES) else Delete(v, u.doomed)
    case Pruned => Ok(ClearClosure(v, IdsOf(FlatOf(u))))
    case Cleared => InsertClosure(v, NewRows(FlatOf(u), u.captured))
    case _ => Ok(NO_WRITES)
  }

  ghost function Following(p: Phase): Phase
  {
    match p
    case Locked => Captured
    case Captured => Placed
    case Placed => Scoped
    case Scoped => Upserted
    case Upserted => Pruned
    case Pruned => Cleared
    case Cleared => Indexed
    case Indexed => ReadBack
    case _ => p
  }

  ghost predicate Advances(db: Tables, u: Writer, u': Writer)
    requires Flattened(u.payload).Ok?
  {
    var v, ids, next := View(db, u.delta), IdsOf(FlatOf(u)), u.(phase := Following(u.phase));
    match u.phase
    case Locked =>
      Lists(u'.captured, AncestorRows(v, u.payload.id)) && u' == next.(captured := u'.captured)
    case Captured =>
      AlreadyAbove(u) == {} && u' == next.(rootParent := ParentOf(v.nodes, u.payload.id))
    case Placed =>
      u' == next.(doomed := DescendantIds(v, ids) - ids)
    case Indexed =>
      exists rows :: IsRead(v, u.payload.id, rows) && DistinctRows(rows) && u' == next.(answer := Nest(rows))
    case Waiting => false
    case ReadBack => false
    case Closed => false
    case _ =>
      Statement(db, u).Ok? && u' == next.(delta := Then(u.delta, Statement(db, u).value))
  }

  // ----- Steps of the whole

  /** The request ends: its writes are gone from the session and the lock, if held, is free. */
  ghost function Ended(s: State, w: int, outcome: Outcome): State
    requires w in s.writers
  {
    s.(writers := s.writers[w := s.writers[w].(phase := Closed, delta := NO_WRITES, outcome := outcome)],
       lock := if s.lock == Some(w) then None else s.lock)
  }

  ghost function Told(s: State, e: Event): State
  {
    s.(history := s.history + [e])
  }

  ghost function Answered(s: State, w: int, outcome: Outcome): State
    requires w in s.writers
  {
    Told(Ended(s, w, outcome), PostEvent(w, s.writers[w].payload, outcome))
  }

  ghost predicate Arrive(s: State, s': State, w: int)
  {
    && w !in s.writers && w in s'.writers
    && s' == s.(writers := s.writers[w := s'.writers[w]])
    && s'.writers[w] == Writer(s'.writers[w].payload, Waiting, [], None, {}, NO_WRITES, NotFound, Pending)
  }

  ghost predicate RejectRepeated(s: State, s': State, w: int)
  {
    && w in s.writers && s.writers[w].phase == Waiting
    && Flattened(s.writers[w].payload).Err?
    && s' == Answered(s, w, Rejected(Repeated(Flattened(s.writers[w].payload).error)))
  }

  ghost predicate TakeLock(s: State, s': State, w: int)
  {
    && w in s.writers && s.writers[w].phase == Waiting && s.lock == None
    && Flattened(s.writers[w].payload).Ok?
    && s' == s.(lock := Some(w), writers := s.writers[w := s.writers[w].(phase := Locked)],
                grants := s.grants + [w])
  }

  ghost predicate Advance(s: State, s': State, w: int)
  {
    && w in s.writers && w in s'.writers && Flattened(s.writers[w].payload).Ok?
    && Advances(s.db, s.writers[w], s'.writers[w])
    && s' == s.(writers := s.writers[w := s'.writers[w]])
  }

  ghost predicate RejectCycle(s: State, s': State, w: int)
  {
    && w in s.writers && s.writers[w].phase == Captured && Flattened(s.writers[w].payload).Ok?
    && AlreadyAbove(s.writers[w]) != {}
    && s' == Answered(s, w, Rejected(Cycle(Least(AlreadyAbove(s.writers[w])))))
  }

  ghost predicate Refuse(s: State, s': State, w: int)
  {
    && w in s.writers && Flattened(s.writers[w].payload).Ok?
    && Statement(s.db, s.writers[w]).Err?
    && s' == Answered(s, w, Refused(Statement(s.db, s.writers[w]).error))
  }

  ghost predicate Trip(s: State, s': State, w: int)
  {
    && w in s.writers && s.writers[w].phase == ReadBack && s.writers[w].answer == LookupFailed
    && s' == Answered(s, w, Tripped)
  }

  /** The writer's rows are laid over whatever is committed by now. */
  ghost predicate Commit(s: State, s': State, w: int)
  {
    && w in s.writers && s.writers[w].phase == ReadBack && s.writers[w].answer != LookupFailed
    && s' == Answered(s, w, Stored(s.writers[w].answer)).(db := View(s.db, s.writers[w].delta))
  }

  ghost predicate Abandon(s: State, s': State, w: int)
  {
    && w in s.writers && s.writers[w].phase != Closed
    && s' == Ended(s, w, Abandoned)
  }

  ghost predicate Fetch(s: State, s': State, q: int)
  {
    exists rows :: IsRead(s.db, q, rows) && DistinctRows(rows) && s' == Told(s, FetchEvent(q, Nest(rows)))
  }

  ghost predicate Step(s: State, s': State, w: int)
  {
    || Arrive(s, s', w) || RejectRepeated(s, s', w) || TakeLock(s, s', w) || Advance(s, s', w)
    || RejectCycle(s, s', w) || Refuse(s, s', w) || Trip(s, s', w) || Commit(s, s', w)
    || Abandon(s, s', w) || Fetch(s, s', w)
  }

  ghost predicate Next(s: State, s': State)
  {
    exists w :: Step(s, s', w)
  }

  ghost predicate Path(states: seq<State>)
  {
    states != [] && forall i :: 0 < i < |states| ==> Next(states[i - 1], states[i])
  }

  ghost predicate Run(states: seq<State>)
  {
    Path(states) && Init(states[0])
  }

  // ----- One after another

  /** What a lone request leaves of the forest `n`. */
  ghost function Served(n: Nodes, e: Event): Nodes
  {
    if e.PostEvent? && Posted(n, e.payload).Ok? then Posted(n, e.payload).value else n
  }

  /** The forest after serving `h` one request at a time. */
  ghost function Replay(h: seq<Event>): Nodes
  {
    if h == [] then map[] else Served(Replay(h[..|h| - 1]), h[|h| - 1])
  }

  /** What was told is what a lone request over the forest `n` is told. */
  ghost predicate Explained(n: Nodes, e: Event)
  {
    match e
    case FetchEvent(q, a) => Fetches(n, q, a)
    case PostEvent(_, p, o) =>
      match Posted(n, p) {
        case Ok(_) => o == Stored(Found(Sorted(p)))
        case Err(x) => o == Rejected(x)
      }
  }

  ghost predicate Faithful(h: seq<Event>)
  {
    forall i :: 0 <= i < |h| ==> Explained(Replay(h[..i]), h[i])
  }

  /** The writers that stored, in the order they were told so. */
  ghost function StoredIds(h: seq<Event>): seq<int>
  {
    if h == [] then []
    else
      var e := h[|h| - 1];
      StoredIds(h[..|h| - 1]) + if e.PostEvent? && e.outcome.Stored? then [e.writer] else []
  }

  /** The writers that stored, in the order they got the lock. */
  ghost function StoredOf(grants: seq<int>, writers: map<int, Writer>): seq<int>
  {
    if grants == [] then []
    else
      var w := grants[|grants| - 1];
      StoredOf(grants[..|grants| - 1], writers)
      + if w in writers && writers[w].outcome.Stored? then [w] else []
  }

  // ----- What every reachable state keeps

  /** The writer's reads and writes so far are those of a lone writer over the tables `db`. */
  ghost predicate OnTrack(db: Tables, u: Writer)
  {
    && Flattened(u.payload).Ok? && u.outcome == Pending
    && var s := FlatOf(u);
       var v := View(db, u.delta);
       && (u.phase in {Locked, Captured, Placed, Scoped} ==> u.delta == NO_WRITES)
       && (u.phase == Captured ==> Lists(u.captured, AncestorRows(db, u.payload.id)))
       && (u.phase !in {Locked, Captured} ==>
             Ready(db, s, u.captured) && u.rootParent == ParentOf(db.nodes, u.payload.id))
       && (u.phase in {Scoped, Upserted} ==> u.doomed == Doomed(db, s))
       && (u.phase == Upserted ==> v == AfterUpsert(db, s))
       && (u.phase == Pruned ==> v == AfterDelete(db, s))
       && (u.phase == Cleared ==> v == AfterClear(db, s))
       && (u.phase in {Indexed, ReadBack} ==> v == AfterInsert(db, s, u.captured))
       && (u.phase == ReadBack ==> u.answer == Found(Sorted(u.payload)))
  }

  ghost predicate WriterOk(s: State, w: int)
    requires w in s.writers
  {
    && (Active(s.writers[w]) ==> s.lock == Some(w) && OnTrack(s.db, s.writers[w]))
    && (s.writers[w].phase == Waiting ==>
          s.writers[w].outcome == Pending && w !in s.grants && s.writers[w].delta == NO_WRITES)
  }

  ghost predicate LockOk(s: State)
  {
    && (s.lock.Some? ==>
          && s.lock.value in s.writers && Active(s.writers[s.lock.value])
          && s.grants != [] && s.grants[|s.grants| - 1] == s.lock.value)
    && (forall i, j :: 0 <= i < j < |s.grants| ==> s.grants[i] != s.grants[j])
    && (forall i :: 0 <= i < |s.grants| ==> s.grants[i] in s.writers)
  }

  ghost predicate Valid(s: State)
  {
    && Inv(s.db)
    && (forall w :: w in s.writers ==> WriterOk(s, w))
    && LockOk(s)
    && s.db.nodes == Replay(s.history) && Faithful(s.history)
    && StoredIds(s.history) == StoredOf(s.grants, s.writers)
  }

  lemma {:induction false} WriterIsOk(s: State, w: int)
    requires Valid(s) && w in s.writers
    ensures WriterOk(s, w)
  {
  }

  // ----- Each statement keeps a writer on track

  lemma {:induction false} CheckedReady(db: Tables, u: Writer)
    requires Inv(db) && OnTrack(db, u) && u.phase == Captured
    ensures AlreadyAbove(u) == IdsOf(FlatOf(u)) * Ancestors(db.nodes, u.payload.id)
    ensures AlreadyAbove(u) == {} ==> Ready(db, FlatOf(u), u.captured)
  {
    FlattenMeaning(u.payload);
    AncestorIdsAreAncestors(db, u.payload.id);
    assert (set row | row in u.captured) == AncestorRows(db, u.payload.id);
  }

  /** No statement of a writer on track is refused, and each does what it does in a lone run. */
  lemma {:induction false} StatementAccepted(db: Tables, u: Writer)
    requires Inv(db) && OnTrack(db, u) && Active(u)
    ensures Statement(db, u).Ok?
    ensures var v := View(View(db, u.delta), Statement(db, u).value);
      && (u.phase == Scoped ==> v == AfterUpsert(db, FlatOf(u)))
      && (u.phase == Upserted ==> v == AfterDelete(db, FlatOf(u)))
      && (u.phase == Pruned ==> v == AfterClear(db, FlatOf(u)))
      && (u.phase == Cleared ==> v == AfterInsert(db, FlatOf(u), u.captured))
  {
    FlattenMeaning(u.payload);
    var s := FlatOf(u);
    ViewNothing(db);
    match u.phase
    case Scoped => UpsertAccepted(db, s, u.captured);
    case Upserted => DeleteAccepted(db, s, u.captured); ViewNothing(AfterUpsert(db, s));
    case Pruned => ClearTakes(AfterDelete(db, s), IdsOf(s));
    case Cleared => InsertAccepted(db, s, u.captured);
    case _ =>
  }

  lemma {:induction false} ReadBackAnswer(db: Tables, u: Writer, rows: seq<SubtreeRow>)
    requires Inv(db) && OnTrack(db, u) && u.phase == Indexed
    requires IsRead(View(db, u.delta), u.payload.id, rows) && DistinctRows(rows)
    ensures Nest(rows) == Found(Sorted(u.payload))
  {
    var v := View(db, u.delta);
    FlattenMeaning(u.payload);
    InvAfterInsert(db, FlatOf(u), u.captured);
    InvAcyclic(db);
    ReadyPosted(db, u.payload, u.captured);
    FetchAnswers(v, u.payload.id, rows);
    StoreThenFetch(db.nodes, u.payload);
    FetchUnique(v.nodes, u.payload.id, Nest(rows), Found(Sorted(u.payload)));
  }

  lemma {:induction false} ReadOnTrack(db: Tables, u: Writer, u': Writer)
    requires Inv(db) && OnTrack(db, u) && Advances(db, u, u')
    requires u.phase in {Locked, Captured, Placed, Indexed}
    ensures OnTrack(db, u') && Active(u') && u'.payload == u.payload
  {
    ViewNothing(db);
    FlattenMeaning(u.payload);
    match u.phase
    case Captured => CheckedReady(db, u);
    case Indexed =>
      var rows :| IsRead(View(db, u.delta), u.payload.id, rows) && DistinctRows(rows)
        && u'.answer == Nest(rows);
      ReadBackAnswer(db, u, rows);
    case _ =>
  }

  lemma {:induction false} WriteOnTrack(db: Tables, u: Writer, u': Writer)
    requires Inv(db) && OnTrack(db, u) && Advances(db, u, u')
    requires u.phase in {Scoped, Upserted, Pruned, Cleared}
    ensures OnTrack(db, u') && Active(u') && u'.payload == u.payload
  {
    StatementAccepted(db, u);
    ViewThen(db, u.delta, Statement(db, u).value);
  }

  /** Each statement takes a writer on track to the next point of the lone run. */
  lemma {:induction false} AdvanceOnTrack(db: Tables, u: Writer, u': Writer)
    requires Inv(db) && OnTrack(db, u) && Active(u) && Advances(db, u, u')
    ensures OnTrack(db, u') && Active(u') && u'.payload == u.payload
  {
    if u.phase in {Locked, Captured, Placed, Indexed} {
      ReadOnTrack(db, u, u');
    } else {
      WriteOnTrack(db, u, u');
    }
  }

  // ----- Histories and lock order

  lemma {:induction false} Append(h: seq<Event>, e: Event)
    requires Faithful(h) && Explained(Replay(h), e)
    ensures Faithful(h + [e])
    ensures StoredIds(h + [e]) == StoredIds(h) + if e.PostEvent? && e.outcome.Stored? then [e.writer] else []
    ensures Replay(h + [e]) == Served(Replay(h), e)
  {
    var g := h + [e];
    assert g[..|g| - 1] == h;
    forall i | 0 <= i < |g|
      ensures Explained(Replay(g[..i]), g[i])
    {
      if i < |h| {
        assert g[..i] == h[..i];
      } else {
        assert g[..i] == h;
      }
    }
  }

  ghost predicate StoredNow(writers: map<int, Writer>, w: int)
  {
    w in writers && writers[w].outcome.Stored?
  }

  lemma {:induction false} StoredOfSame(grants: seq<int>, a: map<int, Writer>, b: map<int, Writer>)
    requires forall i :: 0 <= i < |grants| ==> (StoredNow(a, grants[i]) <==> StoredNow(b, grants[i]))
    ensures StoredOf(grants, a) == StoredOf(grants, b)
  {
    if grants == [] {
    } else {
      var l := |grants| - 1;
      assert StoredNow(a, grants[l]) <==> StoredNow(b, grants[l]);
      StoredOfSame(grants[..l], a, b);
    }
  }

  /** Whoever holds the lock is the only one with anything at stake. */
  lemma {:induction false} OnlyHolderActive(s: State, w: int)
    requires Valid(s) && w in s.writers && Active(s.writers[w])
    ensures s.lock == Some(w) && OnTrack(s.db, s.writers[w])
    ensures forall x :: x in s.writers && x != w ==> !Active(s.writers[x])
  {
    WriterIsOk(s, w);
    forall x | x in s.writers && x != w
      ensures !Active(s.writers[x])
    {
      WriterIsOk(s, x);
    }
  }

  // ----- Each step keeps the whole valid

  lemma {:induction false} EndedWriters(s: State, w: int, outcome: Outcome)
    requires Valid(s) && w in s.writers && s.writers[w].phase != Closed
    ensures LockOk(Ended(s, w, outcome))
    ensures forall x :: x in Ended(s, w, outcome).writers ==> WriterOk(Ended(s, w, outcome), x)
  {
    var s' := Ended(s, w, outcome);
    WriterIsOk(s, w);
    forall x | x in s'.writers
      ensures WriterOk(s', x)
    {
      WriterIsOk(s, x);
    }
  }

  lemma {:induction false} EndedOk(s: State, w: int, outcome: Outcome)
    requires Valid(s) && w in s.writers && s.writers[w].phase != Closed && !outcome.Stored?
    ensures var s' := Ended(s, w, outcome);
      && LockOk(s') && (forall x :: x in s'.writers ==> WriterOk(s', x))
      && StoredOf(s'.grants, s'.writers) == StoredOf(s.grants, s.writers)
  {
    WriterIsOk(s, w);
    EndedWriters(s, w, outcome);
    StoredOfSame(s.grants, s.writers, Ended(s, w, outcome).writers);
  }

  lemma {:induction false} ArriveOk(s: State, s': State, w: int)
    requires Valid(s) && Arrive(s, s', w)
    ensures Valid(s')
  {
    forall x | x in s'.writers
      ensures WriterOk(s', x)
    {
      if x != w {
        WriterIsOk(s, x);
      }
    }
    StoredOfSame(s.grants, s.writers, s'.writers);
  }

  lemma {:induction false} RejectRepeatedOk(s: State, s': State, w: int)
    requires Valid(s) && RejectRepeated(s, s', w)
    ensures Valid(s')
  {
    AnsweredOk(s, w, Rejected(Repeated(Flattened(s.writers[w].payload).error)));
  }

  lemma {:induction false} TakeLockWriters(s: State, s': State, w: int)
    requires Valid(s) && TakeLock(s, s', w)
    ensures LockOk(s') && forall x :: x in s'.writers ==> WriterOk(s', x)
  {
    WriterIsOk(s, w);
    forall x | x in s'.writers
      ensures WriterOk(s', x)
    {
      WriterIsOk(s, x);
    }
  }

  /** The writer that has just got the lock has stored nothing yet. */
  lemma {:induction false} TakeLockGrants(s: State, s': State, w: int)
    requires TakeLock(s, s', w) && !s.writers[w].outcome.Stored?
    ensures StoredOf(s'.grants, s'.writers) == StoredOf(s.grants, s.writers)
  {
    assert s'.grants[..|s'.grants| - 1] == s.grants;
    StoredOfSame(s.grants, s.writers, s'.writers);
  }

  lemma {:induction false} TakeLockOk(s: State, s': State, w: int)
    requires Valid(s) && TakeLock(s, s', w)
    ensures Valid(s')
  {
    WriterIsOk(s, w);
    TakeLockWriters(s, s', w);
    TakeLockGrants(s, s', w);
  }

  lemma {:induction false} AdvanceOk(s: State, s': State, w: int)
    requires Valid(s) && Advance(s, s', w)
    ensures Valid(s')
  {
    OnlyHolderActive(s, w);
    AdvanceOnTrack(s.db, s.writers[w], s'.writers[w]);
    forall x | x in s'.writers
      ensures WriterOk(s', x)
    {
      WriterIsOk(s, x);
    }
    StoredOfSame(s.grants, s.writers, s'.writers);
  }

  lemma {:induction false} AnsweredOk(s: State, w: int, outcome: Outcome)
    requires Valid(s) && w in s.writers && s.writers[w].phase != Closed && !outcome.Stored?
    requires Explained(s.db.nodes, PostEvent(w, s.writers[w].payload, outcome))
    ensures Valid(Answered(s, w, outcome))
  {
    var s', t := Answered(s, w, outcome), Ended(s, w, outcome);
    EndedOk(s, w, outcome);
    Append(s.history, PostEvent(w, s.writers[w].payload, outcome));
    forall x | x in s'.writers
      ensures WriterOk(s', x)
    {
      assert WriterOk(t, x);
    }
  }

  lemma {:induction false} RejectCycleOk(s: State, s': State, w: int)
    requires Valid(s) && RejectCycle(s, s', w)
    ensures Valid(s')
  {
    OnlyHolderActive(s, w);
    CheckedReady(s.db, s.writers[w]);
    AnsweredOk(s, w, Rejected(Cycle(Least(AlreadyAbove(s.writers[w])))));
  }

  /** What the holder of the lock lays over the committed tables is exactly its post. */
  lemma {:induction false} CommitTables(db: Tables, u: Writer)
    requires Inv(db) && OnTrack(db, u) && u.phase == ReadBack
    ensures Inv(View(db, u.delta)) && Posted(db.nodes, u.payload) == Ok(View(db, u.delta).nodes)
    ensures u.answer == Found(Sorted(u.payload))
  {
    InvAfterInsert(db, FlatOf(u), u.captured);
    ReadyPosted(db, u.payload, u.captured);
  }

  lemma {:induction false} CommitWriters(s: State, w: int, s': State)
    requires Valid(s) && w in s.writers && s.writers[w].phase == ReadBack
    requires s'.writers == Ended(s, w, Stored(s.writers[w].answer)).writers
    requires s'.lock == None && s'.grants == s.grants
    ensures LockOk(s') && forall x :: x in s'.writers ==> WriterOk(s', x)
  {
    OnlyHolderActive(s, w);
    forall x | x in s'.writers
      ensures WriterOk(s', x)
    {
      WriterIsOk(s, x);
    }
  }

  /** Of those granted the lock, the last is now among those that stored. */
  lemma {:induction false} CommitGrants(s: State, w: int, s': State)
    requires LockOk(s) && s.lock == Some(w) && !s.writers[w].outcome.Stored?
    requires s'.writers == Ended(s, w, Stored(s.writers[w].answer)).writers && s'.grants == s.grants
    ensures StoredOf(s'.grants, s'.writers) == StoredOf(s.grants, s.writers) + [w]
  {
    StoredOfSame(s.grants[..|s.grants| - 1], s.writers, s'.writers);
  }

  lemma {:induction false} CommitOk(s: State, s': State, w: int)
    requires Valid(s) && Commit(s, s', w)
    ensures Valid(s')
  {
    var u := s.writers[w];
    OnlyHolderActive(s, w);
    CommitTables(s.db, u);
    Append(s.history, PostEvent(w, u.payload, Stored(u.answer)));
    CommitWriters(s, w, s');
    CommitGrants(s, w, s');
  }

  lemma {:induction false} AbandonOk(s: State, s': State, w: int)
    requires Valid(s) && Abandon(s, s', w)
    ensures Valid(s')
  {
    EndedOk(s, w, Abandoned);
  }

  lemma {:induction false} FetchOk(s: State, s': State, q: int)
    requires Valid(s) && Fetch(s, s', q)
    ensures Valid(s')
  {
    var rows :| IsRead(s.db, q, rows) && DistinctRows(rows) && s' == Told(s, FetchEvent(q, Nest(rows)));
    FetchAnswers(s.db, q, rows);
    Append(s.history, FetchEvent(q, Nest(rows)));
    forall x | x in s'.writers
      ensures WriterOk(s', x)
    {
      WriterIsOk(s, x);
    }
  }

  /** In no valid state is there a statement to refuse or a read-back to trip over. */
  lemma {:induction false} NeverRefused(s: State, w: int)
    requires Valid(s) && w in s.writers && Flattened(s.writers[w].payload).Ok?
    ensures Statement(s.db, s.writers[w]).Ok?
    ensures !(s.writers[w].phase == ReadBack && s.writers[w].answer == LookupFailed)
  {
    WriterIsOk(s, w);
    if Active(s.writers[w]) {
      StatementAccepted(s.db, s.writers[w]);
    }
  }

  lemma {:induction false} StepKeepsValid(s: State, s': State, w: int)
    requires Valid(s) && Step(s, s', w)
    ensures Valid(s')
  {
    if Arrive(s, s', w) {
      ArriveOk(s, s', w);
    } else if RejectRepeated(s, s', w) {
      RejectRepeatedOk(s, s', w);
    } else if TakeLock(s, s', w) {
      TakeLockOk(s, s', w);
    } else if Advance(s, s', w) {
      AdvanceOk(s, s', w);
    } else if RejectCycle(s, s', w) {
      RejectCycleOk(s, s', w);
    } else if Commit(s, s', w) {
      CommitOk(s, s', w);
    } else if Abandon(s, s', w) {
      AbandonOk(s, s', w);
    } else if Fetch(s, s', w) {
      FetchOk(s, s', w);
    } else {
      NoFailure(s, s', w);
    }
  }

  lemma {:induction false} NoFailure(s: State, s': State, w: int)
    requires Valid(s)
    ensures !Refuse(s, s', w) && !Trip(s, s', w)
  {
    if w in s.writers {
      WriterIsOk(s, w);
      if Flattened(s.writers[w].payload).Ok? {
        NeverRefused(s, w);
      }
    }
  }

  /** Every state of every run, whatever the interleaving and whoever gives up, is valid. */
  lemma {:induction false} RunsStayValid(states: seq<State>, i: int)
    requires Run(states) && 0 <= i < |states|
    ensures Valid(states[i])
    decreases i
  {
    if i == 0 {
    } else {
      RunsStayValid(states, i - 1);
      assert Next(states[i - 1], states[i]);
      var w :| Step(states[i - 1], states[i], w);
      StepKeepsValid(states[i - 1], states[i], w);
    }
  }

  // ----- What is recorded

  /** Each request that was answered is in the history, once, with its payload and its answer. */
  ghost predicate Recorded(s: State)
  {
    && (forall w :: w in s.writers ==> InHistory(s, w))
    && (forall i :: 0 <= i < |s.history| && s.history[i].PostEvent? ==> FromWriter(s, i))
    && (forall i, j :: 0 <= i < j < |s.history| && s.history[i].PostEvent? && s.history[j].PostEvent? ==>
          s.history[i].writer != s.history[j].writer)
  }

  ghost predicate InHistory(s: State, w: int)
    requires w in s.writers
  {
    var u := s.writers[w];
    && (u.phase == Closed <==> u.outcome != Pending)
    && (u.outcome != Pending && u.outcome != Abandoned ==> PostEvent(w, u.payload, u.outcome) in s.history)
  }

  ghost predicate FromWriter(s: State, i: int)
    requires 0 <= i < |s.history| && s.history[i].PostEvent?
  {
    var e := s.history[i];
    && e.writer in s.writers && s.writers[e.writer].outcome == e.outcome
    && s.writers[e.writer].payload == e.payload && e.outcome != Pending && e.outcome != Abandoned
  }

  lemma {:induction false} AnsweredRecorded(s: State, w: int, outcome: Outcome, db: Tables)
    requires Recorded(s) && w in s.writers && s.writers[w].phase != Closed
    requires outcome != Pending && outcome != Abandoned
    ensures Recorded(Answered(s, w, outcome).(db := db))
  {
    var s' := Answered(s, w, outcome).(db := db);
    var e := PostEvent(w, s.writers[w].payload, outcome);
    assert InHistory(s, w) && s'.history == s.history + [e];
    forall i | 0 <= i < |s.history| && s.history[i].PostEvent?
      ensures s.history[i].writer != w && FromWriter(s', i)
    {
      assert FromWriter(s, i);
    }
    forall x | x in s'.writers
      ensures InHistory(s', x)
    {
      assert x != w ==> InHistory(s, x);
      assert s'.history[|s.history|] == e;
    }
  }

  lemma {:induction false} QuietRecorded(s: State, s': State, w: int)
    requires Recorded(s) && s'.history == s.history && w in s'.writers
    requires w in s.writers ==> s.writers[w].phase != Closed && s'.writers[w].payload == s.writers[w].payload
    requires s'.writers == s.writers[w := s'.writers[w]]
    requires s'.writers[w].phase == Closed ==> s'.writers[w].outcome == Abandoned
    requires s'.writers[w].phase != Closed ==> s'.writers[w].outcome == Pending
    ensures Recorded(s')
  {
    forall i | 0 <= i < |s'.history| && s'.history[i].PostEvent?
      ensures FromWriter(s', i)
    {
      assert FromWriter(s, i);
      assert InHistory(s, s.history[i].writer);
    }
    forall x | x in s'.writers
      ensures InHistory(s', x)
    {
      assert x != w ==> InHistory(s, x);
    }
  }

  lemma {:induction false} StepKeepsRecorded(s: State, s': State, w: int)
    requires Recorded(s) && Step(s, s', w)
    ensures Recorded(s')
  {
    if Fetch(s, s', w) {
      FetchRecorded(s, s', w);
    } else if Arrive(s, s', w) || TakeLock(s, s', w) || Advance(s, s', w) || Abandon(s, s', w) {
      assert w in s.writers ==> InHistory(s, w);
      QuietRecorded(s, s', w);
    } else {
      AnsweringStep(s, s', w);
      AnsweredRecorded(s, w, s'.writers[w].outcome, s'.db);
    }
  }

  lemma {:induction false} AnsweringStep(s: State, s': State, w: int)
    requires RejectRepeated(s, s', w) || RejectCycle(s, s', w) || Refuse(s, s', w) || Trip(s, s', w) || Commit(s, s', w)
    ensures w in s.writers && w in s'.writers && s.writers[w].phase != Closed
    ensures s'.writers[w].outcome != Pending && s'.writers[w].outcome != Abandoned
    ensures s' == Answered(s, w, s'.writers[w].outcome).(db := s'.db)
  {
  }

  lemma {:induction false} FetchRecorded(s: State, s': State, q: int)
    requires Recorded(s) && Fetch(s, s', q)
    ensures Recorded(s')
  {
    assert |s'.history| == |s.history| + 1 && s'.history[..|s.history|] == s.history;
    forall i | 0 <= i < |s'.history| && s'.history[i].PostEvent?
      ensures FromWriter(s', i)
    {
      assert FromWriter(s, i);
    }
    forall x | x in s'.writers
      ensures InHistory(s', x)
    {
      assert InHistory(s, x);
      assert forall e :: e in s.history ==> e in s'.history;
    }
  }

  lemma {:induction false} RunsRecord(states: seq<State>, i: int)
    requires Run(states) && 0 <= i < |states|
    ensures Recorded(states[i])
    decreases i
  {
    if i == 0 {
    } else {
      RunsRecord(states, i - 1);
      assert Next(states[i - 1], states[i]);
      var w :| Step(states[i - 1], states[i], w);
      StepKeepsRecorded(states[i - 1], states[i], w);
    }
  }

  /** Serialisability. In every state of every interleaving the committed forest is what serving
      the recorded requests one at a time leaves, with an exact index; what is recorded is what
      each client would have been told then; writers took effect in the order they got the lock;
      and nobody ever met a refusal or a missing parent. */
  lemma {:induction false} EveryRunSerial(states: seq<State>, i: int)
    requires Run(states) && 0 <= i < |states|
    ensures var s := states[i];
      && Inv(s.db) && s.db.nodes == Replay(s.history)
      && (forall j :: 0 <= j < |s.history| ==> Explained(Replay(s.history[..j]), s.history[j]))
      && StoredIds(s.history) == StoredOf(s.grants, s.writers)
      && forall j :: 0 <= j < |s.history| && s.history[j].PostEvent? ==>
           s.history[j].outcome.Rejected? || s.history[j].outcome.Stored?
  {
    RunsStayValid(states, i);
    var s := states[i];
    forall j | 0 <= j < |s.history| && s.history[j].PostEvent?
      ensures s.history[j].outcome.Rejected? || s.history[j].outcome.Stored?
    {
      assert Explained(Replay(s.history[..j]), s.history[j]);
    }
  }

  /** In every state of every interleaving each writer is still at it, has given up, or was told a
      rejection or the stored tree; whoever was told anything is recorded with just that, and
      recorded once; and nobody else is recorded. */
  lemma {:induction false} EveryAnswerRecorded(states: seq<State>, i: int, w: int)
    requires Run(states) && 0 <= i < |states| && w in states[i].writers
    ensures var s, u := states[i], states[i].writers[w];
      && (u.phase != Closed ==> u.outcome == Pending)
      && (u.phase == Closed ==> u.outcome.Rejected? || u.outcome.Stored? || u.outcome == Abandoned)
      && (u.outcome.Rejected? || u.outcome.Stored? ==> PostEvent(w, u.payload, u.outcome) in s.history)
      && (forall j :: 0 <= j < |s.history| && s.history[j].PostEvent? && s.history[j].writer == w ==>
            s.history[j] == PostEvent(w, u.payload, u.outcome) && (u.outcome.Rejected? || u.outcome.Stored?))
      && (forall j, k :: 0 <= j < k < |s.history| && s.history[j].PostEvent? && s.history[k].PostEvent? ==>
            s.history[j].writer != s.history[k].writer)
  {
    RunsStayValid(states, i);
    RunsRecord(states, i);
    var s, u := states[i], states[i].writers[w];
    assert InHistory(s, w);
    forall j | 0 <= j < |s.history| && s.history[j].PostEvent?
      ensures s.history[j].outcome.Rejected? || s.history[j].outcome.Stored?
    {
      assert Explained(Replay(s.history[..j]), s.history[j]);
    }
    forall j | 0 <= j < |s.history| && s.history[j].PostEvent? && s.history[j].writer == w
      ensures s.history[j] == PostEvent(w, u.payload, u.outcome)
    {
      assert FromWriter(s, j);
    }
  }

  /** An answer to a request over one forest is the only one there is. */
  lemma {:induction false} ExplainedOnce(n: Nodes, e: Event, f: Event)
    requires Explained(n, e) && Explained(n, f)
    requires e.PostEvent? && f.PostEvent? ==> e.writer == f.writer && e.payload == f.payload
    requires e.FetchEvent? && f.FetchEvent? ==> e.id == f.id
    requires e.PostEvent? <==> f.PostEvent?
    ensures e == f
  {
    if e.FetchEvent? {
      FetchUnique(n, e.id, e.answer, f.answer);
    }
  }

  // ----- The order in which writers took effect

  ghost predicate StoredAt(h: seq<Event>, i: int)
  {
    0 <= i < |h| && h[i].PostEvent? && h[i].outcome.Stored?
  }

  lemma {:induction false} StoredIdAt(h: seq<Event>, i: int) returns (a: int)
    requires StoredAt(h, i)
    ensures 0 <= a < |StoredIds(h)| && StoredIds(h)[a] == h[i].writer
    ensures a == |StoredIds(h[..i])|
    decreases |h|
  {
    var l := |h| - 1;
    if i == l {
      a := |StoredIds(h[..l])|;
    } else {
      assert h[..l][..i] == h[..i];
      a := StoredIdAt(h[..l], i);
    }
  }

  lemma {:induction false} StoredIdsGrow(h: seq<Event>, i: int, j: int)
    requires StoredAt(h, i) && i < j <= |h|
    ensures |StoredIds(h[..i])| < |StoredIds(h[..j])|
    decreases j
  {
    assert h[..j][..j - 1] == h[..j - 1];
    if j == i + 1 {
    } else {
      StoredIdsGrow(h, i, j - 1);
    }
  }

  lemma {:induction false} GrantOf(grants: seq<int>, writers: map<int, Writer>, a: int) returns (g: int)
    requires 0 <= a < |StoredOf(grants, writers)|
    ensures 0 <= g < |grants| && grants[g] == StoredOf(grants, writers)[a]
    ensures a == |StoredOf(grants[..g], writers)|
    decreases |grants|
  {
    var l := |grants| - 1;
    if a == |StoredOf(grants[..l], writers)| {
      g := l;
    } else {
      g := GrantOf(grants[..l], writers, a);
      assert grants[..l][..g] == grants[..g];
    }
  }

  lemma {:induction false} StoredOfGrows(grants: seq<int>, writers: map<int, Writer>, g: int, h: int)
    requires 0 <= g <= h <= |grants|
    ensures |StoredOf(grants[..g], writers)| <= |StoredOf(grants[..h], writers)|
    decreases h
  {
    if g == h {
    } else {
      assert grants[..h][..h - 1] == grants[..h - 1];
      StoredOfGrows(grants, writers, g, h - 1);
    }
  }

  /** Writers took effect in the order they got the lock: of two that stored, the one recorded
      first was granted the lock first, and each was granted it once. */
  lemma {:induction false} LockOrder(states: seq<State>, i: int, j: int, k: int) returns (g: int, h: int)
    requires Run(states) && 0 <= i < |states| && 0 <= j < k < |states[i].history|
    requires states[i].history[j].PostEvent? && states[i].history[j].outcome.Stored?
    requires states[i].history[k].PostEvent? && states[i].history[k].outcome.Stored?
    ensures 0 <= g < h < |states[i].grants|
    ensures states[i].grants[g] == states[i].history[j].writer && states[i].grants[h] == states[i].history[k].writer
    ensures forall x, y :: 0 <= x < y < |states[i].grants| ==> states[i].grants[x] != states[i].grants[y]
  {
    RunsStayValid(states, i);
    var s := states[i];
    var a := StoredIdAt(s.history, j);
    var b := StoredIdAt(s.history, k);
    StoredIdsGrow(s.history, j, k);
    g := GrantOf(s.grants, s.writers, a);
    h := GrantOf(s.grants, s.writers, b);
    if h <= g {
      StoredOfGrows(s.grants, s.writers, h, g);
    }
  }

  // ----- What a step can touch

  /** A step leaves every other writer as it was. */
  lemma {:induction false} StepSparesOthers(s: State, s': State, x: int, w: int)
    requires Step(s, s', x) && w in s.writers && w != x
    ensures w in s'.writers && s'.writers[w] == s.writers[w]
  {
  }

  /** A step never changes a payload and never reopens a closed request. */
  lemma {:induction false} StepKeepsClosed(s: State, s': State, w: int)
    requires Step(s, s', w) && w in s.writers
    ensures w in s'.writers && s'.writers[w].payload == s.writers[w].payload
    ensures s.writers[w].phase == Closed ==> s'.writers[w] == s.writers[w]
  {
  }

  /** A request appears only by arriving. */
  lemma {:induction false} StepArrival(s: State, s': State, x: int, w: int)
    requires Step(s, s', x) && w in s'.writers && w !in s.writers
    ensures w == x && Arrive(s, s', x)
  {
  }

  /** A step passes the lock only to its own writer, only when it is free, listing the writer as
      granted; and frees it only by closing the writer that holds it. */
  lemma {:induction false} StepLock(s: State, s': State, x: int)
    requires Step(s, s', x)
    ensures s'.lock.Some? && s'.lock != s.lock ==> s.lock == None && s'.lock == Some(x) && s'.grants == s.grants + [x]
    ensures s'.lock == s.lock || s'.lock == None ==> s'.grants == s.grants
    ensures s'.lock == None && s.lock.Some? ==> s.lock == Some(x) && x in s'.writers && s'.writers[x].phase == Closed
  {
  }

  /** A step appends one event to what is recorded, or nothing, and changes the tables only
      together with a stored answer. */
  lemma {:induction false} StepHistory(s: State, s': State, x: int)
    requires Step(s, s', x)
    ensures s'.history == s.history || exists e :: s'.history == s.history + [e]
    ensures s'.db != s.db ==> x in s'.writers && s'.writers[x].outcome.Stored?
  {
    if Fetch(s, s', x) {
      var rows :| IsRead(s.db, x, rows) && DistinctRows(rows) && s' == Told(s, FetchEvent(x, Nest(rows)));
    }
  }

  // ----- What the order of the lock decides

  lemma {:induction false} FaithfulGrows(h: seq<Event>, e: Event)
    ensures Replay(h + [e]) == Served(Replay(h), e)
    ensures Faithful(h + [e]) <==> Faithful(h) && Explained(Replay(h), e)
  {
    var g := h + [e];
    assert g[..|h|] == h;
    if Faithful(g) {
      assert Explained(Replay(g[..|h|]), g[|h|]);
      forall i | 0 <= i < |h|
        ensures Explained(Replay(h[..i]), h[i])
      {
        assert g[..i] == h[..i] && g[i] == h[i];
      }
    }
    if Faithful(h) && Explained(Replay(h), e) {
      Append(h, e);
    }
  }

  lemma {:induction false} ReplayTwo(h: seq<Event>, e: Event, f: Event)
    ensures Replay(h + [e, f]) == Served(Served(Replay(h), e), f)
    ensures Faithful(h + [e, f]) <==> Faithful(h) && Explained(Replay(h), e) && Explained(Served(Replay(h), e), f)
  {
    FaithfulGrows(h, e);
    FaithfulGrows(h + [e], f);
    assert h + [e, f] == h + [e] + [f];
  }

  /** Two posts out of each other's reach, recorded one right after the other, could have been
      recorded the other way round: same forest, and the same answers to everyone. */
  lemma {:induction false} ApartSwap(h: seq<Event>, e: Event, f: Event)
    requires RefClosed(Replay(h)) && Acyclic(Replay(h)) && e.PostEvent? && f.PostEvent?
    requires Posted(Replay(h), e.payload).Ok? && Posted(Replay(h), f.payload).Ok?
    requires (IdSet([e.payload]) + Desc(Replay(h), IdSet([e.payload])))
          !! (IdSet([f.payload]) + Desc(Replay(h), IdSet([f.payload])))
    ensures Replay(h + [e, f]) == Replay(h + [f, e])
    ensures Faithful(h + [e, f]) <==> Faithful(h + [f, e])
  {
    ReplayTwo(h, e, f);
    ReplayTwo(h, f, e);
    OtherPosted(Replay(h), e.payload, f.payload);
    OtherPosted(Replay(h), f.payload, e.payload);
    PostedAccepts(Replay(h), e.payload);
    PostedAccepts(Replay(h), f.payload);
    ApartCommute(Replay(h), Flattened(e.payload).value, Flattened(f.payload).value);
  }

  /** Whoever does not hold the lock can only arrive, be rejected for a repeated id, give up or read. */
  lemma {:induction false} OthersWait(s: State, s': State, w: int, x: int)
    requires Valid(s) && s.lock == Some(w) && x != w
    ensures !TakeLock(s, s', x) && !Advance(s, s', x) && !RejectCycle(s, s', x) && !Commit(s, s', x)
  {
    if x in s.writers {
      WriterIsOk(s, x);
    }
  }

  /** While one writer holds the lock, no step of anyone else changes what is committed, so what
      it has read stays true. */
  lemma {:induction false} HolderUndisturbed(s: State, s': State, w: int, x: int)
    requires Valid(s) && s.lock == Some(w) && Step(s, s', x) && (x != w || Fetch(s, s', x))
    ensures s'.db == s.db && s'.lock == Some(w)
    ensures w in s'.writers && s'.writers[w] == s.writers[w]
  {
    NoFailure(s, s', x);
    if !Fetch(s, s', x) {
      OthersWait(s, s', w, x);
    }
  }
}
