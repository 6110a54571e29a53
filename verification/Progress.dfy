/** What can always happen next: no request is shut out, and whoever holds the lock can finish. */
module Progress {
  import opened Types
  import opened Payload
  import opened Flatten
  import opened Statements
  import opened Index
  import opened Post
  import opened Reading
  import opened Requests

  // ----- What never waits

  /** A read can take place in every state, whoever holds the lock, and is told what is committed. */
  lemma {:induction false} CanFetch(s: State, q: int) returns (s': State, a: Answer)
    requires Valid(s)
    ensures Step(s, s', q) && Fetch(s, s', q) && Fetches(s.db.nodes, q, a)
    ensures s' == s.(history := s.history + [FetchEvent(q, a)])
  {
    var rows := ReadExists(s.db, q, SubtreeRows(s.db, q));
    ReadDistinct(s.db, q, rows);
    FetchAnswers(s.db, q, rows);
    a := Nest(rows);
    s' := Told(s, FetchEvent(q, a));
  }

  /** Any payload can arrive at any time. */
  lemma {:induction false} CanArrive(s: State, w: int, p: Tree) returns (s': State)
    requires w !in s.writers
    ensures Step(s, s', w) && Arrive(s, s', w) && w in s'.writers
    ensures s' == s.(writers := s.writers[w := s'.writers[w]])
    ensures s'.writers[w].payload == p && s'.writers[w].phase == Waiting && s'.writers[w].outcome == Pending
  {
    s' := s.(writers := s.writers[w := Writer(p, Waiting, [], None, {}, NO_WRITES, NotFound, Pending)]);
  }

  /** A payload that repeats an id can be rejected at once, whoever holds the lock, naming the id
      that repeats first. */
  lemma {:induction false} CanRejectRepeated(s: State, w: int) returns (s': State, i: int)
    requires w in s.writers && s.writers[w].phase == Waiting && !Distinct([s.writers[w].payload])
    ensures Step(s, s', w) && FirstRepeat(Listing(s.writers[w].payload), i)
    ensures var o := Rejected(Repeated(Listing(s.writers[w].payload)[i].id));
      && s'.db == s.db && s'.grants == s.grants && (s.lock != Some(w) ==> s'.lock == s.lock)
      && s'.history == s.history + [PostEvent(w, s.writers[w].payload, o)]
      && w in s'.writers && s'.writers[w].phase == Closed && s'.writers[w].outcome == o
  {
    var p := s.writers[w].payload;
    FlattenMeaning(p);
    i :| FirstRepeat(Listing(p), i) && Listing(p)[i].id == Flattened(p).error;
    s' := Answered(s, w, Rejected(Repeated(Flattened(p).error)));
    assert RejectRepeated(s, s', w);
  }

  /** Whenever the lock is free, any waiting writer whose payload repeats no id can take it. */
  lemma {:induction false} CanTakeLock(s: State, w: int) returns (s': State)
    requires w in s.writers && s.writers[w].phase == Waiting && s.lock == None
    requires Distinct([s.writers[w].payload])
    ensures Step(s, s', w) && TakeLock(s, s', w)
    ensures s'.lock == Some(w) && s'.grants == s.grants + [w] && s'.db == s.db && s'.history == s.history
    ensures w in s'.writers && s'.writers[w].payload == s.writers[w].payload
  {
    FlattenMeaning(s.writers[w].payload);
    s' := s.(lock := Some(w), writers := s.writers[w := s.writers[w].(phase := Locked)], grants := s.grants + [w]);
  }

  /** Any request can be given up before it is through. It leaves nothing behind: no row, no
      answer, no lock. */
  lemma {:induction false} CanAbandon(s: State, w: int) returns (s': State)
    requires w in s.writers && s.writers[w].phase != Closed
    ensures Step(s, s', w) && Abandon(s, s', w)
    ensures s'.db == s.db && s'.history == s.history && s'.grants == s.grants
    ensures s'.lock == if s.lock == Some(w) then None else s.lock
    ensures w in s'.writers && s'.writers[w].phase == Closed && s'.writers[w].outcome == Abandoned
  {
    s' := Ended(s, w, Abandoned);
  }

  // ----- Nobody holds the lock for ever

  function Rank(p: Phase): nat
  {
    match p
    case Waiting => 0
    case Locked => 1
    case Captured => 2
    case Placed => 3
    case Scoped => 4
    case Upserted => 5
    case Pruned => 6
    case Cleared => 7
    case Indexed => 8
    case ReadBack => 9
    case Closed => 10
  }

  lemma {:induction false} CanRead(db: Tables, u: Writer) returns (u': Writer)
    requires OnTrack(db, u) && u.phase in {Locked, Captured, Placed, Indexed}
    requires u.phase == Captured ==> AlreadyAbove(u) == {}
    ensures Advances(db, u, u') && u'.phase == Following(u.phase)
  {
    var v, next := View(db, u.delta), u.(phase := Following(u.phase));
    if u.phase == Locked {
      var captured := ListExists(AncestorRows(v, u.payload.id));
      u' := next.(captured := captured);
    } else if u.phase == Captured {
      u' := next.(rootParent := ParentOf(v.nodes, u.payload.id));
    } else if u.phase == Placed {
      u' := next.(doomed := DescendantIds(v, IdsOf(FlatOf(u))) - IdsOf(FlatOf(u)));
    } else {
      var rows := ReadExists(v, u.payload.id, SubtreeRows(v, u.payload.id));
      ReadDistinct(v, u.payload.id, rows);
      u' := next.(answer := Nest(rows));
    }
  }

  lemma {:induction false} CanWrite(db: Tables, u: Writer) returns (u': Writer)
    requires Inv(db) && OnTrack(db, u) && u.phase in {Scoped, Upserted, Pruned, Cleared}
    ensures Advances(db, u, u') && u'.phase == Following(u.phase)
  {
    StatementAccepted(db, u);
    u' := u.(phase := Following(u.phase), delta := Then(u.delta, Statement(db, u).value));
  }

  /** `w` is nearer to giving up the lock, and has given it up if it is through. */
  ghost predicate Closer(s: State, s': State, w: int)
  {
    && w in s.writers && w in s'.writers && Rank(s'.writers[w].phase) > Rank(s.writers[w].phase)
    && (s'.writers[w].phase == Closed ==> s'.lock == None)
  }

  ghost predicate AtWork(s: State, w: int)
  {
    Inv(s.db) && s.lock == Some(w) && w in s.writers && Active(s.writers[w]) && OnTrack(s.db, s.writers[w])
  }

  ghost function WithWriter(s: State, w: int, u: Writer): State
  {
    s.(writers := s.writers[w := u])
  }

  lemma {:induction false} PutWriter(s: State, w: int, u': Writer)
    requires w in s.writers && Flattened(s.writers[w].payload).Ok? && Active(s.writers[w])
    requires Advances(s.db, s.writers[w], u') && u'.phase == Following(s.writers[w].phase)
    ensures Advance(s, WithWriter(s, w, u'), w) && Closer(s, WithWriter(s, w, u'), w)
    ensures u'.phase != Closed ==> Rank(u'.phase) == Rank(s.writers[w].phase) + 1
  {
  }

  lemma {:induction false} CanAdvance(s: State, w: int) returns (s': State)
    requires AtWork(s, w) && s.writers[w].phase != ReadBack
    requires s.writers[w].phase == Captured ==> AlreadyAbove(s.writers[w]) == {}
    ensures Advance(s, s', w) && Closer(s, s', w)
    ensures s'.writers[w].phase != Closed ==> Rank(s'.writers[w].phase) == Rank(s.writers[w].phase) + 1
  {
    var u := s.writers[w];
    var u';
    if u.phase in {Locked, Captured, Placed, Indexed} {
      u' := CanRead(s.db, u);
    } else {
      u' := CanWrite(s.db, u);
    }
    PutWriter(s, w, u');
    s' := WithWriter(s, w, u');
  }

  lemma {:induction false} CanReject(s: State, w: int) returns (s': State)
    requires w in s.writers && s.lock == Some(w) && Flattened(s.writers[w].payload).Ok?
    requires s.writers[w].phase == Captured && AlreadyAbove(s.writers[w]) != {}
    ensures RejectCycle(s, s', w) && Closer(s, s', w)
  {
    s' := Answered(s, w, Rejected(Cycle(Least(AlreadyAbove(s.writers[w])))));
  }

  lemma {:induction false} CanCommit(s: State, w: int) returns (s': State)
    requires w in s.writers && s.lock == Some(w)
    requires s.writers[w].phase == ReadBack && s.writers[w].answer.Found?
    ensures Commit(s, s', w) && Closer(s, s', w)
  {
    var u := s.writers[w];
    s' := Answered(s, w, Stored(u.answer)).(db := View(s.db, u.delta));
  }

  /** The holder of the lock is never stuck, short of giving up: it can always run its next
      statement, be rejected for a cycle or commit, and there are only so many steps to the end. */
  lemma {:induction false} HolderCanMove(s: State, w: int) returns (s': State)
    requires Valid(s) && s.lock == Some(w)
    ensures Step(s, s', w) && Closer(s, s', w)
    ensures Advance(s, s', w) || RejectCycle(s, s', w) || Commit(s, s', w)
    ensures if s'.writers[w].phase == Closed then s'.lock == None
            else Rank(s'.writers[w].phase) == Rank(s.writers[w].phase) + 1
  {
    OnlyHolderActive(s, w);
    var u := s.writers[w];
    if u.phase == ReadBack {
      s' := CanCommit(s, w);
    } else if u.phase == Captured && AlreadyAbove(u) != {} {
      s' := CanReject(s, w);
    } else {
      s' := CanAdvance(s, w);
    }
  }

  /** What one post, with nobody else about, does to the state `s` as far as anyone else can see:
      its answer is the one the forest alone gives, and nothing is left held. */
  ghost predicate ServedAlone(s: State, t: State, w: int, p: Tree)
  {
    && t.lock == None && w in t.writers && t.writers[w].phase == Closed
    && var e := PostEvent(w, p, t.writers[w].outcome);
       t.history == s.history + [e] && Explained(s.db.nodes, e) && t.db.nodes == Served(s.db.nodes, e)
  }

  lemma {:induction false} LastStep(s: State, s': State, w: int)
    requires Valid(s) && s.lock == Some(w) && w in s.writers && (RejectCycle(s, s', w) || Commit(s, s', w))
    ensures ServedAlone(s, s', w, s.writers[w].payload)
  {
    assert Step(s, s', w);
    StepKeepsValid(s, s', w);
    var k := |s.history|;
    assert s'.history[..k] == s.history;
    assert Explained(Replay(s'.history[..k]), s'.history[k]);
    assert s'.history == s.history + [s'.history[k]];
    Append(s.history, s'.history[k]);
  }

  lemma {:induction false} JoinedAt(a: seq<State>, b: seq<State>, i: int)
    requires Path(a) && Path(b) && a[|a| - 1] == b[0] && 0 < i < |a + b[1..]|
    ensures Next((a + b[1..])[i - 1], (a + b[1..])[i])
  {
    var x, y := (a + b[1..])[i - 1], (a + b[1..])[i];
    if i < |a| {
      assert x == a[i - 1] && y == a[i];
    } else {
      var j := i - |a| + 1;
      assert x == b[j - 1] && y == b[j];
    }
  }

  /** One path after another. */
  lemma {:induction false} PathJoin(a: seq<State>, b: seq<State>)
    requires Path(a) && Path(b) && a[|a| - 1] == b[0]
    ensures Path(a + b[1..])
  {
    forall i | 0 < i < |a + b[1..]|
      ensures Next((a + b[1..])[i - 1], (a + b[1..])[i])
    {
      JoinedAt(a, b, i);
    }
  }

  lemma {:induction false} OneStep(s: State, s': State, w: int)
    requires Step(s, s', w)
    ensures Path([s, s'])
  {
    assert Next(s, s');
  }

  lemma {:induction false} PathCons(s: State, s': State, w: int, path: seq<State>) returns (all: seq<State>)
    requires Step(s, s', w) && Path(path) && path[0] == s'
    ensures Path(all) && all[0] == s && all[|all| - 1] == path[|path| - 1] && all[1..] == path
  {
    OneStep(s, s', w);
    PathJoin([s, s'], path);
    all := [s] + path;
    assert all == [s, s'] + path[1..];
  }

  lemma {:induction false} ServedLater(s: State, s': State, t: State, w: int, p: Tree)
    requires s'.db == s.db && s'.history == s.history && ServedAlone(s', t, w, p)
    ensures ServedAlone(s, t, w, p)
  {
  }

  lemma {:induction false} AdvanceOnly(s: State, s': State, w: int)
    requires Advance(s, s', w)
    ensures s'.lock == s.lock && s'.db == s.db && s'.history == s.history
    ensures w in s.writers && w in s'.writers && s'.writers[w].payload == s.writers[w].payload
  {
  }

  /** The holder's next step either finishes its post or brings it nearer to that. */
  lemma {:induction false} HolderMoves(s: State, w: int) returns (s': State, through: bool)
    requires Valid(s) && s.lock == Some(w) && w in s.writers
    ensures Step(s, s', w)
    ensures through ==> ServedAlone(s, s', w, s.writers[w].payload)
    ensures !through ==>
      && Valid(s') && s'.lock == Some(w) && s'.db == s.db && s'.history == s.history && w in s'.writers
      && s'.writers[w].payload == s.writers[w].payload
      && Rank(s.writers[w].phase) < Rank(s'.writers[w].phase)
  {
    s' := HolderCanMove(s, w);
    through := !Advance(s, s', w);
    if through {
      LastStep(s, s', w);
    } else {
      AdvanceOnly(s, s', w);
      StepKeepsValid(s, s', w);
    }
  }

  /** From every valid state the holder of the lock can finish by steps of its own, and then it has
      stored or was rejected exactly as the forest it found says. */
  lemma {:induction false} HolderCanFinish(s: State, w: int) returns (path: seq<State>)
    requires Valid(s) && s.lock == Some(w) && w in s.writers
    ensures Path(path) && path[0] == s
    ensures ServedAlone(s, path[|path| - 1], w, s.writers[w].payload)
    decreases 10 - Rank(s.writers[w].phase)
  {
    var s', through := HolderMoves(s, w);
    if through {
      path := PathCons(s, s', w, [s']);
    } else {
      var rest := HolderCanFinish(s', w);
      path := PathCons(s, s', w, rest);
      ServedLater(s, s', rest[|rest| - 1], w, s.writers[w].payload);
    }
  }

  lemma {:induction false} RunExtends(states: seq<State>, path: seq<State>)
    requires Run(states) && Path(path) && path[0] == states[|states| - 1]
    ensures Run(states + path[1..])
  {
    PathJoin(states, path);
  }

  /** Runs start with nothing stored and nobody there. */
  lemma {:induction false} EmptyRun() returns (states: seq<State>)
    ensures Run(states) && |states| == 1
  {
    states := [State(Tables(map[], map[]), None, map[], [], [])];
  }

  lemma {:induction false} RejectedAlone(s: State, w: int) returns (path: seq<State>)
    requires w in s.writers && s.writers[w].phase == Waiting && s.lock == None
    requires !Distinct([s.writers[w].payload])
    ensures Path(path) && path[0] == s
    ensures ServedAlone(s, path[|path| - 1], w, s.writers[w].payload)
  {
    var p := s.writers[w].payload;
    var s', i := CanRejectRepeated(s, w);
    FlattenMeaning(p);
    var j :| FirstRepeat(Listing(p), j) && Listing(p)[j].id == Flattened(p).error;
    FirstRepeatOnce(Listing(p), i, j);
    path := [s, s'];
    assert Next(path[0], path[1]);
  }

  lemma {:induction false} WaiterServed(s: State, w: int) returns (path: seq<State>)
    requires Valid(s) && w in s.writers && s.writers[w].phase == Waiting && s.lock == None
    ensures Path(path) && path[0] == s
    ensures ServedAlone(s, path[|path| - 1], w, s.writers[w].payload)
  {
    if Distinct([s.writers[w].payload]) {
      var s' := CanTakeLock(s, w);
      StepKeepsValid(s, s', w);
      var rest := HolderCanFinish(s', w);
      path := PathCons(s, s', w, rest);
      ServedLater(s, s', rest[|rest| - 1], w, s.writers[w].payload);
    } else {
      path := RejectedAlone(s, w);
    }
  }

  /** Any run that has come to a point where the lock is free can go on to serve any new post:
      it is stored or rejected as the forest at that point says, and its client is told. */
  lemma {:induction false} AnyPostServed(states: seq<State>, w: int, p: Tree) returns (more: seq<State>)
    requires Run(states) && states[|states| - 1].lock == None && w !in states[|states| - 1].writers
    ensures Run(states + more) && more != []
    ensures ServedAlone(states[|states| - 1], more[|more| - 1], w, p)
    ensures var s, t := states[|states| - 1], more[|more| - 1];
      && t.lock == None && w in t.writers
      && t.history == s.history + [PostEvent(w, p, t.writers[w].outcome)]
      && Explained(s.db.nodes, PostEvent(w, p, t.writers[w].outcome))
  {
    var s := states[|states| - 1];
    RunsStayValid(states, |states| - 1);
    var a := CanArrive(s, w, p);
    StepKeepsValid(s, a, w);
    more := WaiterServed(a, w);
    ServedLater(s, a, more[|more| - 1], w, p);
    var path := PathCons(s, a, w, more);
    RunExtends(states, path);
  }
}
