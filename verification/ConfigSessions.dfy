/**
 * The transactions of the configuration statement by statement. A transaction takes no lock before it writes, so others
 * may commit between what it reads and what it writes.
 */
module ConfigSessions {
  import opened Json
  import opened ConfigHistory

  /** An open transaction: the row that it has read, and the value that it is to write once that is known. */
  datatype Session = Session(op: Op, seen: Option<Config>, value: Option<Value>)

  datatype World = World(db: Store, sessions: map<int, Session>)

  /** Find is the second read of a rollback; Commit is the write, which locks the row, with all that follows it. */
  datatype Action = Read(me: int, op: Op) | Find(me: int) | Commit(me: int) | Abort(me: int)

  function RowOf(db: Store, key: ConfigKey): Option<Config> {
    if key in db.configs then Some(db.configs[key]) else None
  }

  /** What a commit leaves: the logged old value is the one that was read, the version is checked against the row. */
  ghost function Committed(db: Store, s: Session): Store {
    if s.value.None? then db
    else
      var key, value := s.op.key, s.value.value;
      if !LogIDFree(db, s.op.logID) || !Encodable(Obj(value)) then db
      else match s.seen
        case None =>
          if s.op.Rollback? || key in db.configs || !ConfigIDFree(db, s.op.configID) then db
          else
            Store(
              db.configs[key := Config(s.op.configID, value, 1)],
              db.logs + [ChangeLog(s.op.logID, s.op.configID, map[], value)])
        case Some(was) =>
          if key !in db.configs || db.configs[key].version != s.op.version || s.op.version >= MAX_INT32 then db
          else
            var id := db.configs[key].id;
            Store(
              db.configs[key := Config(id, value, s.op.version + 1)],
              db.logs + [ChangeLog(s.op.logID, id, was.value, value)])
  }

  ghost function Next(w: World, a: Action): World {
    match a
    case Read(me, op) =>
      if me in w.sessions then w
      else
        var s := Session(op, RowOf(w.db, op.key), if op.Update? then Some(op.value) else None);
        w.(sessions := w.sessions[me := s])
    case Find(me) =>
      if me !in w.sessions || !w.sessions[me].op.Rollback? || w.sessions[me].seen.None? then w
      else
        var s := w.sessions[me];
        var log := FindLog(w.db.logs, s.op.changeLogID, s.seen.value.id);
        w.(sessions :=
          if log.None? then w.sessions - {me} else w.sessions[me := s.(value := Some(log.value.oldValue))])
    case Commit(me) =>
      if me !in w.sessions then w else World(Committed(w.db, w.sessions[me]), w.sessions - {me})
    case Abort(me) => w.(sessions := w.sessions - {me})
  }

  ghost function Interleaved(actions: seq<Action>): World {
    if actions == [] then World(EMPTY, map[])
    else Next(Interleaved(actions[..|actions| - 1]), actions[|actions| - 1])
  }

  lemma InterleavedAppend(actions: seq<Action>, a: Action)
    ensures Interleaved(actions + [a]) == Next(Interleaved(actions), a)
  {
    assert (actions + [a])[..|actions|] == actions;
  }

  // ---- one commit ----

  /** The value that will be logged as the old one. */
  function SeenValue(s: Session): Value {
    if s.seen.Some? then s.seen.value.value else map[]
  }

  lemma {:induction false} CommitShape(db: Store, s: Session) returns (row: Config, log: ChangeLog)
    requires Committed(db, s) != db
    ensures Committed(db, s) == Store(db.configs[s.op.key := row], db.logs + [log])
    ensures log.configID == row.id && log.oldValue == SeenValue(s) && log.newValue == row.value
    ensures LogIDFree(db, log.id) && Encodable(Obj(row.value))
    ensures
      if s.op.key in db.configs then row.id == db.configs[s.op.key].id else ConfigIDFree(db, row.id) && s.seen.None?
    ensures s.op.key in db.configs ==>
      s.seen.Some? && db.configs[s.op.key].version == s.op.version && row.version == s.op.version + 1
  {
    hide Encodable;
    row, log := Committed(db, s).configs[s.op.key], Committed(db, s).logs[|db.logs|];
  }

  /** A commit keeps the chain exactly when the value that it read is the value that it overwrites. */
  lemma CommitKeepsChainIff(db: Store, s: Session)
    requires Chain(db) && Committed(db, s) != db
    requires s.op.key !in db.configs ==> s.seen.None?
    ensures Chain(Committed(db, s)) <==> SeenValue(s) == Held(db, s.op.key)
  {
    hide LogsOf, Encodable, Committed, WellKept;
    var row, log := CommitShape(db, s);
    var after, key := Committed(db, s), s.op.key;
    if SeenValue(s) == Held(db, key) {
      CommitWellKept(db, after, key, row, log);
      forall k | k in after.configs ensures Linked(LogsOf(after.logs, after.configs[k].id), after.configs[k].value) {
        CommitHistory(db, after, key, row, log, k);
        if k in db.configs { assert Linked(LogsOf(db.logs, db.configs[k].id), db.configs[k].value); }
      }
    } else {
      assert key in db.configs;
      LogsOfAppend(db.logs, log, row.id);
      var before, history := LogsOf(db.logs, row.id), LogsOf(after.logs, row.id);
      assert Linked(before, db.configs[key].value);
      assert history[|before|] == log && history[|before| - 1] == before[|before| - 1];
      assert !Linked(LogsOf(after.logs, after.configs[key].id), after.configs[key].value);
    }
  }

  /** With nobody in between, the statements of a transaction come to what it does atomically. */
  lemma UndisturbedIsAtomic(w: World, me: int, op: Op)
    requires me !in w.sessions
    ensures op.Update? ==> Next(Next(w, Read(me, op)), Commit(me)) == World(Apply(w.db, op), w.sessions)
    ensures op.Rollback? ==>
      Next(Next(Next(w, Read(me, op)), Find(me)), Commit(me)) == World(Apply(w.db, op), w.sessions)
  {
    hide Encodable, FindLog, LogIDFree;
    var seen := RowOf(w.db, op.key);
    if op.Update? {
      assert w.sessions[me := Session(op, seen, Some(op.value))] - {me} == w.sessions;
    } else {
      assert w.sessions[me := Session(op, seen, None)] - {me} == w.sessions;
      assert w.sessions - {me} == w.sessions;
      if seen.Some? {
        var log := FindLog(w.db.logs, op.changeLogID, seen.value.id);
        if log.Some? {
          var found := Session(op, seen, Some(log.value.oldValue));
          assert w.sessions[me := Session(op, seen, None)][me := found] - {me} == w.sessions;
        }
      }
    }
  }

  // ---- interleaved runs ----

  /** A session's row is still there; it has not changed as long as its version is the same; a log found stays found. */
  ghost predicate Remembers(db: Store, s: Session) {
    && (s.op.Update? ==> s.value == Some(s.op.value))
    && (s.seen.Some? ==>
          && s.op.key in db.configs && db.configs[s.op.key].id == s.seen.value.id
          && s.seen.value.version <= db.configs[s.op.key].version
          && (s.seen.value.version == db.configs[s.op.key].version ==> s.seen.value == db.configs[s.op.key]))
    && (s.op.Rollback? && s.value.Some? ==>
          && s.seen.Some?
          && FindLog(db.logs, s.op.changeLogID, s.seen.value.id).Some?
          && FindLog(db.logs, s.op.changeLogID, s.seen.value.id).value.oldValue == s.value.value)
  }

  lemma {:induction false} FindLogAppend(logs: seq<ChangeLog>, log: ChangeLog, id: int, configID: int)
    requires FindLog(logs, id, configID).Some?
    ensures FindLog(logs + [log], id, configID) == FindLog(logs, id, configID)
    decreases |logs|
  {
    assert (logs + [log])[0] == logs[0] && (logs + [log])[1..] == logs[1..] + [log];
    if logs[0].id != id || logs[0].configID != configID { FindLogAppend(logs[1..], log, id, configID); }
  }

  lemma CommitRemembers(db: Store, s: Session, other: Session)
    requires Remembers(db, other)
    ensures Remembers(Committed(db, s), other)
  {
    if Committed(db, s) != db {
      var row, log := CommitShape(db, s);
      hide Committed, FindLog, Encodable;
      if other.op.Rollback? && other.value.Some? {
        FindLogAppend(db.logs, log, other.op.changeLogID, other.seen.value.id);
      }
    }
  }

  ghost predicate AllRemember(w: World) {
    forall me :: me in w.sessions ==> Remembers(w.db, w.sessions[me])
  }

  lemma StepRemembers(w: World, a: Action)
    requires AllRemember(w)
    ensures AllRemember(Next(w, a))
  {
    if a.Commit? && a.me in w.sessions {
      hide Committed, Remembers;
      forall me | me in w.sessions ensures Remembers(Committed(w.db, w.sessions[a.me]), w.sessions[me]) {
        CommitRemembers(w.db, w.sessions[a.me], w.sessions[me]);
      }
    }
  }

  lemma {:induction false} RunRemembers(actions: seq<Action>)
    ensures AllRemember(Interleaved(actions))
    decreases |actions|
  {
    if actions != [] {
      RunRemembers(actions[..|actions| - 1]);
      StepRemembers(Interleaved(actions[..|actions| - 1]), actions[|actions| - 1]);
    }
  }

  /** The request names no version that its transaction could not have read yet. */
  ghost predicate Current(s: Session) {
    s.seen.Some? ==> s.op.version <= s.seen.value.version
  }

  /** Then the version checked is the version read: a commit does nothing, or what its transaction does atomically. */
  lemma CommitIsAtomic(db: Store, s: Session)
    requires Remembers(db, s) && Current(s)
    ensures Committed(db, s) in {db, Apply(db, s.op)}
  {
    hide Encodable, FindLog;
  }

  ghost predicate AllCurrent(actions: seq<Action>) {
    forall i :: 0 <= i < |actions| && actions[i].Read? ==>
      Current(Session(actions[i].op, RowOf(Interleaved(actions[..i]).db, actions[i].op.key), None))
  }

  /**
   * Interleaved transactions are serialisable as long as no request names a version ahead of what its transaction
   * reads: the state is that after some atomic transactions, so everything proved about those holds of it.
   */
  lemma {:induction false} RefinesAtomic(actions: seq<Action>) returns (ops: seq<Op>)
    requires AllCurrent(actions)
    ensures Interleaved(actions).db == Run(ops)
    ensures forall me :: me in Interleaved(actions).sessions ==> Current(Interleaved(actions).sessions[me])
    decreases |actions|
  {
    hide Committed, Apply;
    if actions == [] {
      ops := [];
    } else {
      var init, a := actions[..|actions| - 1], actions[|actions| - 1];
      assert forall i :: 0 <= i <= |init| ==> init[..i] == actions[..i];
      ops := RefinesAtomic(init);
      RunRemembers(init);
      var w := Interleaved(init);
      if a.Commit? && a.me in w.sessions && Committed(w.db, w.sessions[a.me]) != w.db {
        var s := w.sessions[a.me];
        var row, log := CommitShape(w.db, s);
        CommitIsAtomic(w.db, s);
        assert (ops + [s.op])[..|ops|] == ops;
        ops := ops + [s.op];
      }
    }
  }

  /** So every interleaving of such requests keeps the chain. */
  lemma InterleavedKeepsChain(actions: seq<Action>)
    requires AllCurrent(actions)
    ensures Chain(Interleaved(actions).db)
  {
    var ops := RefinesAtomic(actions);
    RunKeepsChain(ops);
  }

  /**
   * Without that condition the chain can break. Here the second request names version 2 while its transaction still
   * reads version 1; a third transaction makes version 2 before the second one writes.
   */
  lemma StaleReadBreaksChain(key: ConfigKey) returns (actions: seq<Action>)
    ensures !Chain(Interleaved(actions).db)
  {
    var a, b: Value := map["a" := NULL], map[];
    assert Encodable(Obj(a));
    assert Encodable(Obj(map[]));
    assert "a" in a && a != b;
    actions := AheadRun(key, a, b);
  }

  lemma AheadRun(key: ConfigKey, a: Value, b: Value) returns (actions: seq<Action>)
    requires Encodable(Obj(a)) && Encodable(Obj(b)) && a != b
    ensures !Chain(Interleaved(actions).db)
  {
    hide *;
    var create, ahead, change := Update(key, a, 0, 1, 1), Update(key, a, 2, 0, 3), Update(key, b, 1, 0, 2);
    var seen := Some(Config(1, a, 1));
    var s1, s2, s3 := Session(create, None, Some(a)), Session(ahead, seen, Some(a)), Session(change, seen, Some(b));
    CreateCommits(key, a);
    ChangeCommits(key, a, b);
    AheadCommits(key, a, b);
    var none: map<int, Session> := map[];
    Start();
    actions := ThenRead([], EMPTY, none, 1, create, s1);
    actions := ThenCommit(actions, EMPTY, none, 1, s1);
    actions := ThenRead(actions, OneLog(key, a), none, 2, ahead, s2);
    actions := ThenRead(actions, OneLog(key, a), map[2 := s2], 3, change, s3);
    actions := ThenCommit(actions, OneLog(key, a), map[2 := s2], 3, s3);
    actions := ThenCommit(actions, TwoLogs(key, a, b), none, 2, s2);
  }

  lemma Start()
    ensures Interleaved([]) == World(EMPTY, map[])
  {
  }

  lemma ThenRead(actions: seq<Action>, db: Store, sessions: map<int, Session>, me: int, op: Op, s: Session)
    returns (longer: seq<Action>)
    requires Interleaved(actions) == World(db, sessions) && me !in sessions
    requires op.Update? && s == Session(op, RowOf(db, op.key), Some(op.value))
    ensures longer == actions + [Read(me, op)] && Interleaved(longer) == World(db, sessions[me := s])
  {
    longer := actions + [Read(me, op)];
    InterleavedAppend(actions, Read(me, op));
  }

  lemma ThenCommit(actions: seq<Action>, db: Store, others: map<int, Session>, me: int, s: Session)
    returns (longer: seq<Action>)
    requires Interleaved(actions) == World(db, others[me := s]) && me !in others
    ensures longer == actions + [Commit(me)] && Interleaved(longer) == World(Committed(db, s), others)
  {
    longer := actions + [Commit(me)];
    InterleavedAppend(actions, Commit(me));
    assert others[me := s] - {me} == others;
  }

  function OneLog(key: ConfigKey, a: Value): Store {
    Store(map[key := Config(1, a, 1)], [ChangeLog(1, 1, map[], a)])
  }

  function TwoLogs(key: ConfigKey, a: Value, b: Value): Store {
    Store(map[key := Config(1, b, 2)], [ChangeLog(1, 1, map[], a), ChangeLog(2, 1, a, b)])
  }

  lemma CreateCommits(key: ConfigKey, a: Value)
    requires Encodable(Obj(a))
    ensures Committed(EMPTY, Session(Update(key, a, 0, 1, 1), None, Some(a))) == OneLog(key, a)
    ensures Chain(OneLog(key, a)) && RowOf(EMPTY, key) == None && RowOf(OneLog(key, a), key) == Some(Config(1, a, 1))
  {
    hide Encodable;
    assert Apply(EMPTY, Update(key, a, 0, 1, 1)) == OneLog(key, a);
    StepKeepsChain(EMPTY, Update(key, a, 0, 1, 1));
  }

  lemma ChangeCommits(key: ConfigKey, a: Value, b: Value)
    requires Encodable(Obj(b)) && Chain(OneLog(key, a))
    ensures
      Committed(OneLog(key, a), Session(Update(key, b, 1, 0, 2), Some(Config(1, a, 1)), Some(b))) == TwoLogs(key, a, b)
    ensures Chain(TwoLogs(key, a, b))
  {
    hide Encodable, Chain;
    assert Apply(OneLog(key, a), Update(key, b, 1, 0, 2)) == TwoLogs(key, a, b);
    StepKeepsChain(OneLog(key, a), Update(key, b, 1, 0, 2));
  }

  lemma AheadCommits(key: ConfigKey, a: Value, b: Value)
    requires Encodable(Obj(a)) && Chain(TwoLogs(key, a, b)) && a != b
    ensures !Chain(Committed(TwoLogs(key, a, b), Session(Update(key, a, 2, 0, 3), Some(Config(1, a, 1)), Some(a))))
  {
    hide Encodable, Chain;
    var s := Session(Update(key, a, 2, 0, 3), Some(Config(1, a, 1)), Some(a));
    assert |Committed(TwoLogs(key, a, b), s).logs| == 3;
    CommitKeepsChainIff(TwoLogs(key, a, b), s);
  }
}
