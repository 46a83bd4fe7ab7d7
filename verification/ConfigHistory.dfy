/** System configuration with an append-only change log. Each transaction is one step. */
module ConfigHistory {
  import opened Json
  import opened Text

  const SCOPE_GLOBAL := 1
  const SCOPE_TENANT := 2
  const MAX_INT32 := 0x7fff_ffff

  type Value = map<string, Json>

  datatype ConfigKey = ConfigKey(scope: int, tenantID: int, key: string)

  datatype Config = Config(id: int, value: Value, version: int)

  datatype ChangeLog = ChangeLog(id: int, configID: int, oldValue: Value, newValue: Value)

  /** The two tables; logs are in the order of their insertion. */
  datatype Store = Store(configs: map<ConfigKey, Config>, logs: seq<ChangeLog>)

  const EMPTY := Store(map[], [])

  // ---- transactions ----

  /** A transaction with the ids that it would insert. */
  datatype Op =
    | Update(key: ConfigKey, value: Value, version: int, configID: int, logID: int)
    | Rollback(key: ConfigKey, changeLogID: int, version: int, logID: int)

  /** Primary keys are unique: an insert with an id in use fails. */
  predicate LogIDFree(db: Store, id: int) {
    forall i :: 0 <= i < |db.logs| ==> db.logs[i].id != id
  }

  ghost predicate ConfigIDFree(db: Store, id: int) {
    forall k :: k in db.configs ==> db.configs[k].id != id
  }

  function FindLog(logs: seq<ChangeLog>, id: int, configID: int): (r: Option<ChangeLog>)
    ensures r.Some? ==> r.value in logs && r.value.id == id && r.value.configID == configID
    ensures r.None? ==> forall l :: l in logs ==> l.id != id || l.configID != configID
  {
    if logs == [] then None
    else if logs[0].id == id && logs[0].configID == configID then Some(logs[0])
    else FindLog(logs[1..], id, configID)
  }

  /** UpdateSystemConfig and the log insert: the optimistic lock must match, or nothing happens. */
  function Change(db: Store, key: ConfigKey, value: Value, version: int, logID: int): Store
    requires key in db.configs
  {
    var row := db.configs[key];
    if row.version != version || version >= MAX_INT32 || !LogIDFree(db, logID) || !Encodable(Obj(value)) then db
    else
      Store(
        db.configs[key := Config(row.id, value, version + 1)],
        db.logs + [ChangeLog(logID, row.id, row.value, value)])
  }

  /** The state after a transaction; a failed one is rolled back. */
  ghost function Apply(db: Store, op: Op): Store {
    match op
    case Update(key, value, version, configID, logID) =>
      if key in db.configs then Change(db, key, value, version, logID)
      else if !ConfigIDFree(db, configID) || !LogIDFree(db, logID) || !Encodable(Obj(value)) then db
      else Store(db.configs[key := Config(configID, value, 1)], db.logs + [ChangeLog(logID, configID, map[], value)])
    case Rollback(key, changeLogID, version, logID) =>
      if key !in db.configs then db
      else match FindLog(db.logs, changeLogID, db.configs[key].id)
        case None => db
        case Some(history) => Change(db, key, history.oldValue, version, logID)
  }

  ghost function Run(ops: seq<Op>): Store {
    if ops == [] then EMPTY else Apply(Run(ops[..|ops| - 1]), ops[|ops| - 1])
  }

  // ---- the chain ----

  /** The history of one configuration. */
  function LogsOf(logs: seq<ChangeLog>, configID: int): seq<ChangeLog> {
    if logs == [] then []
    else
      var init, last := LogsOf(logs[..|logs| - 1], configID), logs[|logs| - 1];
      if last.configID == configID then init + [last] else init
  }

  /** Old values start empty and continue where the previous change ended; the last change gives the current value. */
  ghost predicate Linked(history: seq<ChangeLog>, current: Value) {
    && history != [] && history[0].oldValue == map[]
    && (forall i :: 0 < i < |history| ==> history[i].oldValue == history[i - 1].newValue)
    && history[|history| - 1].newValue == current
  }

  /** Every log belongs to a configuration; ids are unique; whatever is stored can be encoded. */
  ghost predicate WellKept(db: Store) {
    && (forall k, l :: k in db.configs && l in db.configs && k != l ==> db.configs[k].id != db.configs[l].id)
    && (forall l :: l in db.logs ==> exists k :: k in db.configs && db.configs[k].id == l.configID)
    && (forall i, j :: 0 <= i < j < |db.logs| ==> db.logs[i].id != db.logs[j].id)
    && (forall l :: l in db.logs ==> Encodable(Obj(l.oldValue)))
    && (forall k :: k in db.configs ==> Encodable(Obj(db.configs[k].value)))
  }

  ghost predicate Chain(db: Store) {
    && WellKept(db)
    && forall k :: k in db.configs ==> Linked(LogsOf(db.logs, db.configs[k].id), db.configs[k].value)
  }

  /** The value a key holds; nothing stored counts as the empty value. */
  ghost function Held(db: Store, key: ConfigKey): Value {
    if key in db.configs then db.configs[key].value else map[]
  }

  ghost function History(db: Store, key: ConfigKey): seq<ChangeLog> {
    if key in db.configs then LogsOf(db.logs, db.configs[key].id) else []
  }

  /** after is db with the row of one key written and the step from the value it held logged. */
  ghost predicate Commits(db: Store, after: Store, key: ConfigKey, row: Config, log: ChangeLog) {
    && after == Store(db.configs[key := row], db.logs + [log])
    && log.configID == row.id && log.oldValue == Held(db, key) && log.newValue == row.value
    && LogIDFree(db, log.id) && Encodable(Obj(row.value))
    && if key in db.configs then row.id == db.configs[key].id else ConfigIDFree(db, row.id)
  }

  lemma {:induction false} StepShape(db: Store, op: Op) returns (row: Config, log: ChangeLog)
    ensures Apply(db, op) == db || Commits(db, Apply(db, op), op.key, row, log)
  {
    hide Encodable, FindLog;
    var after := Apply(db, op);
    if op.key in after.configs && |after.logs| > |db.logs| {
      row, log := after.configs[op.key], after.logs[|db.logs|];
    } else {
      row, log := Config(0, map[], 0), ChangeLog(0, 0, map[], map[]);
    }
  }

  lemma LogsOfAppend(logs: seq<ChangeLog>, log: ChangeLog, configID: int)
    ensures LogsOf(logs + [log], configID) ==
      LogsOf(logs, configID) + if log.configID == configID then [log] else []
  {
  }

  lemma {:induction false} NoLogsOf(logs: seq<ChangeLog>, configID: int)
    requires forall i :: 0 <= i < |logs| ==> logs[i].configID != configID
    ensures LogsOf(logs, configID) == []
    decreases |logs|
  {
    if logs != [] { NoLogsOf(logs[..|logs| - 1], configID); }
  }

  /** A new configuration has no logs yet. */
  lemma NewHasNoLogs(db: Store, id: int)
    requires WellKept(db) && ConfigIDFree(db, id)
    ensures LogsOf(db.logs, id) == []
  {
    forall i | 0 <= i < |db.logs| ensures db.logs[i].configID != id {
      assert db.logs[i] in db.logs;
    }
    NoLogsOf(db.logs, id);
  }

  lemma CommitWellKept(db: Store, after: Store, key: ConfigKey, row: Config, log: ChangeLog)
    requires WellKept(db) && Commits(db, after, key, row, log)
    ensures WellKept(after)
  {
    assert Encodable(Obj(map[]));
    hide Encodable;
    forall l | l in after.logs ensures exists k :: k in after.configs && after.configs[k].id == l.configID {
      if l == log {
        assert key in after.configs && after.configs[key].id == l.configID;
      } else {
        var k :| k in db.configs && db.configs[k].id == l.configID;
        assert k in after.configs && after.configs[k].id == l.configID;
      }
    }
  }

  /** What a commit does to the history of every key. */
  lemma CommitHistory(db: Store, after: Store, key: ConfigKey, row: Config, log: ChangeLog, other: ConfigKey)
    requires WellKept(db) && Commits(db, after, key, row, log)
    ensures History(after, other) == History(db, other) + if other == key then [log] else []
  {
    hide LogsOf, Encodable;
    if other in after.configs {
      LogsOfAppend(db.logs, log, after.configs[other].id);
      if other !in db.configs { NewHasNoLogs(db, row.id); }
    }
  }

  /** Every transaction keeps the chain. */
  lemma StepKeepsChain(db: Store, op: Op)
    requires Chain(db)
    ensures Chain(Apply(db, op))
  {
    hide LogsOf, Encodable, Apply, WellKept;
    var row, log := StepShape(db, op);
    var after := Apply(db, op);
    if after != db {
      CommitWellKept(db, after, op.key, row, log);
      forall k | k in after.configs ensures Linked(LogsOf(after.logs, after.configs[k].id), after.configs[k].value) {
        CommitHistory(db, after, op.key, row, log, k);
        if k in db.configs { assert Linked(LogsOf(db.logs, db.configs[k].id), db.configs[k].value); }
      }
    }
  }

  /** In every reachable state the history of every configuration is a chain to its current value. */
  lemma {:induction false} RunKeepsChain(ops: seq<Op>)
    ensures Chain(Run(ops))
    decreases |ops|
  {
    if ops != [] {
      RunKeepsChain(ops[..|ops| - 1]);
      StepKeepsChain(Run(ops[..|ops| - 1]), ops[|ops| - 1]);
    }
  }

  // ---- what the logs say about the past ----

  /** A transaction either leaves a key's history alone, or appends the step from the value held to the new one. */
  lemma StepHistory(db: Store, op: Op, key: ConfigKey) returns (log: ChangeLog)
    requires Chain(db)
    ensures var after := Apply(db, op);
      || (History(after, key) == History(db, key) && Held(after, key) == Held(db, key))
      || (History(after, key) == History(db, key) + [log] && log.oldValue == Held(db, key)
          && log.newValue == Held(after, key))
  {
    hide LogsOf, Encodable, Apply, WellKept;
    var row;
    row, log := StepShape(db, op);
    if Apply(db, op) != db { CommitHistory(db, Apply(db, op), op.key, row, log, key); }
  }

  /** The moment of the run at which the j-th change of a key's history was made. */
  lemma {:induction false} WhenChanged(ops: seq<Op>, key: ConfigKey, j: nat) returns (i: nat)
    requires j < |History(Run(ops), key)|
    ensures i < |ops| && |History(Run(ops[..i]), key)| == j
    ensures Held(Run(ops[..i]), key) == History(Run(ops), key)[j].oldValue
    ensures Held(Run(ops[..i + 1]), key) == History(Run(ops), key)[j].newValue
    decreases |ops|
  {
    hide LogsOf, Apply;
    var n := |ops| - 1;
    var before := Run(ops[..n]);
    RunKeepsChain(ops[..n]);
    var log := StepHistory(before, ops[n], key);
    if j < |History(before, key)| {
      i := WhenChanged(ops[..n], key, j);
      assert ops[..n][..i] == ops[..i] && ops[..n][..i + 1] == ops[..i + 1];
    } else {
      i := n;
      assert ops[..n + 1] == ops;
    }
  }

  /** A rollback that the optimistic lock and the keys admit. */
  ghost predicate Admitted(db: Store, op: Op) {
    && op.Rollback? && op.key in db.configs && db.configs[op.key].version == op.version < MAX_INT32
    && LogIDFree(db, op.logID)
  }

  /** Rolling back to the j-th change restores exactly what the key held just before that change was made. */
  lemma RollbackRestores(ops: seq<Op>, op: Op, j: nat) returns (i: nat)
    requires Admitted(Run(ops), op) && j < |History(Run(ops), op.key)|
    requires History(Run(ops), op.key)[j].id == op.changeLogID
    ensures i < |ops| && |History(Run(ops[..i]), op.key)| == j
    ensures Held(Run(ops + [op]), op.key) == Held(Run(ops[..i]), op.key)
    ensures Run(ops + [op]).configs[op.key].version == op.version + 1
  {
    i := WhenChanged(ops, op.key, j);
    var db := Run(ops);
    RunKeepsChain(ops);
    assert (ops + [op])[..|ops|] == ops;
    RollbackCommits(db, op, j);
  }

  /** A log of a key's history is found by its id, and its old value can be stored. */
  lemma LogFound(db: Store, key: ConfigKey, j: nat)
    requires Chain(db) && j < |History(db, key)|
    ensures key in db.configs
      && FindLog(db.logs, History(db, key)[j].id, db.configs[key].id) == Some(History(db, key)[j])
    ensures Encodable(Obj(History(db, key)[j].oldValue))
  {
    hide Encodable, LogsOf;
    var log := History(db, key)[j];
    LogsOfMembers(db.logs, db.configs[key].id);
    assert log in History(db, key);
    var found := FindLog(db.logs, log.id, db.configs[key].id);
    var a :| 0 <= a < |db.logs| && db.logs[a] == log;
    var b :| 0 <= b < |db.logs| && db.logs[b] == found.value;
    assert a == b;
  }

  lemma {:induction false} LogsOfMembers(logs: seq<ChangeLog>, configID: int)
    ensures forall l :: l in LogsOf(logs, configID) <==> l in logs && l.configID == configID
    decreases |logs|
  {
    if logs != [] {
      LogsOfMembers(logs[..|logs| - 1], configID);
      assert logs == logs[..|logs| - 1] + [logs[|logs| - 1]];
    }
  }

  /** A rollback is a change like any other, so it can itself be rolled back. */
  lemma RollbackUndone(ops: seq<Op>, op: Op, j: nat, undo: Op)
    requires Admitted(Run(ops), op) && j < |History(Run(ops), op.key)|
    requires History(Run(ops), op.key)[j].id == op.changeLogID
    requires undo == Rollback(op.key, op.logID, op.version + 1, undo.logID)
    requires LogIDFree(Run(ops + [op]), undo.logID) && op.version + 1 < MAX_INT32
    ensures Held(Run(ops + [op] + [undo]), op.key) == Held(Run(ops), op.key)
  {
    var db, mid := Run(ops), Run(ops + [op]);
    RunKeepsChain(ops);
    RunKeepsChain(ops + [op]);
    assert (ops + [op])[..|ops|] == ops && (ops + [op] + [undo])[..|ops| + 1] == ops + [op];
    RollbackCommits(db, op, j);
    var row, log := StepShape(db, op);
    CommitHistory(db, mid, op.key, row, log, op.key);
    RollbackCommits(mid, undo, |History(db, op.key)|);
  }

  /** An admitted rollback to a log of the key's history is committed. */
  lemma RollbackCommits(db: Store, op: Op, j: nat)
    requires Chain(db) && Admitted(db, op) && j < |History(db, op.key)| && History(db, op.key)[j].id == op.changeLogID
    ensures var row := db.configs[op.key]; var value := History(db, op.key)[j].oldValue;
      Apply(db, op) == Store(
        db.configs[op.key := Config(row.id, value, row.version + 1)],
        db.logs + [ChangeLog(op.logID, row.id, row.value, value)])
    ensures Apply(db, op) != db
  {
    LogFound(db, op.key, j);
    hide Encodable, LogsOf, FindLog;
    assert |Apply(db, op).logs| == |db.logs| + 1;
  }

  /** Two writers that read the same version: once one has committed, the other changes nothing. */
  lemma StaleVersionLoses(db: Store, first: Op, second: Op)
    requires first.key == second.key && first.version == second.version
    requires first.key in db.configs && Apply(db, first) != db
    ensures Apply(Apply(db, first), second) == Apply(db, first)
  {
  }

  // ---- the service ----

  datatype Identity = Identity(isPlatform: bool, tenantID: int)

  /** AuditFailed is reported after the change has been committed; every other failure before. */
  datatype Outcome = Done(value: Value) | Invalid | NotFound | Conflict | StoreFailed | AuditFailed

  /** The row that a request addresses; None where it is refused. A tenant administrator is kept to its tenant. */
  function Target(id: Identity, key: string, scope: int, tenantID: int): Option<ConfigKey> {
    var name := TrimSpace(key);
    var s, t := if id.isPlatform then scope else SCOPE_TENANT, if id.isPlatform then tenantID else id.tenantID;
    if name == "" || (id.isPlatform && scope == SCOPE_TENANT) then None
    else if (s == SCOPE_GLOBAL && t == 0) || (s == SCOPE_TENANT && t > 0) then Some(ConfigKey(s, t, name))
    else None
  }

  /** Nobody but the tenant's own administrators can address a tenant's configuration. */
  lemma TargetIsolated(id: Identity, key: string, scope: int, tenantID: int)
    requires Target(id, key, scope, tenantID).Some?
    ensures var k := Target(id, key, scope, tenantID).value;
      if id.isPlatform then k.scope == SCOPE_GLOBAL && k.tenantID == 0
      else k.scope == SCOPE_TENANT && k.tenantID == id.tenantID > 0
  {
  }

  /** Which row a request addresses: the one with its trimmed key, in its identity's own scope; or none. */
  lemma TargetIff(id: Identity, key: string, scope: int, tenantID: int, k: ConfigKey)
    ensures Target(id, key, scope, tenantID) == Some(k) <==>
      && TrimSpace(key) != "" && k.key == TrimSpace(key)
      && if id.isPlatform then scope == k.scope == SCOPE_GLOBAL && tenantID == k.tenantID == 0
         else k.scope == SCOPE_TENANT && k.tenantID == id.tenantID > 0
  {
    hide TrimSpace;
  }

  /** Two requests that are not refused address one row exactly when keys, scopes and tenants agree. */
  lemma TargetsEqualIff(id1: Identity, key1: string, s1: int, t1: int, id2: Identity, key2: string, s2: int, t2: int)
    requires Target(id1, key1, s1, t1).Some? && Target(id2, key2, s2, t2).Some?
    ensures Target(id1, key1, s1, t1) == Target(id2, key2, s2, t2) <==>
      && TrimSpace(key1) == TrimSpace(key2) && id1.isPlatform == id2.isPlatform
      && (!id1.isPlatform ==> id1.tenantID == id2.tenantID)
  {
    hide TrimSpace;
  }

  /** A transaction on one row leaves the value and the history of every other alone. */
  lemma OtherKeysUntouched(db: Store, op: Op, other: ConfigKey)
    requires WellKept(db) && other != op.key
    ensures Held(Apply(db, op), other) == Held(db, other) && History(Apply(db, op), other) == History(db, other)
    ensures other in Apply(db, op).configs <==> other in db.configs
    ensures other in db.configs ==> Apply(db, op).configs[other] == db.configs[other]
  {
    hide LogsOf, Encodable, Apply, WellKept;
    var row, log := StepShape(db, op);
    if Apply(db, op) != db { CommitHistory(db, Apply(db, op), op.key, row, log, other); }
  }

  /** Every row but the target holds what it held, with the history it had. */
  ghost predicate OthersKept(before: Store, after: Store, target: Option<ConfigKey>) {
    forall k :: target != Some(k) ==> Held(after, k) == Held(before, k) && History(after, k) == History(before, k)
  }

  lemma NothingChanged(db: Store, target: Option<ConfigKey>)
    ensures OthersKept(db, db, target)
  {
  }

  lemma ApplyKeepsOthers(db: Store, op: Op)
    ensures WellKept(db) ==> OthersKept(db, Apply(db, op), Some(op.key))
  {
    hide WellKept, Apply, Held, History;
    if WellKept(db) {
      forall k | k != op.key
        ensures Held(Apply(db, op), k) == Held(db, k) && History(Apply(db, op), k) == History(db, k)
      {
        OtherKeysUntouched(db, op, k);
      }
    }
  }

  /**
   * An update creates a missing row at version 1, and writes one that has the version it names, counting that up.
   * It does nothing in any other case, or if an id is taken or the value cannot be encoded.
   */
  lemma UpdateExact(db: Store, op: Op)
    requires op.Update?
    ensures
      var after := Apply(db, op);
      var possible := LogIDFree(db, op.logID) && Encodable(Obj(op.value));
      if op.key !in db.configs && possible && ConfigIDFree(db, op.configID) then
        after.configs == db.configs[op.key := Config(op.configID, op.value, 1)] && |after.logs| == |db.logs| + 1
      else if op.key in db.configs && possible && db.configs[op.key].version == op.version < MAX_INT32 then
        && after.configs == db.configs[op.key := Config(db.configs[op.key].id, op.value, op.version + 1)]
        && |after.logs| == |db.logs| + 1
      else after == db
  {
    hide Encodable;
  }

  /** A rollback writes the old value of the log it names, if that is its row's and the row has the version named. */
  lemma RollbackExact(db: Store, op: Op, log: ChangeLog)
    requires op.Rollback? && WellKept(db)
    ensures
      var after := Apply(db, op);
      if op.key in db.configs && log in db.logs
         && log.id == op.changeLogID && log.configID == db.configs[op.key].id then
        if db.configs[op.key].version == op.version < MAX_INT32 && LogIDFree(db, op.logID) then
          && after.configs == db.configs[op.key := Config(log.configID, log.oldValue, op.version + 1)]
          && |after.logs| == |db.logs| + 1
        else after == db
      else
        op.key !in db.configs
        || (forall l :: l in db.logs ==> l.id != op.changeLogID || l.configID != db.configs[op.key].id)
        ==> after == db
  {
    hide Encodable;
    if op.key in db.configs {
      var found := FindLog(db.logs, op.changeLogID, db.configs[op.key].id);
      if found.Some? && log in db.logs && log.id == op.changeLogID {
        var i :| 0 <= i < |db.logs| && db.logs[i] == log;
        var j :| 0 <= j < |db.logs| && db.logs[j] == found.value;
        assert i == j;
      }
    }
  }

  class Service {
    var db: Store

    constructor ()
      ensures db == EMPTY
    {
      db := EMPTY;
    }

    /**
     * UpdateConfig for an authorised identity. protect is the encryption of credential fields; storeFails and
     * auditFails say whether the transaction and the audit write after it go wrong.
     */
    method UpdateConfig(
        id: Identity, key: string, scope: int, tenantID: int, value: Option<Value>, version: int,
        protect: Value -> Option<Value>, configID: int, logID: int, storeFails: bool, auditFails: bool)
      returns (r: Outcome)
      modifies this
      ensures
        var target := Target(id, key, scope, tenantID);
        if target.None? || value.None? || protect(value.value).None? || storeFails then
          db == old(db) && r in {Invalid, StoreFailed}
        else db == Apply(old(db), Update(target.value, protect(value.value).value, version, configID, logID))
      ensures db != old(db) <==> r.Done? || r.AuditFailed?
      ensures db != old(db) ==>
        var k := Target(id, key, scope, tenantID).value;
        && k in db.configs && db.configs[k].value == protect(value.value).value
        && r == if auditFails then AuditFailed else Done(db.configs[k].value)
      ensures r.Conflict? ==> Target(id, key, scope, tenantID).value in db.configs
      ensures WellKept(old(db)) ==> OthersKept(old(db), db, Target(id, key, scope, tenantID))
      ensures Chain(old(db)) ==> Chain(db)
    {
      hide TrimSpace, OthersKept, Encodable, FindLog, LogIDFree;
      NothingChanged(db, Target(id, key, scope, tenantID));
      var target := Target(id, key, scope, tenantID);
      if target.None? || value.None? {
        return Invalid;
      }
      var protected := protect(value.value);
      if protected.None? {
        return Invalid;
      }
      if storeFails {
        return StoreFailed;
      }
      var k := target.value;
      if Chain(db) { StepKeepsChain(db, Update(k, protected.value, version, configID, logID)); }
      ApplyKeepsOthers(db, Update(k, protected.value, version, configID, logID));
      hide Chain, WellKept;
      if k !in db.configs {
        var clash := exists c :: c in db.configs && db.configs[c].id == configID;
        if clash || !LogIDFree(db, logID) || !Encodable(Obj(protected.value)) {
          return Invalid;
        }
        db := Store(
          db.configs[k := Config(configID, protected.value, 1)],
          db.logs + [ChangeLog(logID, configID, map[], protected.value)]);
      } else {
        var changed := CommitChange(k, protected.value, version, logID);
        if !changed {
          return Conflict;
        }
      }
      r := if auditFails then AuditFailed else Done(db.configs[k].value);
    }

    /** The update and its log entry, in one transaction. */
    method CommitChange(k: ConfigKey, value: Value, version: int, logID: int) returns (changed: bool)
      requires k in db.configs
      modifies this
      ensures db == Change(old(db), k, value, version, logID)
      ensures changed <==> db != old(db)
      ensures changed ==> k in db.configs && db.configs[k].value == value
    {
      var row := db.configs[k];
      if row.version != version || version >= MAX_INT32 || !LogIDFree(db, logID) || !Encodable(Obj(value)) {
        return false;
      }
      assert |db.logs + [ChangeLog(logID, row.id, row.value, value)]| != |db.logs|;
      db := Store(
        db.configs[k := Config(row.id, value, version + 1)], db.logs + [ChangeLog(logID, row.id, row.value, value)]);
      changed := true;
    }

    /** RollbackConfig for an authorised identity. */
    method RollbackConfig(
        id: Identity, key: string, scope: int, tenantID: int, changeLogID: int, version: int, logID: int,
        storeFails: bool, auditFails: bool)
      returns (r: Outcome)
      modifies this
      ensures
        var target := Target(id, key, scope, tenantID);
        if target.None? || changeLogID <= 0 || storeFails then db == old(db) && r in {Invalid, StoreFailed}
        else db == Apply(old(db), Rollback(target.value, changeLogID, version, logID))
      ensures db != old(db) <==> r.Done? || r.AuditFailed?
      ensures db != old(db) ==>
        var k := Target(id, key, scope, tenantID).value;
        k in db.configs && r == if auditFails then AuditFailed else Done(db.configs[k].value)
      ensures r.NotFound? <==>
        var target := Target(id, key, scope, tenantID);
        && target.Some? && changeLogID > 0 && !storeFails
        && (target.value !in old(db).configs
            || FindLog(old(db).logs, changeLogID, old(db).configs[target.value].id).None?)
      ensures WellKept(old(db)) ==> OthersKept(old(db), db, Target(id, key, scope, tenantID))
      ensures Chain(old(db)) ==> Chain(db)
    {
      hide TrimSpace, OthersKept, Encodable, FindLog, LogIDFree;
      NothingChanged(db, Target(id, key, scope, tenantID));
      var target := Target(id, key, scope, tenantID);
      if target.None? || changeLogID <= 0 {
        return Invalid;
      }
      if storeFails {
        return StoreFailed;
      }
      var k := target.value;
      if Chain(db) { StepKeepsChain(db, Rollback(k, changeLogID, version, logID)); }
      ApplyKeepsOthers(db, Rollback(k, changeLogID, version, logID));
      hide Chain, WellKept;
      if k !in db.configs {
        return NotFound;
      }
      var history := FindLog(db.logs, changeLogID, db.configs[k].id);
      if history.None? {
        return NotFound;
      }
      var changed := CommitChange(k, history.value.oldValue, version, logID);
      if !changed {
        return Conflict;
      }
      r := if auditFails then AuditFailed else Done(db.configs[k].value);
    }
  }
}
