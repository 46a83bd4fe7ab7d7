/**
 * Audit exports: request rows, leased transfer tasks, stored artifacts, and any number of worker replicas that may
 * crash between any two statements. Every statement that touches shared state is one action.
 */
module AuditExport {
  import opened Json

  // ---- shared state ----

  datatype Status = Pending | Running | Retrying | Succeeded | Failed

  /**
   * A row of transfer_task. The artifact names the lease token under which it was stored; leaseUntil counts only while
   * the task is running.
   */
  datatype Task = Task(
    status: Status, attempts: nat, maxAttempts: nat, token: Option<nat>, leaseUntil: int, nextAttempt: Option<int>,
    artifact: Option<nat>)

  /** An object name: the task and the lease token that it is derived from. */
  datatype Artifact = Artifact(task: int, token: nat)

  /** Where a worker stands in runAuditExportRequest, with the lease that it holds. */
  datatype Pc =
    | Idle
    | Claiming(task: int)
    | Building(task: int, token: nat)
    | Stored(task: int, token: nat)
    | Cleaning(task: int, token: nat)
    | Failing(task: int, token: nat)
    | Reconciling(task: int)
    | Deferring(task: int, next: Option<int>)
    | Deleting(task: int)

  /** Positive durations from the configuration. */
  datatype Config = Config(poll: int, lease: int, retryDelay: int)

  /**
   * requests maps the task of each request row to its next check. creating holds the tasks whose row is still to be
   * inserted, abandoned those whose creator saw the insert fail. knownTasks, knownTokens and rows remember every task
   * id, lease token and request row there ever was.
   */
  datatype World = World(
    tasks: map<int, Task>, requests: map<int, int>, objects: set<Artifact>, workers: map<int, Pc>, creating: set<int>,
    abandoned: set<int>, knownTasks: set<int>, knownTokens: set<nat>, rows: set<int>)

  const START := World(map[], map[], {}, map[], {}, {}, {}, {}, {})

  function PcOf(w: World, me: int): Pc {
    if me in w.workers then w.workers[me] else Idle
  }

  function At(w: World, me: int, pc: Pc): World {
    w.(workers := w.workers[me := pc])
  }

  // ---- actions ----

  /** A database call is answered, or takes effect but returns an error, or fails without effect. */
  datatype Reply = Answered | Lost | Down

  /**
   * ok and stored say whether an object storage or database call succeeded and whether it took effect. Times named now
   * are readings of the acting replica's clock. A claim with a token that is not new counts as a failed call.
   */
  datatype Action =
    | NewTask(t: int, maxAttempts: nat)
    | NewRow(t: int, now: int, reply: Reply)
    | Compensate(t: int, deleted: bool)
    | Pick(me: int, t: int)
    | Claim(me: int, now: int, token: nat, reply: Reply)
    | BuildFailed(me: int)
    | Put(me: int, ok: bool, stored: bool)
    | Complete(me: int, now: int, reply: Reply)
    | Clean(me: int, deleted: bool)
    | Fail(me: int, now: int, reply: Reply)
    | Reconcile(me: int, now: int, readable: bool)
    | Defer(me: int, now: int, later: int, ok: bool)
    | Delete(me: int, ok: bool)
    | Crash(me: int)

  /** The WHERE clause of ClaimTransferTask. */
  predicate Claimable(task: Task, now: int) {
    && task.attempts < task.maxAttempts
    && (|| (task.status in {Pending, Retrying} && (task.nextAttempt.None? || task.nextAttempt.value <= now))
        || (task.status == Running && task.leaseUntil <= now))
  }

  /** The WHERE clause of CompleteTransferTask and FailTransferTask. */
  predicate Leased(w: World, t: int, token: nat, now: int) {
    t in w.tasks && w.tasks[t].status == Running && w.tasks[t].token == Some(token) && w.tasks[t].leaseUntil > now
  }

  predicate Terminal(s: Status) {
    s == Succeeded || s == Failed
  }

  function Claimed(task: Task, until: int, token: nat): Task {
    task.(status := Running, attempts := task.attempts + 1, token := Some(token),
         leaseUntil := until, nextAttempt := None)
  }

  function Completed(task: Task, token: nat): Task {
    task.(status := Succeeded, token := None, nextAttempt := None, artifact := Some(token))
  }

  function FailedOnce(task: Task, retryAt: int): Task {
    if task.attempts < task.maxAttempts then task.(status := Retrying, token := None, nextAttempt := Some(retryAt))
    else task.(status := Failed, token := None, nextAttempt := None)
  }

  /** The next check that deferAuditExportRequest stores: what was asked for, if that is still ahead. */
  function NextCheck(c: Config, next: Option<int>, now: int, later: int): int {
    if next.None? || next.value <= now then later + c.poll else next.value
  }

  /** What reconcileAuditExportRequest does about the task it reads. */
  function Reconciled(c: Config, w: World, t: int, now: int): Pc {
    if t !in w.tasks then Deleting(t)
    else match w.tasks[t].status
      case Succeeded => Deleting(t)
      case Failed => Deleting(t)
      case Retrying => Deferring(t, w.tasks[t].nextAttempt)
      case Running => Deferring(t, Some(w.tasks[t].leaseUntil))
      case Pending => Deferring(t, Some(now + c.poll))
  }

  /** One action; an action that is not possible changes nothing. */
  function Next(c: Config, w: World, a: Action): World {
    match a
    case NewTask(t, max) =>
      if t in w.knownTasks || max == 0 then w
      else w.(
        tasks := w.tasks[t := Task(Pending, 0, max, None, 0, None, None)], knownTasks := w.knownTasks + {t},
        creating := w.creating + {t})
    case NewRow(t, now, reply) =>
      if t !in w.creating then w
      else
        var inserted := if reply == Down then w else w.(requests := w.requests[t := now], rows := w.rows + {t});
        inserted.(
          creating := w.creating - {t}, abandoned := if reply == Answered then w.abandoned else w.abandoned + {t})
    case Compensate(t, deleted) =>
      if t !in w.abandoned then w
      else
        var gone := deleted && t in w.tasks && w.tasks[t].status == Pending && w.tasks[t].attempts == 0;
        w.(tasks := if gone then w.tasks - {t} else w.tasks, abandoned := w.abandoned - {t})
    case Pick(me, t) =>
      if PcOf(w, me) == Idle && t in w.rows then At(w, me, Claiming(t)) else w
    case Claim(me, now, token, reply) =>
      if !PcOf(w, me).Claiming? then w
      else
        var t := PcOf(w, me).task;
        if reply == Down || token in w.knownTokens || t !in w.tasks || !Claimable(w.tasks[t], now) then
          At(w, me, Reconciling(t))
        else
          At(w.(tasks := w.tasks[t := Claimed(w.tasks[t], now + c.lease, token)],
                knownTokens := w.knownTokens + {token}),
             me, if reply == Answered then Building(t, token) else Reconciling(t))
    case BuildFailed(me) =>
      if PcOf(w, me).Building? then At(w, me, Failing(PcOf(w, me).task, PcOf(w, me).token)) else w
    case Put(me, ok, stored) =>
      if !PcOf(w, me).Building? then w
      else
        var t, token := PcOf(w, me).task, PcOf(w, me).token;
        At(w.(objects := if ok || stored then w.objects + {Artifact(t, token)} else w.objects), me,
           if ok then Stored(t, token) else Failing(t, token))
    case Complete(me, now, reply) =>
      if !PcOf(w, me).Stored? then w
      else
        var t, token := PcOf(w, me).task, PcOf(w, me).token;
        if reply == Down || !Leased(w, t, token, now) then At(w, me, Cleaning(t, token))
        else
          At(w.(tasks := w.tasks[t := Completed(w.tasks[t], token)]), me,
             if reply == Answered then Deleting(t) else Cleaning(t, token))
    case Clean(me, deleted) =>
      if !PcOf(w, me).Cleaning? then w
      else
        var t, token := PcOf(w, me).task, PcOf(w, me).token;
        At(w.(objects := if deleted then w.objects - {Artifact(t, token)} else w.objects), me, Failing(t, token))
    case Fail(me, now, reply) =>
      if !PcOf(w, me).Failing? then w
      else
        var t, token := PcOf(w, me).task, PcOf(w, me).token;
        if reply == Down || !Leased(w, t, token, now) then At(w, me, Deferring(t, Some(now + c.poll)))
        else
          var task := FailedOnce(w.tasks[t], now + c.retryDelay);
          At(w.(tasks := w.tasks[t := task]), me,
             if reply == Lost then Deferring(t, Some(now + c.poll))
             else if task.status == Failed then Deleting(t) else Deferring(t, task.nextAttempt))
    case Reconcile(me, now, readable) =>
      if !PcOf(w, me).Reconciling? then w
      else
        var t := PcOf(w, me).task;
        At(w, me, if readable then Reconciled(c, w, t, now) else Deferring(t, Some(now + c.poll)))
    case Defer(me, now, later, ok) =>
      if !PcOf(w, me).Deferring? then w
      else
        var t := PcOf(w, me).task;
        At(w.(requests :=
             if ok && t in w.requests then w.requests[t := NextCheck(c, PcOf(w, me).next, now, later)] else w.requests),
           me, Idle)
    case Delete(me, ok) =>
      if !PcOf(w, me).Deleting? then w
      else At(w.(requests := if ok then w.requests - {PcOf(w, me).task} else w.requests), me, Idle)
    case Crash(me) => At(w, me, Idle)
  }

  function Run(c: Config, actions: seq<Action>): World {
    if actions == [] then START else Next(c, Run(c, actions[..|actions| - 1]), actions[|actions| - 1])
  }

  // ---- request rows are safe ----

  /** The task is terminal, or gone for good. */
  ghost predicate Settled(w: World, t: int) {
    t in w.knownTasks && (t !in w.tasks || Terminal(w.tasks[t].status))
  }

  /** Whatever the shared state refers to is known. */
  ghost predicate Known(w: World) {
    && w.tasks.Keys <= w.knownTasks && w.rows <= w.knownTasks && w.creating <= w.knownTasks && w.creating !! w.rows
    && (forall t :: t in w.tasks && w.tasks[t].status != Pending ==> t in w.rows)
    && w.requests.Keys <= w.rows
    && (forall me :: me in w.workers && w.workers[me] != Idle ==> w.workers[me].task in w.rows)
    && (forall t :: t in w.tasks ==> w.tasks[t].attempts <= w.tasks[t].maxAttempts)
  }

  ghost predicate RowsSafe(w: World) {
    && Known(w)
    && (forall me :: me in w.workers && w.workers[me].Deleting? ==> Settled(w, w.workers[me].task))
    && (forall t :: t in w.rows ==> t in w.requests || Settled(w, t))
  }

  /** A settled task stays settled: ids are not used again and a terminal status is final. */
  lemma SettledStays(c: Config, w: World, a: Action, t: int)
    requires Settled(w, t)
    ensures Settled(Next(c, w, a), t)
    ensures t in w.tasks && Terminal(w.tasks[t].status) ==>
      t in Next(c, w, a).tasks && Next(c, w, a).tasks[t] == w.tasks[t]
  {
  }

  lemma StepKnown(c: Config, w: World, a: Action)
    requires Known(w)
    ensures Known(Next(c, w, a))
  {
  }

  /** A worker comes to delete a row only when the task is settled. */
  lemma StepDeleting(c: Config, w: World, a: Action, me: int)
    requires RowsSafe(w) && PcOf(Next(c, w, a), me).Deleting?
    ensures PcOf(w, me) == PcOf(Next(c, w, a), me) || Settled(Next(c, w, a), PcOf(Next(c, w, a), me).task)
  {
  }

  /** A row that was there is kept, or its task is settled. */
  lemma StepRow(c: Config, w: World, a: Action, t: int)
    requires RowsSafe(w) && t in Next(c, w, a).rows
    ensures t in Next(c, w, a).requests || Settled(w, t)
  {
  }

  lemma StepRowsSafe(c: Config, w: World, a: Action)
    requires RowsSafe(w)
    ensures RowsSafe(Next(c, w, a))
  {
    hide Next, Settled;
    StepKnown(c, w, a);
    var v := Next(c, w, a);
    forall me | me in v.workers && v.workers[me].Deleting? ensures Settled(v, v.workers[me].task) {
      StepDeleting(c, w, a, me);
      if Settled(w, v.workers[me].task) { SettledStays(c, w, a, v.workers[me].task); }
    }
    forall t | t in v.rows ensures t in v.requests || Settled(v, t) {
      StepRow(c, w, a, t);
      if Settled(w, t) { SettledStays(c, w, a, t); }
    }
  }

  lemma {:induction false} RunRowsSafe(c: Config, actions: seq<Action>)
    ensures RowsSafe(Run(c, actions))
    decreases |actions|
  {
    if actions != [] {
      RunRowsSafe(c, actions[..|actions| - 1]);
      StepRowsSafe(c, Run(c, actions[..|actions| - 1]), actions[|actions| - 1]);
    }
  }

  /** A request row disappears only when its task is terminal or gone, and only its creation ever adds one. */
  lemma RowRemovedOnlyWhenSettled(c: Config, actions: seq<Action>, a: Action, t: int)
    requires t in Run(c, actions).requests && t !in Next(c, Run(c, actions), a).requests
    ensures a.Delete? && Settled(Run(c, actions), t)
  {
    RunRowsSafe(c, actions);
  }

  lemma RowsComeFromCreation(c: Config, w: World, a: Action, t: int)
    requires t !in w.requests && t in Next(c, w, a).requests
    ensures a.NewRow? && a.t == t && t in w.creating
  {
  }

  /** A row that was created is there until its task is settled, in every reachable state. */
  lemma UnfinishedWorkHasRow(c: Config, actions: seq<Action>, t: int)
    requires t in Run(c, actions).rows && t in Run(c, actions).tasks && !Terminal(Run(c, actions).tasks[t].status)
    ensures t in Run(c, actions).requests
  {
    RunRowsSafe(c, actions);
  }

  /** Every deferral that is stored lies strictly ahead of the reading it was compared with. */
  lemma DeferralIsAhead(c: Config, w: World, a: Action)
    requires c.poll > 0 && a.Defer? && a.ok && a.now <= a.later
    requires PcOf(w, a.me).Deferring? && PcOf(w, a.me).task in w.requests
    ensures Next(c, w, a).requests[PcOf(w, a.me).task] > a.now
  {
  }

  // ---- artifacts are safe ----

  predicate HoldsLease(pc: Pc) {
    pc.Building? || pc.Stored? || pc.Cleaning? || pc.Failing?
  }

  predicate SameLease(a: Pc, b: Pc) {
    HoldsLease(a) && HoldsLease(b) && a.token == b.token
  }

  /** Tokens are new when claimed, and held by one worker. Who holds the token of a task's artifact is giving up. */
  ghost predicate Leases(w: World) {
    && (forall me :: me in w.workers && HoldsLease(w.workers[me]) ==> w.workers[me].token in w.knownTokens)
    && (forall me, you :: me in w.workers && you in w.workers && me != you ==>
          !SameLease(w.workers[me], w.workers[you]))
    && (forall t :: t in w.tasks ==> (w.tasks[t].status == Succeeded <==> w.tasks[t].artifact.Some?))
    && (forall t :: t in w.tasks && w.tasks[t].artifact.Some? ==> w.tasks[t].artifact.value in w.knownTokens)
    && (forall me, t :: me in w.workers && HoldsLease(w.workers[me]) && t in w.tasks ==>
          w.tasks[t].artifact == Some(w.workers[me].token) ==> GivesUp(w.workers[me]) && w.workers[me].task == t)
    && (forall me :: me in w.workers && w.workers[me].Stored? ==>
          Artifact(w.workers[me].task, w.workers[me].token) in w.objects)
  }

  predicate GivesUp(pc: Pc) {
    pc.Cleaning? || pc.Failing?
  }

  /** Tasks change without becoming succeeded and without a new artifact. */
  lemma TasksLeases(w: World, v: World)
    requires Leases(w)
    requires v.objects == w.objects && v.workers == w.workers && v.knownTokens == w.knownTokens
    requires forall t :: t in v.tasks ==>
      if v.tasks[t].status == Succeeded then t in w.tasks && w.tasks[t] == v.tasks[t] else v.tasks[t].artifact.None?
    ensures Leases(v)
  {
  }

  lemma ClaimLeases(c: Config, w: World, a: Action)
    requires Leases(w) && a.Claim?
    ensures Leases(Next(c, w, a))
  {
  }

  lemma CompleteLeases(c: Config, w: World, a: Action)
    requires Leases(w) && a.Complete?
    ensures Leases(Next(c, w, a))
  {
  }

  lemma CleanLeases(c: Config, w: World, a: Action)
    requires Leases(w) && a.Clean?
    ensures Leases(Next(c, w, a))
  {
  }

  lemma PutLeases(c: Config, w: World, a: Action)
    requires Leases(w) && a.Put?
    ensures Leases(Next(c, w, a))
  {
  }

  lemma FailLeases(c: Config, w: World, a: Action)
    requires Leases(w) && a.Fail?
    ensures Leases(Next(c, w, a))
  {
  }

  lemma OnlyMoves(w: World, v: World, me: int)
    requires Leases(w)
    requires v.tasks == w.tasks && v.objects == w.objects && v.knownTokens == w.knownTokens
    requires v.workers == w.workers || (me in v.workers && v.workers == w.workers[me := v.workers[me]])
    requires me in v.workers && HoldsLease(v.workers[me]) ==>
      v.workers[me] == PcOf(w, me)
      || (v.workers[me].Failing? && SameLease(v.workers[me], PcOf(w, me)) && v.workers[me].task == PcOf(w, me).task)
    ensures Leases(v)
  {
  }

  lemma StepLeases(c: Config, w: World, a: Action)
    requires Leases(w)
    ensures Leases(Next(c, w, a))
  {
    hide Leases;
    var v := Next(c, w, a);
    match a
    case NewTask(_, _) => NewTaskLeases(c, w, a);
    case NewRow(_, _, _) => NewTaskLeases(c, w, a);
    case Compensate(_, _) => NewTaskLeases(c, w, a);
    case Claim(_, _, _, _) => ClaimLeases(c, w, a);
    case Complete(_, _, _) => CompleteLeases(c, w, a);
    case Clean(_, _) => CleanLeases(c, w, a);
    case Put(_, _, _) => PutLeases(c, w, a);
    case Fail(_, _, _) => FailLeases(c, w, a);
    case _ => OnlyMoves(w, v, a.me);
  }

  lemma NewTaskLeases(c: Config, w: World, a: Action)
    requires Leases(w) && (a.NewTask? || a.NewRow? || a.Compensate?)
    ensures Leases(Next(c, w, a))
  {
    TasksLeases(w, Next(c, w, a));
  }

  lemma {:induction false} RunLeases(c: Config, actions: seq<Action>)
    ensures Leases(Run(c, actions))
    decreases |actions|
  {
    if actions != [] {
      RunLeases(c, actions[..|actions| - 1]);
      StepLeases(c, Run(c, actions[..|actions| - 1]), actions[|actions| - 1]);
    }
  }

  ghost predicate Succeeds(w: World, t: int, token: nat) {
    t in w.tasks && w.tasks[t].status == Succeeded && w.tasks[t].artifact == Some(token)
  }

  /** This action is the cleanup, by the worker that made it, of the artifact with this token. */
  predicate CleansUp(w: World, a: Action, t: int, token: nat) {
    a.Clean? && a.deleted && PcOf(w, a.me) == Cleaning(t, token)
  }

  /** An artifact of a succeeded task is gone after a step iff it was gone before, or this step is its cleanup. */
  lemma StepLosesIff(c: Config, w: World, a: Action, t: int, token: nat)
    requires Leases(w) && Succeeds(w, t, token)
    ensures Artifact(t, token) !in Next(c, w, a).objects <==>
      Artifact(t, token) !in w.objects || CleansUp(w, a, t, token)
  {
  }

  /** Only the completion of a stored artifact makes a task succeed. */
  lemma StepSucceeds(c: Config, w: World, a: Action, t: int, token: nat)
    requires Leases(w) && !Succeeds(w, t, token) && Succeeds(Next(c, w, a), t, token)
    ensures a.Complete? && PcOf(w, a.me) == Stored(t, token) && Artifact(t, token) in Next(c, w, a).objects
    ensures PcOf(Next(c, w, a), a.me) == if a.reply == Lost then Cleaning(t, token) else Deleting(t)
  {
  }

  /** A worker keeps its lease, or has a new one. */
  lemma StepHolder(c: Config, w: World, a: Action, me: int)
    requires HoldsLease(PcOf(Next(c, w, a), me))
    ensures SameLease(PcOf(w, me), PcOf(Next(c, w, a), me)) || PcOf(Next(c, w, a), me).token !in w.knownTokens
    ensures PcOf(Next(c, w, a), me).Cleaning? ==>
      var pc := PcOf(Next(c, w, a), me);
      PcOf(w, me) == pc || PcOf(w, me) == Stored(pc.task, pc.token)
  {
  }

  /** The token has come to a worker that gives up, or to nobody. */
  ghost predicate Spent(w: World, token: nat) {
    token in w.knownTokens
    && forall me :: me in w.workers && HoldsLease(w.workers[me]) && w.workers[me].token == token ==>
        GivesUp(w.workers[me])
  }

  lemma StepSpent(c: Config, w: World, a: Action, token: nat)
    requires Spent(w, token)
    ensures Spent(Next(c, w, a), token)
    ensures forall t :: Succeeds(Next(c, w, a), t, token) ==> Succeeds(w, t, token)
  {
  }

  lemma {:induction false} SpentStays(c: Config, actions: seq<Action>, i: nat, token: nat)
    requires i <= |actions| && Spent(Run(c, actions[..i]), token)
    ensures Spent(Run(c, actions), token)
    ensures forall t :: Succeeds(Run(c, actions), t, token) ==> Succeeds(Run(c, actions[..i]), t, token)
    decreases |actions|
  {
    hide Next, Spent, Succeeds;
    if i == |actions| {
      assert actions[..i] == actions;
    } else {
      var init := actions[..|actions| - 1];
      assert init[..i] == actions[..i];
      SpentStays(c, init, i, token);
      StepSpent(c, Run(c, init), actions[|actions| - 1], token);
    }
  }

  /** At this point of the run a worker cleans up the artifact with this token. */
  ghost predicate CleanedAt(c: Config, actions: seq<Action>, i: int, t: int, token: nat) {
    0 <= i < |actions| && CleansUp(Run(c, actions[..i]), actions[i], t, token)
  }

  /**
   * In every run, with answers lost and crashes anywhere, the artifact of a succeeded task is missing from storage
   * exactly when the worker that stored it has cleaned it up.
   */
  lemma {:induction false} ArtifactMissingIff(c: Config, actions: seq<Action>, t: int, token: nat)
    requires Succeeds(Run(c, actions), t, token)
    ensures Artifact(t, token) !in Run(c, actions).objects <==> exists i :: CleanedAt(c, actions, i, t, token)
    decreases |actions|
  {
    hide Next, Leases;
    var init, a := actions[..|actions| - 1], actions[|actions| - 1];
    var w := Run(c, init);
    RunLeases(c, init);
    assert forall i :: 0 <= i <= |init| ==> init[..i] == actions[..i];
    assert forall i :: 0 <= i < |init| ==> (CleanedAt(c, actions, i, t, token) <==> CleanedAt(c, init, i, t, token));
    assert CleanedAt(c, actions, |init|, t, token) <==> CleansUp(w, a, t, token);
    if Succeeds(w, t, token) {
      ArtifactMissingIff(c, init, t, token);
      StepLosesIff(c, w, a, t, token);
    } else {
      StepSucceeds(c, w, a, t, token);
      if i :| CleanedAt(c, actions, i, t, token) {
        assert i < |init|;
        RunLeases(c, init[..i]);
        CleaningIsSpent(Run(c, init[..i]), actions[i].me);
        SpentStays(c, init, i, token);
        assert false;
      }
    }
  }

  lemma CleaningIsSpent(w: World, me: int)
    requires Leases(w) && PcOf(w, me).Cleaning?
    ensures Spent(w, PcOf(w, me).token)
  {
  }

  /** At this point of the run this worker's completion is committed, and it does not learn of it. */
  ghost predicate LostAt(c: Config, actions: seq<Action>, j: int, me: int, t: int, token: nat) {
    && 0 <= j < |actions| && actions[j].Complete? && actions[j].me == me && actions[j].reply == Lost
    && PcOf(Run(c, actions[..j]), me) == Stored(t, token)
  }

  /** A worker is about to clean up the artifact of a succeeded task only after its own completion was lost. */
  lemma {:induction false} CleanupComesFromLost(c: Config, actions: seq<Action>, me: int, t: int, token: nat)
    returns (j: int)
    requires PcOf(Run(c, actions), me) == Cleaning(t, token) && Succeeds(Run(c, actions), t, token)
    ensures LostAt(c, actions, j, me, t, token)
    decreases |actions|
  {
    hide Next, Leases;
    var init, a := actions[..|actions| - 1], actions[|actions| - 1];
    assert forall i :: 0 <= i <= |init| ==> init[..i] == actions[..i];
    RunLeases(c, init);
    if PcOf(Run(c, init), me) == Cleaning(t, token) && Succeeds(Run(c, init), t, token) {
      j := CleanupComesFromLost(c, init, me, t, token);
    } else {
      StepToCleanup(c, Run(c, init), a, me, t, token);
      j := |init|;
    }
  }

  lemma StepToCleanup(c: Config, w: World, a: Action, me: int, t: int, token: nat)
    requires Leases(w) && PcOf(Next(c, w, a), me) == Cleaning(t, token) && Succeeds(Next(c, w, a), t, token)
    requires !(PcOf(w, me) == Cleaning(t, token) && Succeeds(w, t, token))
    ensures a.Complete? && a.me == me && a.reply == Lost && PcOf(w, me) == Stored(t, token)
  {
    hide Next;
    StepHolder(c, w, a, me);
    if !Succeeds(w, t, token) {
      StepSucceeds(c, w, a, t, token);
      assert SameLease(PcOf(w, me), PcOf(w, a.me));
    }
  }

  /** So an artifact of a succeeded task is missing only if its worker's completion was lost before the cleanup. */
  lemma {:induction false} MissingComesFromLost(c: Config, actions: seq<Action>, t: int, token: nat)
    returns (me: int, j: int, i: int)
    requires Succeeds(Run(c, actions), t, token) && Artifact(t, token) !in Run(c, actions).objects
    ensures j < i && LostAt(c, actions, j, me, t, token) && CleanedAt(c, actions, i, t, token) && actions[i].me == me
  {
    hide Next, Leases, Spent;
    ArtifactMissingIff(c, actions, t, token);
    i :| CleanedAt(c, actions, i, t, token);
    me := actions[i].me;
    var before := actions[..i];
    RunLeases(c, before);
    CleaningIsSpent(Run(c, before), me);
    SpentStays(c, actions, i, token);
    j := CleanupComesFromLost(c, before, me, t, token);
    assert before[..j] == actions[..j];
  }

  /** The database's answer to a completion is never lost: an error means that nothing was committed. */
  predicate Acknowledged(a: Action) {
    a.Complete? ==> a.reply != Lost
  }

  ghost predicate ArtifactsSafe(w: World) {
    && Leases(w)
    && (forall me, t :: me in w.workers && HoldsLease(w.workers[me]) && t in w.tasks ==>
          w.tasks[t].artifact != Some(w.workers[me].token))
    && (forall t :: t in w.tasks && w.tasks[t].status == Succeeded ==>
          w.tasks[t].artifact.Some? && Artifact(t, w.tasks[t].artifact.value) in w.objects)
  }

  lemma StepArtifactsSafe(c: Config, w: World, a: Action)
    requires ArtifactsSafe(w) && Acknowledged(a)
    ensures ArtifactsSafe(Next(c, w, a))
  {
    StepLeases(c, w, a);
    var v := Next(c, w, a);
    forall me, t | me in v.workers && HoldsLease(v.workers[me]) && t in v.tasks
      ensures v.tasks[t].artifact != Some(v.workers[me].token)
    {
      NoHolder(c, w, a, me, t);
    }
    forall t | t in v.tasks && v.tasks[t].status == Succeeded
      ensures Artifact(t, v.tasks[t].artifact.value) in v.objects {
      var token := v.tasks[t].artifact.value;
      hide Next;
      if Succeeds(w, t, token) { StepLosesIff(c, w, a, t, token); } else { StepSucceeds(c, w, a, t, token); }
    }
  }

  lemma NoHolder(c: Config, w: World, a: Action, me: int, t: int)
    requires ArtifactsSafe(w) && Acknowledged(a)
    requires me in Next(c, w, a).workers && HoldsLease(Next(c, w, a).workers[me]) && t in Next(c, w, a).tasks
    ensures Next(c, w, a).tasks[t].artifact != Some(Next(c, w, a).workers[me].token)
  {
    StepLeases(c, w, a);
    hide Next;
    var v := Next(c, w, a);
    var token := v.workers[me].token;
    StepHolder(c, w, a, me);
    if v.tasks[t].artifact == Some(token) && !Succeeds(w, t, token) {
      StepSucceeds(c, w, a, t, token);
      assert false;
    }
  }

  lemma {:induction false} RunArtifactsSafe(c: Config, actions: seq<Action>)
    requires forall i :: 0 <= i < |actions| ==> Acknowledged(actions[i])
    ensures ArtifactsSafe(Run(c, actions))
    decreases |actions|
  {
    if actions != [] {
      RunArtifactsSafe(c, actions[..|actions| - 1]);
      StepArtifactsSafe(c, Run(c, actions[..|actions| - 1]), actions[|actions| - 1]);
    }
  }

  lemma RunAppend(c: Config, actions: seq<Action>, a: Action)
    ensures Run(c, actions + [a]) == Next(c, Run(c, actions), a)
  {
  }

  /** Once a task has succeeded its status and artifact never change, and the object stays in storage for good. */
  lemma {:induction false} ArtifactForever(c: Config, actions: seq<Action>, more: seq<Action>, t: int)
    requires forall i :: 0 <= i < |actions| ==> Acknowledged(actions[i])
    requires forall i :: 0 <= i < |more| ==> Acknowledged(more[i])
    requires t in Run(c, actions).tasks && Run(c, actions).tasks[t].status == Succeeded
    ensures var w := Run(c, actions + more);
      && t in w.tasks && w.tasks[t] == Run(c, actions).tasks[t]
      && w.tasks[t].artifact.Some? && Artifact(t, w.tasks[t].artifact.value) in w.objects
    decreases |more|
  {
    hide Next;
    RunArtifactsSafe(c, actions + more);
    if more == [] {
      assert actions + more == actions;
    } else {
      var init, last := more[..|more| - 1], more[|more| - 1];
      ArtifactForever(c, actions, init, t);
      RunAppend(c, actions + init, last);
      assert actions + init + [last] == actions + more;
      RunRowsSafe(c, actions + init);
      SettledStays(c, Run(c, actions + init), last, t);
    }
  }

  /**
   * The assumption is needed. If the database commits a completion but the worker sees an error, the worker's cleanup
   * deletes the artifact of a succeeded task.
   */
  lemma LostAcknowledgementBreaks(c: Config) returns (actions: seq<Action>)
    requires c.lease > 0
    ensures var w := Run(c, actions);
      && 1 in w.tasks && w.tasks[1].status == Succeeded && w.tasks[1].artifact == Some(0)
      && Artifact(1, 0) !in w.objects
  {
    actions := ClaimedOnce();
    ClaimedOnceWorld(c);
    var w := Run(c, actions);
    var put, complete, clean := Put(7, true, true), Complete(7, 0, Lost), Clean(7, true);
    RunAppend(c, actions, put);
    RunAppend(c, actions + [put], complete);
    RunAppend(c, actions + [put] + [complete], clean);
    actions := actions + [put] + [complete] + [clean];
  }

  /** A task with one attempt, its row, and worker 7 holding its lease. */
  function ClaimedOnce(): seq<Action> {
    [NewTask(1, 1), NewRow(1, 0, Answered), Pick(7, 1), Claim(7, 0, 0, Answered)]
  }

  lemma ClaimedOnceWorld(c: Config)
    ensures var w := Run(c, ClaimedOnce());
      && 1 in w.tasks && w.tasks[1] == Task(Running, 1, 1, Some(0), c.lease, None, None)
      && 1 in w.requests && w.objects == {} && w.workers.Keys == {7} && w.workers[7] == Building(1, 0)
  {
    hide Next, Run;
    var a, b, d, e := NewTask(1, 1), NewRow(1, 0, Answered), Pick(7, 1), Claim(7, 0, 0, Answered);
    RunAppend(c, [], a);
    RunAppend(c, [a], b);
    RunAppend(c, [a, b], d);
    RunAppend(c, [a, b, d], e);
    assert [] + [a] == [a] && [a] + [b] == [a, b] && [a, b] + [d] == [a, b, d] && [a, b, d] + [e] == ClaimedOnce();
    EmptyRun(c);
    var w1, w2, w3 := Run(c, [a]), Run(c, [a, b]), Run(c, [a, b, d]);
    FirstTask(c, START);
    FirstRow(c, w1);
    FirstPick(c, w2);
    FirstClaim(c, w3);
  }

  lemma EmptyRun(c: Config)
    ensures Run(c, []) == START
  {
  }

  lemma FirstTask(c: Config, w: World)
    requires w == START
    ensures Next(c, w, NewTask(1, 1)) ==
      w.(tasks := map[1 := Task(Pending, 0, 1, None, 0, None, None)], knownTasks := {1}, creating := {1})
  {
  }

  lemma FirstRow(c: Config, w: World)
    requires w.creating == {1} && w.requests == map[]
    ensures Next(c, w, NewRow(1, 0, Answered)) == w.(requests := map[1 := 0], rows := w.rows + {1}, creating := {})
  {
  }

  lemma FirstPick(c: Config, w: World)
    requires w.rows == {1} && w.workers == map[]
    ensures Next(c, w, Pick(7, 1)) == w.(workers := map[7 := Claiming(1)])
  {
  }

  lemma FirstClaim(c: Config, w: World)
    requires w.workers == map[7 := Claiming(1)] && w.knownTokens == {}
    requires w.tasks == map[1 := Task(Pending, 0, 1, None, 0, None, None)]
    ensures Next(c, w, Claim(7, 0, 0, Answered)) == w.(
      tasks := map[1 := Task(Running, 1, 1, Some(0), c.lease, None, None)], knownTokens := {0},
      workers := map[7 := Building(1, 0)])
  {
  }

  // ---- exhausted tasks ----

  /** The last attempt is running, or was when its worker crashed. */
  ghost predicate Exhausted(w: World, t: int) {
    t in w.tasks && w.tasks[t].status == Running && w.tasks[t].attempts == w.tasks[t].maxAttempts
  }

  /** The action reads a clock only at or after this time. */
  predicate Late(a: Action, time: int) {
    match a
    case Claim(_, now, _, _) => now >= time
    case Complete(_, now, _) => now >= time
    case Fail(_, now, _) => now >= time
    case _ => true
  }

  /**
   * ClaimTransferTask also contains an update that fails exhausted tasks, but a claim that matches no row is an error,
   * and runTx rolls the transaction back. So an exhausted task whose lease has expired keeps running for ever, and its
   * request row is checked for ever.
   */
  lemma {:induction false} ExhaustedForever(c: Config, actions: seq<Action>, more: seq<Action>, t: int)
    requires Exhausted(Run(c, actions), t)
    requires forall i :: 0 <= i < |more| ==> Late(more[i], Run(c, actions).tasks[t].leaseUntil)
    ensures var w := Run(c, actions + more);
      && t in w.tasks && w.tasks[t] == Run(c, actions).tasks[t]
      && (t in Run(c, actions).requests ==> t in w.requests)
    decreases |more|
  {
    hide Next;
    if more == [] {
      assert actions + more == actions;
    } else {
      var init, last := more[..|more| - 1], more[|more| - 1];
      ExhaustedForever(c, actions, init, t);
      RunAppend(c, actions + init, last);
      assert actions + init + [last] == actions + more;
      RunRowsSafe(c, actions + init);
      ExhaustedStays(c, Run(c, actions + init), last, t);
    }
  }

  lemma ExhaustedStays(c: Config, w: World, a: Action, t: int)
    requires RowsSafe(w) && Exhausted(w, t) && Late(a, w.tasks[t].leaseUntil)
    ensures t in Next(c, w, a).tasks && Next(c, w, a).tasks[t] == w.tasks[t]
    ensures t in w.requests ==> t in Next(c, w, a).requests
  {
  }

  /** Such a state is reached by one crash during the last attempt. */
  lemma ExhaustedIsReachable(c: Config) returns (actions: seq<Action>)
    ensures var w := Run(c, actions);
      Exhausted(w, 1) && 1 in w.requests && w.workers.Keys == {7} && w.workers[7] == Idle
  {
    ClaimedOnceWorld(c);
    RunAppend(c, ClaimedOnce(), Crash(7));
    actions := ClaimedOnce() + [Crash(7)];
  }

  /** The run can go on so that the task moves, with every claim, completion and failure after the end of its lease. */
  ghost predicate Moves(c: Config, actions: seq<Action>, more: seq<Action>, t: int)
    requires t in Run(c, actions).tasks
  {
    var task := Run(c, actions).tasks[t];
    && (forall i :: 0 <= i < |more| ==> Late(more[i], task.leaseUntil))
    && !(t in Run(c, actions + more).tasks && Run(c, actions + more).tasks[t] == task)
  }

  /** After its lease has expired, a running task can move on in some continuation exactly when attempts are left. */
  lemma ExpiredLeaseTakenOverIff(c: Config, actions: seq<Action>, t: int)
    requires t in Run(c, actions).tasks && Run(c, actions).tasks[t].status == Running
    ensures (exists more :: Moves(c, actions, more, t)) <==>
      Run(c, actions).tasks[t].attempts < Run(c, actions).tasks[t].maxAttempts
  {
    var w := Run(c, actions);
    var task := w.tasks[t];
    RunRowsSafe(c, actions);
    if task.attempts < task.maxAttempts {
      var me := Above(w.workers.Keys);
      var token := Above(w.knownTokens);
      var pick, claim := Pick(me, t), Claim(me, task.leaseUntil, token, Answered);
      RunAppend(c, actions, pick);
      RunAppend(c, actions + [pick], claim);
      assert actions + [pick] + [claim] == actions + [pick, claim];
      assert Next(c, Next(c, w, pick), claim).tasks[t].attempts == task.attempts + 1;
      assert Moves(c, actions, [pick, claim], t);
    } else if more :| Moves(c, actions, more, t) {
      ExhaustedForever(c, actions, more, t);
    }
  }

  /** A number that a finite set does not have. */
  lemma {:induction false} Above(s: set<int>) returns (n: nat)
    ensures forall x :: x in s ==> x < n
    decreases |s|
  {
    n := 0;
    if x :| x in s {
      n := Above(s - {x});
      assert forall y :: y in s ==> y == x || y in s - {x};
      if x >= n { n := x + 1; }
    }
  }

  // ---- the worker, statement by statement ----

  /** The worker that takes an action. */
  function Actor(a: Action): Option<int> {
    match a
    case NewTask(_, _) => None
    case NewRow(_, _, _) => None
    case Compensate(_, _) => None
    case _ => Some(a.me)
  }

  lemma OthersKeepPc(c: Config, w: World, a: Action, me: int)
    requires Actor(a) != Some(me)
    ensures PcOf(Next(c, w, a), me) == PcOf(w, me)
  {
  }

  /** The run went on without a crash of this worker. */
  ghost predicate Alive(before: seq<Action>, after: seq<Action>, me: int) {
    before <= after && forall i :: |before| <= i < |after| ==> after[i] != Crash(me)
  }

  /**
   * A worker that has a request in hand and does not crash comes to rest in one way only: it attempts to delete the row
   * of a settled task, or to put off the next check of the row.
   */
  lemma {:induction false} RestMeansHandled(c: Config, before: seq<Action>, after: seq<Action>, me: int)
    returns (i: nat)
    requires Alive(before, after, me) && PcOf(Run(c, before), me) != Idle && PcOf(Run(c, after), me) == Idle
    ensures |before| <= i < |after| && PcOf(Run(c, after[..i]), me) != Idle
    ensures
      var w, t := Run(c, after[..i]), PcOf(Run(c, before), me).task;
      || (after[i].Delete? && after[i].me == me && PcOf(w, me) == Deleting(t) && Settled(w, t))
      || (after[i].Defer? && after[i].me == me && PcOf(w, me).Deferring? && PcOf(w, me).task == t)
    decreases |after| - |before|
  {
    hide Next;
    assert after[..|after|] == after && after[..|before|] == before;
    i := |before|;
    var a, next := after[i], after[..i + 1];
    assert next == before + [a];
    RunAppend(c, before, a);
    hide Run;
    RunRowsSafe(c, before);
    StepOrRest(c, Run(c, before), a, me);
    if PcOf(Run(c, next), me) != Idle { i := RestMeansHandled(c, next, after, me); }
  }

  /** One action takes a worker that has a request in hand forward with that request, or to rest. */
  lemma StepOrRest(c: Config, w: World, a: Action, me: int)
    requires RowsSafe(w) && PcOf(w, me) != Idle && a != Crash(me)
    ensures
      var pc, v := PcOf(w, me), Next(c, w, a);
      if PcOf(v, me) != Idle then PcOf(v, me).task == pc.task
      else
        || (a.Delete? && a.me == me && pc.Deleting? && Settled(w, pc.task))
        || (a.Defer? && a.me == me && pc.Deferring?)
  {
  }

  /** What a worker meets on its way: the readings of its clock, what the calls that it makes come to. */
  datatype Env = Env(
    claimTime: int, token: nat, claimReply: Reply, built: bool, put: bool, stored: bool, completeTime: int,
    completeReply: Reply, cleaned: bool, failTime: int, failReply: Reply, readTime: int, readable: bool, deferTime: int,
    laterTime: int, deferred: bool, deleted: bool)

  /** The action is the worker's own step under these circumstances; the worker neither crashes nor picks a request. */
  predicate Meets(e: Env, a: Action) {
    match a
    case Claim(_, now, token, reply) => now == e.claimTime && token == e.token && reply == e.claimReply
    case BuildFailed(_) => !e.built
    case Put(_, ok, stored) => e.built && ok == e.put && stored == e.stored
    case Complete(_, now, reply) => now == e.completeTime && reply == e.completeReply
    case Clean(_, deleted) => deleted == e.cleaned
    case Fail(_, now, reply) => now == e.failTime && reply == e.failReply
    case Reconcile(_, now, readable) => now == e.readTime && readable == e.readable
    case Defer(_, now, later, ok) => now == e.deferTime && later == e.laterTime && ok == e.deferred
    case Delete(_, ok) => ok == e.deleted
    case _ => false
  }

  /** The run went on, and whatever this worker did was its step under these circumstances. */
  ghost predicate Works(before: seq<Action>, after: seq<Action>, me: int, e: Env) {
    before <= after && forall i :: |before| <= i < |after| && Actor(after[i]) == Some(me) ==> Meets(e, after[i])
  }

  lemma WorksAlive(before: seq<Action>, after: seq<Action>, me: int, e: Env)
    requires Works(before, after, me, e)
    ensures Alive(before, after, me)
  {
  }

  /** Where an action takes the worker. */
  lemma PcAfter(c: Config, w: World, a: Action)
    requires Actor(a).Some?
    ensures
      var before, after := PcOf(w, a.me), PcOf(Next(c, w, a), a.me);
      && (a.Claim? && before.Claiming? ==> after.Building? || after.Reconciling?)
      && ((a.Put? || a.BuildFailed?) && before.Building? ==> after.Stored? || after.Failing?)
  {
  }

  class System {
    const config: Config
    var world: World
    ghost var trace: seq<Action>

    /** The world is what a run of the machine leads to. */
    ghost predicate Valid()
      reads this
    {
      world == Run(config, trace)
    }

    constructor (config: Config)
      ensures Valid() && this.config == config && trace == []
    {
      this.config, world, trace := config, START, [];
    }

    method Act(a: Action)
      requires Valid()
      modifies this
      ensures Valid() && trace == old(trace) + [a] && world == Next(config, old(world), a)
    {
      RunAppend(config, trace, a);
      world := Next(config, world, a);
      trace := trace + [a];
    }

    /** Anything that anybody else does in the meantime. */
    method Others(me: int, e: Env)
      requires Valid()
      modifies this
      ensures Valid() && Works(old(trace), trace, me, e) && PcOf(world, me) == PcOf(old(world), me)
    {
      hide Next, Run;
      var n: int := *;
      for i := 0 to if n > 0 then n else 0
        invariant Valid() && Works(old(trace), trace, me, e) && PcOf(world, me) == PcOf(old(world), me)
      {
        var a: Action := *;
        if Actor(a) != Some(me) {
          OthersKeepPc(config, world, a, me);
          Act(a);
        }
      }
    }

    /** runAuditExportRequest, from a claim that may be based on a stale list, to the end of its work. */
    method RunAuditExportRequest(me: int, e: Env)
      requires Valid() && PcOf(world, me).Claiming?
      modifies this
      ensures Valid() && Works(old(trace), trace, me, e) && PcOf(world, me) == Idle
    {
      hide Run, Next;
      Others(me, e);
      PcAfter(config, world, Claim(me, e.claimTime, e.token, e.claimReply));
      Act(Claim(me, e.claimTime, e.token, e.claimReply));
      if PcOf(world, me).Reconciling? {
        ReconcileAuditExportRequest(me, e);
        return;
      }
      Others(me, e);
      if e.built {
            PcAfter(config, world, Put(me, e.put, e.stored));
        Act(Put(me, e.put, e.stored));
      } else {
        PcAfter(config, world, BuildFailed(me));
        Act(BuildFailed(me));
      }
      if PcOf(world, me).Stored? {
        CompleteOrClean(me, e);
      }
      if PcOf(world, me).Failing? {
        FailAuditExportRequest(me, e);
      } else {
        DeleteAuditExportRequest(me, e);
      }
    }

    method CompleteOrClean(me: int, e: Env)
      requires Valid() && PcOf(world, me).Stored?
      modifies this
      ensures Valid() && Works(old(trace), trace, me, e) && (PcOf(world, me).Failing? || PcOf(world, me).Deleting?)
    {
      hide Run, Reconciled, NextCheck, Claimed, FailedOnce;
      Others(me, e);
      Act(Complete(me, e.completeTime, e.completeReply));
      if PcOf(world, me).Cleaning? {
        Others(me, e);
          Act(Clean(me, e.cleaned));
      }
    }

    method ReconcileAuditExportRequest(me: int, e: Env)
      requires Valid() && PcOf(world, me).Reconciling?
      modifies this
      ensures Valid() && Works(old(trace), trace, me, e) && PcOf(world, me) == Idle
    {
      hide Run, NextCheck, Claimed, FailedOnce;
      Others(me, e);
      Act(Reconcile(me, e.readTime, e.readable));
      if PcOf(world, me).Deleting? {
        DeleteAuditExportRequest(me, e);
      } else {
        DeferAuditExportRequest(me, e);
      }
    }

    method FailAuditExportRequest(me: int, e: Env)
      requires Valid() && PcOf(world, me).Failing?
      modifies this
      ensures Valid() && Works(old(trace), trace, me, e) && PcOf(world, me) == Idle
    {
      hide Run, NextCheck, Claimed, Reconciled;
      Others(me, e);
      Act(Fail(me, e.failTime, e.failReply));
      if PcOf(world, me).Deleting? {
        DeleteAuditExportRequest(me, e);
      } else {
        DeferAuditExportRequest(me, e);
      }
    }

    method DeferAuditExportRequest(me: int, e: Env)
      requires Valid() && PcOf(world, me).Deferring?
      modifies this
      ensures Valid() && Works(old(trace), trace, me, e) && PcOf(world, me) == Idle
    {
      hide Run, NextCheck;
      Others(me, e);
      Act(Defer(me, e.deferTime, e.laterTime, e.deferred));
    }

    method DeleteAuditExportRequest(me: int, e: Env)
      requires Valid() && PcOf(world, me).Deleting?
      modifies this
      ensures Valid() && Works(old(trace), trace, me, e) && PcOf(world, me) == Idle
    {
      hide Run;
      Others(me, e);
      Act(Delete(me, e.deleted));
    }
  }
}
