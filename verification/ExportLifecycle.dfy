/** The life of an export task under the machine of AuditExport, statement by statement and over whole runs. */
module ExportLifecycle {
  import opened Json
  import opened AuditExport

  // ---- what each statement does ----

  /** A new task has an id that was never used, waits, and may be attempted as often as was asked for. */
  lemma NewTaskExact(c: Config, w: World, t: int, maxAttempts: nat)
    ensures
      var v := Next(c, w, NewTask(t, maxAttempts));
      if t !in w.knownTasks && maxAttempts > 0 then
        && v.tasks == w.tasks[t := Task(Pending, 0, maxAttempts, None, v.tasks[t].leaseUntil, None, None)]
        && v.creating == w.creating + {t} && v.requests == w.requests
      else v == w
  {
  }

  /** A row is inserted for a task whose row is due, at the time given, and the creator learns of it or does not. */
  lemma NewRowExact(c: Config, w: World, t: int, now: int, reply: Reply)
    ensures
      var v := Next(c, w, NewRow(t, now, reply));
      && v.tasks == w.tasks
      && v.requests == (if t in w.creating && reply != Down then w.requests[t := now] else w.requests)
      && v.rows == (if t in w.creating && reply != Down then w.rows + {t} else w.rows)
      && v.abandoned == (if t in w.creating && reply != Answered then w.abandoned + {t} else w.abandoned)
  {
  }

  /**
   * A claim takes a task that has attempts left and is due, or whose lease has ended; it costs an attempt and gives a
   * new lease. Otherwise nothing is claimed.
   */
  lemma ClaimExact(c: Config, w: World, me: int, t: int, now: int, token: nat, reply: Reply)
    requires PcOf(w, me) == Claiming(t)
    ensures
      var v := Next(c, w, Claim(me, now, token, reply));
      if reply != Down && token !in w.knownTokens && t in w.tasks && w.tasks[t].attempts < w.tasks[t].maxAttempts
         && (|| (w.tasks[t].status in {Pending, Retrying}
                 && (w.tasks[t].nextAttempt.Some? ==> w.tasks[t].nextAttempt.value <= now))
             || (w.tasks[t].status == Running && w.tasks[t].leaseUntil <= now)) then
        && v.tasks == w.tasks[t := Task(
             Running, w.tasks[t].attempts + 1, w.tasks[t].maxAttempts, Some(token), now + c.lease, None,
             w.tasks[t].artifact)]
        && PcOf(v, me) == (if reply == Answered then Building(t, token) else Reconciling(t))
      else v.tasks == w.tasks && PcOf(v, me) == Reconciling(t)
  {
  }

  /** A completion takes effect only under a lease that is still held, and not after it has ended. */
  lemma CompleteExact(c: Config, w: World, me: int, t: int, token: nat, now: int, reply: Reply)
    requires PcOf(w, me) == Stored(t, token)
    ensures
      var v := Next(c, w, Complete(me, now, reply));
      if reply != Down && t in w.tasks && w.tasks[t].status == Running && w.tasks[t].token == Some(token)
         && now < w.tasks[t].leaseUntil then
        && v.tasks == w.tasks[t := Task(
             Succeeded, w.tasks[t].attempts, w.tasks[t].maxAttempts, None, w.tasks[t].leaseUntil, None, Some(token))]
        && PcOf(v, me) == (if reply == Answered then Deleting(t) else Cleaning(t, token))
      else v.tasks == w.tasks && PcOf(v, me) == Cleaning(t, token)
  {
  }

  /**
   * An effective failure makes a task with attempts left wait for its next one, and fails it otherwise. If the worker
   * learns of it, the first leads it to put the request off to that attempt, the second to delete the request.
   */
  lemma FailExact(c: Config, w: World, me: int, t: int, token: nat, now: int, reply: Reply)
    requires PcOf(w, me) == Failing(t, token)
    ensures
      var v := Next(c, w, Fail(me, now, reply));
      && v.requests == w.requests
      && if reply != Down && t in w.tasks && w.tasks[t].status == Running && w.tasks[t].token == Some(token)
            && now < w.tasks[t].leaseUntil then
           var left := w.tasks[t].attempts < w.tasks[t].maxAttempts;
           && v.tasks.Keys == w.tasks.Keys && (forall u :: u in w.tasks && u != t ==> v.tasks[u] == w.tasks[u])
           && v.tasks[t].attempts == w.tasks[t].attempts && v.tasks[t].maxAttempts == w.tasks[t].maxAttempts
           && v.tasks[t].token == None && v.tasks[t].artifact == w.tasks[t].artifact
           && v.tasks[t].status == (if left then Retrying else Failed)
           && v.tasks[t].nextAttempt == (if left then Some(now + c.retryDelay) else None)
           && PcOf(v, me) ==
              if reply == Lost then Deferring(t, Some(now + c.poll))
              else if left then Deferring(t, Some(now + c.retryDelay))
              else Deleting(t)
         else v.tasks == w.tasks && PcOf(v, me) == Deferring(t, Some(now + c.poll))
  {
  }

  /** Where a worker that could not claim goes: to delete the request of a task that is done or gone, else to wait. */
  lemma ReconcileExact(c: Config, w: World, me: int, t: int, now: int, readable: bool)
    requires PcOf(w, me) == Reconciling(t)
    ensures
      var pc := PcOf(Next(c, w, Reconcile(me, now, readable)), me);
      && (pc == Deleting(t) <==>
            readable && (t !in w.tasks || w.tasks[t].status == Succeeded || w.tasks[t].status == Failed))
      && (pc != Deleting(t) ==>
            pc == Deferring(t,
              if !readable || w.tasks[t].status == Pending then Some(now + c.poll)
              else if w.tasks[t].status == Running then Some(w.tasks[t].leaseUntil)
              else w.tasks[t].nextAttempt))
  {
  }

  /** The next check is the time asked for if that is still ahead, and otherwise one poll interval away. */
  lemma DeferExact(c: Config, w: World, me: int, t: int, next: Option<int>, now: int, later: int, ok: bool)
    requires PcOf(w, me) == Deferring(t, next)
    ensures
      var v := Next(c, w, Defer(me, now, later, ok));
      && PcOf(v, me) == Idle && v.tasks == w.tasks
      && if ok && t in w.requests then
           && v.requests.Keys == w.requests.Keys
           && (forall u :: u in w.requests && u != t ==> v.requests[u] == w.requests[u])
           && v.requests[t] == (if next.Some? && now < next.value then next.value else later + c.poll)
         else v.requests == w.requests
  {
  }

  // ---- whole runs ----

  /** What the columns of a task may hold in each status. */
  ghost predicate WellFormed(task: Task) {
    match task.status
    case Pending =>
      task.attempts == 0 < task.maxAttempts && task.token == None && task.nextAttempt == None && task.artifact == None
    case Running =>
      0 < task.attempts <= task.maxAttempts && task.token.Some? && task.nextAttempt == None && task.artifact == None
    case Retrying =>
      0 < task.attempts < task.maxAttempts && task.token == None && task.nextAttempt.Some? && task.artifact == None
    case Succeeded => 0 < task.attempts <= task.maxAttempts && task.token == None && task.artifact.Some?
    case Failed => 0 < task.attempts == task.maxAttempts && task.token == None && task.artifact == None
  }

  lemma StepWellFormed(c: Config, w: World, a: Action)
    requires forall t :: t in w.tasks ==> WellFormed(w.tasks[t])
    ensures forall t :: t in Next(c, w, a).tasks ==> WellFormed(Next(c, w, a).tasks[t])
  {
  }

  /** In every run a failed task has used all its attempts, and a retrying one has attempts and a next one ahead. */
  lemma {:induction false} RunWellFormed(c: Config, actions: seq<Action>)
    ensures forall t :: t in Run(c, actions).tasks ==> WellFormed(Run(c, actions).tasks[t])
    decreases |actions|
  {
    hide WellFormed, Next;
    if actions != [] {
      RunWellFormed(c, actions[..|actions| - 1]);
      StepWellFormed(c, Run(c, actions[..|actions| - 1]), actions[|actions| - 1]);
    }
  }

  /** No request is given up early: its row goes only when the task succeeded, has used all its attempts, or is gone. */
  lemma RowRemovedOnlyWhenDone(c: Config, actions: seq<Action>, a: Action, t: int)
    requires t in Run(c, actions).requests && t !in Next(c, Run(c, actions), a).requests
    ensures
      var w := Run(c, actions);
      || t !in w.tasks
      || w.tasks[t].status == Succeeded
      || (w.tasks[t].status == Failed && w.tasks[t].attempts == w.tasks[t].maxAttempts)
  {
    RowRemovedOnlyWhenSettled(c, actions, a, t);
    RunWellFormed(c, actions);
    hide Run, Next;
  }

  /** A request whose row was created is there as long as its task waits, runs or is to be tried again. */
  lemma UnfinishedHasRow(c: Config, actions: seq<Action>, t: int)
    requires t in Run(c, actions).rows && t in Run(c, actions).tasks
    requires Run(c, actions).tasks[t].status in {Pending, Running, Retrying}
    ensures t in Run(c, actions).requests
  {
    UnfinishedWorkHasRow(c, actions, t);
  }

  /** A task is deleted only by its creator, before anybody has claimed it. */
  lemma TaskDeletedOnlyUnclaimed(c: Config, w: World, a: Action, t: int)
    requires t in w.tasks && t !in Next(c, w, a).tasks
    ensures a == Compensate(t, true) && t in w.abandoned && w.tasks[t].status == Pending && w.tasks[t].attempts == 0
  {
  }

  /** This step claims the task. */
  predicate Claims(c: Config, w: World, a: Action, t: int) {
    a.Claim? && PcOf(w, a.me) == Claiming(t) && Next(c, w, a).knownTokens != w.knownTokens
  }

  function ClaimCount(c: Config, actions: seq<Action>, t: int): nat {
    if actions == [] then 0
    else
      var init := actions[..|actions| - 1];
      ClaimCount(c, init, t) + if Claims(c, Run(c, init), actions[|actions| - 1], t) then 1 else 0
  }

  /** The attempts of a task are the claims of it that took effect, in any run; so there are never more than allowed. */
  lemma {:induction false} AttemptsAreClaims(c: Config, actions: seq<Action>, t: int)
    ensures t in Run(c, actions).tasks ==>
      Run(c, actions).tasks[t].attempts == ClaimCount(c, actions, t) <= Run(c, actions).tasks[t].maxAttempts
    ensures t !in Run(c, actions).knownTasks ==> ClaimCount(c, actions, t) == 0
    decreases |actions|
  {
    RunRowsSafe(c, actions);
    if actions != [] {
      var init, a := actions[..|actions| - 1], actions[|actions| - 1];
      AttemptsAreClaims(c, init, t);
      RunRowsSafe(c, init);
      hide Run;
      StepAttempts(c, Run(c, init), a, t);
    }
  }

  lemma StepAttempts(c: Config, w: World, a: Action, t: int)
    requires RowsSafe(w)
    ensures var v := Next(c, w, a);
      && w.knownTasks <= v.knownTasks
      && (t !in v.knownTasks ==> !Claims(c, w, a, t))
      && (t in w.tasks && t in v.tasks ==>
            v.tasks[t].attempts == w.tasks[t].attempts + if Claims(c, w, a, t) then 1 else 0)
      && (t !in w.tasks && t in v.tasks ==> t !in w.knownTasks && v.tasks[t].attempts == 0 && !Claims(c, w, a, t))
  {
  }

  // ---- a worker that nobody disturbs ----

  /** From a pending task to its artifact: nothing but the worker's own four statements, within the lease. */
  lemma UndisturbedSucceeds(c: Config, w: World, me: int, t: int, token: nat, start: int, end: int)
    requires PcOf(w, me) == Claiming(t) && t in w.tasks
    requires w.tasks[t].status == Pending && w.tasks[t].nextAttempt == None
    requires w.tasks[t].attempts < w.tasks[t].maxAttempts && token !in w.knownTokens && end < start + c.lease
    ensures
      var v := Next(c, Next(c, Next(c, Next(c, w,
        Claim(me, start, token, Answered)), Put(me, true, true)), Complete(me, end, Answered)), Delete(me, true));
      && t in v.tasks && v.tasks[t].status == Succeeded && v.tasks[t].artifact == Some(token)
      && Artifact(t, token) in v.objects && t !in v.requests && PcOf(v, me) == Idle
  {
    hide Next;
    var w1 := Next(c, w, Claim(me, start, token, Answered));
    ClaimExact(c, w, me, t, start, token, Answered);
    var w2 := Next(c, w1, Put(me, true, true));
    PutExact(c, w1, me, t, token, true, true);
    CompleteExact(c, w2, me, t, token, end, Answered);
    CompleteKeepsObjects(c, w2, me, end, Answered);
    DeleteExact(c, Next(c, w2, Complete(me, end, Answered)), me, t, true);
  }

  lemma PutExact(c: Config, w: World, me: int, t: int, token: nat, ok: bool, stored: bool)
    requires PcOf(w, me) == Building(t, token)
    ensures
      var v := Next(c, w, Put(me, ok, stored));
      && v.tasks == w.tasks && v.requests == w.requests
      && v.objects == (if ok || stored then w.objects + {Artifact(t, token)} else w.objects)
      && PcOf(v, me) == (if ok then Stored(t, token) else Failing(t, token))
  {
  }

  lemma CompleteKeepsObjects(c: Config, w: World, me: int, now: int, reply: Reply)
    ensures Next(c, w, Complete(me, now, reply)).objects == w.objects
  {
  }

  lemma DeleteExact(c: Config, w: World, me: int, t: int, ok: bool)
    requires PcOf(w, me) == Deleting(t)
    ensures
      var v := Next(c, w, Delete(me, ok));
      && v.tasks == w.tasks && v.objects == w.objects && PcOf(v, me) == Idle
      && v.requests == if ok then w.requests - {t} else w.requests
  {
  }

  /** A failed attempt that is not the last: the request waits for the next one, and nobody can claim it before. */
  lemma UndisturbedRetries(
      c: Config, w: World, me: int, t: int, token: nat, start: int, end: int, now: int, later: int)
    requires PcOf(w, me) == Claiming(t) && t in w.tasks
    requires w.tasks[t].status == Pending && w.tasks[t].nextAttempt == None
    requires w.tasks[t].attempts + 1 < w.tasks[t].maxAttempts && token !in w.knownTokens && t in w.requests
    requires end < start + c.lease && now < end + c.retryDelay
    ensures
      var v := Next(c, Next(c, Next(c, Next(c, w,
        Claim(me, start, token, Answered)), BuildFailed(me)), Fail(me, end, Answered)), Defer(me, now, later, true));
      && t in v.tasks && v.tasks[t].status == Retrying && v.tasks[t].nextAttempt == Some(end + c.retryDelay)
      && t in v.requests && v.requests[t] == end + c.retryDelay && PcOf(v, me) == Idle
      && forall time :: Claimable(v.tasks[t], time) <==> time >= end + c.retryDelay
  {
    var w1 := Next(c, w, Claim(me, start, token, Answered));
    ClaimExact(c, w, me, t, start, token, Answered);
    var w2 := Next(c, w1, BuildFailed(me));
    assert w2.tasks == w1.tasks && w2.requests == w1.requests == w.requests && PcOf(w2, me) == Failing(t, token);
    hide Next;
    FailExact(c, w2, me, t, token, end, Answered);
    DeferExact(c, Next(c, w2, Fail(me, end, Answered)), me, t, Some(end + c.retryDelay), now, later, true);
  }
}
