/** A worker that a check finds missing is given no more jobs until it asks for some again. */
module MissingWorkers {
  import opened Bytes
  import opened Requirements
  import opened ActiveJobs
  import opened Broker
  import opened BrokerRuns
  import Q = JobQueue
  import P = WorkerPool

  ghost predicate NotReady(p: P.Pool, a: Address) {
    forall i :: 0 <= i < |p| && p[i].address == a ==> !p[i].IsWaitingForWork()
  }

  /** The worker has been given nothing from `w` to `v`, and is no more ready for work than it was. */
  ghost predicate Spared(w: World, v: World, a: Address) {
    NotReady(v.pool, a) && forall id :: id in v.given && v.given[id] == a ==> id in w.given && w.given[id] == a
  }

  lemma {:induction false} TakeSpares(p: P.Pool, r: Key, a: Address)
    requires NotReady(p, a)
    ensures NotReady(P.TakeWorker(p, r).0, a) && P.TakeWorker(p, r).1 != Some(a)
  {
    var i := P.FirstWaiting(p, r);
    if i < |p| {
      var m := p[i := p[i].(desired := p[i].desired - 1)];
      var q := P.Rotated(m);
      forall k | 0 <= k < |q| && q[k].address == a ensures !q[k].IsWaitingForWork() {
        assert q[k] == m[if k < |q| - 1 then k + 1 else 0];
      }
    }
  }

  lemma {:induction false} AssignOneSpares(w: World, r: Key, unsent: set<Id>, a: Address)
    requires NotReady(w.pool, a)
    ensures Spared(w, AssignOne(w, r, unsent), a)
  {
    TakeSpares(w.pool, r, a);
    hide P.TakeWorker, P.HaveWaitingWorker, Q.Take, NotReady;
  }

  lemma {:induction false} AssignAllSpares(w: World, types: seq<Key>, unsent: set<Id>, a: Address)
    requires NotReady(w.pool, a)
    ensures Spared(w, AssignAll(w, types, unsent), a)
    decreases |types|
  {
    hide AssignOne, NotReady;
    if types != [] {
      AssignOneSpares(w, types[0], unsent, a);
      AssignAllSpares(AssignOne(w, types[0], unsent), types[1..], unsent, a);
    }
  }

  lemma {:induction false} PassSpares(w: World, plan: Plan, a: Address)
    requires NotReady(w.pool, a)
    ensures Spared(w, Pass(w, plan), a)
  {
    hide AssignAll, NotReady, DispatchAll;
    if !Idle(w) {
      var w1 := AfterFirst(w, plan);
      AssignAllSpares(w, plan.first, plan.unsent, a);
      AssignAllSpares(w1.(queue := Q.Refill(w1.queue)), plan.second, plan.unsent, a);
    }
  }

  lemma {:induction false} StepSpares(w: World, e: Event, a: Address)
    requires NotReady(w.pool, a) && !e.CheckWorkers? && !(e.AskForJob? && e.worker == a)
    ensures Spared(w, Next(w, e), a)
  {
    hide Next, Pass, P.ReadyForWork, P.AddWorker;
    match e {
      case Schedule(plan) =>
        NextSchedule(w, plan);
        PassSpares(w, plan, a);
      case Register(b, r) =>
        NextRegister(w, b, r);
        RegisterSpares(w.pool, b, r, a);
      case AskForJob(b, r) =>
        NextAskForJob(w, b, r);
        AskSpares(w.pool, b, r, a);
      case QueueJob(job) => NextQueueJob(w, job);
      case MeshStatus(id) => NextMeshStatus(w, id);
      case RetrieveResult(id) => NextRetrieveResult(w, id);
      case TerminateJob(id) => NextTerminateJob(w, id);
      case ReportStatus(b, s) => NextReportStatus(w, b, s);
      case ReportResult(b, id, data) => NextReportResult(w, b, id, data);
      case Heartbeat(b) => NextHeartbeat(w, b);
      case WorkerLeaves(b) => NextWorkerLeaves(w, b);
    }
  }

  lemma {:induction false} RegisterSpares(p: P.Pool, b: Address, r: Key, a: Address)
    requires NotReady(p, a)
    ensures NotReady(P.AddWorker(p, b, r), a)
  {
  }

  lemma {:induction false} AskSpares(p: P.Pool, b: Address, r: Key, a: Address)
    requires NotReady(p, a) && b != a
    ensures NotReady(P.ReadyForWork(p, b, r), a)
  {
  }

  lemma {:induction false} PurgeSpares(p: P.Pool, alive: set<Address>, late: set<Address>, a: Address)
    requires a !in alive || a in late
    ensures NotReady(P.Purge(p, alive, late), a)
  {
    if p != [] {
      PurgeSpares(p[1..], alive, late, a);
    }
  }

  /** After a check that missed a worker, no job is given to it until it asks again or another check is made. */
  lemma {:induction false} MissingGetNothing(ws: seq<World>, es: seq<Event>, i: nat, j: nat, a: Address)
    requires IsRun(ws, es) && i < j < |ws| && es[i].CheckWorkers? && (a !in ws[i].alive || a in es[i].late)
    requires forall k :: i < k < j ==> !es[k].CheckWorkers? && !(es[k].AskForJob? && es[k].worker == a)
    ensures forall id :: id in ws[j].given && ws[j].given[id] == a ==> id in ws[i].given && ws[i].given[id] == a
    ensures NotReady(ws[j].pool, a)
    decreases j
  {
    hide Next, Enabled, NotReady;
    var w, e := ws[j - 1], es[j - 1];
    assert ws[j] == Next(w, e);
    if i == j - 1 {
      NextCheckWorkers(w, e.late);
      PurgeSpares(w.pool, w.alive, e.late, a);
    } else {
      MissingGetNothing(ws, es, i, j - 1, a);
      StepSpares(w, e, a);
    }
  }

  /** A check takes nothing from the workers that are there: they are owed what they were owed, and the punctual ones are ready for it. */
  lemma {:induction false} PresentKeepCredits(w: World, late: set<Address>, a: Address, r: Key)
    ensures var v := Next(w, CheckWorkers(late));
            && P.Credits(v.pool)[(a, r)] == (if a in w.alive then P.Credits(w.pool)[(a, r)] else 0)
            && P.Ready(v.pool)[r] == P.ReadyAmong(w.pool, w.alive - late, r)
            && v.queue == w.queue && v.given == w.given && v.alive == w.alive
  {
    hide Next, P.Credits, P.Ready, P.Purge, P.ReadyAmong;
    NextCheckWorkers(w, late);
    P.PurgeExactly(w.pool, w.alive, late, a, r);
  }
}
