/** What clients are told about a job over its whole life, from the messages that workers and clients sent. */
module JobStories {
  import opened Bytes
  import opened Requirements
  import opened ActiveJobs
  import opened Broker
  import opened BrokerRuns
  import Q = JobQueue
  import P = WorkerPool

  // ---------------------------------------------------------------- what a scheduling pass does to the active jobs

  /** Jobs that were active stay as they were; every job given out becomes active and its worker counts as heard of. */
  ghost predicate Assigned(w: World, v: World, unsent: set<Id>) {
    && (forall id :: id in w.active ==> id in v.active && v.active[id] == w.active[id])
    && (forall id :: id in v.active && id !in w.active ==> id in v.given && id !in w.given)
    && (forall id :: id in v.given && id !in w.given ==> id in v.active && v.active[id] == JobState(v.given[id], Plain(id, QUEUED), [], false))
    && (forall id :: id in w.given ==> id in v.given && v.given[id] == w.given[id])
    && (forall a :: a in v.alive <==> a in w.alive || GivenTo(w, v, unsent, a))
  }

  ghost predicate GivenTo(w: World, v: World, unsent: set<Id>, a: Address) {
    exists id :: id in v.given && id !in w.given && v.given[id] == a && id !in unsent
  }

  lemma {:induction false} AssignedNothing(w: World, v: World, unsent: set<Id>)
    requires v.active == w.active && v.given == w.given && v.alive == w.alive
    ensures Assigned(w, v, unsent)
  {
  }

  lemma {:induction false} AssignedTransitive(w: World, v: World, u: World, unsent: set<Id>)
    requires Assigned(w, v, unsent) && Assigned(v, u, unsent)
    ensures Assigned(w, u, unsent)
  {
    forall a ensures a in u.alive <==> a in w.alive || GivenTo(w, u, unsent, a) {
      if GivenTo(w, v, unsent, a) {
        var id :| id in v.given && id !in w.given && v.given[id] == a && id !in unsent;
        assert id in u.given && u.given[id] == a;
      }
    }
  }

  /** One job more for one worker. */
  lemma {:induction false} AssignedOne(w: World, v: World, unsent: set<Id>, id: Id, a: Address)
    requires id !in w.given && id !in w.active && v.given == w.given[id := a]
    requires v.active == w.active[id := JobState(a, Plain(id, QUEUED), [], false)]
    requires v.alive == if id in unsent then w.alive else w.alive + {a}
    ensures Assigned(w, v, unsent)
  {
    forall b ensures b in v.alive <==> b in w.alive || GivenTo(w, v, unsent, b) {
      if b == a && id !in unsent {
        assert v.given[id] == b;
      }
    }
  }

  /** The parts of the tables that an assignment touches. */
  lemma {:induction false} AssignOneParts(w: World, r: Key, unsent: set<Id>) returns (a: Address)
    ensures var v, job := AssignOne(w, r, unsent), Q.Take(w.queue, r).1;
            || (v.active == w.active && v.given == w.given && v.alive == w.alive)
            || (job.Some? && v.active == AddActive(w.active, a, job.value.id) && v.given == w.given[job.value.id := a]
                && v.alive == if job.value.id in unsent then w.alive else w.alive + {a})
  {
    hide Q.Take, P.TakeWorker, P.HaveWaitingWorker, AddActive;
    var worker := P.TakeWorker(w.pool, r).1;
    a := if worker.Some? then worker.value else 0;
  }

  lemma {:induction false} AssignOneAssigned(w: World, r: Key, unsent: set<Id>)
    requires Inv(w)
    ensures Assigned(w, AssignOne(w, r, unsent), unsent)
  {
    assert Q.Valid(w.queue) && w.given.Keys !! w.queue.ids && w.active.Keys <= w.given.Keys;
    hide Inv, Q.Valid, Q.Take, AssignOne, Assigned, Q.Pending, Q.ReqsOf;
    Q.TakeKeeps(w.queue, r);
    var a := AssignOneParts(w, r, unsent);
    var v, job := AssignOne(w, r, unsent), Q.Take(w.queue, r).1;
    if v.active == w.active && v.given == w.given && v.alive == w.alive {
      AssignedNothing(w, v, unsent);
    } else {
      AssignedOne(w, v, unsent, job.value.id, a);
    }
  }

  lemma {:induction false} AssignAllAssigned(w: World, types: seq<Key>, unsent: set<Id>)
    requires Inv(w) && Different(types) && forall r :: r in types ==> Q.PendingKinds(w.queue)[r] > 0
    ensures Assigned(w, AssignAll(w, types, unsent), unsent)
    decreases |types|
  {
    hide Inv, Assigned, Forward, Q.PendingKinds, P.Ready, P.HaveWaitingWorker, P.TakeWorker, Q.Take, AssignOne;
    if types == [] {
      AssignedNothing(w, w, unsent);
    } else {
      var r0 := types[0];
      var v := AssignOne(w, r0, unsent);
      assert r0 in types;
      PendingMeans(w.queue, r0);
      AssignOneKeeps(w, r0, unsent);
      AssignOneAssigned(w, r0, unsent);
      forall r | r in types[1..] ensures Q.PendingKinds(v.queue)[r] > 0 {
        var k :| 0 <= k < |types[1..]| && types[1..][k] == r;
        assert types[k + 1] == r && r in types && r != r0;
        assert Q.PendingKinds(w.queue)[r] == Q.PendingKinds(v.queue)[r];
      }
      AssignAllAssigned(v, types[1..], unsent);
      AssignedTransitive(w, v, AssignAll(v, types[1..], unsent), unsent);
    }
  }

  lemma {:induction false} PassAssigned(w: World, plan: Plan)
    requires Inv(w) && PlanOk(w, plan)
    ensures Assigned(w, Pass(w, plan), plan.unsent)
  {
    hide Q.PendingKinds, P.Ready, Forward, AssignAll, DispatchAll, Q.ReqsOf, Inv, Assigned;
    if Idle(w) {
      AssignedNothing(w, w, plan.unsent);
    } else {
      var w1 := AfterFirst(w, plan);
      forall r | r in plan.first ensures Q.PendingKinds(w.queue)[r] > 0 { PendingMeans(w.queue, r); }
      AssignAllAssigned(w, plan.first, plan.unsent);
      var bag1 := FirstLoop(w, plan);
      RefillOne(w1);
      forall r | r in plan.second ensures Q.PendingKinds(w1.queue)[r] > 0 { PendingMeans(w1.queue, r); }
      var w1' := w1.(queue := Q.Refill(w1.queue));
      AssignAllAssigned(w1', plan.second, plan.unsent);
      AssignedNothing(w1, w1', plan.unsent);
      var w2, w3 := AfterSecond(w, plan), Pass(w, plan);
      AssignedNothing(w2, w3, plan.unsent);
      AssignedTransitive(w, w1, w1', plan.unsent);
      AssignedTransitive(w, w1', w2, plan.unsent);
      AssignedTransitive(w, w2, w3, plan.unsent);
    }
  }

  // ---------------------------------------------------------------- one step of an active job

  ghost predicate IsHanded(w: World, e: Event, id: Id) {
    e == RetrieveResult(id) && Respond(w, e).Handed?
  }

  /** What a step leaves of the entry of an active job, unless its result is handed out. */
  ghost function Effect(w: World, e: Event, id: Id): JobState
    requires id in w.active
  {
    var j := w.active[id];
    match e
    case MeshStatus(other) => if other == id then j.(status := Cleared(j.status)) else j
    case ReportStatus(_, s) => if s.id == id && CanUpdate(j, s) then j.(status := Merge(j.status, s)) else j
    case ReportResult(_, other, data) =>
      if other == id then JobState(j.worker, if j.status.status.FAILED? then j.status else Plain(id, FINISHED), data, true) else j
    case CheckWorkers(late) => Expired(j, w.alive, late)
    case _ => j
  }

  lemma {:induction false} ActiveStep(w: World, e: Event, id: Id)
    requires Inv(w) && Enabled(w, e) && id in w.active
    ensures if IsHanded(w, e, id) then id !in Next(w, e).active else id in Next(w, e).active && Next(w, e).active[id] == Effect(w, e, id)
  {
    ActiveNotQueued(w, id);
    hide Next, Inv, CanUpdate, Merge, Expired, Pass, Q.Add, Q.Remove, P.Purge, P.AddWorker, P.ReadyForWork;
    match e {
      case QueueJob(job) => NextQueueJob(w, job);
      case MeshStatus(other) => NextMeshStatus(w, other);
      case RetrieveResult(other) => NextRetrieveResult(w, other);
      case TerminateJob(other) => NextTerminateJob(w, other);
      case Register(a, r) => NextRegister(w, a, r);
      case AskForJob(a, r) => NextAskForJob(w, a, r);
      case ReportStatus(a, s) => NextReportStatus(w, a, s);
      case ReportResult(a, other, data) => NextReportResult(w, a, other, data);
      case Heartbeat(a) => NextHeartbeat(w, a);
      case WorkerLeaves(a) => NextWorkerLeaves(w, a);
      case CheckWorkers(late) => NextCheckWorkers(w, late);
      case Schedule(plan) =>
        NextSchedule(w, plan);
        PassAssigned(w, plan);
    }
  }

  /** A job becomes active only by a pass, and then as queued and without a result. */
  lemma {:induction false} BecomesActive(w: World, e: Event, id: Id)
    requires Inv(w) && Enabled(w, e) && id !in w.active && id in Next(w, e).active
    ensures e.Schedule? && id !in w.given && id in Next(w, e).given
    ensures Next(w, e).active[id] == JobState(Next(w, e).given[id], Plain(id, QUEUED), [], false)
  {
    hide Next, Inv, CanUpdate, Merge, Expired, Pass, Q.Add, Q.Remove, P.Purge, P.AddWorker, P.ReadyForWork;
    match e {
      case QueueJob(job) => NextQueueJob(w, job);
      case MeshStatus(other) => NextMeshStatus(w, other);
      case RetrieveResult(other) => NextRetrieveResult(w, other);
      case TerminateJob(other) => NextTerminateJob(w, other);
      case Register(a, r) => NextRegister(w, a, r);
      case AskForJob(a, r) => NextAskForJob(w, a, r);
      case ReportStatus(a, s) => NextReportStatus(w, a, s);
      case ReportResult(a, other, data) => NextReportResult(w, a, other, data);
      case Heartbeat(a) => NextHeartbeat(w, a);
      case WorkerLeaves(a) => NextWorkerLeaves(w, a);
      case CheckWorkers(late) => NextCheckWorkers(w, late);
      case Schedule(plan) =>
        NextSchedule(w, plan);
        PassAssigned(w, plan);
    }
  }

  // ---------------------------------------------------------------- the result handed out is the one reported

  ghost predicate Reports(e: Event, id: Id) {
    e.ReportResult? && e.id == id
  }

  ghost predicate Stored(w: World, id: Id) {
    id in w.active && w.active[id].haveResult
  }

  lemma {:induction false} StoredStep(w: World, e: Event, id: Id)
    requires Inv(w) && Enabled(w, e)
    ensures Reports(e, id) && id in w.active ==> Stored(Next(w, e), id) && Next(w, e).active[id].result == e.data
    ensures !Reports(e, id) && Stored(w, id) && !IsHanded(w, e, id) ==>
              Stored(Next(w, e), id) && Next(w, e).active[id].result == w.active[id].result
    ensures Stored(Next(w, e), id) ==> id in w.active && (Reports(e, id) || Stored(w, id))
  {
    hide Next, Inv, CanUpdate, Merge, Plain;
    if id in w.active {
      ActiveStep(w, e, id);
    } else if id in Next(w, e).active {
      BecomesActive(w, e, id);
    }
  }

  /** A stored result was sent by a worker for that job, and is the last one sent. */
  lemma {:induction false} StoredIsReported(ws: seq<World>, es: seq<Event>, j: nat, id: Id) returns (i: nat)
    requires IsRun(ws, es) && j < |ws| && Stored(ws[j], id)
    ensures i < j && Reports(es[i], id) && id in ws[i].active && es[i].data == ws[j].active[id].result
    ensures forall k :: i < k < j ==> !Reports(es[k], id)
  {
    hide Next, Inv, Enabled, Stored, Reports;
    assert j > 0 by { NothingStored(id); }
    RunInv(ws, es, j - 1);
    StoredStep(ws[j - 1], es[j - 1], id);
    if Reports(es[j - 1], id) {
      i := j - 1;
    } else {
      i := StoredIsReported(ws, es, j - 1, id);
      NotHanded(ws[j - 1], es[j - 1], id);
    }
  }

  lemma {:induction false} NothingStored(id: Id)
    ensures !Stored(START, id)
  {
  }

  lemma {:induction false} NotHanded(w: World, e: Event, id: Id)
    requires Inv(w) && Enabled(w, e) && Stored(Next(w, e), id)
    ensures !IsHanded(w, e, id)
  {
    hide Next, Inv;
    if id in w.active {
      ActiveStep(w, e, id);
    }
  }

  /** What a client is handed is what a worker reported for that job, and the last such report. */
  lemma {:induction false} HandedIsReported(ws: seq<World>, es: seq<Event>, j: nat, id: Id) returns (i: nat)
    requires IsRun(ws, es) && j < |es| && es[j] == RetrieveResult(id) && Respond(ws[j], es[j]).Handed?
    ensures i < j && es[i].ReportResult? && es[i].id == id && Respond(ws[j], es[j]) == Handed(es[i].data) && id in ws[i].active
    ensures forall k :: i < k < j ==> !(es[k].ReportResult? && es[k].id == id)
  {
    hide Next, Inv, Enabled;
    i := StoredIsReported(ws, es, j, id);
    assert forall k :: i < k < j ==> !Reports(es[k], id);
  }

  /** And what a worker reports for an active job is what the next client to ask is handed, unless another report comes first. */
  lemma {:induction false} ReportedIsHanded(ws: seq<World>, es: seq<Event>, i: nat, j: nat, id: Id)
    requires IsRun(ws, es) && i < j < |es| && es[i].ReportResult? && es[i].id == id && id in ws[i].active
    requires es[j] == RetrieveResult(id)
    requires forall k :: i < k < j ==> es[k] != RetrieveResult(id) && !(es[k].ReportResult? && es[k].id == id)
    ensures Respond(ws[j], es[j]) == Handed(es[i].data)
  {
    hide Next, Inv, Enabled;
    StaysStored(ws, es, i, j, id);
  }

  lemma {:induction false} StaysStored(ws: seq<World>, es: seq<Event>, i: nat, j: nat, id: Id)
    requires IsRun(ws, es) && i < j < |ws| && Reports(es[i], id) && id in ws[i].active
    requires forall k :: i < k < j ==> es[k] != RetrieveResult(id) && !(es[k].ReportResult? && es[k].id == id)
    ensures Stored(ws[j], id) && ws[j].active[id].result == es[i].data
    decreases j
  {
    hide Next, Inv, Enabled;
    RunInv(ws, es, j - 1);
    StoredStep(ws[j - 1], es[j - 1], id);
    if i < j - 1 {
      StaysStored(ws, es, i, j - 1, id);
    }
  }

  // ---------------------------------------------------------------- what is told changes so

  /** What anyone who asks now is told. */
  function Answer(w: World, id: Id): JobStatus {
    Respond(w, MeshStatus(id)).report
  }

  predicate Unsettled(s: StatusType) {
    s.QUEUED? || s.IN_PROGRESS?
  }

  /** A worker that cannot be counted on: not heard of since it left, or late with its heartbeat. */
  predicate Missing(w: World, e: Event, id: Id) {
    e.CheckWorkers? && id in w.given && (w.given[id] !in w.alive || w.given[id] in e.late)
  }

  /** The reports that count: progress or a failure, of a job that is not settled. */
  predicate Counts(w: World, e: Event, id: Id) {
    e.ReportStatus? && e.status.id == id && id in w.active && Unsettled(Answer(w, id).status)
    && (e.status.status.IN_PROGRESS? || e.status.status.FAILED? || e.status.status.EXPIRED? || e.status.status.INVALID_STATUS?)
  }

  lemma {:induction false} AnswerActive(w: World, id: Id)
    requires Inv(w) && id in w.active
    ensures Answer(w, id) == w.active[id].status && id in w.given && w.active[id].worker == w.given[id]
  {
    ActiveNotQueued(w, id);
  }

  /** How one step changes what is told about an active job. */
  lemma {:induction false} ToldStep(w: World, e: Event, id: Id)
    requires Inv(w) && Enabled(w, e) && id in w.active && !IsHanded(w, e, id)
    ensures id in Next(w, e).active
    ensures var t, t' := Answer(w, id), Answer(Next(w, e), id);
            if Reports(e, id) then t' == if t.status == FAILED then t else JobStatus(id, FINISHED, Progress(-1, []))
            else if Missing(w, e, id) && Unsettled(t.status) then t' == JobStatus(t.id, EXPIRED, Progress(-1, []))
            else if Counts(w, e, id) then
              && t'.id == t.id && t'.status == e.status.status
              && t'.progress.message == Appended(t.progress.message, e.status.progress.message)
              && t'.progress.value == if e.status.progress.value > 100 then 100 else if e.status.progress.value < 0 then 0 else e.status.progress.value
            else if e == MeshStatus(id) then t' == t.(progress := t.progress.(message := []))
            else t' == t
  {
    hide Next, Inv, Appended;
    AnswerActive(w, id);
    ActiveStep(w, e, id);
    NextKeeps(w, e);
    AnswerActive(Next(w, e), id);
    hide Answer;
  }

  /** Clients are told about the job they asked for. */
  lemma {:induction false} ToldOfThatJob(ws: seq<World>, es: seq<Event>, i: nat, id: Id)
    requires IsRun(ws, es) && i < |ws|
    ensures Answer(ws[i], id).id == id
  {
    hide Next, Inv, Enabled;
    RunInv(ws, es, i);
    if id in ws[i].active {
      AnswerActive(ws[i], id);
      assert i > 0;
      RunInv(ws, es, i - 1);
      if id in ws[i - 1].active {
        ToldOfThatJob(ws, es, i - 1, id);
        ActiveStep(ws[i - 1], es[i - 1], id);
        ToldStep(ws[i - 1], es[i - 1], id);
      } else {
        BecomesActive(ws[i - 1], es[i - 1], id);
      }
    }
  }

  // ---------------------------------------------------------------- expired jobs

  /** A job that is not settled has no result yet. */
  lemma {:induction false} NoResultYet(ws: seq<World>, es: seq<Event>, i: nat, id: Id)
    requires IsRun(ws, es) && i < |ws| && Stored(ws[i], id)
    ensures !Unsettled(Answer(ws[i], id).status)
  {
    hide Next, Inv, Enabled, Answer;
    assert i > 0 by { NothingStored(id); }
    var w, e := ws[i - 1], es[i - 1];
    RunInv(ws, es, i - 1);
    StoredStep(w, e, id);
    NotHanded(w, e, id);
    ToldStep(w, e, id);
    if !Reports(e, id) {
      NoResultYet(ws, es, i - 1, id);
    }
  }

  /** The step at which an unsettled job was settled as expired: its worker was missing at a check, or said so itself. */
  ghost predicate Expires(w: World, e: Event, id: Id) {
    && id in w.active && Unsettled(Answer(w, id).status)
    && (Missing(w, e, id) || (e.ReportStatus? && e.status.id == id && e.status.status == EXPIRED))
  }

  /** A client is told EXPIRED only of a job that some earlier step settled so, and for which no result came since. */
  lemma {:induction false} ExpiredBecause(ws: seq<World>, es: seq<Event>, j: nat, id: Id) returns (i: nat)
    requires IsRun(ws, es) && j < |ws| && Answer(ws[j], id).status == EXPIRED
    ensures i < j && Expires(ws[i], es[i], id) && forall k :: i < k < j ==> !Reports(es[k], id)
  {
    hide Next, Inv, Enabled, Reports;
    RunInv(ws, es, j);
    assert id in ws[j].active && j > 0;
    var w, e := ws[j - 1], es[j - 1];
    RunInv(ws, es, j - 1);
    if id in w.active {
      ActiveStep(w, e, id);
      ToldStep(w, e, id);
      if Expires(w, e, id) {
        i := j - 1;
      } else {
        hide Answer;
        i := ExpiredBecause(ws, es, j - 1, id);
        if Reports(e, id) {
          ReportsFinish(w, e, id);
        }
      }
    } else {
      AnswerActive(ws[j], id);
      BecomesActive(w, e, id);
    }
  }

  lemma {:induction false} ReportsFinish(w: World, e: Event, id: Id)
    requires Inv(w) && Enabled(w, e) && id in w.active && !IsHanded(w, e, id) && Reports(e, id)
    ensures var t := Answer(Next(w, e), id).status; t.FAILED? || t.FINISHED?
  {
    hide Next, Inv, Answer;
    ToldStep(w, e, id);
  }

  /** Such a job is told to be expired from then on, until a result for it arrives. */
  lemma {:induction false} ExpiredFromThenOn(ws: seq<World>, es: seq<Event>, i: nat, j: nat, id: Id)
    requires IsRun(ws, es) && i < j < |ws| && Expires(ws[i], es[i], id)
    requires forall k :: i < k < j ==> !(es[k].ReportResult? && es[k].id == id)
    ensures Answer(ws[j], id).status == EXPIRED && id in ws[j].active && !Stored(ws[j], id)
    decreases j
  {
    hide Next, Inv, Enabled, Answer;
    var w, e := ws[j - 1], es[j - 1];
    RunInv(ws, es, j - 1);
    if i < j - 1 {
      ExpiredFromThenOn(ws, es, i, j - 1, id);
    } else if Stored(w, id) {
      NoResultYet(ws, es, j - 1, id);
    }
    NotStoredNotHanded(w, e, id);
    ToldStep(w, e, id);
    StoredStep(w, e, id);
  }

  lemma {:induction false} NotStoredNotHanded(w: World, e: Event, id: Id)
    requires !Stored(w, id)
    ensures !IsHanded(w, e, id)
  {
  }

  // ---------------------------------------------------------------- which workers are missing

  /** A message from the worker, or a job sent to it. */
  ghost predicate Heard(w: World, e: Event, v: World, a: Address) {
    || ((e.Register? || e.AskForJob? || e.ReportStatus? || e.ReportResult? || e.Heartbeat?) && e.worker == a)
    || (e.Schedule? && GivenTo(w, v, e.plan.unsent, a))
  }

  lemma {:induction false} AliveStep(w: World, e: Event, a: Address)
    requires Inv(w) && Enabled(w, e)
    ensures a in Next(w, e).alive <==> Heard(w, e, Next(w, e), a) || (a in w.alive && e != WorkerLeaves(a))
  {
    hide Next, Inv, Pass, Q.Add, Q.Remove, P.Purge, P.AddWorker, P.ReadyForWork, MarkExpired, UpdateStatus, UpdateResult, GivenTo;
    match e {
      case QueueJob(job) => NextQueueJob(w, job);
      case MeshStatus(other) => NextMeshStatus(w, other);
      case RetrieveResult(other) => NextRetrieveResult(w, other);
      case TerminateJob(other) => NextTerminateJob(w, other);
      case Register(b, r) => NextRegister(w, b, r);
      case AskForJob(b, r) => NextAskForJob(w, b, r);
      case ReportStatus(b, s) => NextReportStatus(w, b, s);
      case ReportResult(b, other, data) => NextReportResult(w, b, other, data);
      case Heartbeat(b) => NextHeartbeat(w, b);
      case WorkerLeaves(b) => NextWorkerLeaves(w, b);
      case CheckWorkers(late) => NextCheckWorkers(w, late);
      case Schedule(plan) =>
        NextSchedule(w, plan);
        PassAssigned(w, plan);
    }
  }

  /** The worker was heard of at step `k`, and has not left between then and `i`. */
  ghost predicate HeardAt(ws: seq<World>, es: seq<Event>, k: nat, i: nat, a: Address)
    requires |ws| == |es| + 1
  {
    k < i <= |es| && Heard(ws[k], es[k], ws[k + 1], a) && forall m :: k < m < i ==> es[m] != WorkerLeaves(a)
  }

  /** The server counts on a worker exactly if it was heard of and has not left since. */
  lemma {:induction false} AliveExactly(ws: seq<World>, es: seq<Event>, i: nat, a: Address)
    requires IsRun(ws, es) && i < |ws|
    ensures a in ws[i].alive <==> exists k :: HeardAt(ws, es, k, i, a)
  {
    hide Next, Inv, Enabled, Heard;
    if i > 0 {
      AliveExactly(ws, es, i - 1, a);
      RunInv(ws, es, i - 1);
      AliveStep(ws[i - 1], es[i - 1], a);
      LeavingSays(ws[i - 1], ws[i], a);
      if Heard(ws[i - 1], es[i - 1], ws[i], a) {
        assert HeardAt(ws, es, i - 1, i, a);
      } else if a in ws[i].alive {
        var k: nat :| HeardAt(ws, es, k, i - 1, a);
        assert HeardAt(ws, es, k, i, a);
      } else {
        forall k: nat | HeardAt(ws, es, k, i, a) ensures HeardAt(ws, es, k, i - 1, a) && es[i - 1] != WorkerLeaves(a) {
        }
      }
    }
  }

  lemma {:induction false} LeavingSays(w: World, v: World, a: Address)
    ensures !Heard(w, WorkerLeaves(a), v, a)
  {
  }

  // ---------------------------------------------------------------- messages

  /** The reports that counted between two moments. */
  ghost function Reported(ws: seq<World>, es: seq<Event>, i: nat, j: nat, id: Id): seq<JobStatus>
    requires i <= j <= |es| < |ws|
    decreases j
  {
    if i == j then []
    else Reported(ws, es, i, j - 1, id) + (if Counts(ws[j - 1], es[j - 1], id) then [es[j - 1].status] else [])
  }

  /** Asking takes the messages, and a job starts without any; a result or an expiry drops those nobody asked for. */
  ghost predicate StartsAfresh(w: World, e: Event, v: World, id: Id) {
    id in v.active && (id !in w.active || e == MeshStatus(id))
  }

  ghost predicate Drops(w: World, e: Event, id: Id) {
    Reports(e, id) || Missing(w, e, id)
  }

  /** Whoever asks is told all the messages reported since the last one asked, each once and in order. */
  lemma {:induction false} MessagesTold(ws: seq<World>, es: seq<Event>, i: nat, j: nat, id: Id)
    requires IsRun(ws, es) && i < j < |ws| && StartsAfresh(ws[i], es[i], ws[i + 1], id)
    requires forall k :: i < k < j ==> es[k] != MeshStatus(id) && es[k] != RetrieveResult(id) && !Drops(ws[k], es[k], id)
    ensures id in ws[j].active && Answer(ws[j], id).progress.message == Lines(Reported(ws, es, i + 1, j, id))
    decreases j
  {
    hide Next, Inv, Enabled, Answer, Unsettled, Missing, Appended, Lines;
    var w, e := ws[j - 1], es[j - 1];
    RunInv(ws, es, j - 1);
    if i == j - 1 {
      FreshStart(w, e, id);
      assert Lines([]) == [] by { NoLines(); }
    } else {
      assert e != MeshStatus(id) && e != RetrieveResult(id) && !Drops(w, e, id);
      MessagesTold(ws, es, i, j - 1, id);
      ToldStep(w, e, id);
      var before := Reported(ws, es, i + 1, j - 1, id);
      if Counts(w, e, id) {
        LinesLast(before, e.status);
      } else {
        assert before + [] == before;
      }
    }
  }

  lemma {:induction false} NoLines()
    ensures Lines([]) == []
  {
  }

  lemma {:induction false} FreshStart(w: World, e: Event, id: Id)
    requires Inv(w) && Enabled(w, e) && StartsAfresh(w, e, Next(w, e), id)
    ensures Answer(Next(w, e), id).progress.message == []
  {
    hide Next, Inv;
    NextKeeps(w, e);
    AnswerActive(Next(w, e), id);
    if id in w.active {
      ToldStep(w, e, id);
    } else {
      BecomesActive(w, e, id);
    }
    hide Answer;
  }

  // ---------------------------------------------------------------- queued and terminated jobs

  /** A submitted job is told to be queued. */
  lemma {:induction false} SubmittedIsQueued(ws: seq<World>, es: seq<Event>, i: nat, job: Job)
    requires IsRun(ws, es) && i < |es| && es[i] == QueueJob(job)
    ensures Respond(ws[i], es[i]) == Ticket(job.id) && Answer(ws[i + 1], job.id).status == QUEUED
  {
    hide Next, Inv, Enabled, Q.Add;
    RunInv(ws, es, i);
    var w := ws[i];
    assert job.id !in w.issued by { FreshJob(w, job); }
    NotInQueue(w, job.id);
    ValidQueue(w);
    NextQueueJob(w, job);
    Q.AddKeeps(w.queue, job);
  }

  lemma {:induction false} FreshJob(w: World, job: Job)
    requires Enabled(w, QueueJob(job))
    ensures job.id !in w.issued
  {
  }

  lemma {:induction false} NotInQueue(w: World, id: Id)
    requires Inv(w) && id !in w.issued
    ensures id !in w.queue.ids
  {
  }

  /** A job terminated while it is in the queue is told FAILED once, and from then on nobody knows it: no worker ever gets it. */
  lemma {:induction false} TerminatedForGood(ws: seq<World>, es: seq<Event>, i: nat, j: nat, id: Id)
    requires IsRun(ws, es) && i < j < |ws| && es[i] == TerminateJob(id) && id in ws[i].queue.ids
    ensures Says(Respond(ws[i], es[i]), FAILED)
    ensures PhaseOf(ws[j], id) == Gone && Answer(ws[j], id).status == INVALID_STATUS && id !in ws[j].given
    decreases j
  {
    hide Next, Inv, Enabled, Q.Remove;
    var w, e, v := ws[j - 1], es[j - 1], ws[j];
    RunInv(ws, es, j - 1);
    RunInv(ws, es, j);
    QueueIds(v);
    if i == j - 1 {
      ValidQueue(w);
      NextTerminateJob(w, id);
      Q.RemoveKeeps(w.queue, id);
      QueuedIssued(w, id);
    } else {
      TerminatedForGood(ws, es, i, j - 1, id);
      PhasesForward(ws, es, j - 1, j, id);
      ExactlyOnePlace(ws, es, j, id);
      StillNotGiven(w, e, id);
    }
  }

  lemma {:induction false} StillNotGiven(w: World, e: Event, id: Id)
    requires Inv(w) && Enabled(w, e) && id !in w.given && id !in Next(w, e).active
    ensures id !in Next(w, e).given
  {
    hide Next, Inv;
    if e.Schedule? {
      NextSchedule(w, e.plan);
      PassAssigned(w, e.plan);
    } else {
      NextElsewhere(w, e);
    }
  }
}
