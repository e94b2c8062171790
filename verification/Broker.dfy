/**
  The broker as a state machine: one step for every message a client or worker can send, for the periodic
  check of the workers, and for a scheduling pass. `World` is the server's tables together with the history
  that its guarantees speak about.
  */
module Broker {
  import opened Bytes
  import opened Requirements
  import opened ActiveJobs
  import Q = JobQueue
  import P = WorkerPool

  type Id = Q.Id
  type Job = Q.Job
  type Address = P.Address

  datatype World = World(
    // the server's tables
    queue: Q.Queue, pool: P.Pool, active: Active, alive: set<Address>,
    // history: jobs submitted, requests for work received, jobs sent, and who got each job
    issued: map<Id, Job>, asked: multiset<(Address, Key)>, sent: multiset<(Address, Key)>, given: map<Id, Address>)

  const START := World(Q.EMPTY, [], map[], {}, map[], multiset{}, multiset{}, map[])

  /**
    What a scheduling pass meets outside the tables: the order in which it visits each set of requirements,
    whether the factory has space, for which requirements it manages to create a worker, and which sends fail.
    */
  datatype Plan = Plan(first: seq<Key>, second: seq<Key>, third: seq<Key>, hasSpace: bool, creatable: set<Key>, unsent: set<Id>)

  datatype Event =
    | QueueJob(job: Job)
    | MeshStatus(id: Id)
    | RetrieveResult(id: Id)
    | TerminateJob(id: Id)
    | Register(worker: Address, reqs: Key)
    | AskForJob(worker: Address, reqs: Key)
    | ReportStatus(worker: Address, status: JobStatus)
    | ReportResult(worker: Address, id: Id, data: bytes)
    | Heartbeat(worker: Address)
    | WorkerLeaves(worker: Address)
    | CheckWorkers(late: set<Address>)
    | Schedule(plan: Plan)

  // ---------------------------------------------------------------- scheduling

  /** `assignJobToWorker` for the next job and worker of one kind. */
  function AssignOne(w: World, r: Key, unsent: set<Id>): World {
    if !P.HaveWaitingWorker(w.pool, r) then w
    else
      var (pool, worker) := P.TakeWorker(w.pool, r);
      var (queue, job) := Q.Take(w.queue, r);
      if worker.None? || job.None? then w.(queue := queue, pool := pool)
      else
        w.(queue := queue, pool := pool,
           active := AddActive(w.active, worker.value, job.value.id),
           alive := if job.value.id in unsent then w.alive else w.alive + {worker.value},
           sent := w.sent + multiset{(worker.value, job.value.reqs)},
           given := w.given[job.value.id := worker.value])
  }

  function AssignAll(w: World, types: seq<Key>, unsent: set<Id>): World
    decreases |types|
  {
    if types == [] then w else AssignAll(AssignOne(w, types[0], unsent), types[1..], unsent)
  }

  function DispatchAll(q: Q.Queue, types: seq<Key>, creatable: set<Key>): Q.Queue
    decreases |types|
  {
    if types == [] then q
    else DispatchAll(if types[0] in creatable then Q.Dispatch(q, types[0]).0 else q, types[1..], creatable)
  }

  /** The tables after the loop over jobs whose worker was dispatched earlier. */
  function AfterFirst(w: World, plan: Plan): World {
    AssignAll(w, plan.first, plan.unsent)
  }

  /** The tables after the loop over queued jobs. */
  function AfterSecond(w: World, plan: Plan): World {
    var w1 := AfterFirst(w, plan);
    AssignAll(w1.(queue := Q.Refill(w1.queue)), plan.second, plan.unsent)
  }

  /** The requirements for which workers are asked of the factory. */
  function Wanted(w: World, plan: Plan): set<Key> {
    var w1, w2 := AfterFirst(w, plan), AfterSecond(w, plan);
    if w2.sent != w1.sent then Q.View(w2.queue) else Q.View(w1.queue)
  }

  predicate Idle(w: World) {
    w.queue.waiting == [] && w.queue.queued == []
  }

  /** `FindWorkerForQueuedJob` */
  function Pass(w: World, plan: Plan): World {
    if Idle(w) then w
    else
      var w1, w2 := AfterFirst(w, plan), AfterSecond(w, plan);
      if !plan.hasSpace then w2
      else
        var queue := if w2.sent != w1.sent then Q.Refill(w2.queue) else w2.queue;
        w2.(queue := DispatchAll(queue, plan.third, plan.creatable))
  }

  /** `types` runs through the set, each element once. */
  ghost predicate Enumerates(types: seq<Key>, s: set<Key>) {
    && (forall i, j :: 0 <= i < j < |types| ==> types[i] != types[j])
    && (forall r :: r in types <==> r in s)
  }

  ghost predicate PlanOk(w: World, plan: Plan) {
    !Idle(w) ==>
      && Enumerates(plan.first, Q.ReqsOf(w.queue.waiting))
      && Enumerates(plan.second, Q.View(AfterFirst(w, plan).queue))
      && (plan.hasSpace ==> Enumerates(plan.third, Wanted(w, plan)))
  }

  // ---------------------------------------------------------------- steps

  ghost predicate Enabled(w: World, e: Event) {
    match e
    case QueueJob(job) => job.id !in w.issued // the uuid generator never repeats itself
    case Schedule(plan) => PlanOk(w, plan)
    case _ => true
  }

  function Next(w: World, e: Event): World {
    match e
    case QueueJob(job) => w.(queue := Q.Add(w.queue, job), issued := w.issued[job.id := job])
    case MeshStatus(id) =>
      if id !in w.queue.ids && id in w.active then
        w.(active := w.active[id := w.active[id].(status := Cleared(w.active[id].status))])
      else w
    case RetrieveResult(id) =>
      if id in w.active && w.active[id].haveResult then w.(active := w.active - {id}) else w
    case TerminateJob(id) => if id in w.queue.ids then w.(queue := Q.Remove(w.queue, id)) else w
    case Register(a, r) => w.(pool := P.AddWorker(w.pool, a, r), alive := w.alive + {a})
    case AskForJob(a, r) => w.(pool := P.ReadyForWork(w.pool, a, r), alive := w.alive + {a}, asked := w.asked + multiset{(a, r)})
    case ReportStatus(a, s) => w.(active := UpdateStatus(w.active, s), alive := w.alive + {a})
    case ReportResult(a, id, data) => w.(active := UpdateResult(w.active, id, data), alive := w.alive + {a})
    case Heartbeat(a) => w.(alive := w.alive + {a})
    case WorkerLeaves(a) => w.(alive := w.alive - {a})
    case CheckWorkers(late) =>
      w.(active := MarkExpired(w.active, w.alive, late), pool := P.Purge(w.pool, w.alive, late))
    case Schedule(plan) => Pass(w, plan)
  }

  lemma {:induction false} NextQueueJob(w: World, job: Job)
    ensures Next(w, QueueJob(job)) == w.(queue := Q.Add(w.queue, job), issued := w.issued[job.id := job])
  {
    hide Q.Add, Pass;
  }

  lemma {:induction false} NextMeshStatus(w: World, id: Id)
    ensures Next(w, MeshStatus(id)) == if id !in w.queue.ids && id in w.active
                                       then w.(active := w.active[id := w.active[id].(status := Cleared(w.active[id].status))]) else w
  {
    hide Pass;
  }

  lemma {:induction false} NextRetrieveResult(w: World, id: Id)
    ensures Next(w, RetrieveResult(id)) == if id in w.active && w.active[id].haveResult then w.(active := w.active - {id}) else w
  {
    hide Pass;
  }

  lemma {:induction false} NextTerminateJob(w: World, id: Id)
    ensures Next(w, TerminateJob(id)) == if id in w.queue.ids then w.(queue := Q.Remove(w.queue, id)) else w
  {
    hide Q.Remove, Pass;
  }

  lemma {:induction false} NextRegister(w: World, a: Address, r: Key)
    ensures Next(w, Register(a, r)) == w.(pool := P.AddWorker(w.pool, a, r), alive := w.alive + {a})
  {
    hide P.AddWorker, Pass;
  }

  lemma {:induction false} NextAskForJob(w: World, a: Address, r: Key)
    ensures Next(w, AskForJob(a, r)) == w.(pool := P.ReadyForWork(w.pool, a, r), alive := w.alive + {a}, asked := w.asked + multiset{(a, r)})
  {
    hide P.ReadyForWork, Pass;
  }

  lemma {:induction false} NextReportStatus(w: World, a: Address, s: JobStatus)
    ensures Next(w, ReportStatus(a, s)) == w.(active := UpdateStatus(w.active, s), alive := w.alive + {a})
  {
    hide UpdateStatus, Pass;
  }

  lemma {:induction false} NextReportResult(w: World, a: Address, id: Id, data: bytes)
    ensures Next(w, ReportResult(a, id, data)) == w.(active := UpdateResult(w.active, id, data), alive := w.alive + {a})
  {
    hide UpdateResult, Pass;
  }

  lemma {:induction false} NextHeartbeat(w: World, a: Address)
    ensures Next(w, Heartbeat(a)) == w.(alive := w.alive + {a})
  {
    hide Pass;
  }

  lemma {:induction false} NextWorkerLeaves(w: World, a: Address)
    ensures Next(w, WorkerLeaves(a)) == w.(alive := w.alive - {a})
  {
    hide Pass;
  }

  lemma {:induction false} NextCheckWorkers(w: World, late: set<Address>)
    ensures Next(w, CheckWorkers(late)) ==
            w.(active := MarkExpired(w.active, w.alive, late), pool := P.Purge(w.pool, w.alive, late))
  {
    hide MarkExpired, P.Purge, Pass;
  }

  lemma {:induction false} NextSchedule(w: World, plan: Plan)
    ensures Next(w, Schedule(plan)) == Pass(w, plan)
  {
    hide Pass;
  }

  /** Outside scheduling, no job is sent and none is added to or taken from the active table but by retrieval. */
  lemma {:induction false} NextElsewhere(w: World, e: Event)
    requires !e.Schedule?
    ensures Next(w, e).sent == w.sent && Next(w, e).given == w.given
    ensures !e.QueueJob? && !e.TerminateJob? ==> Next(w, e).queue == w.queue
    ensures !e.RetrieveResult? ==> w.active.Keys <= Next(w, e).active.Keys
    ensures !e.QueueJob? ==> Next(w, e).issued == w.issued
    ensures !e.AskForJob? ==> Next(w, e).asked == w.asked
  {
    hide Next;
    match e
    case QueueJob(job) => NextQueueJob(w, job);
    case MeshStatus(id) => NextMeshStatus(w, id);
    case RetrieveResult(id) => NextRetrieveResult(w, id);
    case TerminateJob(id) => NextTerminateJob(w, id);
    case Register(a, r) => NextRegister(w, a, r);
    case AskForJob(a, r) => NextAskForJob(w, a, r);
    case ReportStatus(a, s) => NextReportStatus(w, a, s);
    case ReportResult(a, id, data) => NextReportResult(w, a, id, data);
    case Heartbeat(a) => NextHeartbeat(w, a);
    case WorkerLeaves(a) => NextWorkerLeaves(w, a);
    case CheckWorkers(late) => NextCheckWorkers(w, late);
  }

  datatype Response = Nothing | Ticket(id: Id) | Told(report: JobStatus) | Handed(data: bytes) | NoResult

  predicate Says(r: Response, status: StatusType) {
    r.Told? && r.report.status == status
  }

  /** What the client that sent the event is answered. */
  function Respond(w: World, e: Event): Response {
    match e
    case QueueJob(job) => Ticket(job.id)
    case MeshStatus(id) =>
      Told(if id in w.queue.ids then Plain(id, QUEUED) else if id in w.active then w.active[id].status else Plain(id, INVALID_STATUS))
    case RetrieveResult(id) =>
      if id in w.active && w.active[id].haveResult then Handed(w.active[id].result) else NoResult
    case TerminateJob(id) => Told(Plain(id, if id in w.queue.ids || id in w.active then FAILED else INVALID_STATUS))
    case _ => Nothing
  }

  // ---------------------------------------------------------------- invariant

  ghost predicate Inv(w: World) {
    && Q.Valid(w.queue) && P.Valid(w.pool)
    && (forall j :: j in Q.Pending(w.queue) ==> j.id in w.issued && w.issued[j.id] == j)
    && w.queue.ids <= w.issued.Keys
    && w.given.Keys <= w.issued.Keys && w.given.Keys !! w.queue.ids
    && w.active.Keys <= w.given.Keys
    && (forall id :: id in w.active ==> w.active[id].worker == w.given[id])
    && w.sent + P.Credits(w.pool) <= w.asked
  }

  /** A job that has left the queue, and whose worker has been heard of. */
  ghost predicate PastQueued(w: World, id: Id) {
    id in w.issued && id !in w.queue.ids && (id in w.active ==> !w.active[id].status.status.QUEUED?)
  }

  /** Ids only move forward from `w` to `v`, whatever happened in between. */
  ghost predicate Forward(w: World, v: World) {
    && w.issued.Keys <= v.issued.Keys
    && (forall id :: id in w.issued ==> v.issued[id] == w.issued[id])
    && Q.IdsOf(v.queue.queued) <= Q.IdsOf(w.queue.queued) + (v.issued.Keys - w.issued.Keys)
    && Q.IdsOf(v.queue.waiting) <= Q.IdsOf(w.queue.waiting) + Q.IdsOf(w.queue.queued) + (v.issued.Keys - w.issued.Keys)
    && v.active.Keys <= w.active.Keys + w.queue.ids + (v.issued.Keys - w.issued.Keys)
    && (forall id :: PastQueued(w, id) ==> PastQueued(v, id))
  }

  lemma {:induction false} ForwardReflexive(w: World)
    ensures Forward(w, w)
  {
  }

  lemma {:induction false} ForwardTransitive(w: World, v: World, u: World)
    requires Inv(w) && Inv(v) && Forward(w, v) && Forward(v, u)
    ensures Forward(w, u)
  {
    hide Inv, PastQueued, Q.IdsOf;
    QueueIds(w);
    QueueIds(v);
  }

  lemma {:induction false} QueueIds(w: World)
    requires Inv(w)
    ensures w.queue.ids == Q.IdsOf(w.queue.queued) + Q.IdsOf(w.queue.waiting)
  {
  }

  // ---------------------------------------------------------------- one assignment

  /** Handing `job` to `worker`, with the queue and pool the two takes left behind. */
  function Give(w: World, queue: Q.Queue, pool: P.Pool, alive: set<Address>, job: Job, worker: Address): World {
    w.(queue := queue, pool := pool, active := AddActive(w.active, worker, job.id), alive := alive,
       sent := w.sent + multiset{(worker, job.reqs)}, given := w.given[job.id := worker])
  }

  lemma {:induction false} GiveInv(w: World, queue: Q.Queue, pool: P.Pool, alive: set<Address>, job: Job, worker: Address)
    requires Inv(w) && Q.Valid(queue) && P.Valid(pool)
    requires Q.Pending(w.queue) == Q.Pending(queue) + multiset{job} && job.id in w.queue.ids && queue.ids == w.queue.ids - {job.id}
    requires P.Credits(w.pool) == P.Credits(pool) + multiset{(worker, job.reqs)}
    ensures Inv(Give(w, queue, pool, alive, job, worker))
  {
    hide Q.Valid, P.Valid, P.Credits, Q.Pending;
    assert job in Q.Pending(w.queue);
    var v := Give(w, queue, pool, alive, job, worker);
    assert v.sent + P.Credits(pool) == w.sent + P.Credits(w.pool);
    assert job.id !in w.active;
    assert v.active.Keys == w.active.Keys + {job.id} && v.given.Keys == w.given.Keys + {job.id};
  }

  lemma {:induction false} GiveForward(w: World, queue: Q.Queue, pool: P.Pool, alive: set<Address>, job: Job, worker: Address)
    requires Inv(w) && job.id in w.queue.ids && queue.ids == w.queue.ids - {job.id}
    requires Q.IdsOf(queue.queued) <= Q.IdsOf(w.queue.queued) && Q.IdsOf(queue.waiting) <= Q.IdsOf(w.queue.waiting)
    ensures Forward(w, Give(w, queue, pool, alive, job, worker))
  {
    hide Q.IdsOf, Q.Valid, P.Valid, P.Credits, Q.Pending;
    var v := Give(w, queue, pool, alive, job, worker);
    assert v.active.Keys == w.active.Keys + {job.id};
  }

  /** A kind with a pending job and a ready worker: the pass finds both, and moves one job to one worker. */
  lemma {:induction false} AssignOneKeeps(w: World, r: Key, unsent: set<Id>)
    requires Inv(w) && (r in Q.ReqsOf(w.queue.waiting) || r in Q.ReqsOf(w.queue.queued))
    ensures Inv(AssignOne(w, r, unsent)) && Forward(w, AssignOne(w, r, unsent))
    ensures var v := AssignOne(w, r, unsent);
            if P.HaveWaitingWorker(w.pool, r) then
              && P.TakeWorker(w.pool, r).1.Some? && Q.Take(w.queue, r).1.Some?
              && Q.PendingKinds(w.queue) == Q.PendingKinds(v.queue) + multiset{r}
              && P.Ready(w.pool) == P.Ready(v.pool) + multiset{r}
              && v.sent == w.sent + multiset{(P.TakeWorker(w.pool, r).1.value, r)}
            else v == w
  {
    if P.HaveWaitingWorker(w.pool, r) {
      assert Q.Valid(w.queue) && P.Valid(w.pool);
      hide *;
      P.TakeWorkerKeeps(w.pool, r);
      Q.TakeKeeps(w.queue, r);
      Q.TakeKinds(w.queue, r);
      Q.IdsMove(w.queue, r, 0);
      var (pool, worker) := P.TakeWorker(w.pool, r);
      var (queue, job) := Q.Take(w.queue, r);
      var alive := if job.value.id in unsent then w.alive else w.alive + {worker.value};
      GiveInv(w, queue, pool, alive, job.value, worker.value);
      GiveForward(w, queue, pool, alive, job.value, worker.value);
      AssignOneIsGive(w, r, unsent);
    } else {
      ForwardReflexive(w);
    }
  }

  lemma {:induction false} AssignOneIsGive(w: World, r: Key, unsent: set<Id>)
    requires P.HaveWaitingWorker(w.pool, r) && P.TakeWorker(w.pool, r).1.Some? && Q.Take(w.queue, r).1.Some?
    ensures var (pool, worker) := P.TakeWorker(w.pool, r);
            var (queue, job) := Q.Take(w.queue, r);
            var alive := if job.value.id in unsent then w.alive else w.alive + {worker.value};
            var v := AssignOne(w, r, unsent);
            && v == Give(w, queue, pool, alive, job.value, worker.value)
            && v.queue == queue && v.pool == pool && v.sent == w.sent + multiset{(worker.value, job.value.reqs)}
  {
    hide P.HaveWaitingWorker, P.TakeWorker, Q.Take;
  }

  // ---------------------------------------------------------------- whole passes

  ghost predicate Different(types: seq<Key>) {
    forall i, j :: 0 <= i < j < |types| ==> types[i] != types[j]
  }

  lemma {:induction false} PendingMeans(q: Q.Queue, r: Key)
    ensures Q.PendingKinds(q)[r] > 0 <==> r in Q.ReqsOf(q.waiting) || r in Q.ReqsOf(q.queued)
  {
    Q.KindsMeans(q.waiting, r);
    Q.KindsMeans(q.queued, r);
  }

  /** Whenever the loop finds a ready worker, both takes succeed. */
  ghost predicate NothingMissing(w: World, types: seq<Key>, unsent: set<Id>)
    decreases |types|
  {
    types != [] ==>
      && (P.HaveWaitingWorker(w.pool, types[0]) ==> P.TakeWorker(w.pool, types[0]).1.Some? && Q.Take(w.queue, types[0]).1.Some?)
      && NothingMissing(AssignOne(w, types[0], unsent), types[1..], unsent)
  }

  /**
    A loop over different kinds, each with a pending job, sends exactly one job for every kind that has a
    ready worker; pending jobs and requests for work go down together.
    */
  lemma {:induction false} AssignAllKeeps(w: World, types: seq<Key>, unsent: set<Id>) returns (bag: multiset<Key>)
    requires Inv(w) && Different(types) && forall r :: r in types ==> Q.PendingKinds(w.queue)[r] > 0
    ensures var v := AssignAll(w, types, unsent);
            && Inv(v) && Forward(w, v) && NothingMissing(w, types, unsent)
            && Q.PendingKinds(w.queue) == Q.PendingKinds(v.queue) + bag
            && P.Ready(w.pool) == P.Ready(v.pool) + bag
            && |v.sent| == |w.sent| + |bag| && w.sent <= v.sent
    ensures forall r :: bag[r] == if r in types && P.Ready(w.pool)[r] > 0 then 1 else 0
    decreases |types|
  {
    hide Inv, Forward, Q.PendingKinds, P.Ready, P.HaveWaitingWorker, P.TakeWorker, Q.Take, AssignOne;
    if types == [] {
      ForwardReflexive(w);
      bag := multiset{};
    } else {
      var r0 := types[0];
      var v := AssignOne(w, r0, unsent);
      PendingMeans(w.queue, r0);
      assert r0 in types;
      AssignOneKeeps(w, r0, unsent);
      P.ReadyMeans(w.pool, r0);
      forall r | r in types[1..] ensures r in types && r != r0 {
        var k :| 0 <= k < |types[1..]| && types[1..][k] == r;
        assert types[k + 1] == r;
      }
      var rest := AssignAllKeeps(v, types[1..], unsent);
      InvForward(w, v, AssignAll(v, types[1..], unsent));
      bag := if P.HaveWaitingWorker(w.pool, r0) then multiset{r0} + rest else rest;
      assert r0 !in types[1..];
      assert forall r :: r in types <==> r == r0 || r in types[1..];
    }
  }

  lemma {:induction false} InvForward(w: World, v: World, u: World)
    requires Inv(w) && Inv(v) && Forward(w, v) && Forward(v, u)
    ensures Forward(w, u)
  {
    hide Inv, Forward;
    ForwardTransitive(w, v, u);
  }

  /** Every worker the factory creates is dispatched for a job that is there. */
  ghost predicate DispatchesFound(q: Q.Queue, types: seq<Key>, creatable: set<Key>)
    decreases |types|
  {
    types != [] ==>
      && (types[0] in creatable ==> Q.Dispatch(q, types[0]).1)
      && DispatchesFound(if types[0] in creatable then Q.Dispatch(q, types[0]).0 else q, types[1..], creatable)
  }

  /** Replacing the queue by one with the same jobs, moved forward at most. */
  lemma {:induction false} RequeueKeeps(w: World, queue: Q.Queue)
    requires Inv(w) && Q.Valid(queue) && queue.ids == w.queue.ids && Q.Pending(queue) == Q.Pending(w.queue)
    requires Q.IdsOf(queue.queued) <= Q.IdsOf(w.queue.queued)
    requires Q.IdsOf(queue.waiting) <= Q.IdsOf(w.queue.waiting) + Q.IdsOf(w.queue.queued)
    ensures Inv(w.(queue := queue)) && Forward(w, w.(queue := queue))
  {
    hide Q.IdsOf, Q.Pending, Q.Valid, P.Valid, P.Credits;
  }

  lemma {:induction false} DispatchOne(w: World, r: Key)
    requires Inv(w)
    ensures var v := w.(queue := Q.Dispatch(w.queue, r).0);
            Inv(v) && Forward(w, v) && Q.PendingKinds(v.queue) == Q.PendingKinds(w.queue)
  {
    assert Q.Valid(w.queue);
    hide *;
    Q.DispatchKeeps(w.queue, r);
    Q.DispatchKinds(w.queue, r);
    Q.IdsMove(w.queue, r, 0);
    RequeueKeeps(w, Q.Dispatch(w.queue, r).0);
  }

  lemma {:induction false} DispatchOthers(q: Q.Queue, r: Key, other: Key)
    requires Q.Valid(q) && other != r && other in Q.ReqsOf(q.queued)
    ensures other in Q.ReqsOf(Q.Dispatch(q, r).0.queued)
  {
    hide Q.Valid;
    var i := Q.Find(q.queued, r);
    if i < |q.queued| {
      var k :| 0 <= k < |q.queued| && q.queued[k].reqs == other;
      var t := Q.WithoutAt(q.queued, i);
      assert t[if k < i then k else k - 1] == q.queued[k];
    }
  }

  lemma {:induction false} DispatchAllKeeps(w: World, types: seq<Key>, creatable: set<Key>)
    requires Inv(w) && Different(types) && forall r :: r in types ==> r in Q.ReqsOf(w.queue.queued)
    ensures var v := w.(queue := DispatchAll(w.queue, types, creatable));
            && Inv(v) && Forward(w, v) && Q.PendingKinds(v.queue) == Q.PendingKinds(w.queue)
            && DispatchesFound(w.queue, types, creatable)
    decreases |types|
  {
    hide Forward, Q.PendingKinds, Q.Dispatch, Q.ReqsOf;
    if types == [] {
      ForwardReflexive(w);
      assert w.(queue := w.queue) == w;
    } else {
      var r0 := types[0];
      assert r0 in types;
      var v := if r0 in creatable then w.(queue := Q.Dispatch(w.queue, r0).0) else w;
      ForwardReflexive(w);
      DispatchOne(w, r0);
      Q.DispatchKeeps(w.queue, r0);
      forall r | r in types[1..] ensures r in Q.ReqsOf(v.queue.queued) {
        var k :| 0 <= k < |types[1..]| && types[1..][k] == r;
        assert types[k + 1] == r;
        DispatchOthers(w.queue, r0, r);
      }
      DispatchAllKeeps(v, types[1..], creatable);
      var u := v.(queue := DispatchAll(v.queue, types[1..], creatable));
      assert u == w.(queue := DispatchAll(w.queue, types, creatable));
      InvForward(w, v, u);
    }
  }

  lemma {:induction false} RefillOne(w: World)
    requires Inv(w)
    ensures var v := w.(queue := Q.Refill(w.queue));
            && Inv(v) && Forward(w, v) && Q.PendingKinds(v.queue) == Q.PendingKinds(w.queue)
            && v.queue.cache == Q.View(w.queue) <= Q.ReqsOf(w.queue.queued)
  {
    assert Q.Valid(Q.Refill(w.queue));
    hide Inv, Forward, Q.Valid, Q.PendingKinds, Q.Pending, Q.IdsOf;
    RequeuePending(w.queue);
    RequeueKeeps(w, Q.Refill(w.queue));
  }

  lemma {:induction false} RequeuePending(q: Q.Queue)
    ensures Q.Pending(Q.Refill(q)) == Q.Pending(q) && Q.PendingKinds(Q.Refill(q)) == Q.PendingKinds(q)
    ensures Q.IdsOf(Q.Refill(q).queued) == Q.IdsOf(q.queued) && Q.IdsOf(Q.Refill(q).waiting) == Q.IdsOf(q.waiting)
  {
    hide Q.ReqsOf, Q.Kinds, Q.IdsOf;
  }

  /** What a pass sends, by kind. */
  ghost predicate Accounts(w: World, v: World, bag: multiset<Key>) {
    && Q.PendingKinds(w.queue) == Q.PendingKinds(v.queue) + bag
    && P.Ready(w.pool) == P.Ready(v.pool) + bag
    && |v.sent| == |w.sent| + |bag|
    && w.sent <= v.sent
  }

  lemma {:induction false} FirstLoop(w: World, plan: Plan) returns (bag: multiset<Key>)
    requires Inv(w) && Enumerates(plan.first, Q.ReqsOf(w.queue.waiting))
    ensures var v := AfterFirst(w, plan);
            Inv(v) && Forward(w, v) && Accounts(w, v, bag) && NothingMissing(w, plan.first, plan.unsent)
    ensures bag != multiset{} <==> exists r :: P.Ready(w.pool)[r] > 0 && r in Q.ReqsOf(w.queue.waiting)
  {
    hide Inv, Forward, Q.PendingKinds, P.Ready, Q.ReqsOf, NothingMissing, AssignAll;
    forall r | r in plan.first ensures Q.PendingKinds(w.queue)[r] > 0 { PendingMeans(w.queue, r); }
    bag := AssignAllKeeps(w, plan.first, plan.unsent);
    NonEmpty(bag, plan.first, P.Ready(w.pool));
  }

  lemma {:induction false} NonEmpty(bag: multiset<Key>, types: seq<Key>, ready: multiset<Key>)
    requires forall r :: bag[r] == if r in types && ready[r] > 0 then 1 else 0
    ensures bag != multiset{} <==> exists r :: ready[r] > 0 && r in types
  {
    if r :| ready[r] > 0 && r in types {
      assert bag[r] == 1;
    } else {
      assert forall r :: bag[r] == 0;
    }
  }

  lemma {:induction false} SecondLoop(w: World, plan: Plan) returns (bag: multiset<Key>)
    requires Inv(AfterFirst(w, plan)) && Enumerates(plan.second, Q.View(AfterFirst(w, plan).queue))
    ensures var w1, v := AfterFirst(w, plan), AfterSecond(w, plan);
            && Inv(v) && Forward(w1, v) && Accounts(w1, v, bag)
            && NothingMissing(w1.(queue := Q.Refill(w1.queue)), plan.second, plan.unsent)
            && (v.sent == w1.sent ==> v.queue == Q.Refill(w1.queue))
    ensures bag != multiset{} <==> exists r :: P.Ready(AfterFirst(w, plan).pool)[r] > 0 && r in Q.View(AfterFirst(w, plan).queue)
  {
    hide Inv, Forward, Q.PendingKinds, P.Ready, Q.ReqsOf, NothingMissing, AssignAll, AfterFirst, Q.View, Q.Refill;
    var w1 := AfterFirst(w, plan);
    var w1' := w1.(queue := Q.Refill(w1.queue));
    RefillOne(w1);
    forall r | r in plan.second ensures Q.PendingKinds(w1'.queue)[r] > 0 { PendingMeans(w1.queue, r); }
    bag := AssignAllKeeps(w1', plan.second, plan.unsent);
    NonEmpty(bag, plan.second, P.Ready(w1.pool));
    InvForward(w1, w1', AfterSecond(w, plan));
    if AfterSecond(w, plan).sent == w1.sent {
      assert |bag| == 0;
      forall r | r in plan.second ensures !P.HaveWaitingWorker(w1'.pool, r) {
        P.ReadyMeans(w1'.pool, r);
        assert bag[r] == 0;
      }
      AssignNone(w1', plan.second, plan.unsent);
    }
  }

  lemma {:induction false} AssignNone(w: World, types: seq<Key>, unsent: set<Id>)
    requires forall r :: r in types ==> !P.HaveWaitingWorker(w.pool, r)
    ensures AssignAll(w, types, unsent) == w
    decreases |types|
  {
    hide P.HaveWaitingWorker;
    if types != [] {
      assert types[0] in types;
      AssignNone(w, types[1..], unsent);
    }
  }

  /** The queue in which workers are asked of the factory, and the dispatches made there. */
  ghost predicate ThirdFound(w: World, plan: Plan) {
    plan.hasSpace ==>
      DispatchesFound(if AfterSecond(w, plan).sent != AfterFirst(w, plan).sent then Q.Refill(AfterSecond(w, plan).queue) else AfterSecond(w, plan).queue,
                      plan.third, plan.creatable)
  }

  lemma {:induction false} ThirdLoop(w: World, plan: Plan)
    requires Inv(AfterFirst(w, plan)) && Inv(AfterSecond(w, plan)) && !Idle(w)
    requires plan.hasSpace ==> Enumerates(plan.third, Wanted(w, plan))
    requires AfterSecond(w, plan).sent == AfterFirst(w, plan).sent ==> AfterSecond(w, plan).queue == Q.Refill(AfterFirst(w, plan).queue)
    ensures var w2, v := AfterSecond(w, plan), Pass(w, plan);
            && Inv(v) && Forward(w2, v) && Q.PendingKinds(v.queue) == Q.PendingKinds(w2.queue) && v.pool == w2.pool && v.sent == w2.sent
            && ThirdFound(w, plan)
  {
    hide Inv, Forward, Q.PendingKinds, Q.ReqsOf, AfterFirst, AfterSecond, Q.View, Q.Refill, Idle, DispatchAll, DispatchesFound;
    var w1, w2 := AfterFirst(w, plan), AfterSecond(w, plan);
    ForwardReflexive(w2);
    if plan.hasSpace {
      var w3 := if w2.sent != w1.sent then w2.(queue := Q.Refill(w2.queue)) else w2;
      RefillOne(w1);
      RefillOne(w2);
      RefilledQueue(w1.queue);
      RefilledQueue(w2.queue);
      assert forall r :: r in plan.third ==> r in Q.ReqsOf(w3.queue.queued);
      DispatchAllKeeps(w3, plan.third, plan.creatable);
      var v := w3.(queue := DispatchAll(w3.queue, plan.third, plan.creatable));
      assert v == Pass(w, plan);
      InvForward(w2, w3, v);
    }
  }

  lemma {:induction false} RefilledQueue(q: Q.Queue)
    ensures Q.Refill(q).queued == q.queued
  {
  }

  /**
    A pass finds every job and worker it reaches for; it lowers pending jobs and requests for work together;
    and it sends something exactly when some ready kind is waiting or in the queue's view of itself.
    */
  lemma {:induction false} PassKeeps(w: World, plan: Plan) returns (bag: multiset<Key>)
    requires Inv(w) && PlanOk(w, plan)
    ensures Inv(Pass(w, plan)) && Forward(w, Pass(w, plan)) && Accounts(w, Pass(w, plan), bag)
    ensures !Idle(w) ==> && NothingMissing(w, plan.first, plan.unsent)
                         && NothingMissing(AfterFirst(w, plan).(queue := Q.Refill(AfterFirst(w, plan).queue)), plan.second, plan.unsent)
                         && ThirdFound(w, plan)
    ensures bag != multiset{} <==>
            exists r :: P.Ready(w.pool)[r] > 0 && (r in Q.ReqsOf(w.queue.waiting) || r in Q.View(w.queue))
  {
    hide Inv, Forward, Q.PendingKinds, P.Ready, Q.ReqsOf, NothingMissing, ThirdFound, AfterSecond, Pass, Q.View, Q.Refill;
    if Idle(w) {
      bag := multiset{};
      ForwardReflexive(w);
      IdlePass(w, plan);
    } else {
      var w1, w2 := AfterFirst(w, plan), AfterSecond(w, plan);
      var bag1 := FirstLoop(w, plan);
      hide AfterFirst;
      var bag2 := SecondLoop(w, plan);
      ThirdLoop(w, plan);
      InvForward(w, w1, w2);
      InvForward(w, w2, Pass(w, plan));
      bag := bag1 + bag2;
      if bag1 == multiset{} {
        NothingFirst(w, plan);
      }
    }
  }

  lemma {:induction false} IdlePass(w: World, plan: Plan)
    requires Idle(w)
    ensures Pass(w, plan) == w && Q.ReqsOf(w.queue.waiting) == {} && (Inv(w) ==> Q.View(w.queue) == {})
  {
  }

  lemma {:induction false} NothingFirst(w: World, plan: Plan)
    requires Enumerates(plan.first, Q.ReqsOf(w.queue.waiting))
    requires !exists r :: P.Ready(w.pool)[r] > 0 && r in Q.ReqsOf(w.queue.waiting)
    ensures AfterFirst(w, plan) == w
  {
    hide P.Ready, Q.ReqsOf, AssignAll;
    forall r | r in plan.first ensures !P.HaveWaitingWorker(w.pool, r) {
      P.ReadyMeans(w.pool, r);
    }
    AssignNone(w, plan.first, plan.unsent);
  }

  // ---------------------------------------------------------------- the cache during a pass

  /** Ready requests of a kind beyond the jobs that already wait for a worker of that kind. */
  ghost function Surplus(w: World, r: Key): int {
    P.Ready(w.pool)[r] as int - Q.Kinds(w.queue.waiting)[r] as int
  }

  /** Nothing happened but that waiting jobs met their workers. */
  ghost predicate OnlyWaiting(w: World, v: World) {
    && v.queue.queued == w.queue.queued && v.queue.cache == w.queue.cache
    && forall r :: Surplus(v, r) == Surplus(w, r)
  }

  /** From `w` to `v` either the cache has come to hide nothing, or only waiting jobs were sent. */
  ghost predicate Moves(w: World, v: World) {
    Q.Coherent(v.queue) || OnlyWaiting(w, v)
  }

  lemma {:induction false} MovesTransitive(w: World, v: World, u: World)
    requires Moves(w, v) && Moves(v, u)
    ensures Moves(w, u)
  {
    hide Surplus, Q.ReqsOf;
  }

  lemma {:induction false} OnlyWaitingMoves(w: World)
    ensures OnlyWaiting(w, w)
  {
  }

  lemma {:induction false} AssignOneMoves(w: World, r: Key, unsent: set<Id>)
    requires Inv(w) && (r in Q.ReqsOf(w.queue.waiting) || r in Q.ReqsOf(w.queue.queued))
    ensures Moves(w, AssignOne(w, r, unsent))
    ensures (P.Ready(w.pool)[r] > 0 ==> r in Q.ReqsOf(w.queue.waiting)) ==> OnlyWaiting(w, AssignOne(w, r, unsent))
  {
    ValidTables(w);
    hide Inv, Forward, Q.Valid, P.Valid, Q.ReqsOf, Q.PendingKinds, P.Ready, P.HaveWaitingWorker, P.TakeWorker, Q.Take, Q.Kinds, AssignOne, Q.Coherent, Surplus;
    P.ReadyMeans(w.pool, r);
    AssignOneKeeps(w, r, unsent);
    if P.HaveWaitingWorker(w.pool, r) {
      Q.TakeMoves(w.queue, r);
      AssignOneIsGive(w, r, unsent);
      TakenMoves(w, AssignOne(w, r, unsent), r);
    } else {
      OnlyWaitingMoves(w);
    }
  }

  lemma {:induction false} TakenMoves(w: World, v: World, r: Key)
    requires P.Ready(w.pool) == P.Ready(v.pool) + multiset{r}
    requires if r in Q.ReqsOf(w.queue.waiting)
             then v.queue.queued == w.queue.queued && v.queue.cache == w.queue.cache
                  && Q.Kinds(w.queue.waiting) == Q.Kinds(v.queue.waiting) + multiset{r}
             else v.queue.cache == {}
    ensures Moves(w, v) && (r in Q.ReqsOf(w.queue.waiting) ==> OnlyWaiting(w, v))
  {
    hide P.Ready, Q.Kinds, Q.ReqsOf;
  }

  lemma {:induction false} ValidTables(w: World)
    requires Inv(w)
    ensures Q.Valid(w.queue) && P.Valid(w.pool)
  {
  }

  /** A matching loop over pending kinds; it leaves the cache alone if every ready kind of it has a job waiting. */
  lemma {:induction false} AssignAllMoves(w: World, types: seq<Key>, unsent: set<Id>)
    requires Inv(w) && Different(types) && forall r :: r in types ==> Q.PendingKinds(w.queue)[r] > 0
    ensures Moves(w, AssignAll(w, types, unsent))
    ensures (forall r :: r in types && P.Ready(w.pool)[r] > 0 ==> r in Q.ReqsOf(w.queue.waiting))
            ==> OnlyWaiting(w, AssignAll(w, types, unsent))
    decreases |types|
  {
    hide Inv, Forward, Q.PendingKinds, P.Ready, P.HaveWaitingWorker, P.TakeWorker, Q.Take, AssignOne, Q.ReqsOf, Q.Kinds, Q.Coherent, OnlyWaiting, Moves;
    if types == [] {
      OnlyWaitingMoves(w);
      SameMoves(w);
    } else {
      var r0, rest := types[0], types[1..];
      var v := AssignOne(w, r0, unsent);
      assert r0 in types;
      PendingMeans(w.queue, r0);
      AssignOneKeeps(w, r0, unsent);
      AssignOneMoves(w, r0, unsent);
      forall r | r in rest ensures r in types && r != r0 && Q.PendingKinds(v.queue)[r] > 0 {
        var k :| 0 <= k < |rest| && rest[k] == r;
        assert types[k + 1] == r && r in types && r != r0;
        assert Q.PendingKinds(w.queue)[r] == Q.PendingKinds(v.queue)[r];
      }
      AssignAllMoves(v, rest, unsent);
      MovesTransitive(w, v, AssignAll(v, rest, unsent));
      if forall r :: r in types && P.Ready(w.pool)[r] > 0 ==> r in Q.ReqsOf(w.queue.waiting) {
        forall r | r in rest && P.Ready(v.pool)[r] > 0 ensures r in Q.ReqsOf(v.queue.waiting) {
          assert P.Ready(w.pool)[r] == P.Ready(v.pool)[r];
          StillWaits(w, v, r);
        }
        OnlyWaitingTransitive(w, v, AssignAll(v, rest, unsent));
      }
    }
  }

  lemma {:induction false} SameMoves(w: World)
    ensures Moves(w, w)
  {
  }

  lemma {:induction false} OnlyWaitingTransitive(w: World, v: World, u: World)
    requires OnlyWaiting(w, v) && OnlyWaiting(v, u)
    ensures OnlyWaiting(w, u)
  {
    hide Surplus;
  }

  /** A kind whose ready requests did not change has as many jobs waiting as before. */
  lemma {:induction false} StillWaits(w: World, v: World, r: Key)
    requires OnlyWaiting(w, v) && P.Ready(v.pool)[r] == P.Ready(w.pool)[r] && r in Q.ReqsOf(w.queue.waiting)
    ensures r in Q.ReqsOf(v.queue.waiting)
  {
    Q.KindsMeans(w.queue.waiting, r);
    Q.KindsMeans(v.queue.waiting, r);
    hide Q.ReqsOf, Q.Kinds, P.Ready;
    assert Surplus(v, r) == Surplus(w, r);
  }

  lemma {:induction false} RefillMoves(w: World)
    ensures Moves(w, w.(queue := Q.Refill(w.queue)))
  {
    hide Q.ReqsOf, Q.Kinds, P.Ready;
  }

  lemma {:induction false} DispatchAllMoves(w: World, types: seq<Key>, creatable: set<Key>)
    ensures Moves(w, w.(queue := DispatchAll(w.queue, types, creatable)))
    decreases |types|
  {
    hide Q.Dispatch, Moves;
    if types == [] {
      SameMoves(w);
      assert w.(queue := w.queue) == w;
    } else {
      var r := types[0];
      var v := if r in creatable then w.(queue := Q.Dispatch(w.queue, r).0) else w;
      DispatchMoves(w, r);
      SameMoves(w);
      DispatchAllMoves(v, types[1..], creatable);
      MovesTransitive(w, v, v.(queue := DispatchAll(v.queue, types[1..], creatable)));
    }
  }

  lemma {:induction false} DispatchMoves(w: World, r: Key)
    ensures Moves(w, w.(queue := Q.Dispatch(w.queue, r).0))
  {
    hide Q.ReqsOf, Q.Kinds, P.Ready, Q.Find, Q.WithoutAt;
  }

  lemma {:induction false} PassMoves(w: World, plan: Plan)
    requires Inv(w) && PlanOk(w, plan)
    ensures Moves(w, Pass(w, plan))
  {
    hide Moves, Q.Coherent, Q.PendingKinds, P.Ready, Forward, AssignAll, Q.View, Q.Refill, DispatchAll, Q.ReqsOf, Inv;
    if Idle(w) {
      SameMoves(w);
    } else {
      var w1, w2 := AfterFirst(w, plan), AfterSecond(w, plan);
      forall r | r in plan.first ensures Q.PendingKinds(w.queue)[r] > 0 { PendingMeans(w.queue, r); }
      AssignAllMoves(w, plan.first, plan.unsent);
      var bag1 := FirstLoop(w, plan);
      var w1' := w1.(queue := Q.Refill(w1.queue));
      RefillOne(w1);
      RefillMoves(w1);
      MovesTransitive(w, w1, w1');
      forall r | r in plan.second ensures Q.PendingKinds(w1'.queue)[r] > 0 { PendingMeans(w1.queue, r); }
      AssignAllMoves(w1', plan.second, plan.unsent);
      MovesTransitive(w, w1', w2);
      var w3 := if w2.sent != w1.sent then w2.(queue := Q.Refill(w2.queue)) else w2;
      RefillMoves(w2);
      SameMoves(w2);
      MovesTransitive(w, w2, w3);
      DispatchAllMoves(w3, plan.third, plan.creatable);
      MovesTransitive(w, w3, w3.(queue := DispatchAll(w3.queue, plan.third, plan.creatable)));
    }
  }

  /** Passes alone never make the cache hide anything. */
  lemma {:induction false} PassCoherent(w: World, plan: Plan)
    requires Inv(w) && PlanOk(w, plan) && Q.Coherent(w.queue)
    ensures Q.Coherent(Pass(w, plan).queue)
  {
    hide Pass, PlanOk, Inv;
    PassMoves(w, plan);
  }

  /** Some kind has both a pending job and a worker ready for it. */
  ghost predicate Pair(w: World, r: Key) {
    Q.PendingKinds(w.queue)[r] > 0 && P.Ready(w.pool)[r] > 0
  }

  lemma {:induction false} CoherentProgress(w: World, plan: Plan) returns (bag: multiset<Key>)
    requires Inv(w) && PlanOk(w, plan) && Q.Coherent(w.queue)
    ensures Inv(Pass(w, plan)) && Q.Coherent(Pass(w, plan).queue) && Accounts(w, Pass(w, plan), bag)
    ensures bag != multiset{} <==> exists r :: Pair(w, r)
  {
    hide Pass, PlanOk, Q.Coherent, Accounts, P.Ready, Q.PendingKinds, Q.View, Q.ReqsOf, Forward;
    bag := PassKeeps(w, plan);
    PassCoherent(w, plan);
    Q.ViewOfCoherent(w.queue);
    forall r ensures Pair(w, r) <==> P.Ready(w.pool)[r] > 0 && (r in Q.ReqsOf(w.queue.waiting) || r in Q.View(w.queue)) {
      PendingMeans(w.queue, r);
    }
  }

  // ---------------------------------------------------------------- starvation

  /**
    A pass with something to match sends a job exactly when some ready kind is waiting for its worker or shows
    in the queue's view; a ready kind that the cache hides is passed over.
    */
  lemma {:induction false} ProgressExactly(w: World, plan: Plan, r: Key)
    requires Inv(w) && PlanOk(w, plan) && Pair(w, r)
    ensures Pass(w, plan).sent != w.sent <==>
            exists k :: P.Ready(w.pool)[k] > 0 && (k in Q.ReqsOf(w.queue.waiting) || k in Q.View(w.queue))
  {
    hide Pass, PlanOk, P.Ready, Q.View, Q.ReqsOf, Inv;
    var bag := PassKeeps(w, plan);
    var v := Pass(w, plan);
    if bag == multiset{} {
      assert v.sent == w.sent + (v.sent - w.sent);
      assert |v.sent - w.sent| == 0;
    } else {
      assert |bag| > 0;
    }
  }
}
