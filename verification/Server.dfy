/** The broker's services as the server runs them: every method is one step of the state machine. */
module Server {
  import opened Bytes
  import opened Requirements
  import opened ActiveJobs
  import opened Broker
  import opened BrokerRuns
  import Q = JobQueue
  import P = WorkerPool
  import W = Worker

  lemma {:induction false} AssignAllSnoc(w: World, types: seq<Key>, r: Key, unsent: set<Id>)
    ensures AssignAll(w, types + [r], unsent) == AssignOne(AssignAll(w, types, unsent), r, unsent)
    decreases |types|
  {
    hide AssignOne;
    var all := types + [r];
    if types == [] {
      assert all[1..] == [];
      assert AssignAll(AssignOne(w, r, unsent), [], unsent) == AssignOne(w, r, unsent);
    } else {
      assert all[0] == types[0] && all[1..] == types[1..] + [r];
      AssignAllSnoc(AssignOne(w, types[0], unsent), types[1..], r, unsent);
    }
  }

  lemma {:induction false} DispatchAllSnoc(q: Q.Queue, types: seq<Key>, r: Key, creatable: set<Key>)
    ensures var v := DispatchAll(q, types, creatable);
            DispatchAll(q, types + [r], creatable) == if r in creatable then Q.Dispatch(v, r).0 else v
    decreases |types|
  {
    hide Q.Dispatch;
    var all := types + [r];
    if types == [] {
      assert all[1..] == [];
      var v := if r in creatable then Q.Dispatch(q, r).0 else q;
      assert DispatchAll(v, [], creatable) == v;
    } else {
      assert all[0] == types[0] && all[1..] == types[1..] + [r];
      DispatchAllSnoc(if types[0] in creatable then Q.Dispatch(q, types[0]).0 else q, types[1..], r, creatable);
    }
  }

  lemma {:induction false} EnumeratesSnoc(types: seq<Key>, s: set<Key>, r: Key)
    requires Enumerates(types, s) && r !in s
    ensures Enumerates(types + [r], s + {r})
  {
    var all := types + [r];
    assert forall i :: 0 <= i < |types| ==> all[i] == types[i] && types[i] in types;
    assert forall k :: k in all <==> k in types || k == r;
  }

  lemma {:induction false} OneAssignment(w: World, r: Key, unsent: set<Id>, rest: set<Key>)
    requires Inv(w) && Q.PendingKinds(w.queue)[r] > 0 && forall k :: k in rest ==> Q.PendingKinds(w.queue)[k] > 0
    ensures var v := AssignOne(w, r, unsent);
            && Inv(v)
            && (forall k :: k in rest && k != r ==> Q.PendingKinds(v.queue)[k] > 0)
            && (if P.HaveWaitingWorker(w.pool, r) then |v.sent| == |w.sent| + 1 else v == w)
            && (P.HaveWaitingWorker(w.pool, r) ==> P.TakeWorker(w.pool, r).1.Some? && Q.Take(w.queue, r).1.Some?)
  {
    hide Inv, Q.PendingKinds, P.HaveWaitingWorker, AssignOne, P.TakeWorker, Q.Take, P.Ready, Forward;
    PendingMeans(w.queue, r);
    AssignOneKeeps(w, r, unsent);
    var v := AssignOne(w, r, unsent);
    forall k | k in rest && k != r ensures Q.PendingKinds(v.queue)[k] > 0 {
      assert Q.PendingKinds(w.queue)[k] > 0;
    }
  }

  class Server {
    const queue: Q.ServerQueue
    const pool: P.ServerPool
    const factory: W.WorkerFactory
    var active: Active
    var alive: set<Address>
    ghost var issued: map<Id, Job>
    ghost var asked: multiset<(Address, Key)>
    ghost var sent: multiset<(Address, Key)>
    ghost var given: map<Id, Address>

    ghost function State(): World
      reads this, queue, pool
    {
      World(queue.State(), pool.pool, active, alive, issued, asked, sent, given)
    }

    constructor (factory: W.WorkerFactory)
      ensures State() == START && fresh(queue) && fresh(pool) && this.factory == factory
    {
      this.factory := factory;
      queue := new Q.ServerQueue();
      pool := new P.ServerPool();
      active, alive := map[], {};
      issued, asked, sent, given := map[], multiset{}, multiset{}, map[];
    }

    // -------------------------------------------------------------- clients

    method QueueNewJob(job: Job) returns (ticket: Response)
      requires Inv(State()) && job.id !in issued
      modifies this, queue
      ensures State() == Next(old(State()), QueueJob(job)) && Inv(State())
      ensures ticket == Respond(old(State()), QueueJob(job))
    {
      hide Next, Inv, Q.Add;
      NextKeeps(State(), QueueJob(job));
      NextQueueJob(State(), job);
      ValidQueue(State());
      var added := queue.AddJob(job);
      issued := issued[job.id := job];
      ticket := Ticket(job.id);
    }

    method StatusOf(id: Id) returns (answer: Response)
      requires Inv(State())
      modifies this
      ensures State() == Next(old(State()), MeshStatus(id)) && Inv(State())
      ensures answer == Respond(old(State()), MeshStatus(id))
    {
      hide Next, Inv;
      NextKeeps(State(), MeshStatus(id));
      NextMeshStatus(State(), id);
      var status := Plain(id, INVALID_STATUS);
      if id in queue.ids {
        status := Plain(id, QUEUED);
      } else if id in active {
        status := active[id].status;
        active := active[id := active[id].(status := Cleared(active[id].status))];
      }
      answer := Told(status);
    }

    method Retrieve(id: Id) returns (answer: Response)
      requires Inv(State())
      modifies this
      ensures State() == Next(old(State()), RetrieveResult(id)) && Inv(State())
      ensures answer == Respond(old(State()), RetrieveResult(id))
    {
      hide Next, Inv;
      NextKeeps(State(), RetrieveResult(id));
      NextRetrieveResult(State(), id);
      answer := NoResult;
      if id in active && active[id].haveResult {
        answer := Handed(active[id].result);
        active := active - {id};
      }
    }

    method Terminate(id: Id) returns (answer: Response)
      requires Inv(State())
      modifies this, queue
      ensures State() == Next(old(State()), TerminateJob(id)) && Inv(State())
      ensures answer == Respond(old(State()), TerminateJob(id))
    {
      hide Next, Inv, Q.Remove;
      NextKeeps(State(), TerminateJob(id));
      NextTerminateJob(State(), id);
      var inQueue, isActive := id in queue.ids, id in active;
      if !(inQueue || isActive) {
        return Told(Plain(id, INVALID_STATUS));
      }
      if inQueue {
        var found := queue.RemoveJob(id);
      }
      // for an active job only a message goes to its worker
      answer := Told(Plain(id, FAILED));
    }

    // -------------------------------------------------------------- workers

    /** `DetermineWorkerResponse`, for the messages that carry a valid payload. */
    method WorkerMessage(e: Event) returns (workerTerminated: bool)
      requires Inv(State())
      requires e.Register? || e.AskForJob? || e.ReportStatus? || e.ReportResult? || e.Heartbeat? || e.WorkerLeaves?
      modifies this, pool
      ensures State() == Next(old(State()), e) && Inv(State())
      ensures workerTerminated <==> e.WorkerLeaves?
    {
      hide Next, Inv;
      ghost var w := State();
      NextKeeps(w, e);
      workerTerminated := e.WorkerLeaves?;
      match e {
        case Register(a, r) => CanMeshRequirements(a, r);
        case AskForJob(a, r) => MakeMesh(a, r);
        case ReportStatus(a, s) => StatusReport(a, s);
        case ReportResult(a, id, data) => ResultReport(a, id, data);
        case Heartbeat(a) =>
          NextHeartbeat(w, a);
          alive := alive + {a};
        case WorkerLeaves(a) =>
          NextWorkerLeaves(w, a);
          alive := alive - {a};
      }
    }

    // the messages below all end with a refresh of the worker in the monitor

    method CanMeshRequirements(a: Address, r: Key)
      modifies this`alive, pool
      ensures State() == Next(old(State()), Register(a, r))
    {
      hide Next, P.AddWorker;
      NextRegister(State(), a, r);
      pool.Add(a, r);
      alive := alive + {a};
    }

    method MakeMesh(a: Address, r: Key)
      modifies this`alive, this`asked, pool
      ensures State() == Next(old(State()), AskForJob(a, r))
    {
      hide Next, P.ReadyForWork, P.HaveWorker;
      NextAskForJob(State(), a, r);
      var known := pool.MarkReady(a, r);
      asked := asked + multiset{(a, r)};
      alive := alive + {a};
    }

    method StatusReport(a: Address, s: JobStatus)
      modifies this`alive, this`active
      ensures State() == Next(old(State()), ReportStatus(a, s))
    {
      hide Next, UpdateStatus;
      NextReportStatus(State(), a, s);
      StoreStatus(s);
      alive := alive + {a};
    }

    method ResultReport(a: Address, id: Id, data: bytes)
      modifies this`alive, this`active
      ensures State() == Next(old(State()), ReportResult(a, id, data))
    {
      hide Next, UpdateResult;
      NextReportResult(State(), a, id, data);
      StoreResult(id, data);
      alive := alive + {a};
    }

    method StoreStatus(s: JobStatus)
      modifies this`active
      ensures active == UpdateStatus(old(active), s)
    {
      if s.id in active && CanUpdate(active[s.id], s) {
        active := active[s.id := active[s.id].(status := Merge(active[s.id].status, s))];
      }
    }

    method StoreResult(id: Id, data: bytes)
      modifies this`active
      ensures active == UpdateResult(old(active), id, data)
    {
      if id in active {
        var status := if active[id].status.status.FAILED? then active[id].status else Plain(id, FINISHED);
        active := active[id := JobState(active[id].worker, status, data, true)];
      }
    }

    /** `CheckForChangeInWorkersAndJobs`; `living` are the processes of the factory that still run. */
    method CheckForChange(late: set<Address>, living: set<nat>)
      requires Inv(State())
      modifies this, pool, factory
      ensures State() == Next(old(State()), CheckWorkers(late)) && Inv(State())
      ensures factory.processes == W.Living(old(factory.processes), living)
    {
      hide Next, Inv, P.Purge, MarkExpired;
      NextKeeps(State(), CheckWorkers(late));
      NextCheckWorkers(State(), late);
      MarkExpiredJobs(late);
      pool.PurgeDead(alive, late);
      factory.UpdateWorkerCount(living);
    }

    method MarkExpiredJobs(late: set<Address>)
      modifies this`active
      ensures active == MarkExpired(old(active), alive, late)
    {
      var rest := active.Keys;
      while rest != {}
        invariant rest <= active.Keys == old(active).Keys
        invariant forall id :: id in active ==> active[id] == if id in rest then old(active)[id] else Expired(old(active)[id], alive, late)
        decreases rest
      {
        var id :| id in rest;
        if active[id].status.Good() && Unresponsive(active[id].worker, alive, late) {
          active := active[id := active[id].(status := Plain(active[id].status.id, EXPIRED))];
        }
        rest := rest - {id};
      }
    }

    // -------------------------------------------------------------- scheduling

    /** Both takes and `assignJobToWorker`, once a worker is known to wait. */
    method Assign(r: Key, unsent: set<Id>)
      requires P.HaveWaitingWorker(pool.pool, r) && P.TakeWorker(pool.pool, r).1.Some? && Q.Take(queue.State(), r).1.Some?
      modifies this, queue, pool
      ensures State() == AssignOne(old(State()), r, unsent)
    {
      hide P.HaveWaitingWorker, P.TakeWorker, Q.Take;
      var worker := pool.Take(r);
      var job := queue.TakeJob(r);
      active := AddActive(active, worker.value, job.value.id);
      given := given[job.value.id := worker.value];
      sent := sent + multiset{(worker.value, job.value.reqs)};
      if job.value.id !in unsent {
        alive := alive + {worker.value};
      }
    }

    /** One of the two loops that match kinds of pending jobs with waiting workers. */
    method AssignEach(types: set<Key>, unsent: set<Id>) returns (matched: bool, ghost order: seq<Key>)
      requires Inv(State()) && forall r :: r in types ==> Q.PendingKinds(queue.State())[r] > 0
      modifies this, queue, pool
      ensures Enumerates(order, types) && State() == AssignAll(old(State()), order, unsent) && Inv(State())
      ensures matched <==> sent != old(sent)
    {
      hide Inv, Q.PendingKinds, AssignOne, AssignAll, P.HaveWaitingWorker, P.TakeWorker, Q.Take, Enumerates;
      matched, order := false, [];
      var rest := types;
      AssignAllNothing(State(), unsent);
      EnumeratesNothing();
      while rest != {}
        invariant rest <= types && Inv(State())
        invariant forall r :: r in rest ==> Q.PendingKinds(queue.State())[r] > 0
        invariant State() == AssignAll(old(State()), order, unsent)
        invariant Enumerates(order, types - rest)
        invariant if matched then |sent| > |old(sent)| else sent == old(sent)
        decreases rest
      {
        var r :| r in rest;
        ghost var w := State();
        OneAssignment(w, r, unsent, rest);
        AssignAllSnoc(old(State()), order, r, unsent);
        EnumeratesSnoc(order, types - rest, r);
        assert types - (rest - {r}) == types - rest + {r};
        var ready := pool.HasWaiting(r);
        if ready {
          Assign(r, unsent);
          matched := true;
        }
        assert State() == AssignOne(w, r, unsent);
        order := order + [r];
        rest := rest - {r};
      }
      assert types - rest == types;
    }

    /** The loop that asks the factory for workers. */
    method DispatchEach(types: set<Key>, creatable: set<Key>) returns (ghost order: seq<Key>)
      modifies queue
      ensures Enumerates(order, types) && queue.State() == DispatchAll(old(queue.State()), order, creatable)
    {
      hide Q.Dispatch, DispatchAll, Enumerates;
      order := [];
      var rest := types;
      DispatchAllNothing(queue.State(), creatable);
      EnumeratesNothing();
      while rest != {}
        invariant rest <= types && Enumerates(order, types - rest)
        invariant queue.State() == DispatchAll(old(queue.State()), order, creatable)
        decreases rest
      {
        var r :| r in rest;
        DispatchAllSnoc(old(queue.State()), order, r, creatable);
        EnumeratesSnoc(order, types - rest, r);
        assert types - (rest - {r}) == types - rest + {r};
        if r in creatable {
          var found := queue.WorkerDispatched(r);
        }
        order := order + [r];
        rest := rest - {r};
      }
      assert types - rest == types;
    }

    /** `FindWorkerForQueuedJob`, with the answers of the factory and of the sends given. */
    method FindWorkerForQueuedJob(hasSpace: bool, creatable: set<Key>, unsent: set<Id>) returns (ghost plan: Plan)
      requires Inv(State())
      modifies this, queue, pool
      ensures PlanOk(old(State()), plan) && plan.hasSpace == hasSpace && plan.creatable == creatable && plan.unsent == unsent
      ensures State() == Next(old(State()), Schedule(plan)) && Inv(State())
    {
      hide Next, Inv, Q.PendingKinds, AssignAll, DispatchAll, Enumerates, Q.Refill, Q.View, Q.ReqsOf;
      plan := Plan([], [], [], hasSpace, creatable, unsent);
      if |queue.waiting| == 0 && |queue.queued| == 0 {
        NextSchedule(State(), plan);
        return;
      }
      ghost var w := State();
      var waitingTypes := queue.WaitingJobRequirements();
      WaitingPending(w);
      var ignored, first := AssignEach(waitingTypes, unsent);
      plan := plan.(first := first);
      ghost var w1 := State();
      assert w1 == AfterFirst(w, plan);
      RefillOne(w1);
      ViewPending(w1);
      var queuedTypes := queue.QueuedJobRequirements();
      assert State() == w1.(queue := Q.Refill(w1.queue));
      var matched, second := AssignEach(queuedTypes, unsent);
      plan := plan.(second := second);
      ghost var w2 := State();
      assert w2 == AfterSecond(w, plan);
      if hasSpace {
        if matched {
          queuedTypes := queue.QueuedJobRequirements();
        }
        assert queuedTypes == Wanted(w, plan);
        var third := DispatchEach(queuedTypes, creatable);
        plan := plan.(third := third);
      }
      SamePlan(w, plan.(third := []), plan);
      assert PlanOk(w, plan);
      assert State() == Pass(w, plan);
      NextKeeps(w, Schedule(plan));
      NextSchedule(w, plan);
    }
  }

  lemma {:induction false} AssignAllNothing(w: World, unsent: set<Id>)
    ensures AssignAll(w, [], unsent) == w
  {
  }

  lemma {:induction false} DispatchAllNothing(q: Q.Queue, creatable: set<Key>)
    ensures DispatchAll(q, [], creatable) == q
  {
  }

  lemma {:induction false} EnumeratesNothing()
    ensures forall s: set<Key> :: s == {} ==> Enumerates([], s)
  {
  }

  lemma {:induction false} WaitingPending(w: World)
    ensures forall r :: r in Q.ReqsOf(w.queue.waiting) ==> Q.PendingKinds(w.queue)[r] > 0
  {
    forall r | r in Q.ReqsOf(w.queue.waiting) ensures Q.PendingKinds(w.queue)[r] > 0 {
      PendingMeans(w.queue, r);
    }
  }

  lemma {:induction false} ViewPending(w: World)
    requires Inv(w)
    ensures forall r :: r in Q.View(w.queue) ==> Q.PendingKinds(Q.Refill(w.queue))[r] > 0
  {
    hide Inv, Q.View, Q.PendingKinds, Q.ReqsOf, Q.Refill;
    RefillOne(w);
    forall r | r in Q.View(w.queue) ensures Q.PendingKinds(Q.Refill(w.queue))[r] > 0 {
      PendingMeans(w.queue, r);
    }
  }

  /** The first two loops do not depend on the order of the third. */
  lemma {:induction false} SamePlan(w: World, a: Plan, b: Plan)
    requires b == a.(third := b.third)
    ensures AfterFirst(w, a) == AfterFirst(w, b) && AfterSecond(w, a) == AfterSecond(w, b) && Wanted(w, a) == Wanted(w, b)
  {
    hide AssignAll;
  }
}
