/** What every run of the broker guarantees. */
module BrokerRuns {
  import opened Bytes
  import opened Requirements
  import opened ActiveJobs
  import opened Broker
  import Q = JobQueue
  import P = WorkerPool

  // ---------------------------------------------------------------- every step

  lemma {:induction false} ActiveChange(w: World, m: Active, alive: set<Address>)
    requires Inv(w) && m.Keys <= w.active.Keys
    requires forall id :: id in m ==> m[id].worker == w.active[id].worker && StillPastQueued(w.active, m, id)
    ensures Inv(w.(active := m, alive := alive)) && Forward(w, w.(active := m, alive := alive))
  {
    hide Q.Valid, P.Valid, P.Credits, Q.Pending, Q.IdsOf;
  }

  lemma {:induction false} PoolChange(w: World, pool: P.Pool, alive: set<Address>, asked: multiset<(Address, Key)>)
    requires Inv(w) && P.Valid(pool)
    requires P.Credits(pool) + w.asked <= P.Credits(w.pool) + asked
    ensures var v := w.(pool := pool, alive := alive, asked := asked); Inv(v) && Forward(w, v)
  {
    hide Q.Valid, P.Valid, P.Credits, Q.Pending, Q.IdsOf;
    CreditBound(w.sent, P.Credits(w.pool), w.asked, P.Credits(pool), asked);
  }

  lemma {:induction false} CreditBound(sent: multiset<(Address, Key)>, c: multiset<(Address, Key)>, a: multiset<(Address, Key)>,
                    c': multiset<(Address, Key)>, a': multiset<(Address, Key)>)
    requires sent + c <= a && c' + a <= c + a'
    ensures sent + c' <= a'
  {
    forall x ensures (sent + c')[x] <= a'[x] {
      assert (sent + c)[x] <= a[x] && (c' + a)[x] <= (c + a')[x];
    }
  }

  lemma {:induction false} Enqueued(w: World, queue: Q.Queue, job: Job)
    requires Inv(w) && job.id !in w.issued
    requires Q.Valid(queue) && Q.Pending(queue) == Q.Pending(w.queue) + multiset{job} && queue.ids == w.queue.ids + {job.id}
    requires Q.IdsOf(queue.queued) <= Q.IdsOf(w.queue.queued) + {job.id} && queue.waiting == w.queue.waiting
    ensures var v := w.(queue := queue, issued := w.issued[job.id := job]); Inv(v) && Forward(w, v)
  {
    hide Q.Valid, P.Valid, P.Credits, Q.Pending, Q.IdsOf;
    var v := w.(queue := queue, issued := w.issued[job.id := job]);
    assert v.issued.Keys == w.issued.Keys + {job.id};
  }

  lemma {:induction false} QueueJobKeeps(w: World, job: Job)
    requires Inv(w) && job.id !in w.issued
    ensures Inv(Next(w, QueueJob(job))) && Forward(w, Next(w, QueueJob(job)))
  {
    assert Q.Valid(w.queue) && job.id !in w.queue.ids;
    hide Next, Inv, Forward, Q.Valid, Q.Pending, Q.IdsOf, Q.Add;
    NextQueueJob(w, job);
    Q.AddKeeps(w.queue, job);
    Q.AddIds(w.queue, job);
    Enqueued(w, Q.Add(w.queue, job), job);
  }

  lemma {:induction false} Dequeued(w: World, queue: Q.Queue, id: Id)
    requires Inv(w) && id in w.issued
    requires Q.Valid(queue) && Q.Pending(queue) <= Q.Pending(w.queue) && queue.ids == w.queue.ids - {id}
    requires Q.IdsOf(queue.queued) <= Q.IdsOf(w.queue.queued) && Q.IdsOf(queue.waiting) <= Q.IdsOf(w.queue.waiting)
    ensures Inv(w.(queue := queue)) && Forward(w, w.(queue := queue))
  {
    hide Q.Valid, P.Valid, P.Credits, Q.Pending, Q.IdsOf;
    forall j | j in Q.Pending(queue) ensures j in Q.Pending(w.queue) {
      assert Q.Pending(queue)[j] > 0;
    }
  }

  lemma {:induction false} QueuedIssued(w: World, id: Id)
    requires Inv(w) && id in w.queue.ids
    ensures id in w.issued && id !in w.given && id !in w.active
  {
  }

  lemma {:induction false} Removed(q: Q.Queue, id: Id)
    requires Q.Valid(q)
    ensures var t := Q.Remove(q, id);
            && Q.Valid(t) && Q.Pending(t) <= Q.Pending(q) && t.ids == q.ids - {id}
            && Q.IdsOf(t.queued) <= Q.IdsOf(q.queued) && Q.IdsOf(t.waiting) <= Q.IdsOf(q.waiting)
  {
    hide Q.Valid, Q.Pending, Q.IdsOf, Q.Remove, Q.Take, Q.Dispatch;
    Q.RemoveKeeps(q, id);
    Q.IdsMove(q, Key(MeshIOType([], []), 0, 0, [], []), id);
  }

  lemma {:induction false} TerminateJobKeeps(w: World, id: Id)
    requires Inv(w)
    ensures Inv(Next(w, TerminateJob(id))) && Forward(w, Next(w, TerminateJob(id)))
  {
    hide Next, Inv, Forward, Q.Valid, Q.Pending, Q.IdsOf, Q.Remove;
    ValidQueue(w);
    NextTerminateJob(w, id);
    ForwardReflexive(w);
    if id in w.queue.ids {
      QueuedIssued(w, id);
      Removed(w.queue, id);
      Dequeued(w, Q.Remove(w.queue, id), id);
    }
  }

  lemma {:induction false} WorkerEventKeeps(w: World, e: Event)
    requires Inv(w) && (e.Register? || e.AskForJob?)
    ensures Inv(Next(w, e)) && Forward(w, Next(w, e))
  {
    assert P.Valid(w.pool);
    hide Next, Inv, Forward, P.Valid, P.Credits, P.AddWorker, P.ReadyForWork, P.HaveWorker;
    if e.Register? {
      NextRegister(w, e.worker, e.reqs);
      P.AddWorkerKeeps(w.pool, e.worker, e.reqs);
      PoolChange(w, P.AddWorker(w.pool, e.worker, e.reqs), w.alive + {e.worker}, w.asked);
    } else {
      NextAskForJob(w, e.worker, e.reqs);
      P.ReadyForWorkKeeps(w.pool, e.worker, e.reqs);
      PoolChange(w, P.ReadyForWork(w.pool, e.worker, e.reqs), w.alive + {e.worker}, w.asked + multiset{(e.worker, e.reqs)});
    }
  }

  lemma {:induction false} ActiveEventKeeps(w: World, e: Event)
    requires Inv(w) && (e.MeshStatus? || e.RetrieveResult? || e.ReportStatus? || e.ReportResult? || e.Heartbeat? || e.WorkerLeaves?)
    ensures Inv(Next(w, e)) && Forward(w, Next(w, e))
  {
    hide Next, Inv, Forward;
    match e {
      case MeshStatus(id) => NextMeshStatus(w, id);
      case RetrieveResult(id) => NextRetrieveResult(w, id);
      case ReportStatus(a, s) => NextReportStatus(w, a, s);
      case ReportResult(a, id, data) => NextReportResult(w, a, id, data);
      case Heartbeat(a) => NextHeartbeat(w, a);
      case WorkerLeaves(a) => NextWorkerLeaves(w, a);
    }
    var v := Next(w, e);
    assert v == w.(active := v.active, alive := v.alive);
    ActiveChange(w, v.active, v.alive);
  }

  lemma {:induction false} ExpiredKeeps(m: Active, alive: set<Address>, late: set<Address>)
    ensures var r := MarkExpired(m, alive, late);
            r.Keys <= m.Keys && forall id :: id in r ==> r[id].worker == m[id].worker && StillPastQueued(m, r, id)
  {
  }

  lemma {:induction false} CheckKeeps(w: World, late: set<Address>)
    requires Inv(w)
    ensures Inv(Next(w, CheckWorkers(late))) && Forward(w, Next(w, CheckWorkers(late)))
  {
    assert P.Valid(w.pool);
    hide Next, Inv, Forward, P.Valid, P.Credits, P.Purge, MarkExpired, Expired;
    NextCheckWorkers(w, late);
    ExpiredKeeps(w.active, w.alive, late);
    var pool := P.Purge(w.pool, w.alive, late);
    var m := MarkExpired(w.active, w.alive, late);
    var v := w.(active := m, alive := w.alive);
    ActiveChange(w, m, w.alive);
    P.PurgeValid(w.pool, w.alive, late);
    P.PurgeCredits(w.pool, w.alive, late);
    PoolChange(v, pool, w.alive, w.asked);
    var u := v.(pool := pool, alive := w.alive, asked := w.asked);
    assert u == Next(w, CheckWorkers(late));
    InvForward(w, v, u);
  }

  /** Every step keeps the invariant and moves ids forward only. */
  lemma {:induction false} NextKeeps(w: World, e: Event)
    requires Inv(w) && Enabled(w, e)
    ensures Inv(Next(w, e)) && Forward(w, Next(w, e))
  {
    hide Next, Inv, Forward;
    match e
    case QueueJob(job) => QueueJobKeeps(w, job);
    case TerminateJob(id) => TerminateJobKeeps(w, id);
    case Register(_, _) => WorkerEventKeeps(w, e);
    case AskForJob(_, _) => WorkerEventKeeps(w, e);
    case CheckWorkers(late) => CheckKeeps(w, late);
    case Schedule(plan) =>
      NextSchedule(w, plan);
      var bag := PassKeeps(w, plan);
    case _ => ActiveEventKeeps(w, e);
  }

  // ---------------------------------------------------------------- runs

  ghost predicate IsRun(ws: seq<World>, es: seq<Event>) {
    && |ws| == |es| + 1
    && ws[0] == START
    && forall i :: 0 <= i < |es| ==> Enabled(ws[i], es[i]) && ws[i + 1] == Next(ws[i], es[i])
  }

  lemma {:induction false} RunInv(ws: seq<World>, es: seq<Event>, i: nat)
    requires IsRun(ws, es) && i < |ws|
    ensures Inv(ws[i])
  {
    if i > 0 {
      RunInv(ws, es, i - 1);
      NextKeeps(ws[i - 1], es[i - 1]);
    }
  }

  lemma {:induction false} RunForward(ws: seq<World>, es: seq<Event>, i: nat, j: nat)
    requires IsRun(ws, es) && i <= j < |ws|
    ensures Forward(ws[i], ws[j])
    decreases j
  {
    hide Inv, Forward, Next, Enabled;
    if i == j {
      ForwardReflexive(ws[i]);
    } else {
      RunForward(ws, es, i, j - 1);
      RunInv(ws, es, i);
      RunInv(ws, es, j - 1);
      NextKeeps(ws[j - 1], es[j - 1]);
      ForwardTransitive(ws[i], ws[j - 1], ws[j]);
    }
  }

  datatype Phase = Unissued | Queued | Waiting | Running | Gone

  function Rank(p: Phase): nat {
    match p
    case Unissued => 0
    case Queued => 1
    case Waiting => 2
    case Running => 3
    case Gone => 4
  }

  ghost function PhaseOf(w: World, id: Id): Phase {
    if id !in w.issued then Unissued
    else if id in Q.IdsOf(w.queue.queued) then Queued
    else if id in Q.IdsOf(w.queue.waiting) then Waiting
    else if id in w.active then Running
    else Gone
  }

  /** In every state of every run an id is in at most one of the tables, and in none before it is issued. */
  lemma {:induction false} ExactlyOnePlace(ws: seq<World>, es: seq<Event>, i: nat, id: Id)
    requires IsRun(ws, es) && i < |ws|
    ensures var w := ws[i];
            && (id in Q.IdsOf(w.queue.queued) <==> PhaseOf(w, id) == Queued)
            && (id in Q.IdsOf(w.queue.waiting) <==> PhaseOf(w, id) == Waiting)
            && (id in w.active <==> PhaseOf(w, id) == Running)
            && Q.Distinct(w.queue.queued) && Q.Distinct(w.queue.waiting)
            && (forall j :: j in w.queue.queued || j in w.queue.waiting ==> j.id in w.issued && w.issued[j.id] == j)
  {
    RunInv(ws, es, i);
    var w := ws[i];
    Q.AscendingDistinct(w.queue.queued);
    assert forall j :: j in w.queue.queued || j in w.queue.waiting ==> j in Q.Pending(w.queue);
  }

  /** Phases only move forward, over any stretch of any run. */
  lemma {:induction false} PhasesForward(ws: seq<World>, es: seq<Event>, i: nat, j: nat, id: Id)
    requires IsRun(ws, es) && i <= j < |ws|
    ensures Rank(PhaseOf(ws[i], id)) <= Rank(PhaseOf(ws[j], id))
  {
    RunForward(ws, es, i, j);
    ExactlyOnePlace(ws, es, i, id);
    ExactlyOnePlace(ws, es, j, id);
    RunInv(ws, es, i);
    QueueIds(ws[i]);
    hide Q.IdsOf, Inv, IsRun, Q.Distinct, PastQueued;
  }

  /** A job ends only by being terminated while queued or by its result being handed out. */
  lemma {:induction false} NeverSilentlyLost(ws: seq<World>, es: seq<Event>, i: nat, id: Id)
    requires IsRun(ws, es) && i < |es|
    requires PhaseOf(ws[i], id) in {Queued, Waiting, Running} && PhaseOf(ws[i + 1], id) == Gone
    ensures (es[i] == TerminateJob(id) && id in ws[i].queue.ids)
            || (es[i] == RetrieveResult(id) && Respond(ws[i], es[i]).Handed?)
  {
    var w, e := ws[i], es[i];
    RunInv(ws, es, i);
    RunInv(ws, es, i + 1);
    QueueIds(w);
    QueueIds(ws[i + 1]);
    assert ws[i + 1] == Next(w, e);
    Vanishing(w, e, id);
  }

  lemma {:induction false} Vanishing(w: World, e: Event, id: Id)
    requires Inv(w) && Enabled(w, e) && (id in w.queue.ids || id in w.active)
    requires id !in Next(w, e).queue.ids && id !in Next(w, e).active
    ensures (e == TerminateJob(id) && id in w.queue.ids) || (e == RetrieveResult(id) && Respond(w, e).Handed?)
  {
    ValidQueue(w);
    hide Next, Inv, Q.Valid, Q.Add, Q.Remove, Q.Pending, Pass;
    match e
    case QueueJob(job) =>
      NextQueueJob(w, job);
      Q.AddKeeps(w.queue, job);
    case TerminateJob(other) =>
      NextTerminateJob(w, other);
      Q.RemoveKeeps(w.queue, other);
    case RetrieveResult(other) => NextRetrieveResult(w, other);
    case Schedule(plan) =>
      NextSchedule(w, plan);
      PassLosesNothing(w, plan, id);
    case _ => NextElsewhere(w, e);
  }

  lemma {:induction false} AssignOneLosesNothing(w: World, r: Key, unsent: set<Id>, id: Id)
    requires Inv(w) && (id in w.queue.ids || id in w.active)
    ensures var v := AssignOne(w, r, unsent); id in v.queue.ids || id in v.active
  {
    P.TakeWorkerKeeps(w.pool, r);
    Q.TakeKeeps(w.queue, r);
    hide P.TakeWorker, Q.Take, P.HaveWaitingWorker, Q.Pending, P.Credits, Q.Valid, P.Valid;
  }

  lemma {:induction false} AssignAllLosesNothing(w: World, types: seq<Key>, unsent: set<Id>, id: Id)
    requires Inv(w) && Different(types) && forall r :: r in types ==> Q.PendingKinds(w.queue)[r] > 0
    requires id in w.queue.ids || id in w.active
    ensures var v := AssignAll(w, types, unsent); id in v.queue.ids || id in v.active
    decreases |types|
  {
    hide Inv, Forward, Q.PendingKinds, P.Ready, P.HaveWaitingWorker, P.TakeWorker, Q.Take, AssignOne;
    if types != [] {
      var r0 := types[0];
      var v := AssignOne(w, r0, unsent);
      assert r0 in types;
      PendingMeans(w.queue, r0);
      AssignOneKeeps(w, r0, unsent);
      AssignOneLosesNothing(w, r0, unsent, id);
      forall r | r in types[1..] ensures Q.PendingKinds(v.queue)[r] > 0 {
        var k :| 0 <= k < |types[1..]| && types[1..][k] == r;
        assert types[k + 1] == r && r in types && r != r0;
        assert Q.PendingKinds(w.queue)[r] == Q.PendingKinds(v.queue)[r];
      }
      AssignAllLosesNothing(v, types[1..], unsent, id);
    }
  }

  lemma {:induction false} DispatchAllIds(q: Q.Queue, types: seq<Key>, creatable: set<Key>)
    requires Q.Valid(q)
    ensures DispatchAll(q, types, creatable).ids == q.ids
    decreases |types|
  {
    hide Q.Valid, Q.Dispatch, Q.Pending;
    if types != [] {
      Q.DispatchKeeps(q, types[0]);
      DispatchAllIds(if types[0] in creatable then Q.Dispatch(q, types[0]).0 else q, types[1..], creatable);
    }
  }

  lemma {:induction false} PassLosesNothing(w: World, plan: Plan, id: Id)
    requires Inv(w) && PlanOk(w, plan) && (id in w.queue.ids || id in w.active)
    ensures var v := Pass(w, plan); id in v.queue.ids || id in v.active
  {
    hide Q.PendingKinds, P.Ready, Forward, AssignAll, DispatchAll, Q.ReqsOf, Inv, Q.Valid;
    if !Idle(w) {
      var w1, w2 := AfterFirst(w, plan), AfterSecond(w, plan);
      forall r | r in plan.first ensures Q.PendingKinds(w.queue)[r] > 0 { PendingMeans(w.queue, r); }
      AssignAllLosesNothing(w, plan.first, plan.unsent, id);
      var bag1 := FirstLoop(w, plan);
      RefillOne(w1);
      forall r | r in plan.second ensures Q.PendingKinds(w1.queue)[r] > 0 { PendingMeans(w1.queue, r); }
      AssignAllLosesNothing(w1.(queue := Q.Refill(w1.queue)), plan.second, plan.unsent, id);
      var bag2 := SecondLoop(w, plan);
      RefillOne(w2);
      ValidQueue(w2);
      ValidQueue(w2.(queue := Q.Refill(w2.queue)));
      DispatchAllIds(if w2.sent != w1.sent then Q.Refill(w2.queue) else w2.queue, plan.third, plan.creatable);
    }
  }

  lemma {:induction false} ValidQueue(w: World)
    requires Inv(w)
    ensures Q.Valid(w.queue)
  {
  }

  // ---------------------------------------------------------------- what clients see

  lemma {:induction false} OnceGone(ws: seq<World>, es: seq<Event>, i: nat, j: nat, id: Id)
    requires IsRun(ws, es) && i <= j < |ws| && PhaseOf(ws[i], id) == Gone
    ensures PhaseOf(ws[j], id) == Gone
  {
    PhasesForward(ws, es, i, j, id);
  }

  /** A stored result is handed out at most once in a run. */
  lemma {:induction false} ResultHandedOnce(ws: seq<World>, es: seq<Event>, i: nat, j: nat, id: Id)
    requires IsRun(ws, es) && i < j < |es|
    requires es[i] == RetrieveResult(id) && Respond(ws[i], es[i]).Handed?
    ensures !(es[j] == RetrieveResult(id) && Respond(ws[j], es[j]).Handed?)
  {
    RunInv(ws, es, i);
    QueueIds(ws[i]);
    assert ws[i + 1] == Next(ws[i], es[i]);
    assert PhaseOf(ws[i + 1], id) == Gone;
    OnceGone(ws, es, i + 1, j, id);
    ExactlyOnePlace(ws, es, j, id);
  }

  /** The services that answer with the status of a job. */
  predicate Asks(e: Event, id: Id) {
    e == MeshStatus(id) || e == TerminateJob(id)
  }

  /** Another run that goes the same way up to and with step `i`. */
  ghost predicate Continues(ws: seq<World>, es: seq<Event>, i: nat, ws': seq<World>, es': seq<Event>) {
    IsRun(ws', es') && i < |es| && i < |es'| && |ws| == |es| + 1 && ws'[..i + 2] == ws[..i + 2] && es'[..i + 1] == es[..i + 1]
  }

  /** Nothing that can still happen after step `i` has a client told that the job is queued. */
  ghost predicate NeverToldQueued(ws: seq<World>, es: seq<Event>, i: nat, id: Id) {
    forall ws', es', j :: Continues(ws, es, i, ws', es') && i < j < |es'| && Asks(es'[j], id) ==> !Says(Respond(ws'[j], es'[j]), QUEUED)
  }

  /** Termination of a job that its worker has not reported on yet: the answer is FAILED, the table still says QUEUED. */
  ghost predicate FailsInWords(w: World, e: Event, id: Id) {
    e == TerminateJob(id) && id in w.active && w.active[id].status.status.QUEUED?
  }

  /** What an answer other than QUEUED about an issued job leaves behind. */
  lemma {:induction false} AnswerSettles(w: World, e: Event, id: Id)
    requires Inv(w) && id in w.issued && Asks(e, id) && !Says(Respond(w, e), QUEUED)
    ensures if FailsInWords(w, e, id) then Next(w, e) == w && Says(Respond(w, MeshStatus(id)), QUEUED) else PastQueued(Next(w, e), id)
  {
    ValidQueue(w);
    ActiveNotQueued(w, id);
    hide Next, Inv, Q.Valid, Q.Remove, Q.Pending;
    if e == MeshStatus(id) {
      NextMeshStatus(w, id);
    } else {
      NextTerminateJob(w, id);
      Q.RemoveKeeps(w.queue, id);
    }
  }

  lemma {:induction false} ActiveNotQueued(w: World, id: Id)
    requires Inv(w)
    ensures id in w.active ==> id !in w.queue.ids
  {
  }

  /**
    A client that was told of an issued job anything but QUEUED is never told QUEUED about it again, exactly unless
    that answer was the one to terminating a job whose worker has not reported yet.
    */
  lemma {:induction false} NeverQueuedAgain(ws: seq<World>, es: seq<Event>, i: nat, id: Id)
    requires IsRun(ws, es) && i < |es| && id in ws[i].issued
    requires Asks(es[i], id) && !Says(Respond(ws[i], es[i]), QUEUED)
    ensures NeverToldQueued(ws, es, i, id) <==> !FailsInWords(ws[i], es[i], id)
  {
    hide Next, Inv, Enabled, FailsInWords, PastQueued, Respond, Asks;
    RunInv(ws, es, i);
    AnswerSettles(ws[i], es[i], id);
    assert ws[i + 1] == Next(ws[i], es[i]);
    if FailsInWords(ws[i], es[i], id) {
      AskAgain(ws, es, i, id);
    } else {
      forall ws', es', j | Continues(ws, es, i, ws', es') && i < j < |es'| && Asks(es'[j], id)
        ensures !Says(Respond(ws'[j], es'[j]), QUEUED)
      {
        assert ws'[i + 1] == ws'[..i + 2][i + 1] == ws[..i + 2][i + 1] == ws[i + 1];
        SettledStays(ws', es', i + 1, j, id);
      }
    }
  }

  lemma {:induction false} SettledStays(ws: seq<World>, es: seq<Event>, i: nat, j: nat, id: Id)
    requires IsRun(ws, es) && i <= j < |es| && PastQueued(ws[i], id) && Asks(es[j], id)
    ensures !Says(Respond(ws[j], es[j]), QUEUED)
  {
    hide Next, Inv, Enabled;
    RunForward(ws, es, i, j);
    assert PastQueued(ws[j], id);
  }

  /** Asking right after such an answer gets the answer QUEUED. */
  lemma {:induction false} AskAgain(ws: seq<World>, es: seq<Event>, i: nat, id: Id)
    requires IsRun(ws, es) && i < |es| && ws[i + 1] == ws[i] && Says(Respond(ws[i], MeshStatus(id)), QUEUED)
    ensures !NeverToldQueued(ws, es, i, id)
  {
    hide Next, Respond;
    var e := MeshStatus(id);
    var ws' := ws[..i + 2] + [Next(ws[i + 1], e)];
    var es' := es[..i + 1] + [e];
    forall k | 0 <= k < |es'| ensures Enabled(ws'[k], es'[k]) && ws'[k + 1] == Next(ws'[k], es'[k]) {
      if k <= i {
        assert ws'[k] == ws[k] && ws'[k + 1] == ws[k + 1] && es'[k] == es[k];
      }
    }
    assert ws'[0] == ws[0];
    assert Continues(ws, es, i, ws', es') && ws'[i + 1] == ws[i] && es'[i + 1] == e;
    assert Asks(es'[i + 1], id) && Says(Respond(ws'[i + 1], es'[i + 1]), QUEUED);
  }

  // ---------------------------------------------------------------- what workers get

  /** No worker is sent more jobs of a kind than it asked for with that kind, and every job goes to one worker only. */
  lemma {:induction false} SentWithinAsked(ws: seq<World>, es: seq<Event>, i: nat, a: Address, r: Key)
    requires IsRun(ws, es) && i < |ws|
    ensures ws[i].sent[(a, r)] <= ws[i].asked[(a, r)]
  {
    RunInv(ws, es, i);
    assert (ws[i].sent + P.Credits(ws[i].pool))[(a, r)] <= ws[i].asked[(a, r)];
  }

  /** `asked` counts exactly the requests for work that arrived. */
  ghost function Requests(es: seq<Event>, a: Address, r: Key): nat {
    if es == [] then 0
    else Requests(es[..|es| - 1], a, r) + (if es[|es| - 1] == AskForJob(a, r) then 1 else 0)
  }

  lemma {:induction false} PassAsks(w: World, plan: Plan)
    ensures Pass(w, plan).asked == w.asked && Pass(w, plan).issued == w.issued
  {
    hide AssignAll;
    var w1 := AfterFirst(w, plan);
    AssignAllAsks(w, plan.first, plan.unsent);
    AssignAllAsks(w1.(queue := Q.Refill(w1.queue)), plan.second, plan.unsent);
  }

  lemma {:induction false} AssignAllAsks(w: World, types: seq<Key>, unsent: set<Id>)
    ensures AssignAll(w, types, unsent).asked == w.asked && AssignAll(w, types, unsent).issued == w.issued
    decreases |types|
  {
    hide Q.Take, P.TakeWorker, P.HaveWaitingWorker;
    if types != [] {
      AssignAllAsks(AssignOne(w, types[0], unsent), types[1..], unsent);
    }
  }

  lemma {:induction false} AskedStep(w: World, e: Event)
    ensures Next(w, e).asked == w.asked + if e.AskForJob? then multiset{(e.worker, e.reqs)} else multiset{}
  {
    hide Next, Pass, P.ReadyForWork;
    if e.Schedule? {
      NextSchedule(w, e.plan);
      PassAsks(w, e.plan);
    } else if e.AskForJob? {
      NextAskForJob(w, e.worker, e.reqs);
    } else {
      NextElsewhere(w, e);
    }
  }

  lemma {:induction false} AskedCountsRequests(ws: seq<World>, es: seq<Event>, i: nat, a: Address, r: Key)
    requires IsRun(ws, es) && i < |ws|
    ensures ws[i].asked[(a, r)] == Requests(es[..i], a, r)
  {
    hide Next, Enabled;
    if i > 0 {
      AskedCountsRequests(ws, es, i - 1, a, r);
      assert es[..i][..i - 1] == es[..i - 1];
      AskedStep(ws[i - 1], es[i - 1]);
    }
  }

  /** Over every run: the jobs of a kind sent to a worker never exceed its MAKE_MESH requests with that kind. */
  lemma {:induction false} CreditProtocol(ws: seq<World>, es: seq<Event>, i: nat, a: Address, r: Key)
    requires IsRun(ws, es) && i < |ws|
    ensures ws[i].sent[(a, r)] <= Requests(es[..i], a, r)
  {
    SentWithinAsked(ws, es, i, a, r);
    AskedCountsRequests(ws, es, i, a, r);
  }

  /** As many sends as jobs given away. */
  ghost predicate Once(w: World) {
    |w.sent| == |w.given.Keys|
  }

  lemma {:induction false} AssignOneOnce(w: World, r: Key, unsent: set<Id>)
    requires Inv(w) && Once(w)
    ensures Once(AssignOne(w, r, unsent))
  {
    assert Q.Valid(w.queue) && w.given.Keys !! w.queue.ids;
    hide *;
    Q.TakeKeeps(w.queue, r);
    AssignOneShape(w, r, unsent);
    var job := Q.Take(w.queue, r).1;
    var v := AssignOne(w, r, unsent);
    if v.given != w.given {
      var a := v.given[job.value.id];
      OneMore(w.sent, w.given, job.value.id, a, (a, job.value.reqs));
    }
    OnceMeans(w);
    OnceMeans(v);
  }

  lemma {:induction false} OnceMeans(w: World)
    ensures Once(w) <==> |w.sent| == |w.given.Keys|
  {
  }

  lemma {:induction false} AssignOneShape(w: World, r: Key, unsent: set<Id>)
    ensures var v, job := AssignOne(w, r, unsent), Q.Take(w.queue, r).1;
            || (v.sent == w.sent && v.given == w.given)
            || (job.Some? && job.value.id in v.given && v.given == w.given[job.value.id := v.given[job.value.id]]
                && v.sent == w.sent + multiset{(v.given[job.value.id], job.value.reqs)})
  {
    hide P.TakeWorker, Q.Take, P.HaveWaitingWorker;
  }

  lemma {:induction false} OneMore(sent: multiset<(Address, Key)>, given: map<Id, Address>, id: Id, a: Address, x: (Address, Key))
    requires |sent| == |given.Keys| && id !in given
    ensures |sent + multiset{x}| == |given[id := a].Keys|
  {
    assert given[id := a].Keys == given.Keys + {id};
  }

  lemma {:induction false} AssignAllOnce(w: World, types: seq<Key>, unsent: set<Id>)
    requires Inv(w) && Different(types) && forall r :: r in types ==> Q.PendingKinds(w.queue)[r] > 0
    requires Once(w)
    ensures Once(AssignAll(w, types, unsent))
    decreases |types|
  {
    hide Inv, Once, Forward, Q.PendingKinds, P.Ready, P.HaveWaitingWorker, P.TakeWorker, Q.Take, AssignOne;
    if types != [] {
      var r0 := types[0];
      var v := AssignOne(w, r0, unsent);
      assert r0 in types;
      PendingMeans(w.queue, r0);
      AssignOneKeeps(w, r0, unsent);
      AssignOneOnce(w, r0, unsent);
      forall r | r in types[1..] ensures Q.PendingKinds(v.queue)[r] > 0 {
        var k :| 0 <= k < |types[1..]| && types[1..][k] == r;
        assert types[k + 1] == r && r in types && r != r0;
        assert Q.PendingKinds(w.queue)[r] == Q.PendingKinds(v.queue)[r];
      }
      AssignAllOnce(v, types[1..], unsent);
    }
  }

  lemma {:induction false} PassOnce(w: World, plan: Plan)
    requires Inv(w) && PlanOk(w, plan) && Once(w)
    ensures Once(Pass(w, plan))
  {
    hide Q.PendingKinds, P.Ready, Forward, AssignAll, DispatchAll, Q.ReqsOf, Inv;
    if !Idle(w) {
      var w1 := AfterFirst(w, plan);
      forall r | r in plan.first ensures Q.PendingKinds(w.queue)[r] > 0 { PendingMeans(w.queue, r); }
      AssignAllOnce(w, plan.first, plan.unsent);
      var bag1 := FirstLoop(w, plan);
      RefillOne(w1);
      forall r | r in plan.second ensures Q.PendingKinds(w1.queue)[r] > 0 { PendingMeans(w1.queue, r); }
      AssignAllOnce(w1.(queue := Q.Refill(w1.queue)), plan.second, plan.unsent);
    }
  }

  lemma {:induction false} NextOnce(w: World, e: Event)
    requires Inv(w) && Enabled(w, e) && Once(w)
    ensures Once(Next(w, e))
  {
    hide Next, Inv;
    if e.Schedule? {
      NextSchedule(w, e.plan);
      PassOnce(w, e.plan);
    } else {
      NextElsewhere(w, e);
    }
  }

  lemma {:induction false} GivenApart(w: World)
    requires Inv(w)
    ensures w.given.Keys !! w.queue.ids
  {
  }

  /** No job is sent twice: there are as many sends as jobs that were ever given to a worker. */
  lemma {:induction false} EachJobSentOnce(ws: seq<World>, es: seq<Event>, i: nat)
    requires IsRun(ws, es) && i < |ws|
    ensures Once(ws[i]) && ws[i].given.Keys !! ws[i].queue.ids
  {
    hide Inv, Next, Enabled;
    RunInv(ws, es, i);
    GivenApart(ws[i]);
    if i > 0 {
      hide Once;
      EachJobSentOnce(ws, es, i - 1);
      RunInv(ws, es, i - 1);
      NextOnce(ws[i - 1], es[i - 1]);
    }
  }

  // ---------------------------------------------------------------- the hiding cache, reached

  const KIND_A := Key(MeshIOType([], []), 0, 0, [], [])
  const KIND_B := Key(MeshIOType([], []), 1, 0, [], [])

  const ONE_PASS := Plan([], [KIND_A], [], false, {}, {})

  const STARVING: seq<Event> :=
    [Register(1, KIND_A), AskForJob(1, KIND_A), QueueJob(Q.Job(1, KIND_A, [])), QueueJob(Q.Job(2, KIND_A, [])),
     Schedule(ONE_PASS), QueueJob(Q.Job(3, KIND_B, [])), AskForJob(1, KIND_A)]

  function Before(): World {
    World(Q.Queue([Q.Job(1, KIND_A, []), Q.Job(2, KIND_A, [])], [], {1, 2}, {KIND_A}),
          [P.WorkerInfo(1, KIND_A, 1, true)], map[], {1},
          map[1 := Q.Job(1, KIND_A, []), 2 := Q.Job(2, KIND_A, [])], multiset{(1, KIND_A)}, multiset{}, map[])
  }

  function Served(): World {
    World(Q.Queue([Q.Job(2, KIND_A, [])], [], {2}, {}),
          [P.WorkerInfo(0, KIND_A, 1, true)], map[1 := JobState(1, Plain(1, QUEUED), [], false)], {1},
          map[1 := Q.Job(1, KIND_A, []), 2 := Q.Job(2, KIND_A, [])], multiset{(1, KIND_A)}, multiset{(1, KIND_A)}, map[1 := 1])
  }

  function Hidden(): World {
    World(Q.Queue([Q.Job(2, KIND_A, []), Q.Job(3, KIND_B, [])], [], {2, 3}, {KIND_B}),
          [P.WorkerInfo(1, KIND_A, 1, true)], map[1 := JobState(1, Plain(1, QUEUED), [], false)], {1},
          map[1 := Q.Job(1, KIND_A, []), 2 := Q.Job(2, KIND_A, []), 3 := Q.Job(3, KIND_B, [])],
          multiset{(1, KIND_A), (1, KIND_A)}, multiset{(1, KIND_A)}, map[1 := 1])
  }

  lemma {:induction false} ReachBefore()
    ensures Next(Next(Next(Next(START, STARVING[0]), STARVING[1]), STARVING[2]), STARVING[3]) == Before()
  {
    var w1 := Next(START, STARVING[0]);
    assert w1.pool == [P.WorkerInfo(0, KIND_A, 1, true)];
    var w2 := Next(w1, STARVING[1]);
    assert w2.pool == [P.WorkerInfo(1, KIND_A, 1, true)];
    var w3 := Next(w2, STARVING[2]);
    assert w3.queue.queued == [Q.Job(1, KIND_A, [])];
    var w4 := Next(w3, STARVING[3]);
    assert w4.queue.queued == [Q.Job(1, KIND_A, []), Q.Job(2, KIND_A, [])];
  }

  lemma {:induction false} ReachServed()
    ensures PlanOk(Before(), ONE_PASS) && Pass(Before(), ONE_PASS) == Served()
  {
    var w := Before();
    assert AfterFirst(w, ONE_PASS) == w;
    assert Q.Refill(w.queue) == w.queue;
    ServeOne();
    assert ONE_PASS.second[0] == KIND_A && ONE_PASS.second[1..] == [];
    assert AfterSecond(w, ONE_PASS) == AssignAll(AssignOne(w, KIND_A, {}), [], {});
  }

  lemma {:induction false} ServeOne()
    ensures AssignOne(Before(), KIND_A, {}) == Served()
  {
    TakeFirst();
    TakeOnly();
    hide Q.Take, P.TakeWorker, P.HaveWaitingWorker;
  }

  lemma {:induction false} TakeFirst()
    ensures Q.Take(Before().queue, KIND_A) == (Served().queue, Some(Q.Job(1, KIND_A, [])))
  {
    var q := Before().queue;
    var two := Q.Job(2, KIND_A, []);
    assert Q.Find(q.waiting, KIND_A) == 0 && Q.Find(q.queued, KIND_A) == 0;
    assert q.queued[1..] == [two];
    Q.WithoutAbsentId([two], 1);
    assert Q.WithoutId(q.queued, 1) == [two];
    assert q.ids - {1} == {2};
  }

  lemma {:induction false} TakeOnly()
    ensures P.HaveWaitingWorker(Before().pool, KIND_A)
    ensures P.TakeWorker(Before().pool, KIND_A) == (Served().pool, Some(1))
  {
    var p := Before().pool;
    assert p[0].reqs == KIND_A && p[0].IsWaitingForWork();
    assert P.FirstWaiting(p, KIND_A) == 0;
    var m := p[0 := p[0].(desired := 0)];
    assert m == [P.WorkerInfo(0, KIND_A, 1, true)];
    assert P.Rotated(m) == m;
  }

  lemma {:induction false} ReachHidden()
    ensures Next(Next(Served(), STARVING[5]), STARVING[6]) == Hidden()
  {
    var v := Next(Served(), STARVING[5]);
    assert Q.Place(Served().queue.queued, 3) == 1;
    assert v.queue.queued == [Q.Job(2, KIND_A, []), Q.Job(3, KIND_B, [])];
    var u := Next(v, STARVING[6]);
    assert u.pool == [P.WorkerInfo(1, KIND_A, 1, true)];
  }

  /**
    A run after which a worker is ready for a kind with a queued job, and no pass without factory help ever
    sends it: the requirements of a later job were put into the emptied cache.
    */
  lemma {:induction false} StarvationReached() returns (ws: seq<World>)
    ensures IsRun(ws, STARVING)
    ensures var w := ws[|ws| - 1];
            && Pair(w, KIND_A) && KIND_A in Q.ReqsOf(w.queue.queued) && KIND_A !in Q.View(w.queue)
            && forall plan :: PlanOk(w, plan) && !plan.hasSpace ==> Pass(w, plan) == w
  {
    hide Pass, Pair, PlanOk, Q.View, Q.ReqsOf, Before, Served, Hidden, Q.Add, P.AddWorker, P.ReadyForWork;
    var w1 := Next(START, STARVING[0]);
    var w2 := Next(w1, STARVING[1]);
    var w3 := Next(w2, STARVING[2]);
    ReachBefore();
    ReachServed();
    var w6 := Next(Served(), STARVING[5]);
    ReachHidden();
    ws := [START, w1, w2, w3, Before(), Served(), w6, Hidden()];
    FreshIds();
    StuckAtHidden();
  }

  lemma {:induction false} FreshIds()
    ensures var w1 := Next(START, STARVING[0]);
            var w2 := Next(w1, STARVING[1]);
            var w3 := Next(w2, STARVING[2]);
            1 !in w2.issued && 2 !in w3.issued && 3 !in Served().issued
  {
  }

  lemma {:induction false} StuckAtHidden()
    ensures var w := Hidden();
            && Pair(w, KIND_A) && KIND_A in Q.ReqsOf(w.queue.queued) && KIND_A !in Q.View(w.queue)
            && forall plan :: PlanOk(w, plan) && !plan.hasSpace ==> Pass(w, plan) == w
  {
    HiddenFacts();
    hide Pass, Pair, PlanOk, Q.View, Q.ReqsOf, Hidden;
    forall plan | PlanOk(Hidden(), plan) && !plan.hasSpace ensures Pass(Hidden(), plan) == Hidden() {
      StuckBy(plan);
    }
  }

  lemma {:induction false} HiddenFacts()
    ensures var w := Hidden(); Pair(w, KIND_A) && KIND_A in Q.ReqsOf(w.queue.queued) && KIND_A !in Q.View(w.queue)
  {
    var w := Hidden();
    assert w.queue.queued[0] in w.queue.queued;
    assert w.pool[0].reqs == KIND_A && w.pool[0].IsWaitingForWork();
    assert P.HaveWaitingWorker(w.pool, KIND_A);
    P.ReadyMeans(w.pool, KIND_A);
    PendingMeans(w.queue, KIND_A);
  }

  lemma {:induction false} StuckBy(plan: Plan)
    requires PlanOk(Hidden(), plan) && !plan.hasSpace
    ensures Pass(Hidden(), plan) == Hidden()
  {
    var w := Hidden();
    AssignNone(w, plan.first, plan.unsent);
    assert AfterFirst(w, plan) == w && Q.Refill(w.queue) == w.queue;
    forall r | r in plan.second ensures !P.HaveWaitingWorker(w.pool, r) {
      assert r == KIND_B;
    }
    AssignNone(w, plan.second, plan.unsent);
  }

  // ---------------------------------------------------------------- a failure that is not one, reached

  const DENIED: seq<Event> := STARVING[..5] + [TerminateJob(1), MeshStatus(1)]

  /** A run in which a client that terminates a job is told FAILED, and the next to ask is told QUEUED. */
  lemma {:induction false} ToldFailedThenQueued() returns (ws: seq<World>)
    ensures IsRun(ws, DENIED) && 1 in ws[5].issued
    ensures DENIED[5] == TerminateJob(1) && Says(Respond(ws[5], DENIED[5]), FAILED)
    ensures DENIED[6] == MeshStatus(1) && Says(Respond(ws[6], DENIED[6]), QUEUED)
  {
    hide Next, Pass, PlanOk, Before, Served, Respond;
    var w1 := Next(START, STARVING[0]);
    var w2 := Next(w1, STARVING[1]);
    var w3 := Next(w2, STARVING[2]);
    ReachBefore();
    ReachServed();
    NextSchedule(Before(), ONE_PASS);
    FreshIds();
    ServedAnswers();
    ws := [START, w1, w2, w3, Before(), Served(), Served(), Next(Served(), MeshStatus(1))];
    assert forall k :: 0 <= k < 5 ==> DENIED[k] == STARVING[k];
  }

  lemma {:induction false} ServedAnswers()
    ensures 1 in Served().issued && Next(Served(), TerminateJob(1)) == Served()
    ensures Says(Respond(Served(), TerminateJob(1)), FAILED) && Says(Respond(Served(), MeshStatus(1)), QUEUED)
  {
    NextTerminateJob(Served(), 1);
    hide Next;
  }
}
