/**
  The server's queue of jobs: jobs just queued, jobs for which a worker has been dispatched, the ids of
  both, and a cache of the requirements of the first kind.
  */
module JobQueue {
  import opened Requirements
  import opened Bytes

  /** A uuid. The queue only compares them. */
  type Id = nat

  datatype Job = Job(id: Id, reqs: Key, content: bytes)

  datatype Queue = Queue(queued: seq<Job>, waiting: seq<Job>, ids: set<Id>, cache: set<Key>)

  const EMPTY := Queue([], [], {}, {})

  ghost function IdsOf(s: seq<Job>): set<Id> {
    set j | j in s :: j.id
  }

  function ReqsOf(s: seq<Job>): set<Key> {
    set j | j in s :: j.reqs
  }

  ghost predicate Distinct(s: seq<Job>) {
    forall i, j :: 0 <= i < j < |s| ==> s[i].id != s[j].id
  }

  ghost predicate Ascending(s: seq<Job>) {
    forall i, j :: 0 <= i < j < |s| ==> s[i].id < s[j].id
  }

  ghost predicate Valid(q: Queue) {
    && Ascending(q.queued)
    && Distinct(q.waiting)
    && IdsOf(q.queued) !! IdsOf(q.waiting)
    && q.ids == IdsOf(q.queued) + IdsOf(q.waiting)
    && q.cache <= ReqsOf(q.queued)
  }

  // ---------------------------------------------------------------- sequence helpers

  /** Position of the first job with the given requirements, or the length. */
  function Find(s: seq<Job>, r: Key): (i: nat)
    ensures i <= |s| && (forall k :: 0 <= k < i ==> s[k].reqs != r) && (i < |s| ==> s[i].reqs == r)
  {
    if s == [] then 0 else if s[0].reqs == r then 0 else 1 + Find(s[1..], r)
  }

  function WithoutAt(s: seq<Job>, i: nat): seq<Job>
    requires i < |s|
  {
    s[..i] + s[i + 1..]
  }

  /** What `remove_if` and `erase` leave when they are given an id. */
  function WithoutId(s: seq<Job>, id: Id): (t: seq<Job>) {
    if s == [] then [] else (if s[0].id == id then [] else [s[0]]) + WithoutId(s[1..], id)
  }

  lemma {:induction false} IdsConcat(s: seq<Job>, t: seq<Job>)
    ensures IdsOf(s + t) == IdsOf(s) + IdsOf(t)
  {
  }

  lemma {:induction false} ReqsConcat(s: seq<Job>, t: seq<Job>)
    ensures ReqsOf(s + t) == ReqsOf(s) + ReqsOf(t)
  {
  }

  lemma {:induction false} WithoutAbsentId(s: seq<Job>, id: Id)
    requires id !in IdsOf(s)
    ensures WithoutId(s, id) == s
  {
    if s != [] {
      assert s[0] in s;
      WithoutAbsentId(s[1..], id);
    }
  }

  lemma {:induction false} WithoutIdAt(s: seq<Job>, i: nat)
    requires Distinct(s) && i < |s|
    ensures WithoutId(s, s[i].id) == WithoutAt(s, i)
  {
    if i == 0 {
      assert s[0].id !in IdsOf(s[1..]);
      WithoutAbsentId(s[1..], s[0].id);
      assert WithoutAt(s, 0) == s[1..];
    } else {
      WithoutIdAt(s[1..], i - 1);
      assert WithoutAt(s, i) == [s[0]] + WithoutAt(s[1..], i - 1);
    }
  }

  /** Taking the job at `i` out of a list without repeated ids. */
  lemma {:induction false} WithoutAtFacts(s: seq<Job>, i: nat)
    requires Distinct(s) && i < |s|
    ensures var t := WithoutAt(s, i);
            && Distinct(t) && s[i].id !in IdsOf(t) && IdsOf(s) == IdsOf(t) + {s[i].id}
            && (Ascending(s) ==> Ascending(t))
            && multiset(s) == multiset(t) + multiset{s[i]}
  {
    WithoutAtOrder(s, i);
    hide Ascending, Distinct;
    var lo, hi := s[..i], s[i + 1..];
    assert s == lo + [s[i]] + hi;
    IdsConcat(lo + [s[i]], hi);
    IdsConcat(lo, [s[i]]);
    IdsConcat(lo, hi);
  }

  lemma {:induction false} WithoutAtOrder(s: seq<Job>, i: nat)
    requires Distinct(s) && i < |s|
    ensures Distinct(WithoutAt(s, i)) && s[i].id !in IdsOf(WithoutAt(s, i))
    ensures Ascending(s) ==> Ascending(WithoutAt(s, i))
  {
    var t := WithoutAt(s, i);
    assert forall k :: 0 <= k < |t| ==> t[k] == s[if k < i then k else k + 1];
  }

  // ---------------------------------------------------------------- operations

  /** Where `std::lower_bound` puts an id. */
  function Place(s: seq<Job>, id: Id): (i: nat)
    ensures i <= |s| && (forall k :: 0 <= k < i ==> s[k].id < id) && (i < |s| ==> id <= s[i].id)
  {
    if s == [] || id <= s[0].id then 0 else 1 + Place(s[1..], id)
  }

  /** `addJob`: nothing happens when the id is already in the queue. */
  function Add(q: Queue, job: Job): Queue {
    if job.id in q.ids then q
    else
      var i := Place(q.queued, job.id);
      Queue(q.queued[..i] + [job] + q.queued[i..], q.waiting, q.ids + {job.id}, q.cache + {job.reqs})
  }

  /** `takeJob`: jobs waiting for a worker go first; only taking a queued one drops the cache. */
  function Take(q: Queue, r: Key): (Queue, Option<Job>) {
    var w := Find(q.waiting, r);
    if w < |q.waiting| then
      var job := q.waiting[w];
      (q.(waiting := WithoutId(q.waiting, job.id), ids := q.ids - {job.id}), Some(job))
    else
      var i := Find(q.queued, r);
      if i == |q.queued| then (q, None)
      else
        var job := q.queued[i];
        (Queue(WithoutId(q.queued, job.id), q.waiting, q.ids - {job.id}, {}), Some(job))
  }

  /** `queuedJobRequirements`: refills an empty cache, and answers with the cache. */
  function Refill(q: Queue): Queue {
    if q.cache == {} then q.(cache := ReqsOf(q.queued)) else q
  }

  /** `workerDispatched`: the first queued job of a kind starts waiting for its worker. */
  function Dispatch(q: Queue, r: Key): (Queue, bool) {
    var i := Find(q.queued, r);
    if i == |q.queued| then (q, false)
    else (Queue(WithoutAt(q.queued, i), q.waiting + [q.queued[i]], q.ids, {}), true)
  }

  /** `remove` */
  function Remove(q: Queue, id: Id): Queue {
    var queued := WithoutId(q.queued, id);
    if |queued| < |q.queued| then Queue(queued, q.waiting, q.ids - {id}, {})
    else q.(waiting := WithoutId(q.waiting, id), ids := q.ids - {id})
  }

  /** `clear` */
  function Clear(q: Queue): Queue {
    Queue([], q.waiting, {}, {})
  }

  // ---------------------------------------------------------------- what the operations keep

  /** Every job of the queue, with its multiplicity. */
  ghost function Pending(q: Queue): multiset<Job> {
    multiset(q.queued) + multiset(q.waiting)
  }

  lemma {:induction false} AddKeeps(q: Queue, job: Job)
    requires Valid(q) && job.id !in q.ids
    ensures Valid(Add(q, job))
    ensures Pending(Add(q, job)) == Pending(q) + multiset{job} && Add(q, job).ids == q.ids + {job.id}
  {
    hide Ascending, Distinct, IdsOf, ReqsOf;
    var i := Place(q.queued, job.id);
    var lo, hi := q.queued[..i], q.queued[i..];
    assert q.queued == lo + hi;
    InsertAscending(q.queued, job, i);
    IdsConcat(lo, hi);
    IdsConcat(lo + [job], hi);
    IdsConcat(lo, [job]);
    ReqsConcat(lo, hi);
    ReqsConcat(lo + [job], hi);
    ReqsConcat(lo, [job]);
    OneJob(job);
  }

  lemma {:induction false} OneJob(job: Job)
    ensures IdsOf([job]) == {job.id} && ReqsOf([job]) == {job.reqs} && Distinct([job])
  {
  }

  lemma {:induction false} InsertAscending(s: seq<Job>, job: Job, i: nat)
    requires Ascending(s) && i <= |s| && job.id !in IdsOf(s)
    requires (forall k :: 0 <= k < i ==> s[k].id < job.id) && (i < |s| ==> job.id <= s[i].id)
    ensures Ascending(s[..i] + [job] + s[i..])
  {
    assert forall k :: i <= k < |s| ==> job.id < s[k].id by {
      assert i < |s| ==> s[i] in s;
      hide IdsOf;
    }
    hide IdsOf;
    AscendingJoin(s[..i], [job]);
    AscendingJoin(s[..i] + [job], s[i..]);
  }

  lemma {:induction false} AscendingJoin(s: seq<Job>, t: seq<Job>)
    requires Ascending(s) && Ascending(t)
    requires forall a, b :: 0 <= a < |s| && 0 <= b < |t| ==> s[a].id < t[b].id
    ensures Ascending(s + t)
  {
  }

  lemma {:induction false} AscendingDistinct(s: seq<Job>)
    requires Ascending(s)
    ensures Distinct(s)
  {
  }

  lemma {:induction false} FindFinds(s: seq<Job>, r: Key)
    ensures r in ReqsOf(s) <==> Find(s, r) < |s|
    ensures Find(s, r) < |s| ==> s[Find(s, r)].id in IdsOf(s)
  {
  }

  lemma {:induction false} TakeKeeps(q: Queue, r: Key)
    requires Valid(q)
    ensures var (t, job) := Take(q, r);
            && Valid(t)
            && (job.Some? <==> r in ReqsOf(q.waiting) || r in ReqsOf(q.queued))
            && (job.None? ==> t == q)
            && (job.Some? ==> job.value.reqs == r && Pending(q) == Pending(t) + multiset{job.value}
                              && job.value.id in q.ids && t.ids == q.ids - {job.value.id})
  {
    hide Ascending, Distinct, IdsOf, ReqsOf, WithoutId, WithoutAt;
    AscendingDistinct(q.queued);
    FindFinds(q.waiting, r);
    FindFinds(q.queued, r);
    var w, i := Find(q.waiting, r), Find(q.queued, r);
    if w < |q.waiting| {
      WithoutIdAt(q.waiting, w);
      WithoutAtFacts(q.waiting, w);
    } else if i < |q.queued| {
      WithoutIdAt(q.queued, i);
      WithoutAtFacts(q.queued, i);
    }
  }

  lemma {:induction false} DispatchKeeps(q: Queue, r: Key)
    requires Valid(q)
    ensures var (t, found) := Dispatch(q, r);
            && Valid(t) && Pending(t) == Pending(q) && t.ids == q.ids
            && (found <==> r in ReqsOf(q.queued))
            && (!found ==> t == q)
  {
    hide Ascending, Distinct, IdsOf, ReqsOf, WithoutId, WithoutAt;
    AscendingDistinct(q.queued);
    FindFinds(q.queued, r);
    var i := Find(q.queued, r);
    if i < |q.queued| {
      var job := q.queued[i];
      WithoutAtFacts(q.queued, i);
      IdsConcat(q.waiting, [job]);
      OneJob(job);
      DistinctAppend(q.waiting, job);
    }
  }

  lemma {:induction false} DistinctAppend(s: seq<Job>, job: Job)
    requires Distinct(s) && job.id !in IdsOf(s)
    ensures Distinct(s + [job])
  {
  }

  lemma {:induction false} RemoveKeeps(q: Queue, id: Id)
    requires Valid(q)
    ensures Valid(Remove(q, id)) && Remove(q, id).ids == q.ids - {id}
    ensures Remove(q, id).cache == if id in IdsOf(q.queued) then {} else q.cache
    ensures forall j: Job :: Pending(Remove(q, id))[j] == if j.id == id then 0 else Pending(q)[j]
  {
    hide Ascending, Distinct, ReqsOf, WithoutId, IdsOf;
    AscendingDistinct(q.queued);
    WithoutIdFacts(q.queued, id);
    WithoutIdFacts(q.waiting, id);
    var t := Remove(q, id);
    assert t.queued == WithoutId(q.queued, id) && t.waiting == WithoutId(q.waiting, id);
    hide Remove;
    NoReqs(t.queued);
    forall j: Job ensures Pending(t)[j] == if j.id == id then 0 else Pending(q)[j] {
      assert Pending(t)[j] == multiset(t.queued)[j] + multiset(t.waiting)[j];
    }
  }

  lemma {:induction false} NoReqs(s: seq<Job>)
    ensures {} <= ReqsOf(s)
  {
  }

  /** What is left of a list without repeated ids when one id is removed. */
  lemma {:induction false} WithoutIdFacts(s: seq<Job>, id: Id)
    requires Distinct(s)
    ensures var t := WithoutId(s, id);
            && Distinct(t) && (Ascending(s) ==> Ascending(t)) && IdsOf(t) == IdsOf(s) - {id}
            && (forall j: Job :: multiset(t)[j] == if j.id == id then 0 else multiset(s)[j])
            && (if id in IdsOf(s) then |t| < |s| else t == s)
  {
    hide Ascending, Distinct, WithoutId, WithoutAt;
    if id in IdsOf(s) {
      var i :| 0 <= i < |s| && s[i].id == id;
      WithoutIdAt(s, i);
      WithoutAtFacts(s, i);
      OnlyOne(s, i);
      WithoutAtLength(s, i);
    } else {
      WithoutAbsentId(s, id);
      Absent(s, id);
    }
  }

  lemma {:induction false} WithoutAtLength(s: seq<Job>, i: nat)
    requires i < |s|
    ensures |WithoutAt(s, i)| == |s| - 1
  {
  }

  lemma {:induction false} Absent(s: seq<Job>, id: Id)
    requires id !in IdsOf(s)
    ensures forall j: Job :: j.id == id ==> multiset(s)[j] == 0
  {
    forall j: Job | j in multiset(s) ensures j.id in IdsOf(s) {
      assert j in s;
    }
  }

  lemma {:induction false} OnlyOne(s: seq<Job>, i: nat)
    requires Distinct(s) && i < |s|
    ensures forall j: Job :: multiset(WithoutAt(s, i))[j] == if j.id == s[i].id then 0 else multiset(s)[j]
  {
    WithoutAtFacts(s, i);
    Absent(WithoutAt(s, i), s[i].id);
  }

  // ---------------------------------------------------------------- which job goes first

  /** The job taken: the longest waiting of its kind, else the queued one of its kind with the smallest id. */
  lemma {:induction false} TakenIsFirst(q: Queue, r: Key) returns (i: nat)
    requires Valid(q) && Take(q, r).1.Some?
    ensures var (t, job) := Take(q, r);
            if r in ReqsOf(q.waiting) then
              && i < |q.waiting| && q.waiting[i] == job.value && (forall k :: 0 <= k < i ==> q.waiting[k].reqs != r)
              && t.waiting == q.waiting[..i] + q.waiting[i + 1..] && t.queued == q.queued
            else
              && i < |q.queued| && q.queued[i] == job.value && (forall j :: j in q.queued && j.reqs == r ==> job.value.id <= j.id)
              && t.queued == q.queued[..i] + q.queued[i + 1..] && t.waiting == q.waiting
  {
    AscendingDistinct(q.queued);
    FindFinds(q.waiting, r);
    hide IdsOf, ReqsOf, WithoutId;
    if Find(q.waiting, r) < |q.waiting| {
      i := Find(q.waiting, r);
      WithoutIdAt(q.waiting, i);
    } else {
      i := Find(q.queued, r);
      WithoutIdAt(q.queued, i);
    }
  }

  /** The job for which a worker is dispatched: of its kind the one with the smallest id; it waits behind the others. */
  lemma {:induction false} DispatchedIsFirst(q: Queue, r: Key) returns (i: nat)
    requires Valid(q) && r in ReqsOf(q.queued)
    ensures var t := Dispatch(q, r).0;
            && i < |q.queued| && q.queued[i].reqs == r && (forall j :: j in q.queued && j.reqs == r ==> q.queued[i].id <= j.id)
            && t.waiting == q.waiting + [q.queued[i]] && t.queued == q.queued[..i] + q.queued[i + 1..] && t.cache == {}
  {
    FindFinds(q.queued, r);
    hide IdsOf, ReqsOf;
    i := Find(q.queued, r);
  }

  // ---------------------------------------------------------------- where ids can go

  lemma {:induction false} WithoutIdSubset(s: seq<Job>, id: Id)
    ensures forall j :: j in WithoutId(s, id) ==> j in s
  {
    if s != [] {
      WithoutIdSubset(s[1..], id);
    }
  }

  /** No operation but `addJob` brings an id into the queued list, and none brings one back from waiting. */
  lemma {:induction false} IdsMove(q: Queue, r: Key, id: Id)
    ensures var t := Take(q, r).0; IdsOf(t.queued) <= IdsOf(q.queued) && IdsOf(t.waiting) <= IdsOf(q.waiting)
    ensures var t := Dispatch(q, r).0; IdsOf(t.queued) <= IdsOf(q.queued) && IdsOf(t.waiting) <= IdsOf(q.waiting) + IdsOf(q.queued)
    ensures var t := Remove(q, id); IdsOf(t.queued) <= IdsOf(q.queued) && IdsOf(t.waiting) <= IdsOf(q.waiting)
  {
    WithoutIdSubset(q.queued, id);
    WithoutIdSubset(q.waiting, id);
    var w, i := Find(q.waiting, r), Find(q.queued, r);
    if w < |q.waiting| {
      WithoutIdSubset(q.waiting, q.waiting[w].id);
    }
    if i < |q.queued| {
      WithoutIdSubset(q.queued, q.queued[i].id);
    }
  }

  lemma {:induction false} AddIds(q: Queue, job: Job)
    ensures IdsOf(Add(q, job).queued) <= IdsOf(q.queued) + {job.id} && Add(q, job).waiting == q.waiting
  {
    var i := Place(q.queued, job.id);
    assert forall j :: j in q.queued[..i] + [job] + q.queued[i..] ==> j in q.queued || j == job;
  }

  // ---------------------------------------------------------------- pending requirements

  /** The requirements of a list of jobs, each as often as it occurs. */
  ghost function Kinds(s: seq<Job>): multiset<Key> {
    if s == [] then multiset{} else multiset{s[0].reqs} + Kinds(s[1..])
  }

  ghost function PendingKinds(q: Queue): multiset<Key> {
    Kinds(q.queued) + Kinds(q.waiting)
  }

  lemma {:induction false} KindsConcat(s: seq<Job>, t: seq<Job>)
    ensures Kinds(s + t) == Kinds(s) + Kinds(t)
  {
    if s == [] {
      assert s + t == t;
    } else {
      assert (s + t)[1..] == s[1..] + t;
      KindsConcat(s[1..], t);
    }
  }

  lemma {:induction false} KindsOne(job: Job)
    ensures Kinds([job]) == multiset{job.reqs}
  {
    assert Kinds([]) == multiset{};
  }

  lemma {:induction false} KindsWithoutAt(s: seq<Job>, i: nat)
    requires i < |s|
    ensures Kinds(s) == Kinds(WithoutAt(s, i)) + multiset{s[i].reqs}
  {
    hide Kinds;
    var lo, hi := s[..i], s[i + 1..];
    assert s == lo + [s[i]] + hi;
    KindsOne(s[i]);
    KindsConcat(lo + [s[i]], hi);
    KindsConcat(lo, [s[i]]);
    KindsConcat(lo, hi);
  }

  lemma {:induction false} KindsMeans(s: seq<Job>, r: Key)
    ensures Kinds(s)[r] > 0 <==> r in ReqsOf(s)
  {
    if s != [] {
      KindsMeans(s[1..], r);
      assert s == [s[0]] + s[1..];
      ReqsConcat([s[0]], s[1..]);
      OneJob(s[0]);
    }
  }

  lemma {:induction false} TakeKinds(q: Queue, r: Key)
    requires Valid(q)
    ensures Take(q, r).1.Some? ==> PendingKinds(q) == PendingKinds(Take(q, r).0) + multiset{r}
  {
    hide Kinds, Ascending, Distinct, WithoutId, WithoutAt;
    AscendingDistinct(q.queued);
    var w, i := Find(q.waiting, r), Find(q.queued, r);
    if w < |q.waiting| {
      WithoutIdAt(q.waiting, w);
      KindsWithoutAt(q.waiting, w);
    } else if i < |q.queued| {
      WithoutIdAt(q.queued, i);
      KindsWithoutAt(q.queued, i);
    }
  }

  lemma {:induction false} DispatchKinds(q: Queue, r: Key)
    ensures PendingKinds(Dispatch(q, r).0) == PendingKinds(q)
  {
    var i := Find(q.queued, r);
    if i < |q.queued| {
      var job := q.queued[i];
      KindsOne(job);
      hide Kinds, WithoutAt;
      KindsWithoutAt(q.queued, i);
      KindsConcat(q.waiting, [job]);
    }
  }

  // ---------------------------------------------------------------- the cache

  /** What `queuedJobRequirements` answers. */
  function View(q: Queue): set<Key> {
    Refill(q).cache
  }

  /** The cache hides no requirement of a queued job. */
  ghost predicate Coherent(q: Queue) {
    q.cache == {} || q.cache == ReqsOf(q.queued)
  }

  /** Taking a waiting job leaves the queued ones and the cache alone; taking a queued one drops the cache. */
  lemma {:induction false} TakeMoves(q: Queue, r: Key)
    requires Valid(q) && Take(q, r).1.Some?
    ensures var t := Take(q, r).0;
            if r in ReqsOf(q.waiting)
            then t.queued == q.queued && t.cache == q.cache && Kinds(q.waiting) == Kinds(t.waiting) + multiset{r}
            else t.cache == {}
  {
    hide Kinds, Ascending, Distinct, WithoutId, WithoutAt;
    FindFinds(q.waiting, r);
    var w := Find(q.waiting, r);
    if w < |q.waiting| {
      WithoutIdAt(q.waiting, w);
      KindsWithoutAt(q.waiting, w);
    }
  }

  lemma {:induction false} ViewOfCoherent(q: Queue)
    requires Valid(q)
    ensures View(q) <= ReqsOf(q.queued)
    ensures View(q) == ReqsOf(q.queued) <==> Coherent(q)
  {
  }

  /**
    Adding a job keeps the cache coherent exactly when the cache was not empty, or no job of another kind
    is queued: an empty cache gets the new requirements alone and is then taken for complete.
    */
  lemma {:induction false} AddCoherent(q: Queue, job: Job)
    requires Valid(q) && Coherent(q) && job.id !in q.ids
    ensures Coherent(Add(q, job)) <==> q.cache != {} || ReqsOf(q.queued) <= {job.reqs}
  {
    var i := Place(q.queued, job.id);
    var lo, hi := q.queued[..i], q.queued[i..];
    assert q.queued == lo + hi;
    hide ReqsOf;
    ReqsConcat(lo, hi);
    ReqsConcat(lo + [job], hi);
    ReqsConcat(lo, [job]);
    OneJob(job);
  }

  /** Every other operation keeps the cache coherent. */
  lemma {:induction false} OthersCoherent(q: Queue, r: Key, id: Id)
    requires Valid(q) && Coherent(q)
    ensures Coherent(Take(q, r).0) && Coherent(Dispatch(q, r).0) && Coherent(Remove(q, id)) && Coherent(Refill(q)) && Coherent(Clear(q))
  {
    if id !in IdsOf(q.queued) {
      WithoutAbsentId(q.queued, id);
    } else {
      AscendingDistinct(q.queued);
      var i :| 0 <= i < |q.queued| && q.queued[i].id == id;
      WithoutIdAt(q.queued, i);
    }
  }

  /** `clear` forgets the waiting jobs' ids but not the jobs: the queue stays consistent only if none was waiting. */
  lemma {:induction false} ClearKeeps(q: Queue)
    requires Valid(q)
    ensures Valid(Clear(q)) <==> q.waiting == []
  {
    if q.waiting != [] {
      assert q.waiting[0].id in IdsOf(q.waiting);
    }
  }

  // ---------------------------------------------------------------- the queue as an object

  class ServerQueue {
    var queued: seq<Job>
    var waiting: seq<Job>
    var ids: set<Id>
    var cache: set<Key>

    ghost function State(): Queue
      reads this
    {
      Queue(queued, waiting, ids, cache)
    }

    constructor ()
      ensures State() == EMPTY
    {
      queued, waiting, ids, cache := [], [], {}, {};
    }

    method AddJob(job: Job) returns (added: bool)
      requires Valid(State())
      modifies this
      ensures State() == Add(old(State()), job)
      ensures added <==> job.id !in old(ids)
    {
      added := job.id !in ids;
      if added {
        var i := LowerBound(queued, job.id);
        queued := queued[..i] + [job] + queued[i..];
        ids := ids + {job.id};
        cache := cache + {job.reqs};
      }
    }

    method TakeJob(r: Key) returns (job: Option<Job>)
      modifies this
      ensures State() == Take(old(State()), r).0
      ensures job == Take(old(State()), r).1
    {
      var w := FindIf(waiting, r);
      if w == |waiting| {
        var i := FindIf(queued, r);
        if i == |queued| {
          return None;
        }
        cache := {};
        var found := queued[i];
        queued := RemoveIf(queued, found.id);
        ids := ids - {found.id};
        return Some(found);
      }
      var found := waiting[w];
      waiting := RemoveIf(waiting, found.id);
      ids := ids - {found.id};
      return Some(found);
    }

    method WaitingJobRequirements() returns (types: set<Key>)
      ensures types == ReqsOf(waiting)
    {
      types := Collect(waiting);
    }

    method QueuedJobRequirements() returns (types: set<Key>)
      modifies this
      ensures State() == Refill(old(State()))
      ensures types == View(old(State()))
    {
      if |cache| == 0 {
        cache := Collect(queued);
      }
      types := cache;
    }

    method WorkerDispatched(r: Key) returns (found: bool)
      modifies this
      ensures State() == Dispatch(old(State()), r).0
      ensures found == Dispatch(old(State()), r).1
    {
      var i := FindIf(queued, r);
      found := i != |queued|;
      if found {
        waiting := waiting + [queued[i]];
        queued := queued[..i] + queued[i + 1..];
        cache := {};
      }
    }

    method RemoveJob(id: Id) returns (found: bool)
      modifies this
      ensures State() == Remove(old(State()), id)
      ensures found <==> id in old(ids)
    {
      var left := RemoveIf(queued, id);
      if |left| < |queued| {
        queued := left;
        cache := {};
      } else {
        waiting := RemoveIf(waiting, id);
      }
      found := id in ids;
      ids := ids - {id};
    }

    method ClearAll()
      modifies this
      ensures State() == Clear(old(State()))
    {
      ids := {};
      queued := [];
      cache := {};
    }
  }

  /** `std::lower_bound`: binary search in the sorted list. */
  method LowerBound(s: seq<Job>, id: Id) returns (i: nat)
    requires Ascending(s)
    ensures i == Place(s, id)
  {
    var lo, hi := 0, |s|;
    while lo < hi
      invariant 0 <= lo <= hi <= |s|
      invariant forall k :: 0 <= k < lo ==> s[k].id < id
      invariant forall k :: hi <= k < |s| ==> id <= s[k].id
    {
      var mid := lo + (hi - lo) / 2;
      if s[mid].id < id {
        lo := mid + 1;
      } else {
        hi := mid;
      }
    }
    i := lo;
    PlaceUnique(s, id, i);
  }

  lemma {:induction false} PlaceUnique(s: seq<Job>, id: Id, i: nat)
    requires i <= |s| && (forall k :: 0 <= k < i ==> s[k].id < id) && (i < |s| ==> id <= s[i].id)
    ensures i == Place(s, id)
  {
    if i > 0 {
      assert s[0].id < id;
      PlaceUnique(s[1..], id, i - 1);
    }
  }

  lemma {:induction false} FindUnique(s: seq<Job>, r: Key, i: nat)
    requires i <= |s| && (forall k :: 0 <= k < i ==> s[k].reqs != r) && (i < |s| ==> s[i].reqs == r)
    ensures i == Find(s, r)
  {
    if i > 0 {
      assert s[0].reqs != r;
      FindUnique(s[1..], r, i - 1);
    }
  }

  method FindIf(s: seq<Job>, r: Key) returns (i: nat)
    ensures i == Find(s, r)
  {
    i := 0;
    while i < |s| && s[i].reqs != r
      invariant i <= |s| && forall k :: 0 <= k < i ==> s[k].reqs != r
    {
      i := i + 1;
    }
    FindUnique(s, r, i);
  }

  method RemoveIf(s: seq<Job>, id: Id) returns (t: seq<Job>)
    ensures t == WithoutId(s, id)
  {
    t := [];
    for i := 0 to |s|
      invariant t + WithoutId(s[i..], id) == WithoutId(s, id)
    {
      assert s[i..][0] == s[i] && s[i..][1..] == s[i + 1..];
      if s[i].id != id {
        t := t + [s[i]];
      }
    }
  }

  method Collect(s: seq<Job>) returns (types: set<Key>)
    ensures types == ReqsOf(s)
  {
    types := {};
    for i := 0 to |s|
      invariant types == ReqsOf(s[..i])
    {
      assert s[..i + 1] == s[..i] + [s[i]];
      ReqsConcat(s[..i], [s[i]]);
      OneJob(s[i]);
      types := types + {s[i].reqs};
    }
    assert s[..|s|] == s;
  }
}
