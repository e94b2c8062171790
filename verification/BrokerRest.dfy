/** When passes without other traffic bring the broker to rest. */
module BrokerRest {
  import opened Requirements
  import opened Broker
  import Q = JobQueue
  import P = WorkerPool

  function Passes(w: World, plans: seq<Plan>): World
    decreases |plans|
  {
    if plans == [] then w else Passes(Pass(w, plans[0]), plans[1..])
  }

  ghost predicate PlansOk(w: World, plans: seq<Plan>)
    decreases |plans|
  {
    plans != [] ==> PlanOk(w, plans[0]) && PlansOk(Pass(w, plans[0]), plans[1..])
  }

  /** No kind has both a pending job and a worker ready for it. */
  ghost predicate AtRest(w: World) {
    forall r :: !Pair(w, r)
  }

  /**
    The cache hides nothing; or it shows a kind with more ready requests than jobs already waiting, which will be
    the end of it; or no kind it hides has more ready requests than jobs already waiting.
    */
  ghost predicate CanRest(w: World) {
    || Q.Coherent(w.queue)
    || (exists k :: k in w.queue.cache && Surplus(w, k) > 0)
    || (forall r :: r in Q.ReqsOf(w.queue.queued) && r !in w.queue.cache ==> Surplus(w, r) <= 0)
  }

  lemma {:induction false} CanRestMoves(w: World, v: World)
    requires CanRest(w) && Moves(w, v)
    ensures CanRest(v)
  {
    hide Surplus, Q.ReqsOf;
  }

  lemma {:induction false} CannotRestMoves(w: World, v: World)
    requires !CanRest(w) && OnlyWaiting(w, v)
    ensures !CanRest(v)
  {
    hide Surplus, Q.ReqsOf;
  }

  /** A kind that is waiting, or queued and shown, or queued and hidden with requests to spare. */
  lemma {:induction false} PairSeen(w: World, r: Key)
    requires Q.Valid(w.queue) && CanRest(w) && Pair(w, r)
    ensures exists k :: P.Ready(w.pool)[k] > 0 && (k in Q.ReqsOf(w.queue.waiting) || k in Q.View(w.queue))
  {
    PendingMeans(w.queue, r);
    Q.ViewOfCoherent(w.queue);
    if !Q.Coherent(w.queue) {
      assert Q.View(w.queue) == w.queue.cache;
      if k :| k in w.queue.cache && Surplus(w, k) > 0 {
        assert P.Ready(w.pool)[k] > 0;
      } else if r !in Q.ReqsOf(w.queue.waiting) {
        assert r in w.queue.cache || Surplus(w, r) <= 0;
        Q.KindsMeans(w.queue.waiting, r);
      }
    }
  }

  /** From such a state a pass sends something exactly if there is something to match, and leads to such a state. */
  lemma {:induction false} RestProgress(w: World, plan: Plan) returns (bag: multiset<Key>)
    requires Inv(w) && PlanOk(w, plan) && CanRest(w)
    ensures Inv(Pass(w, plan)) && CanRest(Pass(w, plan)) && Accounts(w, Pass(w, plan), bag)
    ensures bag != multiset{} <==> !AtRest(w)
  {
    ValidTables(w);
    hide Pass, PlanOk, Inv, CanRest, Accounts, P.Ready, Q.PendingKinds, Q.View, Q.ReqsOf, Forward, Moves, Pair, Q.Valid;
    bag := PassKeeps(w, plan);
    PassMoves(w, plan);
    CanRestMoves(w, Pass(w, plan));
    if r :| Pair(w, r) {
      PairSeen(w, r);
    } else {
      SeenPair(w);
    }
  }

  lemma {:induction false} SeenPair(w: World)
    requires Q.Valid(w.queue)
    ensures forall k :: P.Ready(w.pool)[k] > 0 && (k in Q.ReqsOf(w.queue.waiting) || k in Q.View(w.queue)) ==> Pair(w, k)
  {
    Q.ViewOfCoherent(w.queue);
    hide P.Ready, Q.PendingKinds, Q.View, Q.ReqsOf;
    forall k | P.Ready(w.pool)[k] > 0 && (k in Q.ReqsOf(w.queue.waiting) || k in Q.View(w.queue)) ensures Pair(w, k) {
      PendingMeans(w.queue, k);
    }
  }

  lemma {:induction false} StaysAtRest(w: World, plans: seq<Plan>)
    requires Inv(w) && CanRest(w) && PlansOk(w, plans) && AtRest(w)
    ensures var v := Passes(w, plans);
            AtRest(v) && Q.PendingKinds(v.queue) == Q.PendingKinds(w.queue) && P.Ready(v.pool) == P.Ready(w.pool)
    decreases |plans|
  {
    hide Pass, Inv, CanRest, PlanOk, Q.PendingKinds, P.Ready;
    if plans != [] {
      var bag := RestProgress(w, plans[0]);
      var v := Pass(w, plans[0]);
      forall r ensures !Pair(v, r) {
        assert !Pair(w, r);
      }
      StaysAtRest(v, plans[1..]);
    }
  }

  /**
    From such a state passes alone, at least as many as there are pending jobs, send exactly min(pending, ready)
    jobs of every kind and leave no kind with both.
    */
  lemma {:induction false} Quiescence(w: World, plans: seq<Plan>) returns (bag: multiset<Key>)
    requires Inv(w) && CanRest(w) && PlansOk(w, plans) && |plans| >= |Q.PendingKinds(w.queue)|
    ensures bag == Q.PendingKinds(w.queue) * P.Ready(w.pool)
    ensures var v := Passes(w, plans);
            && Q.PendingKinds(w.queue) == Q.PendingKinds(v.queue) + bag
            && P.Ready(w.pool) == P.Ready(v.pool) + bag
            && AtRest(v)
    decreases |plans|
  {
    hide Pass, Inv, CanRest, PlanOk, Q.PendingKinds, P.Ready;
    if AtRest(w) {
      StaysAtRest(w, plans);
      bag := multiset{};
    } else {
      NothingPending(w);
      var one := RestProgress(w, plans[0]);
      var v := Pass(w, plans[0]);
      assert |Q.PendingKinds(w.queue)| == |Q.PendingKinds(v.queue)| + |one|;
      assert |one| > 0;
      var rest := Quiescence(v, plans[1..]);
      bag := one + rest;
    }
    RestIsMin(w, Passes(w, plans), bag);
  }

  lemma {:induction false} NothingPending(w: World)
    requires !AtRest(w)
    ensures |Q.PendingKinds(w.queue)| > 0
  {
    hide Q.PendingKinds, P.Ready;
    var r :| Pair(w, r);
    assert r in Q.PendingKinds(w.queue);
  }

  lemma {:induction false} RestIsMin(w: World, v: World, bag: multiset<Key>)
    requires Q.PendingKinds(w.queue) == Q.PendingKinds(v.queue) + bag && P.Ready(w.pool) == P.Ready(v.pool) + bag && AtRest(v)
    ensures bag == Q.PendingKinds(w.queue) * P.Ready(w.pool)
  {
    hide Q.PendingKinds, P.Ready;
    forall r ensures bag[r] == (Q.PendingKinds(w.queue) * P.Ready(w.pool))[r] {
      assert !Pair(v, r);
    }
  }

  // ---------------------------------------------------------------- where rest is out of reach

  lemma {:induction false} Listed(s: set<Key>) returns (types: seq<Key>)
    ensures Enumerates(types, s)
  {
    if s == {} {
      types := [];
    } else {
      var r :| r in s;
      var rest := Listed(s - {r});
      types := [r] + rest;
      forall i, j | 0 <= i < j < |types| ensures types[i] != types[j] {
        assert types[j] == rest[j - 1] && rest[j - 1] in rest;
        assert i > 0 ==> types[i] == rest[i - 1];
      }
    }
  }

  /** In any other state there is a pass, without space in the factory, that only sends waiting jobs. */
  lemma {:induction false} StuckPass(w: World) returns (plan: Plan)
    requires Inv(w) && !CanRest(w)
    ensures PlanOk(w, plan) && Inv(Pass(w, plan)) && !CanRest(Pass(w, plan))
  {
    ValidTables(w);
    NotIdle(w);
    hide Q.PendingKinds, P.Ready, Forward, AssignAll, Q.ReqsOf, Inv, CanRest, Q.View, Q.Refill, OnlyWaiting, Enumerates, Q.Valid, Idle;
    var first := Listed(Q.ReqsOf(w.queue.waiting));
    plan := Plan(first, [], [], false, {}, {});
    ListedPending(w, first);
    AssignAllMoves(w, first, {});
    var bag1 := FirstLoop(w, plan);
    var w1 := AfterFirst(w, plan);
    CannotRestMoves(w, w1);
    var second := Listed(Q.View(w1.queue));
    plan := plan.(second := second);
    assert AfterFirst(w, plan) == w1;
    RefillOne(w1);
    HiddenView(w1, second);
    AssignAllMoves(w1, second, {});
    var bag2 := SecondLoop(w, plan);
    var w2 := AfterSecond(w, plan);
    CannotRestMoves(w1, w2);
    assert Pass(w, plan) == w2;
  }

  lemma {:induction false} NotIdle(w: World)
    requires !CanRest(w)
    ensures !Idle(w)
  {
  }

  lemma {:induction false} ListedPending(w: World, types: seq<Key>)
    requires Enumerates(types, Q.ReqsOf(w.queue.waiting))
    ensures Different(types) && forall r :: r in types ==> Q.PendingKinds(w.queue)[r] > 0
    ensures forall r :: r in types && P.Ready(w.pool)[r] > 0 ==> r in Q.ReqsOf(w.queue.waiting)
  {
    hide Q.PendingKinds, Q.ReqsOf, P.Ready;
    forall r | r in types ensures Q.PendingKinds(w.queue)[r] > 0 {
      PendingMeans(w.queue, r);
    }
  }

  /** What the cache shows in such a state has no requests beyond the jobs that wait. */
  lemma {:induction false} HiddenView(w: World, types: seq<Key>)
    requires Inv(w) && !CanRest(w) && Enumerates(types, Q.View(w.queue))
    ensures Q.Refill(w.queue) == w.queue
    ensures Different(types) && forall r :: r in types ==> Q.PendingKinds(w.queue)[r] > 0
    ensures forall r :: r in types && P.Ready(w.pool)[r] > 0 ==> r in Q.ReqsOf(w.queue.waiting)
  {
    ValidTables(w);
    Q.ViewOfCoherent(w.queue);
    assert Q.Refill(w.queue) == w.queue;
    hide Inv, Q.PendingKinds, Q.ReqsOf, P.Ready, Q.Kinds, Q.Valid;
    forall r | r in types ensures Q.PendingKinds(w.queue)[r] > 0 && (P.Ready(w.pool)[r] > 0 ==> r in Q.ReqsOf(w.queue.waiting)) {
      PendingMeans(w.queue, r);
      Q.KindsMeans(w.queue.waiting, r);
      assert r in w.queue.cache;
    }
  }

  lemma {:induction false} NeverRests(w: World, n: nat) returns (plans: seq<Plan>)
    requires Inv(w) && !CanRest(w)
    ensures |plans| == n && PlansOk(w, plans) && !AtRest(Passes(w, plans))
    decreases n
  {
    hide Inv, CanRest, Pass, PlanOk, AtRest;
    if n == 0 {
      plans := [];
      HiddenPair(w);
    } else {
      var plan := StuckPass(w);
      var rest := NeverRests(Pass(w, plan), n - 1);
      plans := [plan] + rest;
      assert plans[0] == plan && plans[1..] == rest;
    }
  }

  lemma {:induction false} HiddenPair(w: World)
    requires !CanRest(w)
    ensures !AtRest(w)
  {
    var r :| r in Q.ReqsOf(w.queue.queued) && r !in w.queue.cache && Surplus(w, r) > 0;
    PendingMeans(w.queue, r);
    hide Q.PendingKinds;
    assert Pair(w, r);
  }

  /** Every sufficient number of passes, however they go, ends at rest. */
  ghost predicate AlwaysRests(w: World) {
    forall plans :: PlansOk(w, plans) && |plans| >= |Q.PendingKinds(w.queue)| ==> AtRest(Passes(w, plans))
  }

  /** Passes alone always bring the broker to rest exactly from the states that `CanRest` describes. */
  lemma {:induction false} RestExactly(w: World)
    requires Inv(w)
    ensures AlwaysRests(w) <==> CanRest(w)
  {
    hide Inv, CanRest, PlansOk, Passes, AtRest, Q.PendingKinds, P.Ready;
    if CanRest(w) {
      forall plans | PlansOk(w, plans) && |plans| >= |Q.PendingKinds(w.queue)| ensures AtRest(Passes(w, plans)) {
        var bag := Quiescence(w, plans);
      }
    } else {
      var plans := NeverRests(w, |Q.PendingKinds(w.queue)|);
      assert PlansOk(w, plans);
    }
  }
}
