/**
  The pool that runs workers as threads: tasks are accepted under a lock, mark themselves completed under the
  same lock when they end, and completed entries are dropped the next time a task is offered.
  */
module ThreadPool {

  /** `futures` maps each key to whether its task has completed. */
  datatype Pool = Pool(futures: map<nat, bool>, size: nat, next: nat)

  /** The pool, the tasks whose threads are running, and the tasks that ended with something not a `std::exception`. */
  datatype World = World(pool: Pool, running: set<nat>, escaped: set<nat>)

  datatype Event = Offer | Finish(key: nat) | Escape(key: nat) | Resize(size: nat)

  function Active(f: map<nat, bool>): set<nat> {
    set k | k in f && !f[k]
  }

  /** `number_of_active_threads` */
  function ActiveCount(p: Pool): nat {
    |Active(p.futures)|
  }

  function Harvested(f: map<nat, bool>): (r: map<nat, bool>) {
    map k | k in f && !f[k] :: false
  }

  predicate Accepts(p: Pool) {
    |Harvested(p.futures)| < p.size
  }

  /** `run_task` */
  function Offered(p: Pool): Pool {
    var f := Harvested(p.futures);
    if |f| >= p.size then p.(futures := f) else Pool(f[p.next := false], p.size, p.next + 1)
  }

  predicate Enabled(w: World, e: Event) {
    (e.Finish? || e.Escape?) ==> e.key in w.running
  }

  function Next(w: World, e: Event): World {
    match e
    case Offer => World(Offered(w.pool), if Accepts(w.pool) then w.running + {w.pool.next} else w.running, w.escaped)
    case Finish(k) => World(w.pool.(futures := w.pool.futures[k := true]), w.running - {k}, w.escaped)
    // the exception is kept by the future; nothing marks the entry
    case Escape(k) => World(w.pool, w.running - {k}, w.escaped + {k})
    case Resize(n) => w.(pool := w.pool.(size := n))
  }

  function Start(size: nat): World {
    World(Pool(map[], size, 0), {}, {})
  }

  /** The entries not completed are exactly those of tasks still running or escaped. */
  ghost predicate Inv(w: World) {
    && (forall k :: k in w.pool.futures ==> k < w.pool.next)
    && Active(w.pool.futures) == w.running + w.escaped
    && w.running !! w.escaped
  }

  lemma {:induction false} HarvestedSize(f: map<nat, bool>)
    ensures Harvested(f).Keys == Active(f) && |Harvested(f)| == |Active(f)|
  {
    assert Harvested(f).Keys == Active(f);
    assert |Harvested(f)| == |Harvested(f).Keys|;
  }

  lemma {:induction false} NextInv(w: World, e: Event)
    requires Inv(w) && Enabled(w, e)
    ensures Inv(Next(w, e))
  {
    var v := Next(w, e);
    match e
    case Offer =>
      HarvestedSize(w.pool.futures);
      assert w.pool.next !in Active(w.pool.futures);
      OfferedActive(w.pool);
    case Finish(k) =>
      assert k in Active(w.pool.futures);
      assert Active(v.pool.futures) == Active(w.pool.futures) - {k};
    case _ =>
  }

  lemma {:induction false} OfferedActive(p: Pool)
    ensures Active(Offered(p).futures) == Active(p.futures) + (if Accepts(p) then {p.next} else {})
  {
    HarvestedSize(p.futures);
  }

  /** Harvesting drops exactly the completed tasks: every running task keeps an uncompleted entry of its own. */
  lemma {:induction false} HarvestKeepsRunning(w: World, k: nat)
    requires Inv(w) && k in w.pool.futures
    ensures k in Offered(w.pool).futures <==> !w.pool.futures[k]
    ensures k in w.running ==> k in Offered(w.pool).futures && !Offered(w.pool).futures[k]
  {
    OfferedActive(w.pool);
  }

  // ---------------------------------------------------------------- runs

  ghost predicate IsRun(ws: seq<World>, es: seq<Event>, size: nat) {
    && |ws| == |es| + 1
    && ws[0] == Start(size)
    && forall i :: 0 <= i < |es| ==> Enabled(ws[i], es[i]) && ws[i + 1] == Next(ws[i], es[i])
  }

  lemma {:induction false} RunInv(ws: seq<World>, es: seq<Event>, size: nat, i: nat)
    requires IsRun(ws, es, size) && i < |ws|
    ensures Inv(ws[i])
  {
    if i > 0 {
      RunInv(ws, es, size, i - 1);
      NextInv(ws[i - 1], es[i - 1]);
    }
  }

  /** A step takes the number of active threads up only by accepting a task, and then only to the pool's size at most. */
  lemma {:induction false} StepCount(w: World, e: Event)
    requires Inv(w) && Enabled(w, e)
    ensures ActiveCount(Next(w, e).pool) > ActiveCount(w.pool) <==> e.Offer? && Accepts(w.pool)
    ensures ActiveCount(Next(w, e).pool) > ActiveCount(w.pool)
            ==> ActiveCount(Next(w, e).pool) == ActiveCount(w.pool) + 1 <= w.pool.size
  {
    match e
    case Offer =>
      HarvestedSize(w.pool.futures);
      OfferedActive(w.pool);
      assert w.pool.next !in Active(w.pool.futures);
    case Finish(k) =>
      assert Active(Next(w, e).pool.futures) == Active(w.pool.futures) - {k};
      Fewer(Active(w.pool.futures), k);
    case _ =>
  }

  lemma {:induction false} Fewer(s: set<nat>, k: nat)
    ensures |s - {k}| <= |s|
  {
    if k in s {
      assert s == (s - {k}) + {k};
    } else {
      assert s - {k} == s;
    }
  }

  /** The largest limit in force between two moments of a run. */
  ghost function LargestSize(ws: seq<World>, i: nat, j: nat): nat
    requires i <= j < |ws|
    decreases j
  {
    if i == j then ws[i].pool.size
    else
      var m := LargestSize(ws, i, j - 1);
      if ws[j].pool.size > m then ws[j].pool.size else m
  }

  /** Over any stretch of any run, active threads stay within the largest limit in force or the number there was. */
  lemma {:induction false} ActiveBounded(ws: seq<World>, es: seq<Event>, size: nat, i: nat, j: nat)
    requires IsRun(ws, es, size) && i <= j < |ws|
    ensures ActiveCount(ws[j].pool) <= ActiveCount(ws[i].pool) || ActiveCount(ws[j].pool) <= LargestSize(ws, i, j)
    decreases j
  {
    hide ActiveCount, Next, Inv, Enabled, Accepts;
    if i < j {
      ActiveBounded(ws, es, size, i, j - 1);
      RunInv(ws, es, size, j - 1);
      StepCount(ws[j - 1], es[j - 1]);
      SizeInStretch(ws, i, j - 1);
    }
  }

  lemma {:induction false} SizeInStretch(ws: seq<World>, i: nat, j: nat)
    requires i <= j < |ws|
    ensures ws[j].pool.size <= LargestSize(ws, i, j)
    decreases j
  {
  }

  /** While the number of active threads is at or above the limit, and the limit is not raised, it never grows. */
  lemma {:induction false} NeverGrowsOverLimit(ws: seq<World>, es: seq<Event>, size: nat, i: nat, j: nat)
    requires IsRun(ws, es, size) && i <= j < |ws| && ActiveCount(ws[i].pool) >= LargestSize(ws, i, j)
    ensures ActiveCount(ws[j].pool) <= ActiveCount(ws[i].pool)
  {
    ActiveBounded(ws, es, size, i, j);
  }

  /** The count says how many threads run exactly as long as no task has ended with a foreign exception. */
  lemma {:induction false} CountsRunning(ws: seq<World>, es: seq<Event>, size: nat, i: nat)
    requires IsRun(ws, es, size) && i < |ws|
    ensures ActiveCount(ws[i].pool) == |ws[i].running| <==> ws[i].escaped == {}
  {
    RunInv(ws, es, size, i);
    var w := ws[i];
    assert |w.running + w.escaped| == |w.running| + |w.escaped|;
  }

  /** A task that ended with a foreign exception keeps an uncompleted entry for the rest of the run. */
  lemma {:induction false} EscapedForGood(ws: seq<World>, es: seq<Event>, size: nat, i: nat, j: nat, k: nat)
    requires IsRun(ws, es, size) && i <= j < |ws| && k in ws[i].escaped
    ensures k in ws[j].escaped && k in ws[j].pool.futures && !ws[j].pool.futures[k]
    decreases j
  {
    RunInv(ws, es, size, j);
    if i < j {
      EscapedForGood(ws, es, size, i, j - 1, k);
    }
    assert k in Active(ws[j].pool.futures);
  }

  /** A task is accepted exactly if the running and the escaped tasks together leave room. */
  lemma {:induction false} AcceptsExactly(ws: seq<World>, es: seq<Event>, size: nat, i: nat)
    requires IsRun(ws, es, size) && i < |ws|
    ensures Accepts(ws[i].pool) <==> |ws[i].running| + |ws[i].escaped| < ws[i].pool.size
  {
    RunInv(ws, es, size, i);
    var w := ws[i];
    HarvestedSize(w.pool.futures);
    assert |w.running + w.escaped| == |w.running| + |w.escaped|;
  }

  /** Once as many tasks have escaped as the pool has places, it accepts nothing until it is made larger. */
  lemma {:induction false} FullForGood(ws: seq<World>, es: seq<Event>, size: nat, i: nat, j: nat)
    requires IsRun(ws, es, size) && i <= j < |ws| && ws[j].pool.size <= |ws[i].escaped|
    ensures !Accepts(ws[j].pool)
  {
    forall k | k in ws[i].escaped ensures k in ws[j].escaped {
      EscapedForGood(ws, es, size, i, j, k);
    }
    Larger(ws[i].escaped, ws[j].escaped);
    AcceptsExactly(ws, es, size, j);
  }

  lemma {:induction false} Larger(s: set<nat>, t: set<nat>)
    requires s <= t
    ensures |s| <= |t|
  {
    assert t == s + (t - s);
  }

  /** One accepted task that ends so, and a pool of size one is closed: no run that goes on from there, unresized, accepts again. */
  lemma {:induction false} OnePlaceLost(ws: seq<World>, es: seq<Event>, j: nat)
    requires IsRun(ws, es, 1) && |es| >= 2 && es[0] == Offer && es[1] == Escape(0) && 2 <= j < |ws|
    requires forall i :: 2 <= i < |es| ==> !es[i].Resize?
    ensures ws[2].escaped == {0} && ws[2].running == {} && !Accepts(ws[j].pool)
  {
    FirstTwo(ws, es);
    SizeStays(ws, es, 2, j);
    FullForGood(ws, es, 1, 2, j);
  }

  lemma {:induction false} FirstTwo(ws: seq<World>, es: seq<Event>)
    requires IsRun(ws, es, 1) && |es| >= 2 && es[0] == Offer && es[1] == Escape(0)
    ensures ws[2].escaped == {0} && ws[2].running == {} && ws[2].pool.size == 1
  {
    HarvestedSize(map[]);
    assert Active(map[]) == {};
    assert ws[1] == Next(Start(1), Offer) && ws[2] == Next(ws[1], Escape(0));
    assert ws[1].running == {0};
  }

  lemma {:induction false} SizeStays(ws: seq<World>, es: seq<Event>, i: nat, j: nat)
    requires IsRun(ws, es, 1) && i <= j < |ws| && forall k :: i <= k < |es| ==> !es[k].Resize?
    ensures ws[j].pool.size == ws[i].pool.size
    decreases j
  {
    if i < j {
      SizeStays(ws, es, i, j - 1);
    }
  }

  /** Such a run exists. */
  lemma {:induction false} ClosedPool() returns (ws: seq<World>)
    ensures IsRun(ws, [Offer, Escape(0), Offer], 1) && ws[3].escaped == {0} && !Accepts(ws[2].pool)
  {
    var w1 := Next(Start(1), Offer);
    HarvestedSize(map[]);
    assert Active(map[]) == {};
    assert w1.running == {0};
    var w2 := Next(w1, Escape(0));
    ws := [Start(1), w1, w2, Next(w2, Offer)];
    OnePlaceLost(ws, [Offer, Escape(0), Offer], 2);
  }

  /** Every running task has an entry under its own key that is not completed. */
  lemma {:induction false} RunningHaveEntries(ws: seq<World>, es: seq<Event>, size: nat, i: nat, k: nat)
    requires IsRun(ws, es, size) && i < |ws| && k in ws[i].running
    ensures k in ws[i].pool.futures && !ws[i].pool.futures[k]
  {
    RunInv(ws, es, size, i);
    assert k in Active(ws[i].pool.futures);
  }

  // ---------------------------------------------------------------- the pool as an object

  class Threads {
    var futures: map<nat, bool>
    var poolSize: nat
    var nextKey: nat

    ghost function State(): Pool
      reads this
    {
      Pool(futures, poolSize, nextKey)
    }

    constructor (size: nat)
      ensures State() == Start(size).pool
    {
      futures, poolSize, nextKey := map[], size, 0;
    }

    method SetSize(size: nat)
      modifies this
      ensures State() == old(State()).(size := size)
    {
      poolSize := size;
    }

    method NumberOfActiveThreads() returns (count: nat)
      ensures count == ActiveCount(State())
    {
      count := 0;
      var rest := futures.Keys;
      ghost var seen: set<nat> := {};
      while rest != {}
        invariant rest <= futures.Keys && seen == (set k | k in futures && k !in rest && !futures[k]) && count == |seen|
        decreases rest
      {
        var k :| k in rest;
        if !futures[k] {
          count := count + 1;
          seen := seen + {k};
        }
        rest := rest - {k};
      }
      assert seen == Active(futures);
    }

    method Harvest()
      modifies this`futures
      ensures futures == Harvested(old(futures))
    {
      var rest := futures.Keys;
      while rest != {}
        invariant rest <= futures.Keys <= old(futures).Keys
        invariant forall k :: k in futures ==> futures[k] == old(futures)[k] && (k !in rest ==> !futures[k])
        invariant forall k :: k in old(futures) && !old(futures)[k] ==> k in futures
        decreases rest
      {
        var k :| k in rest;
        if futures[k] {
          futures := futures - {k};
        }
        rest := rest - {k};
      }
      assert futures == Harvested(old(futures));
    }

    /** `run_task` */
    method RunTask() returns (accepted: bool)
      modifies this
      ensures State() == Offered(old(State())) && accepted == Accepts(old(State()))
    {
      Harvest();
      if |futures| >= poolSize {
        return false;
      }
      futures := futures[nextKey := false];
      nextKey := nextKey + 1;
      return true;
    }

    /** The end of `wrap_task`: one task less is active, and the pool is that of the `Finish` step. */
    method Completed(key: nat, ghost w: World)
      requires w.pool == State() && Inv(w) && key in w.running
      modifies this`futures
      ensures State() == Next(w, Finish(key)).pool && Inv(Next(w, Finish(key)))
      ensures ActiveCount(State()) == ActiveCount(old(State())) - 1
    {
      NextInv(w, Finish(key));
      assert key in Active(futures);
      futures := futures[key := true];
      assert Active(futures) == Active(old(futures)) - {key};
    }
  }
}
