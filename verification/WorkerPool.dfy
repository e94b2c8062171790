/**
  The workers a server knows: for each address and requirements, how many jobs the worker has asked for
  and not yet received.
  */
module WorkerPool {
  import opened Bytes
  import opened Requirements

  /** A socket identity. */
  type Address = nat

  datatype WorkerInfo = WorkerInfo(desired: int, reqs: Key, address: Address, responsive: bool) {
    predicate IsWaitingForWork() {
      desired > 0 && responsive
    }
    predicate Is(a: Address, r: Key) {
      address == a && reqs == r
    }
  }

  type Pool = seq<WorkerInfo>

  /** A worker is listed once per requirements, and never owes jobs. */
  ghost predicate Valid(p: Pool) {
    && (forall i, j :: 0 <= i < j < |p| ==> !p[j].Is(p[i].address, p[i].reqs))
    && (forall i :: 0 <= i < |p| ==> p[i].desired >= 0)
  }

  predicate HaveWorker(p: Pool, a: Address, r: Key) {
    exists i :: 0 <= i < |p| && p[i].Is(a, r)
  }

  predicate HaveWaitingWorker(p: Pool, r: Key) {
    exists i :: 0 <= i < |p| && p[i].reqs == r && p[i].IsWaitingForWork()
  }

  // ---------------------------------------------------------------- operations

  function AddWorker(p: Pool, a: Address, r: Key): Pool {
    if HaveWorker(p, a, r) then p else p + [WorkerInfo(0, r, a, true)]
  }

  /** `readyForWork`: every entry with this address and requirements takes one more job. */
  function ReadyForWork(p: Pool, a: Address, r: Key): (q: Pool)
    ensures |q| == |p|
    ensures forall i :: 0 <= i < |p| ==> q[i] == if p[i].Is(a, r) then p[i].(desired := p[i].desired + 1, responsive := true) else p[i]
  {
    seq(|p|, i requires 0 <= i < |p| => if p[i].Is(a, r) then p[i].(desired := p[i].desired + 1, responsive := true) else p[i])
  }

  /** Position of the first worker that waits for such a job, or the length. */
  function FirstWaiting(p: Pool, r: Key): (i: nat)
    ensures i <= |p| && (forall k :: 0 <= k < i ==> !(p[k].reqs == r && p[k].IsWaitingForWork()))
    ensures i < |p| ==> p[i].reqs == r && p[i].IsWaitingForWork()
  {
    if p == [] then 0 else if p[0].reqs == r && p[0].IsWaitingForWork() then 0 else 1 + FirstWaiting(p[1..], r)
  }

  function Rotated(p: Pool): Pool
    requires p != []
  {
    p[1..] + [p[0]]
  }

  /** `takeWorker`: the worker found is owed one job less; the whole list moves round by one place. */
  function TakeWorker(p: Pool, r: Key): (Pool, Option<Address>) {
    var i := FirstWaiting(p, r);
    if i == |p| then (p, None)
    else (Rotated(p[i := p[i].(desired := p[i].desired - 1)]), Some(p[i].address))
  }

  /** `purgeDeadWorkers`: `alive` are the sockets the monitor still tracks, `late` the ones that missed heartbeats. */
  function Purge(p: Pool, alive: set<Address>, late: set<Address>): Pool {
    if p == [] then []
    else (if p[0].address in alive then [p[0].(responsive := p[0].address !in late)] else []) + Purge(p[1..], alive, late)
  }

  // ---------------------------------------------------------------- credits

  ghost function Times<T(!new)>(x: T, n: int): (m: multiset<T>)
    ensures forall y :: m[y] == if y == x && n > 0 then n else 0
  {
    multiset{}[x := if n > 0 then n else 0]
  }

  /** The jobs the pool still owes, by worker and requirements. */
  ghost function Credits(p: Pool): multiset<(Address, Key)> {
    if p == [] then multiset{} else Times((p[0].address, p[0].reqs), p[0].desired) + Credits(p[1..])
  }

  /** The jobs that could be sent now, by requirements. */
  ghost function Ready(p: Pool): multiset<Key> {
    if p == [] then multiset{} else Times(p[0].reqs, if p[0].responsive then p[0].desired else 0) + Ready(p[1..])
  }

  lemma {:induction false} SumsConcat(p: Pool, q: Pool)
    ensures Credits(p + q) == Credits(p) + Credits(q) && Ready(p + q) == Ready(p) + Ready(q)
  {
    if p == [] {
      assert p + q == q;
    } else {
      assert (p + q)[1..] == p[1..] + q;
      SumsConcat(p[1..], q);
    }
  }

  lemma {:induction false} TimesMore<T(!new)>(x: T, n: int)
    requires n >= 0
    ensures Times(x, n + 1) == Times(x, n) + multiset{x}
  {
  }

  lemma {:induction false} Cancel<T(!new)>(a: multiset<T>, b: multiset<T>, x: multiset<T>, e: multiset<T>)
    requires a + (x + e) == b + x
    ensures b == a + e
  {
    forall y ensures b[y] == (a + e)[y] {
      assert (a + (x + e))[y] == (b + x)[y];
    }
  }

  lemma {:induction false} SumsOne(w: WorkerInfo)
    ensures Credits([w]) == Times((w.address, w.reqs), w.desired)
    ensures Ready([w]) == Times(w.reqs, if w.responsive then w.desired else 0)
  {
  }

  lemma {:induction false} SumsAt(p: Pool, i: nat)
    requires i < |p|
    ensures Credits(p) == Credits(p[..i]) + Times((p[i].address, p[i].reqs), p[i].desired) + Credits(p[i + 1..])
    ensures Ready(p) == Ready(p[..i]) + Times(p[i].reqs, if p[i].responsive then p[i].desired else 0) + Ready(p[i + 1..])
  {
    hide Credits, Ready, Times;
    assert p == p[..i] + [p[i]] + p[i + 1..];
    SumsConcat(p[..i] + [p[i]], p[i + 1..]);
    SumsConcat(p[..i], [p[i]]);
    SumsOne(p[i]);
  }

  lemma {:induction false} ReadyMeans(p: Pool, r: Key)
    ensures Ready(p)[r] > 0 <==> HaveWaitingWorker(p, r)
    ensures HaveWaitingWorker(p, r) <==> FirstWaiting(p, r) < |p|
  {
    if p != [] {
      ReadyMeans(p[1..], r);
      if HaveWaitingWorker(p[1..], r) {
        var i :| 0 <= i < |p[1..]| && p[1..][i].reqs == r && p[1..][i].IsWaitingForWork();
        assert p[i + 1].reqs == r && p[i + 1].IsWaitingForWork();
      }
      if HaveWaitingWorker(p, r) {
        var i :| 0 <= i < |p| && p[i].reqs == r && p[i].IsWaitingForWork();
        assert i > 0 ==> p[1..][i - 1] == p[i];
      }
    }
  }

  // ---------------------------------------------------------------- what the operations keep

  lemma {:induction false} AddWorkerKeeps(p: Pool, a: Address, r: Key)
    requires Valid(p)
    ensures Valid(AddWorker(p, a, r)) && HaveWorker(AddWorker(p, a, r), a, r)
    ensures Credits(AddWorker(p, a, r)) == Credits(p) && Ready(AddWorker(p, a, r)) == Ready(p)
  {
    if !HaveWorker(p, a, r) {
      var w := WorkerInfo(0, r, a, true);
      SumsConcat(p, [w]);
      SumsOne(w);
      assert AddWorker(p, a, r)[|p|].Is(a, r);
    }
  }

  lemma {:induction false} ReadyForWorkKeeps(p: Pool, a: Address, r: Key)
    requires Valid(p)
    ensures Valid(ReadyForWork(p, a, r))
    ensures Credits(ReadyForWork(p, a, r)) == Credits(p) + (if HaveWorker(p, a, r) then multiset{(a, r)} else multiset{})
    ensures HaveWorker(p, a, r) ==> HaveWaitingWorker(ReadyForWork(p, a, r), r)
  {
    hide Credits, Times;
    var q := ReadyForWork(p, a, r);
    if HaveWorker(p, a, r) {
      var i :| 0 <= i < |p| && p[i].Is(a, r);
      assert q[i].reqs == r && q[i].IsWaitingForWork();
      assert forall k :: 0 <= k < |p| && k != i ==> q[k] == p[k];
      ChangedAt(p, q, i);
      TimesMore((a, r), p[i].desired);
      Cancel(Credits(p), Credits(q), Times((a, r), p[i].desired), multiset{(a, r)});
    } else {
      assert q == p;
    }
  }

  /** Changing one entry changes the sums by what that entry contributes. */
  lemma {:induction false} ChangedAt(p: Pool, q: Pool, i: nat)
    requires |q| == |p| && i < |p| && (forall k :: 0 <= k < |p| && k != i ==> q[k] == p[k])
    ensures Credits(p) + Times((q[i].address, q[i].reqs), q[i].desired) == Credits(q) + Times((p[i].address, p[i].reqs), p[i].desired)
    ensures Ready(p) + Times(q[i].reqs, if q[i].responsive then q[i].desired else 0)
         == Ready(q) + Times(p[i].reqs, if p[i].responsive then p[i].desired else 0)
  {
    hide Credits, Ready, Times;
    assert q[..i] == p[..i] && q[i + 1..] == p[i + 1..];
    SumsAt(p, i);
    SumsAt(q, i);
  }

  lemma {:induction false} RotatedKeeps(p: Pool)
    requires p != [] && Valid(p)
    ensures Valid(Rotated(p)) && Credits(Rotated(p)) == Credits(p) && Ready(Rotated(p)) == Ready(p)
  {
    assert p == [p[0]] + p[1..];
    SumsConcat([p[0]], p[1..]);
    SumsConcat(p[1..], [p[0]]);
    var q := Rotated(p);
    forall i, j | 0 <= i < j < |q| ensures !q[j].Is(q[i].address, q[i].reqs) {
      assert q[i] == p[i + 1];
      assert q[j] == if j == |q| - 1 then p[0] else p[j + 1];
    }
  }

  lemma {:induction false} TakeWorkerKeeps(p: Pool, r: Key)
    requires Valid(p)
    ensures var (q, w) := TakeWorker(p, r);
            && Valid(q)
            && (w.Some? <==> HaveWaitingWorker(p, r))
            && (w.None? ==> q == p)
            && (w.Some? ==> Credits(p) == Credits(q) + multiset{(w.value, r)} && Ready(p) == Ready(q) + multiset{r})
  {
    hide Credits, Ready, Times;
    ReadyMeans(p, r);
    var i := FirstWaiting(p, r);
    if i < |p| {
      OneTaken(p, i);
      RotatedKeeps(p[i := p[i].(desired := p[i].desired - 1)]);
    }
  }

  /** The worker that took a job is last in the list afterwards exactly when it was first before. */
  lemma {:induction false} TakenGoesLast(p: Pool, r: Key)
    requires Valid(p) && HaveWaitingWorker(p, r)
    ensures var i, q := FirstWaiting(p, r), TakeWorker(p, r).0;
            && i < |p| && |q| == |p| && TakeWorker(p, r).1 == Some(p[i].address)
            && (q[|q| - 1].Is(p[i].address, p[i].reqs) <==> i == 0)
            && (i > 0 ==> q[i - 1].Is(p[i].address, p[i].reqs))
  {
    var i := FirstWaiting(p, r);
    assert i < |p|;
    var m := p[i := p[i].(desired := p[i].desired - 1)];
    assert Rotated(m)[|m| - 1] == m[0];
    assert i > 0 ==> Rotated(m)[i - 1] == m[i];
  }

  const EAGER := WorkerInfo(2, Key(MeshIOType([], []), 0, 0, [], []), 2, true)
  const BUSY := EAGER.(desired := 0, address := 1)

  /** Of two workers of one kind the second, taken because the first wants nothing, comes out first, and is taken again. */
  lemma {:induction false} TakenGoesFirst()
    ensures Valid([BUSY, EAGER]) && TakeWorker([BUSY, EAGER], EAGER.reqs) == ([EAGER.(desired := 1), BUSY], Some(2))
    ensures TakeWorker([EAGER.(desired := 1), BUSY], EAGER.reqs).1 == Some(2)
  {
    var p := [BUSY, EAGER];
    assert p[0] == BUSY && p[1] == EAGER && p[1..][0] == EAGER;
    assert FirstWaiting(p, EAGER.reqs) == 1;
    assert Rotated([BUSY, EAGER.(desired := 1)]) == [EAGER.(desired := 1), BUSY];
    assert p[1 := EAGER.(desired := 1)] == [BUSY, EAGER.(desired := 1)];
  }

  lemma {:induction false} OneTaken(p: Pool, i: nat)
    requires Valid(p) && i < |p| && p[i].IsWaitingForWork()
    ensures var m := p[i := p[i].(desired := p[i].desired - 1)];
            Valid(m) && Credits(p) == Credits(m) + multiset{(p[i].address, p[i].reqs)} && Ready(p) == Ready(m) + multiset{p[i].reqs}
  {
    hide Credits, Ready, Times;
    var m := p[i := p[i].(desired := p[i].desired - 1)];
    ChangedAt(p, m, i);
    TimesMore((p[i].address, p[i].reqs), m[i].desired);
    TimesMore(p[i].reqs, m[i].desired);
    Cancel(Credits(m), Credits(p), Times((p[i].address, p[i].reqs), m[i].desired), multiset{(p[i].address, p[i].reqs)});
    Cancel(Ready(m), Ready(p), Times(p[i].reqs, m[i].desired), multiset{p[i].reqs});
  }

  lemma {:induction false} PurgeOrigin(p: Pool, alive: set<Address>, late: set<Address>, w: WorkerInfo)
    requires w in Purge(p, alive, late)
    ensures exists i :: 0 <= i < |p| && p[i].Is(w.address, w.reqs) && w.desired == p[i].desired
  {
    if p[0].address in alive && w == p[0].(responsive := p[0].address !in late) {
      assert p[0].Is(w.address, w.reqs);
    } else {
      PurgeOrigin(p[1..], alive, late, w);
      var i :| 0 <= i < |p[1..]| && p[1..][i].Is(w.address, w.reqs) && w.desired == p[1..][i].desired;
      assert p[i + 1].Is(w.address, w.reqs) && w.desired == p[i + 1].desired;
    }
  }

  /** Exactly the workers that the monitor still tracks are kept, with their credits; those late are not ready for work. */
  lemma {:induction false} PurgeExactly(p: Pool, alive: set<Address>, late: set<Address>, a: Address, r: Key)
    ensures Credits(Purge(p, alive, late))[(a, r)] == if a in alive then Credits(p)[(a, r)] else 0
    ensures HaveWorker(Purge(p, alive, late), a, r) <==> a in alive && HaveWorker(p, a, r)
    ensures Ready(Purge(p, alive, late))[r] == ReadyAmong(p, alive - late, r)
  {
    if p != [] {
      PurgeExactly(p[1..], alive, late, a, r);
      hide Purge, Credits, Ready, HaveWorker, Times;
      PurgedOnceMore(p, alive, late, a, r);
    }
  }

  lemma {:induction false} PurgedOnceMore(p: Pool, alive: set<Address>, late: set<Address>, a: Address, r: Key)
    requires p != []
    ensures var w, rest, purged := p[0], Purge(p[1..], alive, late), Purge(p, alive, late);
            && Credits(purged)[(a, r)] == Credits(rest)[(a, r)] + (if w.address in alive && w.Is(a, r) && w.desired > 0 then w.desired else 0)
            && Credits(p)[(a, r)] == Credits(p[1..])[(a, r)] + (if w.Is(a, r) && w.desired > 0 then w.desired else 0)
            && Ready(purged)[r] == Ready(rest)[r] + (if w.address in alive - late && w.reqs == r && w.desired > 0 then w.desired else 0)
            && (HaveWorker(purged, a, r) <==> HaveWorker(rest, a, r) || (w.address in alive && w.Is(a, r)))
            && (HaveWorker(p, a, r) <==> HaveWorker(p[1..], a, r) || w.Is(a, r))
  {
    hide Purge, Credits, Ready, HaveWorker, Times;
    var first, rest := Purge([p[0]], alive, late), Purge(p[1..], alive, late);
    PurgeFirst(p, alive, late);
    PurgeOne(p[0], alive, late, a, r);
    SumsConcat(first, rest);
    CreditsFirst(p, a, r);
    HaveEither(first, rest, a, r);
    HaveOne(p[0].(responsive := p[0].address !in late), a, r);
    assert p == [p[0]] + p[1..];
    HaveEither([p[0]], p[1..], a, r);
    HaveOne(p[0], a, r);
  }

  /** The jobs of a kind that workers with these addresses ask for. */
  ghost function ReadyAmong(p: Pool, s: set<Address>, r: Key): nat {
    if p == [] then 0
    else (if p[0].address in s && p[0].reqs == r && p[0].desired > 0 then p[0].desired else 0) + ReadyAmong(p[1..], s, r)
  }

  lemma {:induction false} HaveEither(p: Pool, q: Pool, a: Address, r: Key)
    ensures HaveWorker(p + q, a, r) <==> HaveWorker(p, a, r) || HaveWorker(q, a, r)
  {
    var s := p + q;
    forall i | 0 <= i < |p| ensures s[i] == p[i] {
    }
    forall i | 0 <= i < |q| ensures s[|p| + i] == q[i] {
    }
    if HaveWorker(q, a, r) {
      var i :| 0 <= i < |q| && q[i].Is(a, r);
      assert s[|p| + i].Is(a, r);
    }
    if HaveWorker(p, a, r) {
      var i :| 0 <= i < |p| && p[i].Is(a, r);
      assert s[i].Is(a, r);
    }
    if HaveWorker(s, a, r) {
      var i :| 0 <= i < |s| && s[i].Is(a, r);
      assert if i < |p| then p[i].Is(a, r) else q[i - |p|].Is(a, r);
    }
  }

  lemma {:induction false} HaveOne(w: WorkerInfo, a: Address, r: Key)
    ensures HaveWorker([w], a, r) <==> w.Is(a, r)
    ensures !HaveWorker([], a, r)
  {
    assert [w][0] == w;
  }

  lemma {:induction false} PurgeFirst(p: Pool, alive: set<Address>, late: set<Address>)
    requires p != []
    ensures Purge(p, alive, late) == Purge([p[0]], alive, late) + Purge(p[1..], alive, late)
  {
    var one := [p[0]];
    assert one[1..] == [] && Purge([], alive, late) == [];
    assert Purge(one, alive, late) == (if p[0].address in alive then [p[0].(responsive := p[0].address !in late)] else []) + [];
  }

  lemma {:induction false} PurgeOne(w: WorkerInfo, alive: set<Address>, late: set<Address>, a: Address, r: Key)
    ensures Purge([w], alive, late) == if w.address in alive then [w.(responsive := w.address !in late)] else []
    ensures Credits(Purge([w], alive, late))[(a, r)] == if w.address in alive && w.Is(a, r) && w.desired > 0 then w.desired else 0
    ensures Ready(Purge([w], alive, late))[r] == if w.address in alive - late && w.reqs == r && w.desired > 0 then w.desired else 0
  {
    assert Purge([], alive, late) == [];
    SumsOne(w.(responsive := w.address !in late));
  }

  lemma {:induction false} CreditsFirst(p: Pool, a: Address, r: Key)
    requires p != []
    ensures Credits(p)[(a, r)] == Credits(p[1..])[(a, r)] + if p[0].Is(a, r) && p[0].desired > 0 then p[0].desired else 0
  {
  }

  lemma {:induction false} ConsValid(w: WorkerInfo, q: Pool)
    requires Valid(q) && w.desired >= 0 && forall j :: 0 <= j < |q| ==> !q[j].Is(w.address, w.reqs)
    ensures Valid([w] + q)
  {
    var p := [w] + q;
    forall i, j | 0 <= i < j < |p| ensures !p[j].Is(p[i].address, p[i].reqs) {
      assert p[j] == q[j - 1] && (i > 0 ==> p[i] == q[i - 1]);
    }
  }

  lemma {:induction false} NotPurgedTwice(p: Pool, alive: set<Address>, late: set<Address>, w: WorkerInfo)
    requires Valid(p) && p != [] && w in Purge(p[1..], alive, late)
    ensures !w.Is(p[0].address, p[0].reqs)
  {
    PurgeOrigin(p[1..], alive, late, w);
    var k :| 0 <= k < |p[1..]| && p[1..][k].Is(w.address, w.reqs) && w.desired == p[1..][k].desired;
    assert p[k + 1] == p[1..][k];
  }

  lemma {:induction false} PurgeValid(p: Pool, alive: set<Address>, late: set<Address>)
    requires Valid(p)
    ensures Valid(Purge(p, alive, late))
  {
    if p != [] {
      var q := Purge(p[1..], alive, late);
      PurgeValid(p[1..], alive, late);
      forall j | 0 <= j < |q| ensures !q[j].Is(p[0].address, p[0].reqs) {
        NotPurgedTwice(p, alive, late, q[j]);
      }
      ConsValid(p[0].(responsive := p[0].address !in late), q);
      assert Purge(p, alive, late) == if p[0].address in alive then [p[0].(responsive := p[0].address !in late)] + q else q;
    }
  }

  lemma {:induction false} PurgeCredits(p: Pool, alive: set<Address>, late: set<Address>)
    ensures Credits(Purge(p, alive, late)) <= Credits(p)
  {
    hide Times, Credits, Purge, Ready;
    if p == [] {
      PurgeNone(alive, late);
    } else {
      var q := Purge(p[1..], alive, late);
      PurgeCredits(p[1..], alive, late);
      PurgeStep(p, 0, alive, late);
      assert p[0..] == p;
      CreditsCons(p[0], p[1..]);
      if p[0].address in alive {
        CreditsCons(p[0].(responsive := p[0].address !in late), q);
      } else {
        assert [] + q == q;
      }
      assert p == [p[0]] + p[1..];
    }
  }

  lemma {:induction false} CreditsCons(w: WorkerInfo, q: Pool)
    ensures Credits([w] + q) == Times((w.address, w.reqs), w.desired) + Credits(q)
  {
    SumsConcat([w], q);
    SumsOne(w);
  }

  // ---------------------------------------------------------------- the pool as an object

  class ServerPool {
    var pool: Pool

    constructor ()
      ensures pool == []
    {
      pool := [];
    }

    method Add(a: Address, r: Key)
      modifies this
      ensures pool == AddWorker(old(pool), a, r)
    {
      var found := false;
      var i := 0;
      while !found && i < |pool|
        invariant i <= |pool| && pool == old(pool)
        invariant found <==> exists k :: 0 <= k < i && pool[k].Is(a, r)
      {
        found := pool[i].Is(a, r);
        i := i + 1;
      }
      if !found {
        pool := pool + [WorkerInfo(0, r, a, true)];
      }
    }

    method HasWaiting(r: Key) returns (found: bool)
      ensures found <==> HaveWaitingWorker(pool, r)
    {
      found := false;
      var i := 0;
      while !found && i < |pool|
        invariant i <= |pool|
        invariant found <==> exists k :: 0 <= k < i && pool[k].reqs == r && pool[k].IsWaitingForWork()
      {
        found := pool[i].reqs == r && pool[i].IsWaitingForWork();
        i := i + 1;
      }
    }

    method MarkReady(a: Address, r: Key) returns (known: bool)
      modifies this
      ensures pool == ReadyForWork(old(pool), a, r)
      ensures known <==> HaveWorker(old(pool), a, r)
    {
      var count := 0;
      for i := 0 to |pool|
        invariant |pool| == |old(pool)|
        invariant forall k :: 0 <= k < i ==> pool[k] == ReadyForWork(old(pool), a, r)[k]
        invariant forall k :: i <= k < |pool| ==> pool[k] == old(pool)[k]
        invariant count >= 0 && (count > 0 <==> exists k :: 0 <= k < i && old(pool)[k].Is(a, r))
      {
        if pool[i].Is(a, r) {
          pool := pool[i := pool[i].(desired := pool[i].desired + 1, responsive := true)];
          count := count + 1;
        }
      }
      known := count > 0;
    }

    method Take(r: Key) returns (worker: Option<Address>)
      modifies this
      ensures pool == TakeWorker(old(pool), r).0
      ensures worker == TakeWorker(old(pool), r).1
    {
      var found := false;
      var i := 0;
      while !found && i < |pool|
        invariant i <= |pool| && pool == old(pool)
        invariant !found ==> forall k :: 0 <= k < i ==> !(pool[k].reqs == r && pool[k].IsWaitingForWork())
        invariant found ==> 0 < i && i - 1 == FirstWaiting(pool, r) && i - 1 < |pool|
      {
        found := pool[i].reqs == r && pool[i].IsWaitingForWork();
        if found {
          FirstUnique(pool, r, i);
        }
        i := i + 1;
      }
      worker := None;
      if found {
        i := i - 1; // the loop went one past the found position
        worker := Some(pool[i].address);
        pool := pool[i := pool[i].(desired := pool[i].desired - 1)];
        // meant to put the worker last: moves the first entry of the list, whichever it is
        pool := pool[1..] + [pool[0]];
      } else {
        FirstUnique(pool, r, i);
      }
    }

    method PurgeDead(alive: set<Address>, late: set<Address>)
      modifies this
      ensures pool == Purge(old(pool), alive, late)
    {
      hide Purge;
      var kept: Pool := [];
      ghost var all := pool;
      assert all[0..] == all;
      for i := 0 to |pool|
        invariant pool == all
        invariant kept + Purge(all[i..], alive, late) == Purge(all, alive, late)
      {
        PurgeStep(all, i, alive, late);
        if pool[i].address in alive {
          kept := kept + [pool[i].(responsive := pool[i].address !in late)];
        }
      }
      assert all[|all|..] == [];
      PurgeNone(alive, late);
      pool := kept;
    }
  }

  lemma {:induction false} PurgeNone(alive: set<Address>, late: set<Address>)
    ensures Purge([], alive, late) == []
  {
  }

  lemma {:induction false} PurgeStep(p: Pool, i: nat, alive: set<Address>, late: set<Address>)
    requires i < |p|
    ensures Purge(p[i..], alive, late) ==
            (if p[i].address in alive then [p[i].(responsive := p[i].address !in late)] else []) + Purge(p[i + 1..], alive, late)
  {
    assert p[i..][0] == p[i] && p[i..][1..] == p[i + 1..];
  }

  lemma {:induction false} FirstUnique(p: Pool, r: Key, i: nat)
    requires i <= |p| && (forall k :: 0 <= k < i ==> !(p[k].reqs == r && p[k].IsWaitingForWork()))
    requires i < |p| ==> p[i].reqs == r && p[i].IsWaitingForWork()
    ensures i == FirstWaiting(p, r)
  {
    if i > 0 {
      assert !(p[0].reqs == r && p[0].IsWaitingForWork());
      FirstUnique(p[1..], r, i - 1);
    }
  }
}
