/** The worker's side of the credit protocol, and how a factory finds the worker that requirements name. */
module Worker {
  import opened Bytes
  import opened Sequences
  import opened Requirements
  import opened Wire
  import opened Streams

  /** `to_JobRequirements`: the bytes of a message, ended by a line feed, are parsed. */
  function ToReqs(message: bytes): (r: Parsed<JobRequirements>) {
    ReadReqs(message + [LF])
  }

  /** `askForJobs`: as many messages as jobs wanted, none when the connection is down; all say the same. */
  method AskForJobs(reqs: JobRequirements, count: nat, forwarding: bool) returns (messages: seq<bytes>)
    ensures |messages| == if forwarding then count else 0
    ensures forall i :: 0 <= i < |messages| ==> messages[i] == WriteReqs(Light(reqs))
  {
    messages := [];
    if forwarding {
      var light := Light(reqs);
      var input := new OutStream();
      input.PutReqs(light);
      EmptyFirst(WriteReqs(light));
      var text := input.text;
      for i := 0 to count
        invariant |messages| == i && forall k :: 0 <= k < i ==> messages[k] == text
      {
        messages := messages + [text];
      }
    }
  }

  /** `getJob`: one job is asked for only when none is pending. */
  method BeforeTaking(reqs: JobRequirements, pending: nat, forwarding: bool) returns (messages: seq<bytes>)
    ensures |messages| == if pending == 0 && forwarding then 1 else 0
    ensures forall i :: 0 <= i < |messages| ==> messages[i] == WriteReqs(Light(reqs))
  {
    messages := [];
    if pending == 0 {
      messages := AskForJobs(reqs, 1, forwarding);
    }
  }

  /** What the server reads from a request is the worker's requirements without their payload. */
  lemma {:induction false} AskedIsRead(reqs: JobRequirements)
    requires ReqsFit(reqs)
    ensures ToReqs(WriteReqs(Light(reqs))).Done?
    ensures ToReqs(WriteReqs(Light(reqs))).value == Light(reqs)
    ensures ToReqs(WriteReqs(Light(reqs))).value.key == reqs.key
  {
    var text := WriteReqs(Light(reqs));
    OneLineFeed();
    ReqsBack([], Light(reqs), [LF]);
    EmptyFirst(text + [LF]);
  }

  // ---------------------------------------------------------------- the factory

  datatype Specification = Specification(reqs: JobRequirements, path: bytes)

  /** Position of the first specification with these requirements, or the length. */
  function Path(specs: seq<Specification>, reqs: JobRequirements): (i: nat)
    ensures i <= |specs| && (i < |specs| ==> ReqSame(specs[i].reqs, reqs))
    ensures forall k :: 0 <= k < i ==> !ReqSame(specs[k].reqs, reqs)
  {
    if specs == [] || ReqSame(specs[0].reqs, reqs) then 0 else 1 + Path(specs[1..], reqs)
  }

  /** `find_worker_path` */
  method FindWorkerPath(specs: seq<Specification>, reqs: JobRequirements) returns (i: nat)
    ensures i == Path(specs, reqs)
  {
    i := 0;
    while i < |specs| && !ReqSame(specs[i].reqs, reqs)
      invariant i <= |specs| && forall k :: 0 <= k < i ==> !ReqSame(specs[k].reqs, reqs)
    {
      i := i + 1;
    }
    PathIs(specs, reqs, i);
  }

  lemma {:induction false} PathIs(specs: seq<Specification>, reqs: JobRequirements, i: nat)
    requires i <= |specs| && (i < |specs| ==> ReqSame(specs[i].reqs, reqs))
    requires forall k :: 0 <= k < i ==> !ReqSame(specs[k].reqs, reqs)
    ensures i == Path(specs, reqs)
  {
    if i > 0 {
      assert !ReqSame(specs[0].reqs, reqs);
      PathIs(specs[1..], reqs, i - 1);
    }
  }

  /**
    A request stripped of its payload, sent and read back, finds the same element of every set of requirements
    and the same worker of every factory as the full requirements do.
    */
  lemma {:induction false} AskedFindsSame(reqs: JobRequirements, s: seq<JobRequirements>, i: int, specs: seq<Specification>)
    requires ReqsFit(reqs) && IsSet(s) && 0 <= i < |s|
    ensures ToReqs(WriteReqs(Light(reqs))).Done?
    ensures var read := ToReqs(WriteReqs(Light(reqs))).value;
            && (ReqSame(s[i], read) <==> ReqSame(s[i], reqs))
            && (forall j :: 0 <= j < |s| && ReqSame(s[i], reqs) && ReqSame(s[j], read) ==> i == j)
            && Path(specs, read) == Path(specs, reqs)
  {
    AskedIsRead(reqs);
    hide ToReqs, WriteReqs;
    LightFindsSame(s, reqs, i);
    PathIs(specs, Light(reqs), Path(specs, reqs));
  }

  datatype Process = Process(pid: nat, path: bytes)

  /** `remove_if(is_dead)` */
  function Living(ps: seq<Process>, alive: set<nat>): (r: seq<Process>)
    ensures |r| <= |ps|
  {
    if ps == [] then [] else (if ps[0].pid in alive then [ps[0]] else []) + Living(ps[1..], alive)
  }

  /** Exactly the living processes are kept, each as often as it was listed. */
  lemma {:induction false} LivingMeans(ps: seq<Process>, alive: set<nat>, p: Process)
    ensures multiset(Living(ps, alive))[p] == if p.pid in alive then multiset(ps)[p] else 0
  {
    if ps != [] {
      assert ps == [ps[0]] + ps[1..];
      LivingMeans(ps[1..], alive, p);
    }
  }

  lemma {:induction false} LivingNone(alive: set<nat>)
    ensures Living([], alive) == []
  {
  }

  lemma {:induction false} LivingCons(p: Process, ps: seq<Process>, alive: set<nat>)
    ensures Living([p] + ps, alive) == (if p.pid in alive then [p] else []) + Living(ps, alive)
  {
    assert ([p] + ps)[1..] == ps;
  }

  lemma {:induction false} LivingConcat(a: seq<Process>, b: seq<Process>, alive: set<nat>)
    ensures Living(a + b, alive) == Living(a, alive) + Living(b, alive)
  {
    if a == [] {
      assert a + b == b;
    } else {
      LivingConcat(a[1..], b, alive);
      LivingCons(a[0], a[1..] + b, alive);
      LivingCons(a[0], a[1..], alive);
      assert a + b == [a[0]] + (a[1..] + b) && a == [a[0]] + a[1..];
      hide Living;
      Assoc(if a[0].pid in alive then [a[0]] else [], Living(a[1..], alive), Living(b, alive));
    }
  }

  lemma {:induction false} LivingSnoc(ps: seq<Process>, i: nat, alive: set<nat>)
    requires i < |ps|
    ensures Living(ps[..i + 1], alive) == Living(ps[..i], alive) + (if ps[i].pid in alive then [ps[i]] else [])
  {
    assert ps[..i + 1] == ps[..i] + [ps[i]];
    LivingConcat(ps[..i], [ps[i]], alive);
    LivingNone(alive);
  }

  method RemoveDead(ps: seq<Process>, alive: set<nat>) returns (kept: seq<Process>)
    ensures kept == Living(ps, alive)
  {
    kept := [];
    for i := 0 to |ps|
      invariant kept == Living(ps[..i], alive)
    {
      LivingSnoc(ps, i, alive);
      if ps[i].pid in alive {
        kept := kept + [ps[i]];
      }
    }
    assert ps[..|ps|] == ps;
  }

  class WorkerFactory {
    var possible: seq<Specification>
    var processes: seq<Process>
    var maxWorkers: nat

    constructor (possible: seq<Specification>, maxWorkers: nat)
      ensures this.possible == possible && processes == [] && this.maxWorkers == maxWorkers
    {
      this.possible, processes, this.maxWorkers := possible, [], maxWorkers;
    }

    /** `updateWorkerCount` */
    method UpdateWorkerCount(alive: set<nat>)
      modifies this`processes
      ensures processes == Living(old(processes), alive)
    {
      processes := RemoveDead(processes, alive);
    }

    /** `createWorker`, launching process `pid`: a known kind, and room once the dead are gone. */
    method CreateWorker(reqs: JobRequirements, liveOn: bool, alive: set<nat>, pid: nat) returns (created: bool)
      modifies this`processes
      ensures var i := Path(possible, reqs);
              var living := Living(old(processes), alive);
              && (created <==> i < |possible| && |living| < maxWorkers && !liveOn)
              && (processes == if created then living + [Process(pid, possible[i].path)]
                               else if i < |possible| then living else old(processes))
      ensures |processes| > |old(processes)| ==> |processes| <= maxWorkers
    {
      created := false;
      var i := FindWorkerPath(possible, reqs);
      if i < |possible| {
        UpdateWorkerCount(alive);
        if |processes| < maxWorkers && !liveOn {
          processes := processes + [Process(pid, possible[i].path)];
          created := true;
        }
      }
    }
  }
}
