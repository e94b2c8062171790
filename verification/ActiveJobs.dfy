/** The jobs that have been given to a worker: their last known status, and their result once it has arrived. */
module ActiveJobs {
  import opened Bytes
  import opened JobQueue
  import opened WorkerPool

  /** `STATUS_TYPE`; the wire format can carry any integer, which matches none of the named values. */
  datatype StatusType = INVALID_STATUS | QUEUED | IN_PROGRESS | FINISHED | FAILED | EXPIRED | UNKNOWN(code: int)

  datatype Progress = Progress(value: int, message: bytes)

  datatype JobStatus = JobStatus(id: Id, status: StatusType, progress: Progress) {
    predicate Good() {
      status.QUEUED? || status.IN_PROGRESS?
    }
    /** An invalid status counts as a failure. */
    predicate HasFailed() {
      status.INVALID_STATUS? || status.FAILED? || status.EXPIRED?
    }
  }

  const NEWLINE: byte := 10

  function Clamp(v: int): (r: int)
    ensures 0 <= r <= 100 && (0 <= v <= 100 ==> r == v)
  {
    if v > 100 then 100 else if v < 0 then 0 else v
  }

  /** A status without progress of its own. */
  function Plain(id: Id, status: StatusType): JobStatus {
    JobStatus(id, status, Progress(if status.IN_PROGRESS? then 0 else -1, []))
  }

  /** `appendMessage`: a line feed between messages, unless one of them is empty. */
  function Appended(a: bytes, b: bytes): bytes {
    a + (if a == [] || b == [] then [] else [NEWLINE]) + b
  }

  /** `mergeStatus`: the new value replaces the old one, the messages accumulate. */
  function Merge(a: JobStatus, b: JobStatus): JobStatus {
    JobStatus(a.id, b.status, Progress(Clamp(b.progress.value), Appended(a.progress.message, b.progress.message)))
  }

  lemma {:induction false} AppendedAssociative(a: bytes, b: bytes, c: bytes)
    ensures Appended(Appended(a, b), c) == Appended(a, Appended(b, c))
    ensures Appended([], a) == a && Appended(a, []) == a
  {
    assert [] + a == a && a + [] == a;
    if a == [] || b == [] || c == [] {
      assert [] + b == b && b + [] == b && [] + c == c && c + [] == c;
    } else {
      var x, y := a + [NEWLINE] + b, b + [NEWLINE] + c;
      assert x + [NEWLINE] + c == a + [NEWLINE] + y;
    }
  }

  /** All the messages of a series of reports, one line each. */
  function Lines(reports: seq<JobStatus>): (r: bytes) {
    if reports == [] then []
    else
      var first, rest := reports[0].progress.message, Lines(reports[1..]);
      if first == [] then rest else if rest == [] then first else first + [10] + rest
  }

  lemma {:induction false} LinesFirst(reports: seq<JobStatus>)
    requires reports != []
    ensures Lines(reports) == Appended(reports[0].progress.message, Lines(reports[1..]))
  {
    var first, rest := reports[0].progress.message, Lines(reports[1..]);
    assert first + [] + rest == first + rest && [] + rest == rest && first + [] == first;
  }

  lemma {:induction false} LinesLast(reports: seq<JobStatus>, r: JobStatus)
    ensures Lines(reports + [r]) == Appended(Lines(reports), r.progress.message)
  {
    var all := reports + [r];
    LinesFirst(all);
    if reports == [] {
      assert all[1..] == [];
      AppendedAssociative(r.progress.message, [], []);
    } else {
      assert all[1..] == reports[1..] + [r];
      LinesFirst(reports);
      LinesLast(reports[1..], r);
      hide Appended, Lines;
      AppendedAssociative(reports[0].progress.message, Lines(reports[1..]), r.progress.message);
    }
  }

  function MergeAll(a: JobStatus, reports: seq<JobStatus>): (r: JobStatus)
    decreases |reports|
  {
    if reports == [] then a else MergeAll(Merge(a, reports[0]), reports[1..])
  }

  /**
    Reports that are merged one after the other between two readings lose nothing: the message read is all their
    messages in order, the status and the value are those of the last, the value within its range.
    */
  lemma {:induction false} MergedReports(a: JobStatus, reports: seq<JobStatus>)
    ensures var r := MergeAll(a, reports);
            && r.id == a.id && r.progress.message == Appended(a.progress.message, Lines(reports))
            && (reports != [] ==> r.status == reports[|reports| - 1].status && 0 <= r.progress.value <= 100
                                  && r.progress.value == Clamp(reports[|reports| - 1].progress.value))
    decreases |reports|
  {
    if reports == [] {
      AppendedAssociative(a.progress.message, [], []);
    } else {
      var rest := reports[1..];
      MergedReports(Merge(a, reports[0]), rest);
      LinesFirst(reports);
      AppendedAssociative(a.progress.message, reports[0].progress.message, Lines(rest));
      hide Appended, Lines;
      assert rest != [] ==> rest[|rest| - 1] == reports[|reports| - 1];
    }
  }

  /** `clearProgress`: reading a status takes its message. */
  function Cleared(a: JobStatus): JobStatus {
    a.(progress := a.progress.(message := []))
  }

  datatype JobState = JobState(worker: Address, status: JobStatus, result: bytes, haveResult: bool)

  type Active = map<Id, JobState>

  function AddActive(m: Active, worker: Address, id: Id): Active {
    if id in m then m else m[id := JobState(worker, Plain(id, QUEUED), [], false)]
  }

  /** `canUpdateStatusTo`: a worker may report progress or failure of a job that is not settled, never completion. */
  predicate CanUpdate(j: JobState, s: JobStatus) {
    j.status.Good() && !s.status.FINISHED? && (s.HasFailed() || s.status.IN_PROGRESS?)
  }

  function UpdateStatus(m: Active, s: JobStatus): Active {
    if s.id in m && CanUpdate(m[s.id], s) then m[s.id := m[s.id].(status := Merge(m[s.id].status, s))] else m
  }

  function UpdateResult(m: Active, id: Id, data: bytes): Active {
    if id !in m then m
    else
      var status := if m[id].status.status.FAILED? then m[id].status else Plain(id, FINISHED);
      m[id := JobState(m[id].worker, status, data, true)]
  }

  /** `isUnresponsive`: the monitor does not track the socket, or it missed its heartbeats. */
  predicate Unresponsive(a: Address, alive: set<Address>, late: set<Address>) {
    a !in alive || a in late
  }

  function Expired(j: JobState, alive: set<Address>, late: set<Address>): JobState {
    if j.status.Good() && Unresponsive(j.worker, alive, late) then j.(status := Plain(j.status.id, EXPIRED)) else j
  }

  /** `markExpiredJobs` */
  function MarkExpired(m: Active, alive: set<Address>, late: set<Address>): (r: Active)
    ensures r.Keys == m.Keys
  {
    map id | id in m :: Expired(m[id], alive, late)
  }

  /** The status of an active job only leaves QUEUED; nothing puts it back. */
  ghost predicate StillPastQueued(m: Active, r: Active, id: Id) {
    id in m && id in r && !m[id].status.status.QUEUED? ==> !r[id].status.status.QUEUED?
  }

  lemma {:induction false} ActiveMonotone(m: Active, id: Id, other: Id, s: JobStatus, data: bytes, alive: set<Address>, late: set<Address>, worker: Address)
    ensures StillPastQueued(m, AddActive(m, worker, other), id)
    ensures StillPastQueued(m, UpdateStatus(m, s), id)
    ensures StillPastQueued(m, UpdateResult(m, other, data), id)
    ensures StillPastQueued(m, MarkExpired(m, alive, late), id)
  {
  }

  /** A result, once stored, stays stored; only its contents can be replaced. */
  lemma {:induction false} ResultStays(m: Active, id: Id, other: Id, s: JobStatus, data: bytes, alive: set<Address>, late: set<Address>, worker: Address)
    requires id in m && m[id].haveResult
    ensures AddActive(m, worker, other)[id] == m[id]
    ensures UpdateStatus(m, s)[id].haveResult && UpdateStatus(m, s)[id].result == m[id].result
    ensures UpdateResult(m, other, data)[id].haveResult
    ensures MarkExpired(m, alive, late)[id].haveResult && MarkExpired(m, alive, late)[id].result == m[id].result
  {
  }
}
