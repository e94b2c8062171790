# Verified models of Remus

Remus is a job broker: clients submit jobs, workers ask for them, and the server matches the two. The project
models its parts whose correctness spans many functions, in Dafny 4.11, and proves what they promise. Check
everything with `dafny verify dfyconfig.toml`.

- **The broker** is a state machine with one step for every client service, worker message, periodic check and
  scheduling pass (`Broker`), over the server's tables (`JobQueue`, `WorkerPool`, `ActiveJobs`, `Requirements`).
  `BrokerRuns` proves what holds over whole runs, `JobStories` what clients are told about a job over its life,
  `MissingWorkers` what a check of the workers does, `BrokerRest` when scheduling comes to rest, and the classes of
  `Server`, `JobQueue` and `WorkerPool` are the code as it updates its tables, each method proved to be one step.
  `Worker` is the asking side and the factories.
- **The wire format**: `Wire` and `Messages` are the text format as functions, with round trips that compose with
  any following bytes; `Streams` is the reading and writing as the code does it, moving a stream.
  `ContentHash` is the comparison of contents by cached hashes, `SubmissionOrder` that of whole submissions.
- **Controllers**: `PollingMonitor` (adaptive polling rate) and `ThreadPool`.
- **cJSON**: `Json` and `JsonRoundTrip` relate printing and parsing, `JsonGrammar` and `JsonAccepted` the parser and
  the grammar, `JsonLayout` the layout; `CJsonPrint` is the measure-then-write
  discipline on buffers, `CJsonParse` the position-advancing parser.
- **pugixml**: `NodeSort` (in-place three-way quicksort), `XmlTree`, `XPathAxes`, `XPathTraversal` (stackless axes and
  document order), `XPathSteps` (a step from a node set), `Strconv`, `References`,
  `WhiteSpace` (what parsing text means), `GapBuffer`, `TextParsing` (doing it in place), `Utf`, `Encodings`,
  `BufferedWriter`, `TextOutput` (transcoding and escaping output), `PageAllocator`.

`Bytes`, `Digits`, `Utf8Bytes` and `Sequences` are shared. Each module has the specification as functions on values, the theorems
as lemmas about those functions, and, where the source updates things in place, classes and methods with loops whose
contracts tie the new state to the functions.

Where the code and what is written about it disagree, the model follows the code:

- `JobQueue::addJob` puts the new kind into an emptied cache, so older kinds in the queue are not reported until the
  cache is dropped. A scheduling pass then skips a kind with a pending job and a ready worker.
  `BrokerRuns.StarvationReached` is such a run. `JobQueue.AddCoherent` says exactly which additions hide a kind,
  `Broker.ProgressExactly` when one pass still sends something, and `BrokerRest.RestExactly` from which states
  passes always end with no pending job and ready worker apart.
- `JobQueue::clear` leaves the jobs waiting for a worker in their list but forgets their ids (`JobQueue.ClearKeeps`).
- `WorkerPool::takeWorker` means to move the worker it found to the back; it moves the first entry of the list.
  The worker it found ends up last exactly when it was first (`WorkerPool.TakenGoesLast`); a pool of two in which
  it moves to the front is `WorkerPool.TakenGoesFirst`.
- `Server::terminateJob` answers FAILED for an active job but leaves it as it was: its result is stored and handed
  out like any other, and a later query can be answered QUEUED (`BrokerRuns.ToldFailedThenQueued`), in exactly the
  case that `BrokerRuns.NeverQueuedAgain` names.
- `JobSubmission::operator<` compares contents only when their numbers differ, so it is no strict weak order
  (`SubmissionOrder.NotTransitive`); `SubmissionOrder.SubmissionTransitive` says exactly when it is transitive.
- `ThreadPool::wrap_task` says it suppresses all exceptions; it suppresses those derived from `std::exception`. A task
  that ends otherwise keeps its place for good (`ThreadPool.EscapedForGood`), and a pool whose places are all lost
  accepts nothing more (`ThreadPool.FullForGood`, `ThreadPool.OnePlaceLost`).
- `print_object` closes an empty object below the top one tab too far left (`JsonLayout.DeeperIsIndented`).
- `xml_allocator` needs its first block to be small; the model's runs start with one of at most a quarter page.

## Model

| member | source | states |
|---|---|---|
| `BrokerRuns.NextKeeps` | remus/server/Server.cxx:595-969 | every client service, worker message, worker check and scheduling pass keeps the broker's invariant: tables disjoint, every queued job exactly as issued, jobs sent plus credits within requests received; and moves ids forward only |
| `BrokerRuns.RunInv` | remus/server/Server.cxx:595-969 | the invariant holds in every state of every run |
| `BrokerRuns.ExactlyOnePlace` | remus/server/Server.cxx:595-696 | in every state of every run an id is in exactly one of unissued, queued, waiting for a worker, active, gone; no list holds an id twice; queued jobs are the jobs submitted |
| `BrokerRuns.PhasesForward` | remus/server/Server.cxx:595-919 | over any stretch of any run the phase of an id never goes back |
| `BrokerRuns.NeverSilentlyLost` | remus/server/Server.cxx:635-696 | a job disappears only by a termination while it is in the queue, or by its result being handed to a client |
| `BrokerRuns.ResultHandedOnce` | remus/server/Server.cxx:635-650 | no result is handed out twice in a run, whatever workers send in between |
| `JobStories.HandedIsReported` | remus/server/Server.cxx:635-650 | in every run, what a client is handed is the data of a ReportResult message that arrived for that job while it was active, and no later one arrived before the hand-over |
| `JobStories.ReportedIsHanded` | remus/server/detail/ActiveJobs.cxx:135-153 | in every run, the data a worker reports for an active job is what the next client to retrieve it is handed, unless another report comes first |
| `BrokerRuns.NeverQueuedAgain` | remus/server/Server.cxx:595-696 | after a client has been told anything but QUEUED about an issued job, by a status query or a termination, no continuation of the run tells QUEUED about it, if and only if the answer was not the FAILED that a termination gives for an active job whose own status is still QUEUED |
| `BrokerRuns.ToldFailedThenQueued` | remus/server/Server.cxx:653-696 | a concrete run in which a client is told FAILED about a job and then QUEUED |
| `JobStories.ToldStep` | remus/server/detail/ActiveJobs.cxx:34-177 | how each message changes what is told about an active job: a result makes it FINISHED unless it FAILED; progress or a failure counts only while it is QUEUED or IN_PROGRESS, its value clamped and its message appended; a check that misses the worker makes it EXPIRED; asking takes the message; nothing else changes it |
| `JobStories.ToldOfThatJob` | remus/server/Server.cxx:595-610 | in every run a client is told about the job it asked for |
| `JobStories.ExpiredBecause` | remus/server/detail/ActiveJobs.cxx:157-177 | in every run a client is told EXPIRED only of a job that an earlier step found unsettled, its worker missing at a check or reporting so itself, and for which no result arrived since |
| `JobStories.ExpiredFromThenOn` | remus/server/detail/ActiveJobs.cxx:157-177 | in every run such a job is told EXPIRED from then on until a result for it arrives |
| `JobStories.NoResultYet` | remus/server/detail/ActiveJobs.cxx:135-153 | in every run a job that is told QUEUED or IN_PROGRESS has no result stored |
| `JobStories.AliveExactly` | remus/server/detail/SocketMonitor.cxx:61-118 | in every run the server counts on a worker exactly if a message from it or a job sent to it has come since it last left |
| `JobStories.MessagesTold` | remus/proto/JobStatus.cxx:44-63 | in every run whoever asks is told all the messages of the reports that counted since somebody last asked, each once, in order, one line each |
| `JobStories.SubmittedIsQueued` | remus/server/Server.cxx:613-632 | in every run a submitted job is told to be queued |
| `JobStories.TerminatedForGood` | remus/server/Server.cxx:653-675 | in every run a job terminated while in the queue is told FAILED, and from then on nobody knows it and no worker is ever given it |
| `MissingWorkers.MissingGetNothing` | remus/server/Server.cxx:922-941 | in every run a worker that a check misses is given no job until it asks again or another check is made |
| `MissingWorkers.PresentKeepCredits` | remus/server/Server.cxx:922-941 | a check leaves every worker that is there exactly the requests it made, and of them those of punctual workers ready |
| `BrokerRuns.CreditProtocol` | remus/server/Server.cxx:731-741 | for every worker and requirements, jobs sent never exceed the MAKE_MESH requests received with exactly those requirements |
| `BrokerRuns.AskedCountsRequests` | remus/server/Server.cxx:731-741 | the history of requests is exactly the MAKE_MESH messages of the run |
| `BrokerRuns.SentWithinAsked` | remus/server/Server.cxx:821-841 | no worker is sent more jobs of a kind than it asked for with that kind |
| `BrokerRuns.EachJobSentOnce` | remus/server/Server.cxx:821-841 | there are as many sends as different jobs given away, and none of those is in the queue any more |
| `BrokerRuns.StarvationReached` | remus/server/detail/JobQueue.cxx:21-37 | a concrete run of seven messages after which a worker is ready for a queued job and no pass without factory help ever sends it, because a later job was put into an emptied cache |
| `Broker.AssignOneKeeps` | remus/server/Server.cxx:867-876 | when a kind has a pending job and a ready worker both takes succeed and one job moves to one worker; otherwise nothing changes |
| `Broker.AssignAllKeeps` | remus/server/Server.cxx:866-894 | a matching loop over different pending kinds sends exactly one job for each kind that has a ready worker, and never reaches for something missing |
| `Broker.DispatchAllKeeps` | remus/server/Server.cxx:908-917 | every worker that the factory creates is dispatched for a job that is in the queue |
| `Broker.PassKeeps` | remus/server/Server.cxx:846-919 | a whole pass: every take and dispatch finds its item, pending jobs and ready requests go down together, and something is sent exactly if a ready kind is waiting or shows in the queue's view of itself |
| `Broker.ProgressExactly` | remus/server/Server.cxx:846-919 | with a pair of pending job and ready worker present, a pass sends something if and only if some ready kind is waiting for its worker or is in the cached view |
| `Broker.CoherentProgress` | remus/server/Server.cxx:846-919 | when the cache hides nothing, a pass sends something exactly if some kind has a pending job and a ready worker, and leaves the cache hiding nothing |
| `Broker.PassCoherent` | remus/server/Server.cxx:846-919 | passes alone never make the cache hide anything |
| `Broker.PassMoves` | remus/server/Server.cxx:846-919 | a pass leaves the cache hiding nothing, or leaves the queued jobs, the cache and every kind's ready workers beyond its waiting jobs as they were |
| `BrokerRest.RestExactly` | remus/server/Server.cxx:846-919 | from a state of the broker, passes without other traffic, whatever the factory and the sends answer, at least as many as pending jobs, always end with no kind that has both a pending job and a ready worker, if and only if the cache hides nothing, or some cached kind has more ready workers than waiting jobs, or no hidden kind has |
| `BrokerRest.Quiescence` | remus/server/Server.cxx:846-919 | under that condition such passes send exactly min(pending, ready) jobs of every kind |
| `BrokerRest.RestProgress` | remus/server/Server.cxx:846-919 | the condition is kept by every pass, and under it a pass sends something exactly if some kind has a pending job and a ready worker |
| `BrokerRest.NeverRests` | remus/server/Server.cxx:846-919 | without the condition there are passes, as many as wanted, that leave a pending job and a ready worker for it apart |
| `Server.Server.QueueNewJob` | remus/server/Server.cxx:613-632 | refines the QueueJob step and keeps the invariant |
| `Server.Server.StatusOf` | remus/server/Server.cxx:595-610 | refines the MeshStatus step; the answer is the table's |
| `Server.Server.Retrieve` | remus/server/Server.cxx:635-650 | refines the RetrieveResult step; a result is removed as it is handed out |
| `Server.Server.Terminate` | remus/server/Server.cxx:653-696 | refines the TerminateJob step: a queued job is removed, an active one only answered for |
| `Server.Server.WorkerMessage` | remus/server/Server.cxx:699-795 | refines the step of each worker message and keeps the invariant |
| `Server.Server.CheckForChange` | remus/server/Server.cxx:922-941 | refines the CheckWorkers step and leaves the factory exactly its living processes |
| `Server.Server.MarkExpiredJobs` | remus/server/detail/ActiveJobs.cxx:157-177 | expires exactly the unsettled jobs whose worker is unresponsive |
| `Server.Server.Assign` | remus/server/Server.cxx:821-841 | where a worker waits and a job is pending, refines one assignment; a failed send leaves the job active |
| `Server.Server.AssignEach` | remus/server/Server.cxx:866-894 | the loop over a set of requirements, in any order, refines the assignment of all of them |
| `Server.Server.DispatchEach` | remus/server/Server.cxx:908-917 | the loop that asks the factory, in any order, refines the dispatch of all |
| `Server.Server.FindWorkerForQueuedJob` | remus/server/Server.cxx:846-919 | refines a scheduling pass, whatever the factory and the sends answer |
| `JobQueue.AddKeeps` | remus/server/detail/JobQueue.cxx:21-37 | adding a job keeps the list sorted, the id set exact and every other job |
| `JobQueue.TakeKeeps` | remus/server/detail/JobQueue.cxx:40-84 | taking removes exactly one job of the kind, waiting ones first, and succeeds exactly if there is one |
| `JobQueue.TakeMoves` | remus/server/detail/JobQueue.cxx:40-84 | taking a waiting job leaves the queued jobs and the cache alone; taking a queued one drops the cache |
| `JobQueue.TakenIsFirst` | remus/server/detail/JobQueue.cxx:40-84 | the job taken is the longest waiting of its kind, else the queued one of its kind with the smallest id; the others keep their places |
| `JobQueue.DispatchKeeps` | remus/server/detail/JobQueue.cxx:116-131 | dispatching moves one job from queued to waiting and loses none |
| `JobQueue.DispatchedIsFirst` | remus/server/detail/JobQueue.cxx:116-131 | the queued job of the kind with the smallest id goes to the end of those waiting, and the cache is dropped |
| `JobQueue.RemoveKeeps` | remus/server/detail/JobQueue.cxx:140-171 | removal takes out exactly the job with that id |
| `JobQueue.ClearKeeps` | remus/server/detail/JobQueue.cxx:174-180 | clearing keeps the queue consistent if and only if no job was waiting for a worker, since it forgets only the others |
| `JobQueue.AddCoherent` | remus/server/detail/JobQueue.cxx:21-37 | adding a job to a queue whose cache hides nothing leaves the cache hiding something exactly when the cache was empty and another kind was queued |
| `JobQueue.OthersCoherent` | remus/server/detail/JobQueue.cxx:40-180 | no other operation of the queue makes its cache hide anything |
| `JobQueue.ViewOfCoherent` | remus/server/detail/JobQueue.cxx:100-113 | what the queue reports as queued kinds is never more than is queued, and is all of it exactly when the cache hides nothing |
| `JobQueue.ServerQueue.AddJob` | remus/server/detail/JobQueue.cxx:21-37 | the binary search and insertion refine adding |
| `JobQueue.ServerQueue.TakeJob` | remus/server/detail/JobQueue.cxx:40-84 | the two searches and removals refine taking |
| `JobQueue.ServerQueue.QueuedJobRequirements` | remus/server/detail/JobQueue.cxx:100-113 | refills an empty cache and answers with it |
| `JobQueue.ServerQueue.WaitingJobRequirements` | remus/server/detail/JobQueue.cxx:87-97 | the kinds of the waiting jobs |
| `JobQueue.ServerQueue.WorkerDispatched` | remus/server/detail/JobQueue.cxx:116-131 | refines dispatching |
| `JobQueue.ServerQueue.RemoveJob` | remus/server/detail/JobQueue.cxx:140-171 | refines removal |
| `JobQueue.ServerQueue.ClearAll` | remus/server/detail/JobQueue.cxx:174-180 | refines clearing |
| `WorkerPool.AddWorkerKeeps` | remus/server/detail/WorkerPool.cxx:42-50 | registering changes no credits and lists no worker twice |
| `WorkerPool.ReadyForWorkKeeps` | remus/server/detail/WorkerPool.cxx:102-121 | a request adds exactly one credit of that worker and kind, and none for an unknown worker |
| `WorkerPool.TakeWorkerKeeps` | remus/server/detail/WorkerPool.cxx:125-153 | taking succeeds exactly if a worker waits, and uses exactly one credit of the worker returned |
| `WorkerPool.TakenGoesLast` | remus/server/detail/WorkerPool.cxx:125-153 | the worker returned is last in the list afterwards if and only if it was first before; otherwise it moves one place forward |
| `WorkerPool.TakenGoesFirst` | remus/server/detail/WorkerPool.cxx:125-153 | a pool of two in which the worker returned moves to the front and is returned again |
| `WorkerPool.PurgeValid` | remus/server/detail/WorkerPool.cxx:156-172 | purging keeps the pool well formed |
| `WorkerPool.PurgeCredits` | remus/server/detail/WorkerPool.cxx:156-172 | purging never creates credits |
| `WorkerPool.PurgeExactly` | remus/server/detail/WorkerPool.cxx:156-172 | purging keeps exactly the workers still tracked with all their credits, and makes exactly the punctual ones of them ready |
| `WorkerPool.ReadyMeans` | remus/server/detail/WorkerPool.cxx:78-87 | there is a waiting worker of a kind exactly when the pool is ready for at least one job of it |
| `WorkerPool.ServerPool.MarkReady` | remus/server/detail/WorkerPool.cxx:102-121 | the loop refines a request for work |
| `WorkerPool.ServerPool.Take` | remus/server/detail/WorkerPool.cxx:125-153 | the loop, the decrement and the rotation of the whole list refine taking |
| `WorkerPool.ServerPool.HasWaiting` | remus/server/detail/WorkerPool.cxx:78-87 | finds a waiting worker exactly if there is one |
| `WorkerPool.ServerPool.Add` | remus/server/detail/WorkerPool.cxx:42-50 | refines registering |
| `WorkerPool.ServerPool.PurgeDead` | remus/server/detail/WorkerPool.cxx:156-172 | refines purging |
| `ActiveJobs.ActiveMonotone` | remus/server/detail/ActiveJobs.cxx:34-177 | no operation of the table takes a job's status back to QUEUED |
| `ActiveJobs.ResultStays` | remus/server/detail/ActiveJobs.cxx:123-177 | a stored result stays stored until it is removed |
| `ActiveJobs.MergedReports` | remus/proto/JobStatus.cxx:44-49 | reports merged between two readings lose nothing: all messages in order on lines of their own, status and clamped value of the last |
| `Worker.AskForJobs` | remus/worker/Worker.cxx:167-192 | sends exactly as many equal requests as jobs wanted, none when not connected |
| `Worker.BeforeTaking` | remus/worker/Worker.cxx:207-214 | asks for one job exactly when none is pending |
| `Worker.AskedIsRead` | remus/worker/Worker.cxx:173-190 | what the server reads from a request is the worker's requirements without payload, with the same key |
| `Worker.AskedFindsSame` | remus/proto/JobRequirements.cxx:149-254 | a stripped, serialised and parsed request finds the same element of every requirement set and the same worker of every factory as the full requirements |
| `Worker.FindWorkerPath` | remus/server/WorkerFactory.cxx:117-131 | the first specification whose requirements are equal |
| `Worker.LivingMeans` | remus/server/WorkerFactory.cxx:300-308 | exactly the living processes are kept, each as often as it was listed |
| `Worker.WorkerFactory.CreateWorker` | remus/server/WorkerFactory.cxx:278-297 | a process is started exactly for a known kind with room after the dead are gone; growing never passes the maximum |
| `Worker.WorkerFactory.UpdateWorkerCount` | remus/server/WorkerFactory.cxx:300-308 | refines the removal of dead processes, order kept |
| `Requirements.ReqOrder` | remus/proto/JobRequirements.cxx:149-186 | `operator<` is irreflexive and transitive, and neither-less is exactly `operator==`, which is transitive |
| `Requirements.FirstFieldDecides` | remus/proto/JobRequirements.cxx:149-172 | the first field that differs decides, in ascending order: mesh types by input and output, source, format, worker name, tag |
| `Requirements.MeshTrichotomy` | remus/common/MeshIOType.cxx:53-66 | `MeshIOType::operator<` leaves exactly one of less, greater, equal |
| `Requirements.MeshTransitive` | remus/common/MeshIOType.cxx:60-66 | `MeshIOType::operator<` is transitive |
| `Requirements.InsertKeepsSet` | remus/proto/JobRequirements.cxx:311-321 | inserting keeps the elements strictly ascending and an equal element present |
| `Requirements.InsertLosesNothing` | remus/proto/JobRequirements.cxx:311-321 | an insertion loses no element, and one of an element equivalent to one already there changes nothing |
| `Requirements.LightFindsSame` | remus/worker/Worker.cxx:173-182 | dropping the payload finds the same element of a set |
| `Wire.SizedBack` | remus/common/ConversionHelper.h:28-83 | a sized string is read back for arbitrary bytes, after any white space and before any rest; one line feed is left |
| `Wire.LineBack` | remus/proto/JobRequirements.cxx:195-254 | a number on a line is read back after any white space |
| `Wire.IntSpelled` | remus/proto/JobRequirements.cxx:218-233 | any digits after any white space and an optional sign are read as their number, or not at all when out of bounds |
| `Wire.MeshBack` | remus/common/MeshIOType.cxx:69-92 | a mesh type is read back, with any rest |
| `Wire.ReqsBack` | remus/proto/JobRequirements.cxx:195-254 | requirements with arbitrary names, tags and payloads are read back, with any rest |
| `Messages.SetBack` | remus/proto/JobRequirements.cxx:299-321 | a requirement set is read back element for element; only white space is left before the rest |
| `Messages.ContentBack` | remus/proto/JobContent.cxx:239-291 | a job content is read back, with any rest |
| `Messages.SubmissionBack` | remus/proto/JobSubmission.cxx:88-121 | a submission with its whole map of keyed contents is read back; only white space is left before the rest |
| `Messages.PutMeans` | remus/proto/JobSubmission.cxx:104-121 | assigning to a key puts the value there in place of an older one, leaves all other keys and keeps the map in order |
| `Messages.WorkerJobBack` | remus/proto/WorkerJob.cxx:75-99 | the job a worker reads is the job the server wrote |
| `Messages.ProgressBack` | remus/proto/JobProgress.cxx:64-83 | progress with a message of any bytes is read back |
| `Messages.StatusBack` | remus/proto/JobStatus.cxx:65-80 | a status is read back, leaving two line feeds |
| `Messages.ResultBack` | remus/proto/JobResult.cxx:172-214 | a result with any data is read back |
| `Messages.UuidBack` | remus/proto/WorkerJob.cxx:80-95 | an id printed as hexadecimal groups is read back, after any white space |
| `Messages.UuidLayout` | remus/proto/WorkerJob.cxx:80-95 | an id is 36 characters: two lower-case hexadecimal digits for each byte, and dashes after bytes 3, 5, 7 and 9 |
| `Streams.OutStream.PutReqs` | remus/proto/JobRequirements.cxx:195-211 | the writing order refines the format |
| `Streams.OutStream.PutSet` | remus/proto/JobRequirements.cxx:299-308 | the loop refines the format |
| `Streams.OutStream.PutContent` | remus/proto/JobContent.cxx:239-251 | refines the format |
| `Streams.OutStream.PutSubmission` | remus/proto/JobSubmission.cxx:88-101 | the loop over the contents refines the format |
| `Wire.ExtractBack` | remus/common/ConversionHelper.h:28-83 | the bytes written are extracted again whole, line feeds among them included, and the rest is left |
| `Streams.InStream.GetBytes` | remus/common/ConversionHelper.h:28-73 | drops one line feed if there is one and then takes exactly the size asked for, or fails |
| `Streams.InStream.GetInt` | remus/proto/JobRequirements.cxx:218-233 | skips white space and reads a signed number within bounds, or fails |
| `Streams.InStream.GetReqs` | remus/proto/JobRequirements.cxx:214-254 | refines the reader of requirements |
| `Streams.InStream.GetSet` | remus/proto/JobRequirements.cxx:311-321 | the loop of reads and inserts refines the reader of sets |
| `Streams.InStream.GetContent` | remus/proto/JobContent.cxx:254-291 | refines the reader of contents |
| `Streams.InStream.GetSubmission` | remus/proto/JobSubmission.cxx:104-121 | the loop of reads and map assignments refines the reader of submissions |
| `Streams.Transfer` | remus/proto/JobSubmission.cxx:88-121 | writing a submission to one stream and reading it from another gives the same submission |
| `ContentHash.ShortContentsExact` | remus/proto/JobContent.cxx:72-76 | contents below 4096 bytes compare equal exactly when they are equal |
| `ContentHash.LongContentsCollide` | remus/proto/JobContent.cxx:87-112 | longer contents are confused only by collisions of the hash on both the beginning and the whole |
| `ContentHash.ContentOrder` | remus/proto/JobContent.cxx:206-236 | for any hash function `operator<` is a strict weak order whose equivalence is `operator==` |
| `ContentHash.FirstDifferenceDecides` | remus/proto/JobContent.cxx:206-226 | the first difference decides, in ascending order: source, format, tag, size, and for short contents the data itself |
| `ContentHash.CachedData.Equal` | remus/proto/JobContent.cxx:72-112 | the answer does not depend on which hashes were cached before |
| `SubmissionOrder.SubmissionUnordered` | remus/proto/JobSubmission.cxx:60-85 | neither of two submissions is less exactly when type, requirements and number of contents agree, so `operator==` is finer: it also needs the contents to agree |
| `SubmissionOrder.SubmissionTransitive` | remus/proto/JobSubmission.cxx:60-73 | if one submission is less than a second and that less than a third, the first is less than the third if and only if the two differ in type, requirements or number of contents |
| `SubmissionOrder.NotTransitive` | remus/proto/JobSubmission.cxx:69-70 | for any two keys in order, three submissions on which `operator<` is not transitive |
| `SubmissionOrder.ContentsTransitive` | remus/proto/JobSubmission.cxx:69-70 | the comparison of whole content maps is transitive for any hash function |
| `SubmissionOrder.ContentsTrichotomy` | remus/proto/JobSubmission.cxx:69-84 | of two content maps one is less, or they agree entry by entry |
| `PollingMonitor.NextValid` | remus/common/PollingMonitor.cxx:70-132 | 0 <= min <= current <= max after any poll at any clock value and any change of rates |
| `PollingMonitor.AbnormalAfterPoll` | remus/common/PollingMonitor.cxx:100-132 | right after a poll an abnormal event is reported exactly when the average exceeds the maximum |
| `PollingMonitor.PollExactly` | remus/common/PollingMonitor.cxx:104-132 | below the minimum the rate is the minimum; else it is the average and a quarter of it in whole milliseconds, and the maximum exactly where that reaches it |
| `PollingMonitor.ChangeExactly` | remus/common/PollingMonitor.cxx:70-90 | the new bounds are the two rates in order, negative ones taken as zero, and the current rate moves no further than it must |
| `PollingMonitor.StartExactly` | remus/common/PollingMonitor.cxx:46-67 | a tracker starts at its minimum, with one gap of that length in its ring |
| `PollingMonitor.AverageOfRun` | remus/common/PollingMonitor.cxx:100-117 | after five polls the average is a fifth, toward zero, of the time between the last poll and the one five before it, whatever came earlier |
| `PollingMonitor.RingHoldsLast` | remus/common/PollingMonitor.cxx:100-112 | the ring holds the last five gaps of the run, rate changes included |
| `PollingMonitor.FiveGapsClear` | remus/common/PollingMonitor.cxx:100-132 | five successive gaps of at most the maximum clear an abnormal event, whatever came before |
| `PollingMonitor.PollingTracker.PollOccurred` | remus/common/PollingMonitor.cxx:100-132 | refines a poll: ring, truncating average, a quarter more in whole milliseconds, clamping |
| `PollingMonitor.PollingTracker.ChangeTimeOutRates` | remus/common/PollingMonitor.cxx:70-90 | refines a change of rates |
| `ThreadPool.NextInv` | remus/server/ThreadWorkerFactory.cxx:71-151 | in every step, the entries not completed are exactly those of tasks running or ended by a foreign exception |
| `ThreadPool.RunningHaveEntries` | remus/server/ThreadWorkerFactory.cxx:95-151 | in every run each running task has an uncompleted entry under its own key |
| `ThreadPool.HarvestKeepsRunning` | remus/server/ThreadWorkerFactory.cxx:99-111 | harvesting drops exactly the completed tasks |
| `ThreadPool.StepCount` | remus/server/ThreadWorkerFactory.cxx:95-129 | the active count grows only by an acceptance, and then to the pool size at most |
| `ThreadPool.ActiveBounded` | remus/server/ThreadWorkerFactory.cxx:71-129 | over any stretch of a run, active threads stay within the largest limit in force or the number there was |
| `ThreadPool.NeverGrowsOverLimit` | remus/server/ThreadWorkerFactory.cxx:71-129 | at or above a limit that is not raised, the active count never grows |
| `ThreadPool.CountsRunning` | remus/server/ThreadWorkerFactory.cxx:83-91 | the count is the number of running threads if and only if no task ended with something other than a `std::exception` |
| `ThreadPool.EscapedForGood` | remus/server/ThreadWorkerFactory.cxx:95-151 | in every run, a task that ended with something other than a `std::exception` keeps an uncompleted entry in every later state |
| `ThreadPool.AcceptsExactly` | remus/server/ThreadWorkerFactory.cxx:95-129 | in every state of every run a task is accepted if and only if the running and the escaped tasks together are fewer than the pool size |
| `ThreadPool.FullForGood` | remus/server/ThreadWorkerFactory.cxx:95-151 | once as many tasks have escaped as the pool has places, no later state with at most that size accepts a task |
| `ThreadPool.OnePlaceLost` | remus/server/ThreadWorkerFactory.cxx:95-151 | a pool of size one whose first task escapes accepts nothing ever again, whatever follows, unless it is resized |
| `ThreadPool.ClosedPool` | remus/server/ThreadWorkerFactory.cxx:95-151 | such a run exists |
| `ThreadPool.Threads.RunTask` | remus/server/ThreadWorkerFactory.cxx:95-129 | harvest, limit check and acceptance refine the step |
| `ThreadPool.Threads.NumberOfActiveThreads` | remus/server/ThreadWorkerFactory.cxx:83-91 | counts the uncompleted entries |
| `ThreadPool.Threads.Completed` | remus/server/ThreadWorkerFactory.cxx:134-151 | refines the end of a running task: the invariant holds after it and the active count is one less |
| `JsonRoundTrip.PrintThenParse` | thirdparty/cJson/cJSON.cxx:311-531 | parsing the printed text of any printable tree, at any depth, formatted or not, gives the tree back and nothing is left |
| `JsonRoundTrip.FormattingKeepsMeaning` | thirdparty/cJson/cJSON.cxx:307-308 | formatting never changes what a text parses to, and different trees never print alike |
| `JsonRoundTrip.ValueBack` | thirdparty/cJson/cJSON.cxx:311-341 | a printed value is read back before any text that cannot continue a number |
| `JsonRoundTrip.StringBack` | thirdparty/cJson/cJSON.cxx:179-272 | any NUL-free byte string is read back from its literal |
| `JsonRoundTrip.NumberBack` | thirdparty/cJson/cJSON.cxx:120-162 | any integer is read back from its digits |
| `JsonRoundTrip.ArrayBack` | thirdparty/cJson/cJSON.cxx:344-427 | a printed array is read back with its elements in order |
| `JsonRoundTrip.ObjectBack` | thirdparty/cJson/cJSON.cxx:430-531 | a printed object is read back with its members in order |
| `JsonGrammar.TextRead` | thirdparty/cJson/cJSON.cxx:311-463 | every text of the JSON grammar, with any white space and any spelling of its strings and numbers, is read as the value it stands for, whatever follows |
| `JsonGrammar.DocumentRead` | thirdparty/cJson/cJSON.cxx:285-304 | the same for a whole document with white space before it |
| `JsonGrammar.CharRead` | thirdparty/cJson/cJSON.cxx:184-235 | a character is read as its UTF-8 form however it is spelled: as it is, after a backslash, or by its units in UTF-16 with digits of either case, pairs included |
| `JsonGrammar.HalfDropped` | thirdparty/cJson/cJSON.cxx:204-212 | a zero, a second half of a pair on its own and a first half that no escape follows stand for nothing |
| `JsonGrammar.BadPairDropped` | thirdparty/cJson/cJSON.cxx:208-213 | a first half and an escape that is no second half stand for nothing together |
| `JsonGrammar.NoHexDropped` | thirdparty/cJson/cJSON.cxx:164-206 | an escape with a byte that is no hexadecimal digit stands for nothing |
| `JsonGrammar.NumeralRead` | thirdparty/cJson/cJSON.cxx:120-139 | a numeral of the grammar is read with its sign, digits, point and exponent |
| `JsonGrammar.NumeralValue` | thirdparty/cJson/cJSON.cxx:120-139 | the number read is, as a real number, whole part plus fraction by its places, times ten to the exponent |
| `JsonAccepted.Accepted` | thirdparty/cJson/cJSON.cxx:311-463 | every text that is accepted has brackets, braces, commas, colons and white space exactly where the grammar has them, and its value is the one read |
| `JsonLayout.DeeperIsIndented` | thirdparty/cJson/cJSON.cxx:372-531 | printing one level deeper puts exactly one tab more on every line but the first, if and only if it is not an empty object at the top |
| `JsonLayout.NothingBetween` | thirdparty/cJson/cJSON.cxx:372-531 | unformatted text holds no white space but the spaces inside strings |
| `JsonLayout.SampleLayout` | thirdparty/cJson/cJSON.cxx:372-531 | one object written both ways, byte by byte |
| `CJsonPrint.MeasureExact` | thirdparty/cJson/cJSON.cxx:244-247 | the first pass over a string counts exactly the bytes the second writes |
| `CJsonPrint.ArrayCovered` | thirdparty/cJson/cJSON.cxx:391-399 | the length measured for an array covers its elements and separators |
| `CJsonPrint.ObjectCovered` | thirdparty/cJson/cJSON.cxx:494-502 | the length measured for an object covers names, values, tabs and separators at any depth |
| `CJsonPrint.IntFits` | thirdparty/cJson/cJSON.cxx:146-150 | an int prints into fewer than the 21 bytes set aside |
| `CJsonPrint.PrintStringPtr` | thirdparty/cJson/cJSON.cxx:239-272 | writes the literal and its zero into a buffer of exactly that size |
| `CJsonPrint.PrintArray` | thirdparty/cJson/cJSON.cxx:372-427 | writes the text and its zero within a buffer of the measured size |
| `CJsonPrint.PrintObject` | thirdparty/cJson/cJSON.cxx:466-531 | writes the text and its zero within a buffer of the measured size, empty objects included |
| `CJsonPrint.PrintValue` | thirdparty/cJson/cJSON.cxx:326-341 | a buffer holding the printed text of the value |
| `CJsonParse.LiteralFits` | thirdparty/cJson/cJSON.cxx:184-235 | the buffer sized by the first pass of `parse_string` is never too short for a well-formed literal |
| `CJsonParse.ParseHex4` | thirdparty/cJson/cJSON.cxx:164-175 | four digits read by position, zero if one is none |
| `CJsonParse.UnicodeAt` | thirdparty/cJson/cJSON.cxx:204-226 | the digits, the second half of a surrogate pair and the bytes filled in backwards refine the decoding of a unicode escape, well-formed or not |
| `CJsonParse.ParseStringAt` | thirdparty/cJson/cJSON.cxx:179-235 | refines string parsing; on a well-formed literal the value fits the measured buffer |
| `CJsonParse.ParseLiteral` | thirdparty/cJson/cJSON.cxx:184-235 | on a well-formed literal the second pass writes the decoded string and its zero within the buffer the first pass measured |
| `CJsonParse.EncodeBackwards` | thirdparty/cJson/cJSON.cxx:215-226 | the bytes filled in from the last back are the UTF-8 form of the code point |
| `CJsonParse.ParseNumberAt` | thirdparty/cJson/cJSON.cxx:120-139 | the digit loops refine number parsing, fraction and exponent included |
| `CJsonParse.ParseArrayAt` | thirdparty/cJson/cJSON.cxx:344-369 | the loop that links elements refines array parsing |
| `CJsonParse.ParseObjectAt` | thirdparty/cJson/cJSON.cxx:430-463 | the loop that links members refines object parsing |
| `CJsonParse.ParseValueAt` | thirdparty/cJson/cJSON.cxx:311-323 | refines value parsing |
| `NodeSort.Sort` | thirdparty/pugixml/pugixml.cpp:5618-5647 | sorts any range in place for any strict total order: sorted, a permutation of the range, nothing else touched, and recursion at depth d needs at least 33 * 2^(d-1) elements |
| `NodeSort.Partition` | thirdparty/pugixml/pugixml.cpp:5540-5591 | below, equal to and above the pivot, a permutation of the range |
| `NodeSort.InsertionSort` | thirdparty/pugixml/pugixml.cpp:5508-5538 | sorted permutation of the range |
| `NodeSort.Median` | thirdparty/pugixml/pugixml.cpp:5600-5616 | moves elements within the range only, and leaves in the middle an element with one not greater before it and one not less after it |
| `NodeSort.Median3` | thirdparty/pugixml/pugixml.cpp:5593-5598 | orders three elements |
| `NodeSort.Unique` | thirdparty/pugixml/pugixml.cpp:5480-5501 | leaves exactly the sequence with equal neighbours collapsed |
| `NodeSort.CollapseSorted` | thirdparty/pugixml/pugixml.cpp:5480-5501 | of a sorted sequence collapsing keeps each element once, strictly ascending |
| `NodeSort.RemoveDuplicates` | thirdparty/pugixml/pugixml.cpp:6894-6900 | no node is lost; an unsorted set is left with every node once in the comparator's order, a sorted one with every node once in its own order |
| `XmlTree.DocumentOrder` | thirdparty/pugixml/pugixml.cpp:6094-6119 | the document lists every node once, and position in it is document order |
| `XPathAxes.AxesPartition` | thirdparty/pugixml/pugixml.cpp:7684-7852 | self, descendant, ancestor, following and preceding divide all nodes: each is on exactly one of them |
| `XPathAxes.AxisList` | thirdparty/pugixml/pugixml.cpp:7684-7852 | the list of every axis holds exactly the nodes on it, strictly in document order, or strictly against it on a reverse axis, so none twice |
| `XPathAxes.AxesShareOut` | thirdparty/pugixml/pugixml.cpp:7684-7852 | the lists of the five basic axes together are a permutation of the document |
| `XPathTraversal.StepFill` | thirdparty/pugixml/pugixml.cpp:7684-7852 | each traversal gives exactly the nodes of its axis that pass the test, none twice, forward axes in document order, reverse axes in reverse order |
| `XPathTraversal.FillDescendants` | thirdparty/pugixml/pugixml.cpp:7706-7732 | the stackless walk visits exactly the descendants in document order and ends |
| `XPathTraversal.FillFollowing` | thirdparty/pugixml/pugixml.cpp:7750-7776 | the walk visits exactly the following nodes in document order |
| `XPathTraversal.FillPreceding` | thirdparty/pugixml/pugixml.cpp:7778-7815 | the backward walk visits exactly the preceding nodes, ancestors left out, in reverse document order |
| `XPathTraversal.FillAncestors` | thirdparty/pugixml/pugixml.cpp:7817-7833 | the climb visits exactly the ancestors, nearest first |
| `XPathTraversal.FillChildren` | thirdparty/pugixml/pugixml.cpp:7698-7704 | the loop visits exactly the children in document order |
| `XPathTraversal.FillFollowingSiblings` | thirdparty/pugixml/pugixml.cpp:7734-7740 | the loop visits exactly the later siblings in document order, none for the document node |
| `XPathTraversal.FillPrecedingSiblings` | thirdparty/pugixml/pugixml.cpp:7742-7748 | the loop visits exactly the earlier siblings, nearest first |
| `XPathTraversal.FillParent` | thirdparty/pugixml/pugixml.cpp:7842-7847 | the parent, if there is one |
| `XPathSteps.StepDo` | thirdparty/pugixml/pugixml.cpp:7930-7976 | a step from a whole node set gives exactly the nodes that pass the test and lie on the axis of some context node, no node twice, and in the order the resulting set claims |
| `XPathTraversal.NodeIsAncestor` | thirdparty/pugixml/pugixml.cpp:6121-6126 | true exactly for ancestors and the node itself |
| `XPathTraversal.NodeHeight` | thirdparty/pugixml/pugixml.cpp:6081-6092 | the number of nodes up to the root |
| `XPathTraversal.NodeIsBefore` | thirdparty/pugixml/pugixml.cpp:6094-6119 | on true heights, exactly document order |
| `Strconv.PcdataRoundTrip` | thirdparty/pugixml/pugixml.cpp:2992-3031 | escaping and converting character data gives the text back, and under end-of-line handling exactly when it has no carriage return |
| `Strconv.AttributeRoundTrip` | thirdparty/pugixml/pugixml.cpp:2992-3031 | escaping and converting attribute values gives the text back, and under white space conversion exactly when it has no tab |
| `Strconv.NormalisedRoundTrip` | thirdparty/pugixml/pugixml.cpp:1868-1918 | under white space normalisation exactly the canonical values come back |
| `Strconv.EscapeThenConvert` | thirdparty/pugixml/pugixml.cpp:2992-3031 | in general exactly when no byte that is written as it stands is altered by the mode |
| `Strconv.EscapeHidesStops` | thirdparty/pugixml/pugixml.cpp:2992-3031 | escaped text holds no terminator of its kind and no zero |
| `Strconv.EscapeUnchanged` | thirdparty/pugixml/pugixml.cpp:2992-3031 | text is written as it is exactly when it holds no markup character and of control characters only tabs, and line ends outside attributes |
| `Strconv.EscapedOrdinary` | thirdparty/pugixml/pugixml.cpp:2992-3031 | whatever the text, only such bytes and the ampersands of references are written |
| `References.RefExactly` | thirdparty/pugixml/pugixml.cpp:1614-1745 | a string starts with a reference exactly if it starts with one of the five names or a number in decimal or hexadecimal, and it stands for that character |
| `References.CharacterByNumber` | thirdparty/pugixml/pugixml.cpp:1614-1745 | every character is read from its decimal number as its UTF-8 form |
| `WhiteSpace.LineEnds` | thirdparty/pugixml/pugixml.cpp:1815-1986 | however its lines end, text is converted line by line, and one line feed, or one space under white space conversion, stands for each carriage return and line feed together and for each alone |
| `WhiteSpace.HasLines` | thirdparty/pugixml/pugixml.cpp:1815-1986 | every text has such lines |
| `WhiteSpace.InsideLines` | thirdparty/pugixml/pugixml.cpp:1815-1986 | inside a line only references are replaced, and tabs become spaces under white space conversion |
| `WhiteSpace.NormalisedWords` | thirdparty/pugixml/pugixml.cpp:1868-1918 | normalised, a value is its words with references replaced and one space between any two, trimmed at the end |
| `WhiteSpace.HasWords` | thirdparty/pugixml/pugixml.cpp:1868-1918 | every text is words and white space |
| `Strconv.RefFits` | thirdparty/pugixml/pugixml.cpp:1614-1745 | a reference is never shorter than what replaces it |
| `GapBuffer.Gap.Push` | thirdparty/pugixml/pugixml.cpp:1583-1597 | opening a gap leaves the produced text and everything outside unchanged |
| `GapBuffer.Gap.Flush` | thirdparty/pugixml/pugixml.cpp:1600-1611 | closing the gap leaves exactly the produced text at the start |
| `GapBuffer.EscapeAt` | thirdparty/pugixml/pugixml.cpp:1614-1745 | replaces a well-formed reference by its bytes and leaves a malformed one literal, the cursor past harmless bytes only |
| `GapBuffer.ReadNumber` | thirdparty/pugixml/pugixml.cpp:1618-1668 | the digits up to a semicolon as a number kept in 32 bits |
| `TextParsing.Pcdata` | thirdparty/pugixml/pugixml.cpp:1815-1848 | in place, the text up to its terminator becomes exactly the functional conversion and a zero; nothing outside changes; without terminator the rest is untouched |
| `TextParsing.ParseWnorm` | thirdparty/pugixml/pugixml.cpp:1868-1918 | the same for attribute values with white space collapsed and trimmed |
| `TextParsing.ParseWconv` | thirdparty/pugixml/pugixml.cpp:1920-1954 | the same for attribute values with white space made spaces |
| `TextParsing.ParseEol` | thirdparty/pugixml/pugixml.cpp:1956-1986 | the same for attribute values with line ends normalised |
| `TextParsing.ParseSimple` | thirdparty/pugixml/pugixml.cpp:1988-2012 | the same for attribute values with references only |
| `TextOutput.TextOutputEscaped` | thirdparty/pugixml/pugixml.cpp:2992-3031 | appends exactly the escaped text to what was written, well formed or not; well-formed text stays well formed |
| `Utf.Utf8RoundTrip` | thirdparty/pugixml/pugixml.cpp:847-907 | any sequence of code points is decoded from its UTF-8 form |
| `Utf.Utf16RoundTrip` | thirdparty/pugixml/pugixml.cpp:736-762 | any sequence of scalar values survives UTF-8, decoding, UTF-16 and decoding again |
| `Utf.DecodeConcat` | thirdparty/pugixml/pugixml.cpp:847-907 | decoding distributes over well-formed prefixes |
| `Utf.CutAtLead` | thirdparty/pugixml/pugixml.cpp:2752-2766 | a well-formed string can be cut before any byte that is not a continuation |
| `Utf.LeadWithinFour` | thirdparty/pugixml/pugixml.cpp:2752-2766 | among any four bytes of a well-formed string one starts a character |
| `Utf.TranscodeConcat` | thirdparty/pugixml/pugixml.cpp:2768-2811 | converting in pieces gives the same as converting at once |
| `Encodings.Utf16Written` | thirdparty/pugixml/pugixml.cpp:736-762 | text of any scalar values written in UTF-16 of either byte order decodes to the same scalar values |
| `Encodings.Utf32Written` | thirdparty/pugixml/pugixml.cpp:779-803 | written in UTF-32 of either byte order, the groups of four bytes are the code points |
| `Encodings.Latin1Written` | thirdparty/pugixml/pugixml.cpp:805-824 | written in Latin-1, each code point is one byte: itself below 256, a question mark otherwise |
| `Encodings.Utf8Order` | thirdparty/pugixml/pugixml.cpp:676-718 | the bytes of UTF-8 compare as the code points do |
| `Encodings.StrayBytePassed` | thirdparty/pugixml/pugixml.cpp:847-907 | a byte that is part of no sequence is passed over and changes nothing else |
| `Utf.TranscodeFits` | thirdparty/pugixml/pugixml.cpp:2962-2985 | no conversion needs more than four bytes for each byte |
| `Utf.SwapStores` | thirdparty/pugixml/pugixml.cpp:1004-1007 | on a machine of either byte order, swapping when needed leaves the wanted bytes |
| `BufferedWriter.DecodeUtf8Block` | thirdparty/pugixml/pugixml.cpp:847-907 | the loop with its fast path for blocks of ASCII refines the simple decoder |
| `BufferedWriter.ConvertBuffer` | thirdparty/pugixml/pugixml.cpp:2768-2811 | conversion and in-place swap give exactly the transcoding, within four times the input |
| `BufferedWriter.GetValidLength` | thirdparty/pugixml/pugixml.cpp:2752-2766 | a positive length at which a well-formed string is cut between characters |
| `BufferedWriter.XmlBufferedWriter.FlushChunk` | thirdparty/pugixml/pugixml.cpp:2835-2851 | a chunk of any bytes is converted within the scratch buffer and appended |
| `BufferedWriter.XmlBufferedWriter.Flush` | thirdparty/pugixml/pugixml.cpp:2829-2833 | afterwards the output is the conversion of pieces that make up everything written, and of the whole at once if all texts were well formed or the output is UTF-8 |
| `BufferedWriter.XmlBufferedWriter.Write` | thirdparty/pugixml/pugixml.cpp:2853-2892 | text of any length and any bytes is added whole, through buffer or chunks, and well-formed text is never cut inside a character |
| `BufferedWriter.XmlBufferedWriter.WriteChars` | thirdparty/pugixml/pugixml.cpp:2899-2960 | up to six characters are added, of any bytes |
| `BufferedWriter.XmlBufferedWriter.WriteAll` | thirdparty/pugixml/pugixml.cpp:2824-2892 | after any number of writes and the final flush the output is the conversion of pieces of the whole concatenation, and its transcoding at once if every text was well formed or the output is UTF-8 |
| `PageAllocator.AllocatedKeeps` | thirdparty/pugixml/pugixml.cpp:323-334 | every allocation keeps the accounts of all pages, and its block lies apart from every live block; a page is added exactly if the block does not fit the last one |
| `PageAllocator.FreedKeeps` | thirdparty/pugixml/pugixml.cpp:336-369 | every free of a live block keeps the accounts; freed size never exceeds busy size |
| `PageAllocator.ReleasedExactly` | thirdparty/pugixml/pugixml.cpp:347-367 | a page other than the last is released exactly when its last live block is freed, and no other page ever is |
| `PageAllocator.RunInv` | thirdparty/pugixml/pugixml.cpp:323-369 | the accounts hold in every state of every run that starts with a small block |
| `PageAllocator.LiveBlocksApart` | thirdparty/pugixml/pugixml.cpp:323-369 | in every run live blocks never overlap and lie within their page |
| `PageAllocator.WellFilled` | thirdparty/pugixml/pugixml.cpp:421-456 | in every run, of every page but the last more than three quarters have been used, or it is the exact page of one block larger than a quarter |
| `PageAllocator.HeaderRecovers` | thirdparty/pugixml/pugixml.cpp:371-415 | the 16-bit header of any live string gives back its page and its full size |
| `PageAllocator.XmlAllocator.AllocateMemory` | thirdparty/pugixml/pugixml.cpp:323-334 | refines allocation while the last page's own size field is out of date |
| `PageAllocator.XmlAllocator.AllocateMemoryOob` | thirdparty/pugixml/pugixml.cpp:421-456 | refines allocation of a new last page, or of a page before the last for large blocks |
| `PageAllocator.XmlAllocator.DeallocateMemory` | thirdparty/pugixml/pugixml.cpp:336-369 | refines freeing, the reset of the last page included |
| `PageAllocator.XmlAllocator.AllocateString` | thirdparty/pugixml/pugixml.cpp:371-397 | refines allocation with the rounded size, and the header of the block |
| `PageAllocator.XmlAllocator.DeallocateString` | thirdparty/pugixml/pugixml.cpp:399-415 | frees the right block of the right page from the header alone |

## Left out

- ZeroMQ sockets, framing and polling: a send is a choice to succeed or fail, a clock reading or a missed heartbeat is an argument.
- Server queries that only read (`canMesh`, `meshRequirements`, supported types), publishing of events, signal handling, shutdown and `TerminateAllWorkers`: they change no table that a property is about.
- The order in which a pass visits a set of requirements: proved for every order instead of the one of `std::set`.
- Requirements inside the broker are their compared part only; payloads are in the wire format.
- `ThreadManagement` (start, stop, wait): depends on condition-variable timing.
- `proto::Job` read with `>>` and written again, and the MeshIOTypeSet stream functions, which repeat the pattern of requirement sets.
- Truncated or malformed wire text: a read that cannot succeed is a failure; what the code does with the partly filled object is not modelled, nor is the wrap-around of a negative number read into an unsigned size.
- The text form of uuids belongs to Boost, which is not part of this model beyond its canonical 36 characters.
- MD5 is any function from bytes to bytes.
- ThreadPool.Threads.RunTask: does not model the launching of the thread or the data race of the unlocked count, because steps under the lock are atomic here; keys are counted for each pool, where the code counts them for all pools of the process together.
- PollingMonitor.PollingTracker.PollOccurred: uses exact integers for the quarter of the average, which the code computes in floating point; the two agree for averages below 2^53 milliseconds.
- cJSON numbers that are not ints are parsed exactly but not printed: `sprintf` of doubles, and the rounding of parsed values, are left out. So are the functions that edit trees.
- CJsonPrint.PrintValue: numbers that are not ints are not printed, because the code prints them with `sprintf` of doubles.
- CJsonParse.ParseStringAt: a text that ends inside an escape is a failure, where the code reads past the end of the text.
- XML and XPath grammars, the evaluation of XPath functions and operators, comments and CDATA conversion, and the wide-character build: parsers as a whole, or repetitions of what is modelled.
- XPathTraversal.StepFill: the attribute axis and attributes as context nodes are left out; nodes are positions in a tree and the links between nodes are functions of it, because the traversals only read the tree.
- XPathSteps.StepDo: a step without predicates.
- PageAllocator.XmlAllocator.DeallocateMemory: the pages are a sequence in list order instead of linked by pointers, and following a pointer to a page is a search for its address.
- TextParsing.Pcdata: the position of the terminator is a ghost argument, because a buffer without terminator or zero has no defined result.
