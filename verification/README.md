# Proofs about six of the repository's systems

The repository is a collection of independent systems. This project models the six whose behaviour is hardest to
get right and proves, for all inputs, all runs and all failures, what each of them is for. Every part has the same
shape: a specification on values (datatypes and functions) with the theorems about it, and classes and methods in
the source's own imperative form whose postconditions tie each of them to the specification.

**Fault-tolerant distributed sort** (`FaultTolerantService`). A master keeps a queue of sort and merge tasks, one
slot per worker, and one result that waits for a partner. Workers die at arbitrary moments; `is_process_alive` is an
arbitrary sequence of answers (a finite schedule of deaths, after which workers answer). Proved: any interleaving of
dispatches, deaths and results conserves the numbers, keeps the counters right and the halves of merge tasks sorted;
the main loop ends under every schedule after exactly 2n - 3 results; the output is the sorted input, unless a packet
overruns the static send buffer; no schedule leads to that if and only if the file has at most two pieces or fits one
merge packet without its smallest piece (every file of up to 16382 numbers does; the 20000 numbers that the Makefile
generates do not, and three deaths are enough); a mirror restarted from the check point written before the loop
outputs the same sequence under its own schedule of deaths; a check point is recovered exactly when nothing is in
flight and no result waits, which at the head of a round is after an even number of results, and so it is for the one
the loop leaves behind; partitioning, chunking and task packets lose nothing. Files: `Sorting`, `Tasks`,
`TaskPackets`, `TaskFarm`, `FarmRuns`, `PacketLoad`, `Checkpoint`, `Takeover`, `TasksManager`, `Master`, `Partition`,
`SortService`, `DefaultInput`.

**Monitor and readers-writers** (`ThreadsMonitorLinux`). The monitor is a state machine with one atomic step per
operation; the monitor passes to the thread that `planifica` releases, as the design describes. Readers-writers is
first proved under free scheduling (any thread that is not blocked may run next), then on the monitor itself, whose
runs are shown to be runs of the freely scheduled protocol. Proved: every thread is in at most one place, callback
counts are queue lengths, who owns the monitor and who waits where after each operation under each policy, no
overtaking in any queue over any run, mutual exclusion, who exactly gets in and who is woken, writers before readers
over every run, no lost wakeup, and nobody left behind in an idle monitor, for any number of threads. Files:
`MonitorState`, `MonitorOrder`, `MonitorObject`, `ReadersWriters`, `RWSystem`, `WriterPreference`, `RWObject`.

**Mirrored disk with CRC recovery** (`SimpleRAIDDriverWindows`). `update_crc` is the bit-by-bit CRC-32 of section 8
of RFC 1952, composes, leaves the residue of CRC-32 behind data followed by its CRC, and sees every change within four
consecutive bytes (five can be missed). Two replicas with
a CRC area each are written data first, then CRC, first disk, then second; a crash may stop any request after any of
its disk accesses. Proved: a write to a healthy sector is all-or-nothing, wherever it stops and whatever requests follow that do not
write the sector (they may be cut short themselves), exactly when the old and new content have different CRCs or are
equal; for a sector that an earlier crash left unrepaired the exact condition is on its two replicas, and two crashed
writes in a row can leave neither valid; a write that crashes, a restart and two reads deliver the old or the new
content; one completed read
repairs damage exactly when the damage changes the CRC; CRC slots never overlap. Files: `CrcDivision`, `CrcTable`,
`Crc32`, `CrcBursts`, `CrcResidue`, `Mirror`, `RaidDriver`.

**Stateful UDP filter** (`NetworkFirewallLinux`). Rule lists searched from the head, timers, and the two packet hooks
are compared with a specification that has no table: an incoming packet is accepted exactly when a static rule added
before covers it, bit by bit of the masks and port by port, or its port pair was used less than a timeout ago. Files:
`AddressBits`, `FirewallRules`, `FlowTable`,
`FirewallHooks`, `FirewallObject`.

**Hash table in shared memory** (`LinuxIPC`). The bytes of the table against a set whose buckets have a fixed
capacity: every add, remove and clear acts as on the set exactly as long as the set has room, over every run of
requests. Files: `CStrings`, `WordHash`, `WordTable`, `SharedMemory`, `WordSet`, `HashTableServer`.

**Directory listing on the wire** (`FilesServerLinux`). Length-prefixed names and decimal sizes. The server asks for
every size by path and name joined as they are, and an assertion ends it when there is no such file. For every path,
directory and file system: the client shows files exactly when every full name fits the server's name buffer, every
joined name is found, and the answer leaves a byte of the packet free; it shows what the directory holds exactly when,
besides, each joined name has the size of the directory's own entry, which a slash at the end of the path ensures.
Files: `CStrings`, `Wire`, `Listing`, `Directory`, `FilesServer`.

## Where the code and its descriptions differ

- `FaultTolerantService/README.md:79-81` says that the mirror goes on where the master stopped. The mirror reads the
  check point once, before the loop (`FaultTolerantService/src/manager.cpp:183-187`), and a check point taken with a
  task in flight or a result waiting is not read back (`Checkpoint.CheckpointRecovers` gives the exact condition).
- `write_task` does not look at the size of the static send buffer (`FaultTolerantService/src/operations.cpp:8-32`).
  The model answers `Overrun` where the program writes on behind it, and nothing is claimed about such a run.
- `FilesServerLinux/server.c:101-117` does not look at the sizes of its name buffer and of the packet either; the
  model answers `Overrun` there as well. It puts no slash between path and name, so a request for `/tmp` looks for
  `/tmp.` and ends the server.
- An empty file leads `finish_solving` to a null task; the model answers `NoTask` there.
- `SimpleRAIDDriverWindows/README.md` has a repairing read deliver the data; the code reports success and leaves the
  caller's buffer as it was (`RaidDriver.Driver.MyRead` says exactly when the buffer is filled).
- `LinuxIPC/README.md` makes the shared memory the product of its three dimensions; the code allocates one byte more
  for every word, all of it behind the last slot. Packets carry words of sixteen bytes, slots hold fifteen and a zero.
- `ThreadsMonitorLinux/src/LibMonitor.cpp:187-195` does not take the mutex again after `Wait`. Atomic ownership of the
  monitor is an assumption of the model, taken from `ThreadsMonitorLinux/README.md:20-34`.

## Model

| member | source | states |
|---|---|---|
| Sorting.SortCorrect | FaultTolerantService/src/task_manager.cpp:56-66 | insertion sort returns a sorted permutation of any data |
| Sorting.InsertionSort | FaultTolerantService/src/task_manager.cpp:50-69 | the in-place loops leave the sorted data in the array |
| Sorting.ShiftIntoPlace | FaultTolerantService/src/task_manager.cpp:58-65 | the inner loop inserts one element into the sorted part and touches nothing to its right |
| Sorting.MergePermutes | FaultTolerantService/src/task_manager.cpp:140-152 | merging keeps every number of both halves |
| Sorting.MergeSorts | FaultTolerantService/src/task_manager.cpp:140-152 | merging sorted halves gives a sorted result |
| Sorting.MergeArrays | FaultTolerantService/src/task_manager.cpp:137-152 | the three index loops compute the merge |
| Sorting.MergeHeads | FaultTolerantService/src/task_manager.cpp:140-146 | the loop over both halves leaves one of them as the rest of the result |
| Sorting.SortedUnique | FaultTolerantService/src/manager.cpp:310-330 | the sorted arrangement of given numbers is unique, so outputs of different schedules can be compared |
| Tasks.ResultCorrect | FaultTolerantService/src/task_manager.cpp:50-155 | computeResult keeps the task's numbers and, for merge tasks with sorted halves, sorts them |
| Tasks.SortTask.ComputeResult | FaultTolerantService/src/task_manager.cpp:50-69 | a sort task ends sorted and solved |
| Tasks.MergeTask.ComputeResult | FaultTolerantService/src/task_manager.cpp:126-155 | a merge task ends with the merge of its halves; two empty halves leave the status as it was |
| TaskPackets.ParsePacket | FaultTolerantService/src/task_manager.cpp:450-507 | read_task undoes write_task for every task, whatever stands behind the packet in the buffer |
| TaskPackets.ParseExactly | FaultTolerantService/src/task_manager.cpp:450-473 | read_task builds a task if and only if the buffer starts with that task's packet |
| TaskPackets.PacketLayout | FaultTolerantService/src/task_manager.cpp:488-505 | kind, sizes and numbers stand at the offsets of write_task |
| TaskPackets.PacketSize | FaultTolerantService/src/task_manager.cpp:475-507 | a packet is the task's numbers and two or three words |
| TaskPackets.WriteTask | FaultTolerantService/src/task_manager.cpp:475-507 | the buffer holds the packet and is untouched behind it |
| TaskPackets.ReadTask | FaultTolerantService/src/task_manager.cpp:450-473 | the task built from a buffer; none where the program aborts or would read outside it |
| TaskFarm.DispatchKeeps | FaultTolerantService/src/manager.cpp:429-441 | for any set of busy slaves a dispatch keeps counters, slots, sortedness of halves, every number and the work left |
| TaskFarm.FailKeeps | FaultTolerantService/src/operations.cpp:66-83 | a dead worker loses no number and changes no count of work left |
| TaskFarm.SucceedKeeps | FaultTolerantService/src/operations.cpp:85-96 | a result keeps every number, builds only merge tasks with sorted halves, and lowers the work left by one |
| FarmRuns.RunConserves | FaultTolerantService/src/operations.cpp:53-98 | over any interleaving of dispatches, deaths and results that can be carried out at all: invariant, multiset of numbers, and work left equal to the start less the successes |
| FarmRuns.CheckRecvKeeps | FaultTolerantService/src/operations.cpp:61-97 | a visit to the slaves keeps the invariant and the numbers and brings at most one result |
| FarmRuns.CheckRecvFrees | FaultTolerantService/src/operations.cpp:61-97 | a visit gives no slave work, and one that brings no result has freed every slave |
| FarmRuns.RoundResolves | FaultTolerantService/src/manager.cpp:407-452 | from an idle state slave 0 gets the first task and the visit resolves it, so no slave is busy at the loop head |
| FarmRuns.IdleCounts | FaultTolerantService/src/manager.cpp:403-449 | at the loop head nothing is to be received and ntasks_in_queue is the queue's length |
| FarmRuns.RoundProgress | FaultTolerantService/src/manager.cpp:412-451 | a round finds a non-empty queue and either does work or uses up an answer |
| FarmRuns.MainLoopRound | FaultTolerantService/src/manager.cpp:407-452 | the loop goes on from the state a round leads to, and overruns the buffer exactly when this round or a later one does |
| FarmRuns.MainLoopEnds | FaultTolerantService/src/manager.cpp:396-453 | under every schedule the loop ends, with one queued task and one waiting result, after a number of results no failure can change |
| FarmRuns.FinishSorts | FaultTolerantService/src/manager.cpp:310-330 | solving the last task and merging the waiting result gives all numbers in order |
| FarmRuns.SortedWhateverFails | FaultTolerantService/src/manager.cpp:396-469 | for every queue of n tasks and every schedule: unless a packet overruns the send buffer, the output is a sorted permutation of the queued numbers after 2n - 3 results (none for one task) |
| FarmRuns.FailuresDoNotShow | FaultTolerantService/src/manager.cpp:334-381 | two masters with the same numbers output the same sequence under any two schedules that overrun no buffer |
| FarmRuns.ReplyFits | FaultTolerantService/src/worker.cpp:104-119 | a worker's reply is no longer than the packet it answers |
| PacketLoad.RunIsLoad | FaultTolerantService/src/operations.cpp:28-32 | whether every packet of a run fits depends on the sizes of the queued tasks only |
| PacketLoad.SmallLoadFits | FaultTolerantService/src/manager.cpp:407-452 | under every schedule a packet carries at most all numbers but those of the smallest task |
| PacketLoad.StarvingOverruns | FaultTolerantService/src/manager.cpp:407-452 | for any chosen task some schedule, given explicitly, has one packet carry all numbers but that task's |
| PacketLoad.RunsFitExactly | FaultTolerantService/src/operations.cpp:8-32 | no schedule overruns the send buffer if and only if the queue is within the bound: two tasks that fit themselves, or all numbers but the smallest task's in one merge packet |
| Checkpoint.ReadQueueWords | FaultTolerantService/src/task_manager.cpp:361-377 | the queue is read back exactly as it was written, for any tasks |
| Checkpoint.DeserializeQueue | FaultTolerantService/src/task_manager.cpp:312-405 | every check point can be read, and its queue is the one written |
| Checkpoint.EntryLayout | FaultTolerantService/src/task_manager.cpp:79-86 | kind, status, sizes and numbers of a queued task stand in this order, the empty result of a merge task before its halves |
| Checkpoint.ReadOccupiedSlot | FaultTolerantService/src/task_manager.cpp:335-394 | an occupied slot is read as raw words of a task's variable-length record, never as a null slot |
| Checkpoint.CheckpointRecovers | FaultTolerantService/src/task_manager.cpp:312-405 | the reader finds the queue and only null pointers if and only if no slot is occupied and no result waits |
| Checkpoint.WaitingResultIsLost | FaultTolerantService/src/manager.cpp:412-417 | the check point written after the first result is not recovered: the waiting result is read as raw words |
| Checkpoint.FailoverIsInvisible | FaultTolerantService/src/manager.cpp:172-187 | the check point before the loop is read back with null pointers for slots and waiting result, and a mirror restarted from it outputs what the primary outputs, each under its own schedule, unless one overruns its buffer; either overruns under some schedule exactly when the other does |
| Takeover.NextHead | FaultTolerantService/src/manager.cpp:407-452 | from one round's head to the next the numbers are kept and at most one result comes in |
| Takeover.ReadBackExactly | FaultTolerantService/src/manager.cpp:412-417 | a check point written during a run is read back if and only if an even number of results came before it |
| Takeover.AnyReadBackWillDo | FaultTolerantService/src/manager.cpp:172-187 | a mirror that starts from any such check point puts out what the primary puts out, each under its own schedule, unless one overruns its buffer |
| Takeover.LastIsReadBack | FaultTolerantService/src/manager.cpp:407-452 | the check point the loop leaves behind, under every schedule, is one that is read back; it holds two tasks with all the numbers |
| Manager.TasksManager.PutTask | FaultTolerantService/src/task_manager.cpp:246-251 | the task joins the end of the queue, unsolved |
| Manager.TasksManager.PutMergeTask | FaultTolerantService/src/task_manager.cpp:253-288 | the first result waits, the second forms a queued merge task with it |
| Manager.TasksManager.RemoveTask | FaultTolerantService/src/task_manager.cpp:290-303 | FIFO removal, none from an empty queue |
| Manager.TasksManager.RemoveTaskFor | FaultTolerantService/src/task_manager.cpp:305-310 | the removed task is remembered in the slave's slot |
| Manager.TasksManager.SetTaskFailed | FaultTolerantService/src/task_manager.cpp:417-424 | the slot's task goes back to the end of the queue and the slot is cleared |
| Manager.TasksManager.SetTaskSucceeded | FaultTolerantService/src/task_manager.cpp:426-429 | the slot is cleared |
| Manager.TasksManager.Save | FaultTolerantService/src/task_manager.cpp:312-350 | the words of the check point file, in order |
| MasterProcess.WorkOnPacket | FaultTolerantService/src/worker.cpp:97-119 | the answer to a parsed packet, read by the master, is that task's result |
| MasterProcess.SendTask | FaultTolerantService/src/operations.cpp:14-33 | the packet leaves through the static buffer of 16384 words, or does not fit it |
| MasterProcess.ReceiveTask | FaultTolerantService/src/operations.cpp:35-51 | a packet received over stale buffer contents is read as the task that was sent |
| MasterProcess.Work | FaultTolerantService/src/worker.cpp:97-119 | any task comes back as a sort task holding its result |
| MasterProcess.PacketsFit | FaultTolerantService/src/operations.cpp:8-33 | a packet in flight exceeds the numbers held by at most three words |
| MasterProcess.Master.GiveTask | FaultTolerantService/src/manager.cpp:429-437 | is a dispatch that sends the very task the slot holds, exactly when its packet fits the buffer |
| MasterProcess.Master.TakeResult | FaultTolerantService/src/operations.cpp:85-95 | receiving, parsing and pairing the reply is the success step SucceedKeeps is about |
| MasterProcess.Master.TakeBack | FaultTolerantService/src/operations.cpp:66-82 | requeueing and freeing the slave is the failure step FailKeeps is about |
| MasterProcess.Master.CheckRecvFromSlaves | FaultTolerantService/src/operations.cpp:53-98 | the loop over the slaves, dying and answering in any pattern, is the visit CheckRecvKeeps and CheckRecvFrees are about |
| MasterProcess.Master.Round | FaultTolerantService/src/manager.cpp:412-451 | one round of the loop: the check point file then holds the state at its head, and slaves, results and state are the specified ones; the branch that looks for another slave is never reached |
| MasterProcess.Master.RoundOf | FaultTolerantService/src/manager.cpp:407-452 | after every round the loop expects the same end as before, with a lower measure and the check point of that round's head in the file, or a packet did not fit |
| MasterProcess.Master.MainLoop | FaultTolerantService/src/manager.cpp:396-453 | the loop terminates in the specified state after the specified number of results, exactly when every packet fits; the check point it leaves is one that is read back |
| MasterProcess.Master.FinishSolving | FaultTolerantService/src/manager.cpp:310-330 | the last task, merged with the waiting result; none for an empty queue |
| MasterProcess.Master.Solve | FaultTolerantService/src/manager.cpp:455-469 | loop and final merge end as the theorem about schedules says: overrun, no task, or the sorted numbers; the check point left is one that is read back and holds the last two tasks |
| Partition.ShareFits | FaultTolerantService/src/manager.cpp:98-109 | every rank's share lies in the file, where the next one starts |
| Partition.ChunksExact | FaultTolerantService/src/manager.cpp:122-125 | one share is cut without loss into non-empty chunks, as many as announced |
| Partition.PartitionExact | FaultTolerantService/src/manager.cpp:98-150 | for every file, process count and chunk size the chunks of all ranks are the file, once and in order |
| Partition.Chunker.NextTask | FaultTolerantService/src/manager.cpp:244-260 | the next chunk, by an offset that outlives the call |
| Partition.CutShare | FaultTolerantService/src/manager.cpp:139-163 | calling next_task until it returns null yields exactly the chunks |
| SortService.InitialQueueHoldsFile | FaultTolerantService/src/manager.cpp:132-170 | the initial queue holds every number of the file, and the master starts in a sound state |
| SortService.Collect | FaultTolerantService/src/manager.cpp:138-151 | local and received tasks make up the initial queue |
| SortService.BufferSufficesExactly | FaultTolerantService/src/operations.cpp:8-32 | for every file and process count: no schedule overruns a buffer if and only if there are at most two pieces or the file without its smallest piece fits one merge packet |
| SortService.SmallFilesFit | FaultTolerantService/src/task_manager.h:50-50 | every file of at most 16382 numbers is within the bound |
| DefaultInput.DefaultInputOverruns | FaultTolerantService/Makefile:5-19 | the default input, 20000 numbers and two processes, is not: three deaths lead to a merge packet of 16931 words |
| SortService.Serve | FaultTolerantService/src/manager.cpp:98-211 | the program outputs the file's numbers in order, whatever workers die, after a fixed number of results, unless a packet overruns the buffer; a file within the bound never does |
| SortService.ServeWithMirror | FaultTolerantService/src/manager.cpp:172-202 | primary and mirror output the same sequence for every file within the bound, and whenever both output at all |
| MonitorState.PlanificaPicks | ThreadsMonitorLinux/src/LibMonitor.cpp:284-324 | releases exactly the head of the first non-empty queue among Waiting, Signaled, Entry, and nobody else moves |
| MonitorState.PlanificaPlaces | ThreadsMonitorLinux/src/LibMonitor.cpp:284-324 | the previous owner's place passes to the released thread, everyone else keeps theirs |
| MonitorState.PopAllMoves | ThreadsMonitorLinux/src/LibMonitor.cpp:250-258 | a broadcast moves the whole condition queue to Waiting, in order |
| MonitorState.EnterKeeps | ThreadsMonitorLinux/src/LibMonitor.cpp:118-153 | Enter keeps the invariant and gives exactly the caller one place |
| MonitorState.LeaveKeeps | ThreadsMonitorLinux/src/LibMonitor.cpp:155-172 | Leave keeps the invariant and frees exactly the caller's place |
| MonitorState.WaitKeeps | ThreadsMonitorLinux/src/LibMonitor.cpp:174-196 | Wait keeps the invariant and nobody enters or leaves |
| MonitorState.SignalKeeps | ThreadsMonitorLinux/src/LibMonitor.cpp:198-240 | Signal keeps the invariant under either policy |
| MonitorState.BroadcastKeeps | ThreadsMonitorLinux/src/LibMonitor.cpp:242-282 | Broadcast keeps the invariant under either policy |
| MonitorState.ReachableInvariant | ThreadsMonitorLinux/src/LibMonitor.cpp:118-324 | in every reachable state each thread is in at most one place, callback counts are queue lengths, and an idle monitor has nobody ready |
| MonitorOrder.EnterExactly | ThreadsMonitorLinux/src/LibMonitor.cpp:118-153 | refused if and only if inside; the free monitor is taken; otherwise the caller is last in Entry and nobody moves |
| MonitorOrder.LeaveExactly | ThreadsMonitorLinux/src/LibMonitor.cpp:155-172 | refused if and only if not inside; otherwise the head of Waiting, Signaled, Entry, in this order, owns the monitor and all others keep their places |
| MonitorOrder.WaitExactly | ThreadsMonitorLinux/src/LibMonitor.cpp:174-196 | refused if and only if the condition is unknown; otherwise the caller is last in its queue and the monitor passes on in that order |
| MonitorOrder.SignalExactly | ThreadsMonitorLinux/src/LibMonitor.cpp:198-240 | the first waiter becomes the last in Waiting; under SIGNAL_AND_WAIT the caller becomes the last in Signaled and the monitor passes on, under any other policy the caller keeps it |
| MonitorOrder.BroadcastExactly | ThreadsMonitorLinux/src/LibMonitor.cpp:242-282 | the same for all waiters in order; an unknown policy is an error after the move |
| MonitorOrder.SignalHandsOver | ThreadsMonitorLinux/src/LibMonitor.cpp:219-231 | with nobody else ready, SIGNAL_AND_WAIT runs the signalled thread at once, and the signaller is next |
| MonitorOrder.EveryQueueIsFifo | ThreadsMonitorLinux/src/LibMonitor.cpp:118-324 | no operation lets a thread leave any of the queues but from the front, or join but at the end |
| MonitorOrder.NoOvertaking | ThreadsMonitorLinux/src/LibMonitor.cpp:118-324 | in every run and under every policy, a thread behind another in a queue stays behind it for as long as the other is there |
| MonitorObject.Monitor.Planifica | ThreadsMonitorLinux/src/LibMonitor.cpp:284-324 | the recursive scheduler terminates in the specified state and reports whether it released a thread |
| MonitorObject.Monitor.Enter | ThreadsMonitorLinux/src/LibMonitor.cpp:118-153 | refuses a thread that is inside; otherwise it owns the free monitor or is last in Entry: the step EnterKeeps and EnterExactly are about |
| MonitorObject.Monitor.Leave | ThreadsMonitorLinux/src/LibMonitor.cpp:155-172 | refuses a thread that is not inside; otherwise hands the monitor on: the step LeaveKeeps and LeaveExactly are about |
| MonitorObject.Monitor.Wait | ThreadsMonitorLinux/src/LibMonitor.cpp:174-196 | refuses an unknown condition; otherwise the caller is last in its queue and the monitor handed on: the step WaitKeeps and WaitExactly are about |
| MonitorObject.Monitor.Signal | ThreadsMonitorLinux/src/LibMonitor.cpp:198-240 | the first waiter becomes ready and, under SIGNAL_AND_WAIT, the caller steps back: the step SignalKeeps and SignalExactly are about |
| MonitorObject.Monitor.Broadcast | ThreadsMonitorLinux/src/LibMonitor.cpp:242-282 | the loop empties the queue into Waiting; an unknown policy is reported after the move: the step BroadcastKeeps and BroadcastExactly are about |
| ReadersWriters.StepKeeps | ThreadsMonitorLinux/src/LibRW.cpp:28-95 | every segment of the four operations keeps counters, queues, exclusion and the reason every blocked thread will be woken |
| ReadersWriters.ReachableInvariant | ThreadsMonitorLinux/src/LibRW.cpp:28-95 | the same in every reachable state, any threads stepping in any order |
| ReadersWriters.MutualExclusion | ThreadsMonitorLinux/src/LibRW.cpp:33-74 | while a thread writes no other thread writes or reads |
| ReadersWriters.NoLostWakeup | ThreadsMonitorLinux/src/LibRW.cpp:53-91 | with nobody inside and no woken thread on its way, both condition queues are empty |
| ReadersWriters.WokenCount | ThreadsMonitorLinux/src/LibRW.cpp:36-71 | the waiting counters are queue length plus woken threads |
| WriterPreference.ReaderEntersExactly | ThreadsMonitorLinux/src/LibRW.cpp:33-42 | a reader gets in if and only if no thread writes and none asks to; otherwise it asks, last in the readers' queue |
| WriterPreference.WriterEntersExactly | ThreadsMonitorLinux/src/LibRW.cpp:66-75 | a writer gets in if and only if no thread reads and none writes; otherwise it asks, last in the writers' queue |
| WriterPreference.ReaderLeavesExactly | ThreadsMonitorLinux/src/LibRW.cpp:47-59 | only the last reader wakes anybody, and then the writer that has waited longest |
| WriterPreference.WriterLeavesExactly | ThreadsMonitorLinux/src/LibRW.cpp:80-95 | the writer that has waited longest is woken; all readers are exactly when no writer asks |
| WriterPreference.WritersGoFirst | ThreadsMonitorLinux/src/LibRW.cpp:28-95 | in every run a step leads a thread to reading if and only if it is a StartCit taken while nobody writes and nobody asks to; no other thread's state changes |
| WriterPreference.NoReaderOvertakes | ThreadsMonitorLinux/src/LibRW.cpp:28-95 | while some writer asks, the set of reading threads only shrinks, over any stretch of any run |
| WriterPreference.NoReaderOvertakesOnTheMonitor | ThreadsMonitorLinux/src/LibRW.cpp:28-95 | the same on the monitor, whichever threads it releases |
| RWSystem.RunRefines | ThreadsMonitorLinux/src/LibRW.cpp:28-95 | one segment run by the monitor's owner is one step of the freely scheduled protocol |
| RWSystem.ReachableSystem | ThreadsMonitorLinux/src/LibRW.cpp:17-95 | protocol and monitor invariants hold together in every reachable state |
| RWSystem.NobodyLeftBehind | ThreadsMonitorLinux/src/LibRW.cpp:28-95 | when the monitor is idle and nobody reads or writes, no thread is blocked anywhere |
| RWObject.ReadersWritersMonitor.StartCit | ThreadsMonitorLinux/src/LibRW.cpp:28-45 | from Enter or from the Wait it resumes, counters and monitor change as in the step RunRefines is about; true when the thread reads, which is when the counters of writers inside and asking are 0 |
| RWObject.ReadersWritersMonitor.StopCit | ThreadsMonitorLinux/src/LibRW.cpp:47-59 | the last reader wakes one writer; counters and monitor change as in the step RunRefines is about |
| RWObject.ReadersWritersMonitor.StartScrit | ThreadsMonitorLinux/src/LibRW.cpp:61-78 | from Enter or from the Wait it resumes, counters and monitor change as in the step RunRefines is about; true when the thread writes, which is when the counters of readers and writers inside are 0 |
| RWObject.ReadersWritersMonitor.StopScrit | ThreadsMonitorLinux/src/LibRW.cpp:80-95 | wakes one writer, or else all readers; counters and monitor change as in the step RunRefines is about |
| CrcTable.EntryIsBitwise | SimpleRAIDDriverWindows/crc32.c:31-84 | all 256 constants are the bit-by-bit remainders of their indices |
| Crc32.TableStepIsBitwise | SimpleRAIDDriverWindows/crc32.c:87-87 | one table step is eight bit steps, for every register and byte |
| Crc32.CrcComposes | SimpleRAIDDriverWindows/crc32.c:97-112 | the CRC of a concatenation is the CRC of the second part continued from the first |
| Crc32.UpdateCrc | SimpleRAIDDriverWindows/crc32.c:97-112 | the unrolled loops compute the bit-by-bit CRC-32 of any buffer from any start value, 0 for no buffer |
| CrcResidue.Residue | SimpleRAIDDriverWindows/crc32.c:97-112 | any data followed by its own CRC, lowest byte first, has the CRC 0x2144df1c |
| CrcResidue.CheckValue | SimpleRAIDDriverWindows/crc32.c:97-112 | the CRC of the digits 1 to 9 is 0xcbf43926, the check value of CRC-32 |
| CrcBursts.BurstDetected | SimpleRAIDDriverWindows/crc32.c:87-112 | buffers that differ, and only within four consecutive bytes, have different CRCs |
| CrcBursts.FiveBytesUndetected | SimpleRAIDDriverWindows/crc32.c:87-112 | the bound is sharp: a five-byte change no CRC sees, in front of any data |
| Mirror.CrcSlotsDisjoint | SimpleRAIDDriverWindows/ssr.c:69-79 | CRC slots lie behind the data, each inside one sector, and never overlap |
| Mirror.CrcByteAddress | SimpleRAIDDriverWindows/ssr.c:69-79 | the CRC of sector k stands 4k bytes behind the end of the data |
| Mirror.StoreEffect | SimpleRAIDDriverWindows/ssr.c:81-107 | storing data and CRC changes one replica of one sector and no other data or CRC |
| Mirror.ReadSettles | SimpleRAIDDriverWindows/ssr.c:201-253 | an interrupted repair keeps the content the sector settles on; a completed read makes both replicas that content |
| Mirror.WriteSettles | SimpleRAIDDriverWindows/ssr.c:303-321 | a write stopped after any of its disk writes leaves a sector that settles on the old content (up to one write) or the new |
| Mirror.HistorySettles | SimpleRAIDDriverWindows/ssr.c:201-321 | any later requests, cut short anywhere and not writing the sector, keep what it settles on |
| Mirror.OtherSectorsKept | SimpleRAIDDriverWindows/ssr.c:59-113 | requests to other sectors never change this one's data or CRC |
| Mirror.Geometry | SimpleRAIDDriverWindows/ssr_util.h:19-22 | the sector counts used are those of the sizes |
| Mirror.CrashSettles | SimpleRAIDDriverWindows/ssr.c:201-321 | which content wins after a write to a healthy sector: the old one if at most one disk write took place, the new one from the second on |
| Mirror.SettledCrashAtomicExactly | SimpleRAIDDriverWindows/ssr.c:201-330 | a write to a sector that settles, repaired or not, is all-or-nothing under every crash and every later history without a write to it if and only if its replicas meet a condition checked before the write |
| Mirror.SecondCrashBreaks | SimpleRAIDDriverWindows/ssr.c:264-330 | a second write that stops half-way, before any read has repaired the first, leaves neither replica valid |
| Mirror.CrashAtomicExactly | SimpleRAIDDriverWindows/ssr.c:264-330 | a write to a healthy sector is all-or-nothing under every crash and every later history without a write to it if and only if old and new content are equal or have different CRCs |
| Mirror.CrashAtomicityCanFail | SimpleRAIDDriverWindows/ssr.c:264-330 | a concrete pair of contents for which it is not |
| Mirror.RepairExactly | SimpleRAIDDriverWindows/ssr.c:196-246 | one completed read undoes damage to one replica if and only if the damage changes the CRC |
| Mirror.BurstRepaired | SimpleRAIDDriverWindows/ssr.c:196-246 | damage within four consecutive bytes is always undone |
| RaidDriver.Driver.CrcAddress | SimpleRAIDDriverWindows/ssr.c:69-79 | the computed address is the sector's CRC slot |
| RaidDriver.Driver.ReadCrc | SimpleRAIDDriverWindows/ssr.c:59-113 | reads the CRC stored for the sector, or fails with the disk |
| RaidDriver.Driver.WriteCrc | SimpleRAIDDriverWindows/ssr.c:81-107 | replaces one CRC and keeps the rest of its sector |
| RaidDriver.Driver.StoreOn | SimpleRAIDDriverWindows/ssr.c:305-320 | data, then CRC, stopped by the first failing request |
| RaidDriver.Driver.MyWrite | SimpleRAIDDriverWindows/ssr.c:264-330 | disks, status and size for every number of disk requests that succeed |
| RaidDriver.Driver.Resolve | SimpleRAIDDriverWindows/ssr.c:194-253 | delivers agreeing data, repairs the other replica from the first valid one, or gives up |
| RaidDriver.Driver.MyRead | SimpleRAIDDriverWindows/ssr.c:141-262 | disks, status, size and caller's buffer for every number of disk requests that succeed |
| RaidDriver.CrashAndRecover | SimpleRAIDDriverWindows/ssr.c:141-330 | a write stopped by any failing disk request, a restart and two reads: both replicas hold the old or the new content, the new one if the write succeeded, and the second read delivers it |
| AddressBits.MaskedIsAgreement | NetworkFirewallLinux/rules.c:115-117 | two addresses are equal under a mask if and only if they have the same bit at each of the 32 positions where the mask has one |
| FirewallRules.MatchesExactly | NetworkFirewallLinux/rules.c:111-123 | a packet's rule matches another if and only if both addresses agree with it on every masked bit and both ports lie in its closed ranges |
| FirewallRules.FlowMatch | NetworkFirewallLinux/rules.c:111-123 | among generated rules a match is equality of port pairs, whatever the addresses |
| FirewallRules.FirstMatch | NetworkFirewallLinux/rules.c:125-145 | the first matching rule from the head, none only when no rule matches |
| FirewallRules.FiringOrderIsIrrelevant | NetworkFirewallLinux/rules.c:20-23 | timers due together may fire in any order with the same outcome |
| FlowTable.SearchFindsPorts | NetworkFirewallLinux/rules.c:125-145 | searching for a generated rule finds the entry of its port pair, or there is none |
| FlowTable.RefreshSets | NetworkFirewallLinux/ip_firewall.c:119-128 | re-arming or adding sets one pair's deadline, no other, and keeps one entry to a pair |
| FlowTable.LiveDeadline | NetworkFirewallLinux/rules.c:86-109 | expiry removes the overdue deadlines and keeps every other |
| FirewallHooks.StaticsAreThoseAdded | NetworkFirewallLinux/ip_firewall.c:216-224 | the static list accepts exactly what the rules added so far accept |
| FirewallHooks.MasksDecide | NetworkFirewallLinux/rules.c:111-123 | of two packets, one of which a rule matches, the other is matched if and only if no masked bit differs and its ports are in range |
| FirewallHooks.EveryRunIsFaithful | NetworkFirewallLinux/ip_firewall.c:81-187 | over every run the table has an entry, at most one, exactly for the pairs recently used, expiring a timeout after the last use |
| FirewallHooks.AcceptedExactly | NetworkFirewallLinux/ip_firewall.c:134-187 | over every run an incoming UDP packet is accepted if and only if a static rule added before covers it, bit by bit of the masks and port by port, or its pair was used less than a lifetime ago |
| FirewallHooks.ReplyWindow | NetworkFirewallLinux/ip_firewall.c:70-79 | after one outgoing packet, packets from the mirrored ports and any address are accepted for a lifetime and not a tick longer: in the same tick, or while the next tick still ends within 300 ms |
| FirewallObject.SearchRule | NetworkFirewallLinux/rules.c:125-145 | the traversal returns the first matching element, null when there is none |
| FirewallObject.Firewall.AddStaticRule | NetworkFirewallLinux/rules.c:35-84 | the rule goes to the head of the static list, without expiry |
| FirewallObject.Firewall.AddUdpRule | NetworkFirewallLinux/rules.c:72-79 | the rule goes to the head of the dynamic list, its timer armed |
| FirewallObject.Firewall.RefreshRule | NetworkFirewallLinux/ip_firewall.c:121-128 | re-arms the flow's element in place, or adds one |
| FirewallObject.Firewall.HookOut | NetworkFirewallLinux/ip_firewall.c:116-131 | the lists after an outgoing packet are those AcceptedExactly is about; other protocols change nothing |
| FirewallObject.Firewall.HookIn | NetworkFirewallLinux/ip_firewall.c:160-186 | verdict and new state; a packet a static rule accepts re-arms nothing |
| FirewallObject.Firewall.DelRule | NetworkFirewallLinux/rules.c:86-109 | takes out the very element whose timer fired, and no other |
| FirewallObject.Firewall.FireTimers | NetworkFirewallLinux/rules.c:20-23 | fired in any order, the timers due leave exactly the entries not expired |
| WordHash.BucketIsFold | LinuxIPC/src/hash.c:9-18 | neither the 32-bit wrap-around nor the sign of char shows in the bucket |
| WordHash.Hash | LinuxIPC/src/hash.c:9-18 | the loop computes the bucket of the string |
| WordTable.RoomIsFreeSlot | LinuxIPC/src/server.c:110-113 | a bucket has a free slot exactly when it stores fewer words than its capacity |
| WordTable.StoredInItsBucket | LinuxIPC/src/server.c:99-106 | a word is stored exactly when a slot of its bucket holds it |
| SharedMemory.SlotAddress | LinuxIPC/src/include/common.h:46-46 | slots of all buckets follow each other without gap or overlap |
| SharedMemory.EqualAtSlot | LinuxIPC/src/server.c:101-101 | comparing the string at a slot compares the word the slot holds, for words of any length a packet carries |
| SharedMemory.CopyIntoSlot | LinuxIPC/src/server.c:114-114 | copying a word of up to 15 bytes into an empty slot stores it, zero padded, and touches no other slot |
| SharedMemory.EraseSlot | LinuxIPC/src/server.c:135-135 | zeroing the word's bytes empties the slot and touches no other |
| SharedMemory.HeldSetIsUnique | LinuxIPC/src/server.c:91-170 | the bytes stand for at most one set of words |
| WordSet.AddExactly | LinuxIPC/src/server.c:93-124 | adding inserts into the set if there is room (at most 15 bytes, and stored already, empty, or bucket not full); otherwise the bytes are no table any more |
| WordSet.RemoveExactly | LinuxIPC/src/server.c:125-149 | removing deletes the word and nothing else |
| WordSet.ClearExactly | LinuxIPC/src/server.c:158-160 | clearing leaves the empty set |
| WordSet.RunRefinesSet | LinuxIPC/src/server.c:78-177 | over every run of requests the bytes stay a table if and only if every word added has room, and then they stand for what the requests make of a set |
| WordSet.SixteenBytesBreakTheTable | LinuxIPC/src/server.c:114-114 | a word of sixteen bytes, which a packet holds, does not fit |
| HashTableServer.HashTable.Search | LinuxIPC/src/server.c:99-107 | the scan of a bucket finds the first slot with the word, or none |
| HashTableServer.HashTable.Add | LinuxIPC/src/server.c:93-115 | hash, scan, search for a free slot (in whichever bucket it is) and copy leave the bytes AddExactly is about |
| HashTableServer.HashTable.Remove | LinuxIPC/src/server.c:125-138 | hash, scan and erasure leave the bytes RemoveExactly is about |
| HashTableServer.HashTable.Clear | LinuxIPC/src/server.c:160-160 | every byte is zero |
| CStrings.CutExactly | FilesServerLinux/common.h:66-73 | what strncpy leaves as a string is the one prefix without a zero that a zero or the end follows |
| Wire.StringReadExactly | FilesServerLinux/common.h:66-73 | exactly which bytes at an offset are read as a string, in any packet, and where reading goes on |
| Wire.RecordsReadBack | FilesServerLinux/common.h:48-73 | records are read back as written, wherever they stand in a packet and whatever follows them |
| Listing.AtoiOfDecimal | FilesServerLinux/common.h:42-54 | reading a printed number gives it back, negative ones and the smallest included |
| Listing.DecimalExactly | FilesServerLinux/common.h:42-45 | a number is printed as the one text with digits after at most a minus sign and no leading zeros that is read as the number |
| Listing.DecimalIsShort | FilesServerLinux/common.h:42-45 | a printed int has 1 to 11 characters |
| Listing.RoundTrip | FilesServerLinux/client.c:104-118 | for every list of names of 1 to 127 bytes: the client recovers the server's list if and only if the answer leaves a byte of the packet free |
| Listing.ToIntExactly | FilesServerLinux/server.c:114-114 | the cast to int is the one 32-bit number that differs by a multiple of 2 to the 32 |
| Directory.FineExactly | FilesServerLinux/server.c:101-117 | the loop over the entries ends well if and only if every full name fits, every joined name is found, and the packet has room |
| Directory.NoFileExactly | FilesServerLinux/server.c:110-113 | the assertion on stat ends the server if and only if some joined name is not found before any buffer is left |
| Directory.ListedExactly | FilesServerLinux/server.c:91-124 | for every path, directory and file system: the client shows files if and only if the directory is listable, and then those the server listed |
| Directory.GoneExactly | FilesServerLinux/server.c:110-113 | the same exact condition for the server's end, seen from the client |
| Directory.HeldExactly | FilesServerLinux/server.c:109-115 | the client shows what the directory holds if and only if it is listable and every joined name has the size of the directory's own entry |
| Directory.SlashIsEnough | FilesServerLinux/server.c:110-110 | with a slash at the end of the path only the buffers can go wrong |
| Directory.NoSlashFails | FilesServerLinux/server.c:110-112 | without one, the directory's own entry is looked for under the path with a dot appended, and nothing is shown unless that exists |
| Directory.TmpEndsTheServer | FilesServerLinux/server.c:110-112 | a request for /tmp ends the server unless there is a file /tmp. |
| Directory.ManyNamesOverrun | FilesServerLinux/server.c:101-117 | a directory /d/ of forty names of 100 bytes, all found and with full names that fit, overruns the packet |
| Listing.PacketsDiffer | FilesServerLinux/server.c:94-123 | different listings have different packets |
| Directory.TrueSizesShown | FilesServerLinux/server.c:114-114 | the client shows the sizes stat found exactly when all fit a 32-bit int |
| FilesServer.StringConvert | FilesServerLinux/common.h:58-64 | writes length and characters in place and nothing else |
| FilesServer.WriteListing | FilesServerLinux/server.c:101-117 | the loop appends every entry and leaves the rest of the packet zero, or ends where and as the source does: behind a buffer, or by the assertion on stat |
| FilesServer.AddEntry | FilesServerLinux/server.c:102-115 | one entry: name, stat of path and name joined, size; written completely or ended as the source ends |
| FilesServer.AnswerLs | FilesServerLinux/server.c:82-123 | the whole packet of the answer (a refusal is the command, a 1 and zeros), or how the server ended |
| FilesServer.StringConvertReverse | FilesServerLinux/common.h:66-73 | reads one string and where the next one starts |
| FilesServer.CommandLs | FilesServerLinux/client.c:98-120 | an assertion ends the client when the answer does not repeat the command; otherwise the decoding loop terminates on every packet, shows exactly what it holds, and says when it would read outside |
| FilesServer.ListDirectory | FilesServerLinux/client.c:86-120 | server and client together, for every path, directory and file system: files are shown exactly when the directory is listable, and they are those listed; a refusal exactly when it cannot be opened; the client's assertion never fails |

## Left out

- TaskPackets.ReadTask: a negative or too large size word answers none; the source would read outside its buffer.
- MasterProcess.SendTask: what a program does after it has written behind the send buffer is not modelled; the run ends as `Overrun`.
- Manager.TasksManager.PutMergeTask: tasks are values, so object identity and the deletion of the two joined results are not modelled.
- MasterProcess.Master.Round: the branch that advances `current_slave` is shown unreachable, so the number of slaves does not appear.
- Checkpoint.FailoverIsInvisible: the mirror is taken to read the check point before the primary writes the next one to the same file; the source does not order the two after its barrier (`FaultTolerantService/src/manager.cpp:173-187` and `:417`).
- Checkpoint.CheckpointRecovers: the size of the fixed-size record depends on the build and is left open; words are four bytes, whatever the width of a pointer.
- MPI calls, spawning, ports, sleeps, quit messages and the comparison of the output with a file: only the values transferred and the alive/dead answers appear.
- Schedules in which workers die for ever: the main loop does not end then, and nothing is claimed.
- `Create` with its parameter check, `Destroy`, the `Enter` try-lock race and semaphore internals: each monitor operation is one atomic step.
- `ResetScritCit`, which resets three of the four counters and is called between runs.
- RaidDriver.Driver.MyRead: requests that are shorter than a sector or not at a sector boundary, and disks shorter than data and CRC area.
- RaidDriver.Driver.MyWrite: the same requests; a disk request succeeds or fails as a whole, torn sectors are not modelled.
- RaidDriver.Driver.Resolve: requests are served one at a time; the source does not protect its static CRC buffer and the buffers of the device against concurrent requests.
- NT driver loading, IRP completion and device naming.
- FirewallHooks.AcceptedExactly: UDP only; the TCP branch adds duplicate entries on repeated SYN packets and arms only the first on FIN. Failing allocations, wrap-around of jiffies, switching the filter off and the control interface's listing are not modelled.
- FirewallObject.Firewall.Tick: a timer fires at the tick it is armed for; lateness of the timer wheel and locking are not modelled.
- FirewallObject.Firewall.DelRule: the comparison of memory blocks is modelled as identity of the list element, since the first compared word is the element's own rule pointer and no two elements share one.
- Semaphores, the message queue, the print and exit requests and the client of `LinuxIPC`.
- Listing.RoundTrip: names of 1 to 127 bytes; `Directory.ListedExactly` covers names of any length.
- FilesServer.AnswerLs: what the server does after it has left a buffer is not modelled; the files do not change during a request (one that disappears between readdir and stat counts as not found).
- FilesServer.CommandLs: a packet sent whole is received whole by one call; the socket wrappers do not wait for the rest of a short read.
- The READ and WRITE commands of `FilesServerLinux`, whose reverse macro encodes numbers instead of decoding them.
- Other directories of the repository: transfer code, generated parsers, drivers and swap simulation whose central properties are short or do not hold as written.
