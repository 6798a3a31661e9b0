/** The whole service: partition, queueing, the fault-tolerant loop, and the takeover by the mirror. */
module SortService {
  import opened Options
  import opened Sorting
  import opened Tasks
  import opened TaskPackets
  import opened TaskFarm
  import opened FarmRuns
  import opened PacketLoad
  import opened Checkpoint
  import opened Manager
  import opened Partition
  import opened MasterProcess

  /** get_optim_buffer_size */
  const OPTIM_SIZE: nat := 3 * 1024

  function SortTasks(chunks: seq<seq<int>>): seq<Task> {
    seq(|chunks|, i requires 0 <= i < |chunks| => Sort(chunks[i], TASK_NOT_SOLVED))
  }

  /** The queue the processes build together */
  function InitialQueue(file: seq<int>, p: nat): seq<Task>
    requires p >= 1
  {
    SortTasks(AllChunks(file, p, OPTIM_SIZE, p))
  }

  lemma {:induction false} SortTasksNumbers(chunks: seq<seq<int>>)
    ensures QueueNumbers(SortTasks(chunks)) == multiset(Flatten(chunks))
  {
    if chunks != [] {
      SortTasksNumbers(chunks[1..]);
      assert SortTasks(chunks)[1..] == SortTasks(chunks[1..]);
    }
  }

  /** The initial queue holds every number of the file, and a master that starts on it is sound. */
  lemma InitialQueueHoldsFile(file: seq<int>, p: nat)
    requires p >= 1
    ensures QueueNumbers(InitialQueue(file, p)) == multiset(file)
    ensures file == [] <==> InitialQueue(file, p) == []
    ensures Fresh(Restarted(InitialQueue(file, p)))
  {
    var chunks := AllChunks(file, p, OPTIM_SIZE, p);
    PartitionExact(file, p, OPTIM_SIZE);
    SortTasksNumbers(chunks);
    BusyNone(Restarted(SortTasks(chunks)).sent);
  }

  /** Rank 0 queues its own tasks directly; those of the other ranks arrive as packets. */
  method Collect(manager: TasksManager, file: seq<int>, p: nat)
    requires p >= 1 && manager.tasks == []
    modifies manager`tasks
    ensures manager.tasks == InitialQueue(file, p)
  {
    ghost var done: seq<seq<int>> := [];
    for rank := 0 to p
      invariant done == AllChunks(file, p, OPTIM_SIZE, rank)
      invariant manager.tasks == SortTasks(done)
    {
      var share := CutShare(Share(file, p, rank), OPTIM_SIZE);
      ChunksExact(Share(file, p, rank), OPTIM_SIZE);
      QueueShare(manager, share, rank == 0, done);
      done := done + share;
    }
  }

  /** A task sent to the master arrives unchanged. */
  method Transfer(t: Task, sendBuffer: array<int>, receiveBuffer: array<int>) returns (received: Task)
    requires t.status == TASK_NOT_SOLVED && Fits(t)
    requires sendBuffer.Length == receiveBuffer.Length == MAX_PACKET_SIZE
    modifies sendBuffer, receiveBuffer
    ensures received == t
  {
    var packet := SendTask(t, sendBuffer);
    received := ReceiveTask(packet.value, t, receiveBuffer);
  }

  lemma SortTasksAppend(chunks: seq<seq<int>>, chunk: seq<int>)
    ensures SortTasks(chunks + [chunk]) == SortTasks(chunks) + [Sort(chunk, TASK_NOT_SOLVED)]
  {
  }

  method QueueShare(manager: TasksManager, share: seq<seq<int>>, local: bool, ghost done: seq<seq<int>>)
    requires manager.tasks == SortTasks(done) && WellSized(share, OPTIM_SIZE)
    modifies manager`tasks
    ensures manager.tasks == SortTasks(done + share)
  {
    var sendBuffer, receiveBuffer := new int[MAX_PACKET_SIZE], new int[MAX_PACKET_SIZE];
    assert done + share[..0] == done;
    for i := 0 to |share|
      invariant manager.tasks == SortTasks(done + share[..i])
    {
      var task := Sort(share[i], TASK_NOT_SOLVED);
      if !local {
        task := Transfer(task, sendBuffer, receiveBuffer);
      }
      manager.PutTask(task);
      assert done + share[..i + 1] == done + share[..i] + [share[i]];
      SortTasksAppend(done + share[..i], share[i]);
    }
    assert share[..|share|] == share;
  }

  // ------------------------------------------------ which files fit the send buffer

  /** The sizes of the initial tasks */
  function Pieces(file: seq<int>, p: nat): seq<Item>
    requires p >= 1
  {
    Items(InitialQueue(file, p))
  }

  /** At most two pieces, or everything but the smallest fits one merge packet */
  predicate WithinBuffer(file: seq<int>, p: nat)
    requires p >= 1
  {
    var pieces := Pieces(file, p);
    |pieces| <= 2 || |file| - pieces[Smallest(pieces)].size + 3 <= MAX_PACKET_SIZE
  }

  lemma {:induction false} PiecesSum(chunks: seq<seq<int>>)
    ensures Sum(Items(SortTasks(chunks))) == |Flatten(chunks)|
  {
    if chunks != [] {
      PiecesSum(chunks[1..]);
      assert Items(SortTasks(chunks))[1..] == Items(SortTasks(chunks[1..]));
    }
  }

  lemma PieceAt(file: seq<int>, p: nat, i: nat)
    requires p >= 1 && i < |AllChunks(file, p, OPTIM_SIZE, p)|
    ensures |Pieces(file, p)| == |AllChunks(file, p, OPTIM_SIZE, p)|
    ensures Pieces(file, p)[i] == Item(|AllChunks(file, p, OPTIM_SIZE, p)[i]|, false)
  {}

  lemma PiecesOfFile(file: seq<int>, p: nat)
    requires p >= 1
    ensures Sum(Pieces(file, p)) == |file|
    ensures forall i :: 0 <= i < |Pieces(file, p)| ==>
              1 <= Pieces(file, p)[i].size <= OPTIM_SIZE && !Pieces(file, p)[i].merged
  {
    var chunks := AllChunks(file, p, OPTIM_SIZE, p);
    PartitionExact(file, p, OPTIM_SIZE);
    PiecesSum(chunks);
    forall i | 0 <= i < |chunks| ensures Pieces(file, p)[i] == Item(|chunks[i]|, false) {
      PieceAt(file, p, i);
    }
  }

  /** No schedule of failures overruns a send buffer if and only if the file has at most two pieces, or fits
      one merge packet without its smallest piece. */
  lemma BufferSufficesExactly(file: seq<int>, p: nat)
    requires p >= 1
    ensures Fresh(Restarted(InitialQueue(file, p)))
    ensures RunsAlwaysFit(Restarted(InitialQueue(file, p))) <==> WithinBuffer(file, p)
  {
    InitialQueueHoldsFile(file, p);
    PiecesOfFile(file, p);
    RunsFitExactly(Restarted(InitialQueue(file, p)));
  }

  /** Every file of at most 16382 numbers is within the bound, whatever the number of processes. */
  lemma SmallFilesFit(file: seq<int>, p: nat)
    requires p >= 1 && |file| <= MAX_PACKET_SIZE - 2
    ensures WithinBuffer(file, p)
  {
    PiecesOfFile(file, p);
  }

  // ------------------------------------------------ the whole program

  /** The primary master: it writes a check point before its loop, then solves. */
  method Primary(file: seq<int>, p: nat, answers: seq<bool>)
    returns (checkPoint: seq<int>, ending: Ending, results: nat)
    requires p >= 1
    ensures Fresh(Restarted(InitialQueue(file, p)))
    ensures checkPoint == Serialize(Restarted(InitialQueue(file, p)))
    ensures ending == Output(Restarted(InitialQueue(file, p)), answers)
    ensures !ending.Overrun? ==> results == FarmRuns.MainLoop(Restarted(InitialQueue(file, p)), answers).successes
  {
    InitialQueueHoldsFile(file, p);
    var master := new Master(answers);
    Collect(master.manager, file, p);
    assert master.Start() == Restarted(InitialQueue(file, p));
    checkPoint := master.manager.Save();
    ending := master.Solve();
    results := master.results;
  }

  /** The mirror: it reads a check point that holds a queue and nothing else and, when the primary is gone, runs the same loop. */
  method Mirror(checkPoint: seq<int>, answers: seq<bool>) returns (ending: Ending)
    requires Deserialize(checkPoint).Some?
    requires Recovers(Deserialize(checkPoint).value, Deserialize(checkPoint).value.queue)
    requires Fresh(Restarted(Deserialize(checkPoint).value.queue))
    ensures ending == Output(Restarted(Deserialize(checkPoint).value.queue), answers)
  {
    var master := new Master(answers);
    master.manager.tasks := Deserialize(checkPoint).value.queue;
    assert master.Start() == Restarted(Deserialize(checkPoint).value.queue);
    ending := master.Solve();
  }

  /** The program run by p processes on a file, for any failures of the workers. It outputs the file's numbers
      in order, after a number of worker results that the failures cannot change, unless a packet overruns the
      send buffer; and that happens under some failures exactly when the file is beyond the bound. */
  method Serve(file: seq<int>, p: nat, answers: seq<bool>) returns (ending: Ending, results: nat)
    requires p >= 1
    ensures Fresh(Restarted(InitialQueue(file, p)))
    ensures ending.Overrun? <==> !RunFits(Restarted(InitialQueue(file, p)), answers)
    ensures WithinBuffer(file, p) ==> !ending.Overrun?
    ensures ending.NoTask? <==> file == []
    ensures ending.Done? ==> Sorted(ending.numbers) && multiset(ending.numbers) == multiset(file)
    ensures !ending.Overrun? ==>
              var n := |AllChunks(file, p, OPTIM_SIZE, p)|; results == if n <= 1 then 0 else 2 * n - 3
  {
    InitialQueueHoldsFile(file, p);
    BufferSufficesExactly(file, p);
    SortedWhateverFails(Restarted(InitialQueue(file, p)), answers);
    var checkPoint;
    checkPoint, ending, results := Primary(file, p, answers);
  }

  /** A mirror that takes over from the check point written before the loop outputs what the primary
      outputs, each under its own failures, when the file is within the bound. */
  method ServeWithMirror(file: seq<int>, p: nat, answers: seq<bool>, mirrorAnswers: seq<bool>)
    returns (primary: Ending, mirror: Ending)
    requires p >= 1 && file != []
    ensures WithinBuffer(file, p) ==> primary.Done? && mirror == primary
    ensures primary.Done? && mirror.Done? ==> mirror == primary
  {
    InitialQueueHoldsFile(file, p);
    BufferSufficesExactly(file, p);
    SortedWhateverFails(Restarted(InitialQueue(file, p)), answers);
    FailoverIsInvisible(Restarted(InitialQueue(file, p)), answers, mirrorAnswers);
    var checkPoint, results;
    checkPoint, primary, results := Primary(file, p, answers);
    mirror := Mirror(checkPoint, mirrorAnswers);
  }
}
