/** The worker, and the master that drives the workers through the fault-tolerant sort. */
module MasterProcess {
  import opened Options
  import opened Sorting
  import opened Tasks
  import opened TaskPackets
  import opened TaskFarm
  import FarmRuns
  import Checkpoint
  import Takeover
  import opened Manager

  /** send_task through the static buffer of its process. None where the packet is longer than the buffer:
      the source does not look and writes on behind it, and nothing is claimed about a program that has. */
  method SendTask(t: Task, taskBuffer: array<int>) returns (packet: Option<seq<int>>)
    requires taskBuffer.Length == MAX_PACKET_SIZE
    modifies taskBuffer
    ensures packet == if FarmRuns.Fits(t) then Some(Packet(t)) else None
  {
    PacketSize(t);
    var words := if t.Sort? then |t.data| + 2 else |t.data1| + |t.data2| + 3;
    if words > taskBuffer.Length {
      return None;
    }
    var size := WriteTask(t, taskBuffer);
    assert taskBuffer[..size] == Packet(t);
    packet := Some(taskBuffer[..size]);
  }

  /** receive_task: the packet is copied into the static buffer over whatever an earlier one left there. */
  method ReceiveTask(packet: seq<int>, ghost t: Task, taskBuffer: array<int>) returns (task: Task)
    requires taskBuffer.Length == MAX_PACKET_SIZE && packet == Packet(t) && FarmRuns.Fits(t)
    modifies taskBuffer
    ensures task == t.(status := TASK_NOT_SOLVED)
  {
    Copy(packet, taskBuffer, 0);
    ghost var rest := taskBuffer[|packet|..];
    assert taskBuffer[..] == Packet(t) + rest;
    ParsePacket(t, rest);
    var read := ReadTask(taskBuffer);
    task := read.value;
  }

  /** One turn of a worker: any task comes back as a sort task that holds its result. */
  method Work(packet: seq<int>, ghost t: Task) returns (reply: seq<int>)
    requires packet == Packet(t) && FarmRuns.Fits(t)
    ensures reply == Packet(Sort(Result(t), TASK_NOT_SOLVED)) && |reply| <= MAX_PACKET_SIZE
  {
    var taskBuffer := new int[MAX_PACKET_SIZE];
    var task := ReceiveTask(packet, t, taskBuffer);
    var result := Compute(task);
    FarmRuns.ReplyFits(t);
    var sent := SendTask(Sort(result, TASK_NOT_SOLVED), taskBuffer);
    reply := sent.value;
  }

  method Compute(t: Task) returns (result: seq<int>)
    ensures result == Result(t)
  {
    match t
    case Sort(data, _) =>
      var task := new SortTask(data);
      task.ComputeResult();
      result := task.data[..];
    case Merge(data1, data2, _) =>
      var task := new MergeTask(data1, data2);
      task.ComputeResult();
      result := task.data[..];
  }

  /** What a worker sends back for a packet it can parse is, read by the master, the task's result. */
  lemma WorkOnPacket(t: Task)
    ensures Parse(Packet(t)).Some?
    ensures Result(Parse(Packet(t)).value) == Result(t)
    ensures Parse(Packet(Sort(Result(t), TASK_NOT_SOLVED))) == Some(Sort(Result(t), TASK_NOT_SOLVED))
  {
    ParsePacket(t, []);
    assert Packet(t) + [] == Packet(t);
    var r := Sort(Result(t), TASK_NOT_SOLVED);
    ParsePacket(r, []);
    assert Packet(r) + [] == Packet(r);
  }

  /** No packet of a run is larger than the numbers the master holds and three words more. */
  lemma PacketsFit(f: Farm, i: nat)
    requires Invariant(f) && i < MAX_CHILDREN_NUMBER && f.sent[i]
    ensures |Packet(f.slots[i].value)| <= |AllNumbers(f)| + 3
    ensures |Packet(Sort(Result(f.slots[i].value), TASK_NOT_SOLVED))| <= |AllNumbers(f)| + 2
  {
    var t := f.slots[i].value;
    SlotClear(f.slots, i);
    PacketSize(t);
    ResultCorrect(t);
  }

  class Master {
    const manager: TasksManager
    const taskSent: array<bool>
    const wire: array<seq<int>>
    const taskBuffer: array<int>
    var ntasksInQueue: int
    var ntasksToReceive: int
    var currentSlave: int
    var checkPointFile: seq<int>
    /** The state the check point file was last written in, for the specification only */
    ghost var saved: Farm
    var answers: seq<bool>
    var results: nat

    /** answers: what is_process_alive will say, in order */
    constructor (answers: seq<bool>)
      ensures Valid() && fresh(Repr())
      ensures View() == Checkpoint.Restarted([])
      ensures this.answers == answers && results == 0
    {
      manager := new TasksManager();
      taskSent := new bool[MAX_CHILDREN_NUMBER](_ => false);
      wire := new seq<int>[MAX_CHILDREN_NUMBER](_ => []);
      taskBuffer := new int[MAX_PACKET_SIZE];
      ntasksInQueue, ntasksToReceive, currentSlave := 0, 0, 0;
      checkPointFile, results := [], 0;
      saved := Checkpoint.Restarted([]);
      this.answers := answers;
      new;
      assert taskSent[..] == [false, false, false, false];
    }

    ghost function Repr(): set<object> {
      {this, manager, manager.bufferedTasks, taskSent, wire, taskBuffer}
    }

    ghost function View(): Farm
      reads this, manager, manager.bufferedTasks, taskSent
    {
      Farm(manager.tasks, manager.bufferedTasks[..], manager.mergeTask1,
           taskSent[..], ntasksInQueue, ntasksToReceive)
    }

    /** A busy slave has been sent the very task its slot holds. */
    ghost predicate Valid()
      reads this, manager, manager.bufferedTasks, taskSent, wire
    {
      && manager.bufferedTasks.Length == taskSent.Length == wire.Length == MAX_CHILDREN_NUMBER
      && taskBuffer.Length == MAX_PACKET_SIZE
      && (forall i :: 0 <= i < MAX_CHILDREN_NUMBER && taskSent[i] ==>
            && manager.bufferedTasks[i].Some? && wire[i] == Packet(manager.bufferedTasks[i].value)
            && |wire[i]| <= MAX_PACKET_SIZE)
      && (manager.mergeTask1.Some? ==> manager.mergeTask1.value.Sort?)
    }

    method CheckPoint()
      modifies this`checkPointFile, this`saved
      ensures saved == old(View()) && checkPointFile == Checkpoint.Serialize(saved)
    {
      checkPointFile := manager.Save();
      saved := View();
    }

    /** False when the packet does not fit the buffer */
    method GiveTask(slave: nat) returns (sent: bool)
      requires Valid() && slave < MAX_CHILDREN_NUMBER && manager.tasks != [] && !taskSent[slave]
      modifies this`ntasksToReceive, manager, manager.bufferedTasks, taskSent, wire, taskBuffer
      ensures sent == FarmRuns.Fits(old(manager.tasks[0]))
      ensures sent ==> Valid() && View() == Dispatch(old(View()), slave)
    {
      var task := manager.RemoveTaskFor(slave);
      ntasksToReceive := ntasksToReceive + 1;
      var packet := SendTask(task.value, taskBuffer);
      if packet.None? {
        return false;
      }
      wire[slave] := packet.value;
      taskSent[slave] := true;
      return true;
    }

    method TakeBack(slave: nat)
      requires Valid() && slave < MAX_CHILDREN_NUMBER && taskSent[slave]
      modifies this`ntasksToReceive, manager, manager.bufferedTasks, taskSent
      ensures Valid() && View() == Fail(old(View()), slave)
    {
      manager.SetTaskFailed(slave);
      taskSent[slave] := false;
      ntasksToReceive := ntasksToReceive - 1;
    }

    /** The reply of a live worker to the task it was sent */
    method Receive(slave: nat) returns (result: Task)
      requires Valid() && slave < MAX_CHILDREN_NUMBER && taskSent[slave]
      modifies taskBuffer
      ensures result == Sort(Result(manager.bufferedTasks[slave].value), TASK_NOT_SOLVED)
    {
      ghost var t := manager.bufferedTasks[slave].value;
      var reply := Work(wire[slave], t);
      result := ReceiveTask(reply, Sort(Result(t), TASK_NOT_SOLVED), taskBuffer);
    }

    method TakeResult(slave: nat)
      requires Valid() && slave < MAX_CHILDREN_NUMBER && taskSent[slave]
      modifies this`ntasksToReceive, this`ntasksInQueue, this`results, manager, manager.bufferedTasks, taskSent, taskBuffer
      ensures Valid() && View() == Succeed(old(View()), slave)
      ensures results == old(results) + 1
    {
      var result := Receive(slave);
      ntasksToReceive := ntasksToReceive - 1;
      taskSent[slave] := false;
      manager.SetTaskSucceeded(slave);
      ntasksInQueue := ntasksInQueue - 1;
      var queued := manager.PutMergeTask(result);
      if queued {
        ntasksInQueue := ntasksInQueue + 1;
      }
      results := results + 1;
    }

    method IsProcessAlive() returns (alive: bool)
      modifies this`answers
      ensures alive == FarmRuns.Alive(old(answers)) && answers == FarmRuns.Later(old(answers))
    {
      alive := answers == [] || answers[0];
      answers := if answers == [] then [] else answers[1..];
    }

    /** The visit to one slave; true when its result ends the visit */
    method Visit(slave: nat) returns (ended: bool)
      requires Valid() && slave < MAX_CHILDREN_NUMBER
      modifies this`ntasksToReceive, this`ntasksInQueue, this`results, this`answers,
               manager, manager.bufferedTasks, taskSent, taskBuffer
      ensures Valid() && results == if ended then old(results) + 1 else old(results)
      ensures FarmRuns.CheckRecv(old(View()), old(answers), slave) ==
              if ended then FarmRuns.Outcome(View(), answers, 1) else FarmRuns.CheckRecv(View(), answers, slave + 1)
    {
      ended := false;
      if taskSent[slave] {
        var alive := IsProcessAlive();
        if alive {
          TakeResult(slave);
          ended := true;
        } else {
          TakeBack(slave);
        }
      }
    }

    method CheckRecvFromSlaves()
      requires Valid()
      modifies this`ntasksToReceive, this`ntasksInQueue, this`results, this`answers,
               manager, manager.bufferedTasks, taskSent, taskBuffer
      ensures Valid() && results >= old(results)
      ensures FarmRuns.Outcome(View(), answers, results - old(results)) ==
              FarmRuns.CheckRecv(old(View()), old(answers), 0)
    {
      ghost var expected := FarmRuns.CheckRecv(View(), answers, 0);
      var it := 0;
      while it < MAX_CHILDREN_NUMBER
        invariant Valid() && 0 <= it <= MAX_CHILDREN_NUMBER && results == old(results)
        invariant FarmRuns.CheckRecv(View(), answers, it) == expected
      {
        var ended := Visit(it);
        if ended {
          return;
        }
        it := it + 1;
      }
    }

    /** One round of the main loop: a check point, a task for the current slave, a visit to the slaves.
        The source looks for another slave when the current one is busy; no run gets there, so slave 0
        does all the work. */
    method Round() returns (sent: bool)
      requires Valid() && Invariant(View()) && Idle(View()) && ntasksInQueue > 1 && currentSlave == 0
      modifies Repr()
      ensures old(manager.tasks) != [] && sent == FarmRuns.Fits(old(manager.tasks[0]))
      ensures saved == old(View()) && checkPointFile == Checkpoint.Serialize(saved)
      ensures sent ==>
                && Valid() && results >= old(results) && currentSlave == 0
                && FarmRuns.Outcome(View(), answers, results - old(results)) ==
                   FarmRuns.CheckRecv(Dispatch(old(View()), 0), old(answers), 0)
    {
      FarmRuns.IdleCounts(View());
      CheckPoint();
      if !taskSent[currentSlave] {
        sent := GiveTask(currentSlave);
      } else {
        assert false;
      }
      if sent {
        CheckRecvFromSlaves();
      }
    }

    ghost predicate NothingBuffered()
      reads manager, manager.bufferedTasks
    {
      forall i :: 0 <= i < manager.bufferedTasks.Length ==> manager.bufferedTasks[i].None?
    }

    /** The state main_loop sets up for itself before the first round */
    ghost function Start(): Farm
      reads this, manager, manager.bufferedTasks, taskSent
    {
      View().(inQueue := |manager.tasks|, toReceive := 0)
    }

    lemma StartKeeps()
      requires Valid() && NothingBuffered() && TasksReady(View())
      ensures Invariant(Start()) && Idle(Start())
    {
      BusyNone(taskSent[..]);
    }

    /** A round, seen from the end the loop will come to */
    method RoundOf(ghost done: int, ghost expected: FarmRuns.Outcome, ghost fits: bool) returns (sent: bool)
      requires Valid() && Invariant(View()) && Idle(View()) && ntasksInQueue > 1 && currentSlave == 0
      requires FarmRuns.Expects(View(), answers, done, expected, fits)
      modifies Repr()
      ensures !sent ==> !fits
      ensures sent ==>
                && Valid() && Invariant(View()) && Idle(View()) && results >= old(results) && currentSlave == 0
                && FarmRuns.Expects(View(), answers, done + (results - old(results)), expected, fits)
                && (Measure(View()) < Measure(old(View())) ||
                    (Measure(View()) == Measure(old(View())) && |answers| < |old(answers)|))
      ensures sent ==>
                && Takeover.HeadBefore(AllNumbers(expected.farm), saved, View())
                && checkPointFile == Checkpoint.Serialize(saved)
    {
      Takeover.RoundLeadsOn(View(), answers, done, expected, fits);
      sent := Round();
    }

    /** The loop itself; false when a packet did not fit */
    method Rounds(ghost tasks: int, ghost done: nat, ghost expected: FarmRuns.Outcome, ghost fits: bool)
      returns (all: bool)
      requires Valid() && currentSlave == 0 && ntasksInQueue == tasks && results == done
      requires Invariant(View()) && Idle(View()) && FarmRuns.Expects(View(), answers, 0, expected, fits)
      modifies Repr()
      ensures all == fits
      ensures fits ==>
                Valid() && results >= done && FarmRuns.Outcome(View(), answers, results - done) == expected
      ensures fits && tasks > 1 ==>
                && Takeover.HeadBefore(AllNumbers(expected.farm), saved, View())
                && checkPointFile == Checkpoint.Serialize(saved)
    {
      while ntasksInQueue + ntasksToReceive > 0
        invariant Valid() && currentSlave == 0 && Invariant(View()) && Idle(View()) && results >= done
        invariant FarmRuns.Expects(View(), answers, results - done, expected, fits)
        invariant ntasksInQueue == tasks ||
                  (Takeover.HeadBefore(AllNumbers(expected.farm), saved, View()) &&
                   checkPointFile == Checkpoint.Serialize(saved))
        decreases Measure(View()), |answers|
      {
        FarmRuns.IdleCounts(View());
        if ntasksInQueue > 1 {
          var sent := RoundOf(results - done, expected, fits);
          if !sent {
            return false;
          }
        } else if ntasksInQueue == 1 && ntasksToReceive == 0 {
          break;
        } else {
          assert false;
        }
      }
      FarmRuns.IdleCounts(View());
      FarmRuns.MainLoopStops(View(), answers);
      return true;
    }

    /** The counters main_loop starts with */
    method SetUp()
      requires Valid() && NothingBuffered() && TasksReady(View())
      modifies this`ntasksInQueue, this`ntasksToReceive, this`currentSlave
      ensures Valid() && View() == old(Start()) && Invariant(View()) && Idle(View())
      ensures ntasksInQueue == |manager.tasks| && currentSlave == 0
    {
      StartKeeps();
      ntasksInQueue, ntasksToReceive, currentSlave := |manager.tasks|, 0, 0;
    }

    /** True when every packet fitted the buffer */
    method MainLoop() returns (fits: bool)
      requires Valid() && NothingBuffered() && TasksReady(View())
      modifies Repr()
      ensures Invariant(old(Start())) && Idle(old(Start()))
      ensures fits == FarmRuns.RunFits(old(Start()), old(answers))
      ensures fits ==>
                && Valid() && results >= old(results)
                && FarmRuns.Outcome(View(), answers, results - old(results)) ==
                   FarmRuns.MainLoop(old(Start()), old(answers))
      ensures fits && |old(manager.tasks)| > 1 && FarmRuns.Fresh(old(Start())) ==>
                Takeover.HoldsLastPair(old(Start()), checkPointFile)
    {
      SetUp();
      ghost var end, allFit := FarmRuns.MainLoop(View(), answers), FarmRuns.RunFits(View(), answers);
      Takeover.StartExpects(View(), answers, end, allFit);
      ghost var start, schedule := View(), answers;
      fits := Rounds(|manager.tasks|, results, end, allFit);
      if fits && start.inQueue > 1 && FarmRuns.Fresh(start) {
        Takeover.LoopLeaves(start, schedule, saved);
      }
    }

    /** finish_solving; None where the source would use the null task of an empty queue */
    method FinishSolving() returns (output: Option<seq<int>>)
      requires Valid()
      modifies manager
      ensures output == FarmRuns.Finish(old(View()))
    {
      var task := manager.RemoveTask();
      if task.None? {
        return None;
      }
      var result := Compute(task.value);
      if manager.mergeTask1.Some? {
        result := Compute(Merge(result, manager.mergeTask1.value.data, TASK_NOT_SOLVED));
      }
      return Some(result);
    }

    /** master_server */
    method Solve() returns (ending: FarmRuns.Ending)
      requires Valid() && NothingBuffered() && FarmRuns.Fresh(Start())
      modifies Repr()
      ensures FarmRuns.Fresh(old(Start()))
      ensures ending == FarmRuns.Output(old(Start()), old(answers))
      ensures !ending.Overrun? ==>
                results == old(results) + FarmRuns.MainLoop(old(Start()), old(answers)).successes
      ensures ending.Done? && |old(manager.tasks)| > 1 ==>
                Takeover.HoldsLastPair(old(Start()), checkPointFile)
    {
      var fits := MainLoop();
      if !fits {
        return FarmRuns.Overrun;
      }
      var output := FinishSolving();
      return if output.None? then FarmRuns.NoTask else FarmRuns.Done(output.value);
    }
  }
}
