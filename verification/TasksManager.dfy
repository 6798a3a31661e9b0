/** The manager object: the task queue, the task each slave holds, and the result that waits. */
module Manager {
  import opened Options
  import opened Tasks
  import opened TaskPackets
  import opened TaskFarm
  import opened Checkpoint

  class TasksManager {
    var tasks: seq<Task>
    var mergeTask1: Option<Task>
    const bufferedTasks: array<Option<Task>>

    constructor ()
      ensures tasks == [] && mergeTask1 == None
      ensures fresh(bufferedTasks) && bufferedTasks[..] == [None, None, None, None]
    {
      tasks, mergeTask1 := [], None;
      bufferedTasks := new Option<Task>[MAX_CHILDREN_NUMBER](_ => None);
    }

    method PutTask(t: Task)
      modifies this`tasks
      ensures tasks == old(tasks) + [t.(status := TASK_NOT_SOLVED)]
    {
      tasks := tasks + [t.(status := TASK_NOT_SOLVED)];
    }

    /** True when the result found its partner and a merge task was queued */
    method PutMergeTask(t: Task) returns (queued: bool)
      requires t.Sort? && (mergeTask1.Some? ==> mergeTask1.value.Sort?)
      modifies this`tasks, this`mergeTask1
      ensures queued == old(mergeTask1.Some?)
      ensures !queued ==> tasks == old(tasks) && mergeTask1 == Some(t)
      ensures queued ==>
                && tasks == old(tasks) + [Merge(old(mergeTask1.value.data), t.data, TASK_NOT_SOLVED)]
                && mergeTask1 == None
    {
      if mergeTask1.None? {
        mergeTask1 := Some(t);
        return false;
      }
      var task := Merge(mergeTask1.value.data, t.data, TASK_NOT_SOLVED);
      tasks := tasks + [task];
      mergeTask1 := None;
      return true;
    }

    method RemoveTask() returns (t: Option<Task>)
      modifies this`tasks
      ensures old(tasks) == [] ==> t == None && tasks == []
      ensures old(tasks) != [] ==>
                t == Some(old(tasks)[0].(status := TASK_IN_PROGRESS)) && tasks == old(tasks)[1..]
    {
      if |tasks| <= 0 {
        return None;
      }
      t := Some(tasks[0].(status := TASK_IN_PROGRESS));
      tasks := tasks[1..];
    }

    method RemoveTaskFor(slave: nat) returns (t: Option<Task>)
      requires slave < bufferedTasks.Length
      modifies this`tasks, bufferedTasks
      ensures old(tasks) == [] ==> t == None && tasks == []
      ensures old(tasks) != [] ==>
                t == Some(old(tasks)[0].(status := TASK_IN_PROGRESS)) && tasks == old(tasks)[1..]
      ensures bufferedTasks[..] == old(bufferedTasks[..])[slave := t]
    {
      t := RemoveTask();
      bufferedTasks[slave] := t;
    }

    method SetTaskFailed(slave: nat)
      requires slave < bufferedTasks.Length
      modifies this`tasks, bufferedTasks
      ensures tasks == match old(bufferedTasks[slave])
                       case None => old(tasks)
                       case Some(t) => old(tasks) + [t.(status := TASK_NOT_SOLVED)]
      ensures bufferedTasks[..] == old(bufferedTasks[..])[slave := None]
    {
      if bufferedTasks[slave].Some? {
        PutTask(bufferedTasks[slave].value);
      }
      bufferedTasks[slave] := None;
    }

    method SetTaskSucceeded(slave: nat)
      requires slave < bufferedTasks.Length
      modifies bufferedTasks
      ensures bufferedTasks[..] == old(bufferedTasks[..])[slave := None]
    {
      bufferedTasks[slave] := None;
    }

    /** Writes the check point file. */
    method Save() returns (file: seq<int>)
      ensures file == [|tasks|] + QueueWords(tasks) + SlotsWords(bufferedTasks[..]) + SlotWords(mergeTask1)
    {
      var queue := SaveQueue();
      var slots := SaveSlots();
      return [|tasks|] + queue + slots + SlotWords(mergeTask1);
    }

    method SaveQueue() returns (file: seq<int>)
      ensures file == QueueWords(tasks)
    {
      file := [];
      for i := 0 to |tasks|
        invariant file == QueueWords(tasks[..i])
      {
        QueueWordsNext(tasks, i);
        Assoc(file, [if tasks[i].Sort? then SORT_TASK else MERGE_TASK], TaskWords(tasks[i]));
        file := file + [if tasks[i].Sort? then SORT_TASK else MERGE_TASK];
        file := file + TaskWords(tasks[i]);
      }
      assert tasks[..|tasks|] == tasks;
    }

    method SaveSlots() returns (file: seq<int>)
      ensures file == SlotsWords(bufferedTasks[..])
    {
      file := [];
      for i := 0 to bufferedTasks.Length
        invariant file == SlotsWords(bufferedTasks[..i])
      {
        SlotsWordsNext(bufferedTasks[..], i);
        file := file + (if bufferedTasks[i].Some? then TaskWords(bufferedTasks[i].value) else EmptyTask());
      }
      assert bufferedTasks[..bufferedTasks.Length] == bufferedTasks[..];
    }
  }

  lemma {:induction false} QueueWordsAppend(queue: seq<Task>, t: Task)
    ensures QueueWords(queue + [t]) == QueueWords(queue) + EntryWords(t)
  {
    if queue == [] {
      assert queue + [t] == [t] && [t][1..] == [];
    } else {
      QueueWordsAppend(queue[1..], t);
      assert (queue + [t])[0] == queue[0] && (queue + [t])[1..] == queue[1..] + [t];
      Assoc(EntryWords(queue[0]), QueueWords(queue[1..]), EntryWords(t));
    }
  }

  lemma {:induction false} SlotsWordsAppend(slots: seq<Option<Task>>, slot: Option<Task>)
    ensures SlotsWords(slots + [slot]) == SlotsWords(slots) + SlotWords(slot)
  {
    if slots == [] {
      assert slots + [slot] == [slot] && [slot][1..] == [];
    } else {
      SlotsWordsAppend(slots[1..], slot);
      assert (slots + [slot])[0] == slots[0] && (slots + [slot])[1..] == slots[1..] + [slot];
      Assoc(SlotWords(slots[0]), SlotsWords(slots[1..]), SlotWords(slot));
    }
  }

  lemma QueueWordsNext(queue: seq<Task>, i: nat)
    requires i < |queue|
    ensures QueueWords(queue[..i + 1]) == QueueWords(queue[..i]) + EntryWords(queue[i])
  {
    assert queue[..i + 1] == queue[..i] + [queue[i]];
    QueueWordsAppend(queue[..i], queue[i]);
  }

  lemma SlotsWordsNext(slots: seq<Option<Task>>, i: nat)
    requires i < |slots|
    ensures SlotsWords(slots[..i + 1]) == SlotsWords(slots[..i]) + SlotWords(slots[i])
  {
    assert slots[..i + 1] == slots[..i] + [slots[i]];
    SlotsWordsAppend(slots[..i], slots[i]);
  }
}
