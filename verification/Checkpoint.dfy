/** The check point file, as a sequence of 4-byte words, and the state the mirror master reads back. */
module Checkpoint {
  import opened Options
  import opened Tasks
  import opened TaskPackets
  import opened TaskFarm
  import opened FarmRuns

  type Positive = x: int | x > 0 witness 1

  /** sizeof(MergeTask) in words, which depends on the build: the object holds a vtable pointer, status,
      data, size, two halves and their sizes */
  const MERGE_TASK_WORDS: Positive

  /** A zeroed object */
  function EmptyTask(): seq<int> {
    seq(MERGE_TASK_WORDS, _ => 0)
  }

  /** A slot as the mirror finds it: a null pointer, or an object made of raw words of the file
      (fewer than a whole object when the file ends first). */
  datatype SlotImage = Null | Raw(words: seq<int>)

  datatype Image = Image(queue: seq<Task>, slots: seq<SlotImage>, pending: SlotImage)

  // ------------------------------------------------ writing

  /** serialize of one task; a queued merge task has no result yet, so its size word is 0. */
  function TaskWords(t: Task): seq<int> {
    match t
    case Sort(data, status) => [status, |data|] + data
    case Merge(data1, data2, status) => [status, 0, |data1|] + data1 + [|data2|] + data2
  }

  function EntryWords(t: Task): seq<int> {
    [if t.Sort? then SORT_TASK else MERGE_TASK] + TaskWords(t)
  }

  function QueueWords(queue: seq<Task>): seq<int> {
    if queue == [] then [] else EntryWords(queue[0]) + QueueWords(queue[1..])
  }

  function SlotWords(slot: Option<Task>): seq<int> {
    if slot.Some? then TaskWords(slot.value) else EmptyTask()
  }

  function SlotsWords(slots: seq<Option<Task>>): seq<int> {
    if slots == [] then [] else SlotWords(slots[0]) + SlotsWords(slots[1..])
  }

  function Serialize(f: Farm): seq<int> {
    [|f.queue|] + QueueWords(f.queue) + SlotsWords(f.slots) + SlotWords(f.pending)
  }

  /** Where the words of a queued task stand: kind, status, sizes and numbers; a merge task has an empty
      result in front of its halves. */
  lemma EntryLayout(t: Task)
    ensures var words := EntryWords(t);
            && words[0] == (if t.Sort? then SORT_TASK else MERGE_TASK) && words[1] == t.status
            && (t.Sort? ==> words[2] == |t.data| && words[3..] == t.data)
            && (t.Merge? ==>
                  && words[2] == 0 && words[3] == |t.data1| && words[4..4 + |t.data1|] == t.data1
                  && words[4 + |t.data1|] == |t.data2| && words[5 + |t.data1|..] == t.data2)
  {
    if t.Merge? {
      var words, mid := EntryWords(t), 4 + |t.data1|;
      assert words == ([MERGE_TASK, t.status, 0, |t.data1|] + t.data1) + ([|t.data2|] + t.data2);
      assert words[4..mid] == t.data1 && words[mid] == |t.data2| && words[mid + 1..] == t.data2;
    }
  }

  // ------------------------------------------------ reading

  /** A size word, that many numbers, and what follows them */
  function ReadCounted(file: seq<int>): Option<(seq<int>, seq<int>)> {
    if file == [] || file[0] < 0 || file[0] > |file| - 1 then None
    else Some((file[1..1 + file[0]], file[1 + file[0]..]))
  }

  function ReadSort(file: seq<int>): Option<(Task, seq<int>)> {
    if file == [] then None
    else match ReadCounted(file[1..])
         case None => None
         case Some((data, rest)) => Some((Sort(data, file[0]), rest))
  }

  /** A merge task starts with its own result, which is empty unless it has been computed. */
  function ReadMerge(file: seq<int>): Option<(Task, seq<int>)> {
    if file == [] then None
    else match ReadCounted(file[1..])
         case None => None
         case Some((_, halves)) =>
           match ReadCounted(halves)
           case None => None
           case Some((data1, half)) =>
             match ReadCounted(half)
             case None => None
             case Some((data2, rest)) => Some((Merge(data1, data2, file[0]), rest))
  }

  function ReadEntry(file: seq<int>): Option<(Task, seq<int>)> {
    if file == [] then None
    else if file[0] == SORT_TASK then ReadSort(file[1..])
    else if file[0] == MERGE_TASK then ReadMerge(file[1..])
    else None
  }

  function ReadQueue(file: seq<int>, count: int): Option<(seq<Task>, seq<int>)>
    decreases count
  {
    if count <= 0 then Some(([], file))
    else
      match ReadEntry(file)
      case None => None
      case Some((t, rest)) =>
        match ReadQueue(rest, count - 1)
        case None => None
        case Some((tasks, end)) => Some(([t] + tasks, end))
  }

  /** The comparison with a zeroed object */
  predicate IsEmptyTask(words: seq<int>) {
    |words| == MERGE_TASK_WORDS && forall i :: 0 <= i < |words| ==> words[i] == 0
  }

  /** One fixed-size object is read; it stands for a null pointer when all its words are 0. */
  function ReadSlot(file: seq<int>): (SlotImage, seq<int>) {
    var size := if |file| < MERGE_TASK_WORDS then |file| else MERGE_TASK_WORDS;
    var words := file[..size];
    (if IsEmptyTask(words) then Null else Raw(words), file[size..])
  }

  function ReadSlots(file: seq<int>, count: nat): (r: (seq<SlotImage>, seq<int>))
    ensures |r.0| == count
    decreases count
  {
    if count == 0 then ([], file)
    else
      var (slot, rest) := ReadSlot(file);
      PrependSlot(slot, ReadSlots(rest, count - 1))
  }

  function PrependSlot(slot: SlotImage, read: (seq<SlotImage>, seq<int>)): (seq<SlotImage>, seq<int>) {
    ([slot] + read.0, read.1)
  }

  function Deserialize(file: seq<int>): Option<Image> {
    if file == [] then None
    else match ReadQueue(file[1..], file[0])
         case None => None
         case Some((queue, rest)) =>
           var (slots, end) := ReadSlots(rest, MAX_CHILDREN_NUMBER);
           Some(Image(queue, slots, ReadSlot(end).0))
  }

  // ------------------------------------------------ round trip

  lemma ReadCountedWords(file: seq<int>, data: seq<int>, rest: seq<int>)
    requires file == [|data|] + data + rest
    ensures ReadCounted(file) == Some((data, rest))
  {
    assert file[1..1 + |data|] == data && file[1 + |data|..] == rest;
  }

  lemma ReadSortWords(t: Task, rest: seq<int>)
    requires t.Sort?
    ensures ReadSort(TaskWords(t) + rest) == Some((t, rest))
  {
    var file := TaskWords(t) + rest;
    assert file[1..] == [|t.data|] + t.data + rest;
    ReadCountedWords(file[1..], t.data, rest);
  }

  lemma ReadMergeParts(file: seq<int>, status: int, d1: seq<int>, d2: seq<int>, rest: seq<int>)
    requires file == [status] + [0] + ([|d1|] + d1 + ([|d2|] + d2 + rest))
    ensures ReadMerge(file) == Some((Merge(d1, d2, status), rest))
  {
    var half := [|d2|] + d2 + rest;
    var halves := [|d1|] + d1 + half;
    assert file[1..] == [0] + [] + halves;
    ReadCountedWords(file[1..], [], halves);
    ReadCountedWords(halves, d1, half);
    ReadCountedWords(half, d2, rest);
  }

  lemma ReadTaskWords(t: Task, rest: seq<int>)
    ensures (if t.Sort? then ReadSort(TaskWords(t) + rest) else ReadMerge(TaskWords(t) + rest)) == Some((t, rest))
  {
    match t
    case Sort(_, _) =>
      ReadSortWords(t, rest);
    case Merge(d1, d2, status) =>
      assert TaskWords(t) + rest == [status] + [0] + ([|d1|] + d1 + ([|d2|] + d2 + rest));
      ReadMergeParts(TaskWords(t) + rest, status, d1, d2, rest);
  }

  lemma ReadEntryWords(t: Task, rest: seq<int>)
    ensures ReadEntry(EntryWords(t) + rest) == Some((t, rest))
  {
    var file := EntryWords(t) + rest;
    assert file[1..] == TaskWords(t) + rest;
    ReadTaskWords(t, rest);
  }

  lemma ReadQueueStep(t: Task, tasks: seq<Task>, more: seq<int>, rest: seq<int>)
    requires ReadQueue(more, |tasks|) == Some((tasks, rest))
    ensures ReadQueue(EntryWords(t) + more, |tasks| + 1) == Some(([t] + tasks, rest))
  {
    ReadEntryWords(t, more);
  }

  lemma Assoc(a: seq<int>, b: seq<int>, c: seq<int>)
    ensures a + (b + c) == a + b + c
  {
  }

  lemma QueueWordsHead(queue: seq<Task>, rest: seq<int>)
    requires queue != []
    ensures QueueWords(queue) + rest == EntryWords(queue[0]) + (QueueWords(queue[1..]) + rest)
  {
    Assoc(EntryWords(queue[0]), QueueWords(queue[1..]), rest);
  }

  lemma {:induction false} ReadQueueWords(queue: seq<Task>, rest: seq<int>)
    ensures ReadQueue(QueueWords(queue) + rest, |queue|) == Some((queue, rest))
  {
    if queue == [] {
      assert QueueWords(queue) + rest == rest;
    } else {
      var more := QueueWords(queue[1..]) + rest;
      QueueWordsHead(queue, rest);
      ReadQueueWords(queue[1..], rest);
      ReadQueueStep(queue[0], queue[1..], more, rest);
      assert queue == [queue[0]] + queue[1..];
    }
  }

  lemma ReadEmptySlot(rest: seq<int>)
    ensures ReadSlot(EmptyTask() + rest) == (Null, rest)
  {
    assert (EmptyTask() + rest)[..MERGE_TASK_WORDS] == EmptyTask();
    assert (EmptyTask() + rest)[MERGE_TASK_WORDS..] == rest;
  }

  /** An occupied slot is written with its status first, and that word is never 0. */
  lemma ReadOccupiedSlot(t: Task, rest: seq<int>)
    requires t.status != 0
    ensures ReadSlot(TaskWords(t) + rest).0.Raw?
  {
    var file := TaskWords(t) + rest;
    assert file[0] == t.status;
    var words := file[..if |file| < MERGE_TASK_WORDS then |file| else MERGE_TASK_WORDS];
    assert words[0] == t.status;
  }

  predicate AllNull(slots: seq<SlotImage>) {
    forall i :: 0 <= i < |slots| ==> slots[i] == Null
  }

  predicate AllFree(slots: seq<Option<Task>>) {
    forall i :: 0 <= i < |slots| ==> slots[i] == None
  }

  lemma SlotsWordsHead(slots: seq<Option<Task>>, rest: seq<int>)
    requires slots != []
    ensures SlotsWords(slots) + rest == SlotWords(slots[0]) + (SlotsWords(slots[1..]) + rest)
  {
    Assoc(SlotWords(slots[0]), SlotsWords(slots[1..]), rest);
  }

  /** A free slot is read as a null pointer, and what follows it as if it stood alone. */
  lemma ReadFreeHead(slots: seq<Option<Task>>, rest: seq<int>)
    requires slots != [] && slots[0] == None
    ensures ReadSlots(SlotsWords(slots) + rest, |slots|)
         == PrependSlot(Null, ReadSlots(SlotsWords(slots[1..]) + rest, |slots| - 1))
  {
    SlotsWordsHead(slots, rest);
    ReadEmptySlot(SlotsWords(slots[1..]) + rest);
  }

  lemma ReadBusyHead(slots: seq<Option<Task>>, rest: seq<int>)
    requires slots != [] && slots[0].Some? && slots[0].value.status != 0
    ensures ReadSlots(SlotsWords(slots) + rest, |slots|).0[0].Raw?
  {
    SlotsWordsHead(slots, rest);
    ReadOccupiedSlot(slots[0].value, SlotsWords(slots[1..]) + rest);
  }

  lemma {:induction false} ReadFreeSlots(slots: seq<Option<Task>>, rest: seq<int>)
    requires AllFree(slots)
    ensures ReadSlots(SlotsWords(slots) + rest, |slots|).1 == rest
    ensures AllNull(ReadSlots(SlotsWords(slots) + rest, |slots|).0)
  {
    if slots == [] {
      assert SlotsWords(slots) + rest == rest;
    } else {
      ReadFreeHead(slots, rest);
      ReadFreeSlots(slots[1..], rest);
    }
  }

  /** The first occupied slot comes back as raw words, not as a task. */
  lemma {:induction false} ReadBusySlots(slots: seq<Option<Task>>, rest: seq<int>, i: nat)
    requires i < |slots| && slots[i].Some? && slots[i].value.status != 0
    requires forall j :: 0 <= j < i ==> slots[j] == None
    ensures ReadSlots(SlotsWords(slots) + rest, |slots|).0[i].Raw?
  {
    if i == 0 {
      ReadBusyHead(slots, rest);
    } else {
      ReadFreeHead(slots, rest);
      ReadBusySlots(slots[1..], rest, i - 1);
    }
  }

  /** The mirror reads back the queue, and a null pointer for every slot and for the waiting result. */
  ghost predicate Recovers(image: Image, queue: seq<Task>) {
    image.queue == queue && AllNull(image.slots) && image.pending == Null
  }

  ghost predicate NothingInFlight(f: Farm) {
    AllFree(f.slots) && f.pending.None?
  }

  lemma DeserializeQueue(f: Farm)
    requires |f.slots| == MAX_CHILDREN_NUMBER
    ensures Deserialize(Serialize(f)).Some?
    ensures Deserialize(Serialize(f)).value.queue == f.queue
    ensures Deserialize(Serialize(f)).value.slots ==
            ReadSlots(SlotsWords(f.slots) + SlotWords(f.pending), |f.slots|).0
    ensures Deserialize(Serialize(f)).value.pending ==
            ReadSlot(ReadSlots(SlotsWords(f.slots) + SlotWords(f.pending), |f.slots|).1).0
  {
    HeadAndTail(|f.queue|, QueueWords(f.queue), SlotsWords(f.slots), SlotWords(f.pending));
    ReadQueueWords(f.queue, SlotsWords(f.slots) + SlotWords(f.pending));
  }

  lemma HeadAndTail(n: int, a: seq<int>, b: seq<int>, c: seq<int>)
    ensures ([n] + a + b + c)[0] == n && ([n] + a + b + c)[1..] == a + (b + c)
  {
  }

  /** A check point is read back exactly when it was taken with no task in flight and no result
      waiting; otherwise the reader finds raw words where the object was. */
  lemma CheckpointRecovers(f: Farm)
    requires Invariant(f)
    ensures Deserialize(Serialize(f)).Some?
    ensures Recovers(Deserialize(Serialize(f)).value, f.queue) <==> NothingInFlight(f)
    ensures !NothingInFlight(f) ==>
              var image := Deserialize(Serialize(f)).value;
              (exists i :: 0 <= i < |image.slots| && image.slots[i].Raw?) || image.pending.Raw?
  {
    DeserializeQueue(f);
    if AllFree(f.slots) {
      ReadFreeSlots(f.slots, SlotWords(f.pending));
      if f.pending.Some? {
        ReadOccupiedSlot(f.pending.value, []);
        assert TaskWords(f.pending.value) + [] == SlotWords(f.pending);
      } else {
        ReadEmptySlot([]);
        assert EmptyTask() + [] == SlotWords(f.pending);
      }
    } else {
      var i := FirstBusy(f.slots);
      ReadBusySlots(f.slots, SlotWords(f.pending), i);
    }
  }

  function FirstBusy(slots: seq<Option<Task>>): (i: nat)
    requires !AllFree(slots)
    ensures i < |slots| && slots[i].Some? && forall j :: 0 <= j < i ==> slots[j] == None
  {
    if slots[0].Some? then 0
    else
      assert forall j :: 1 <= j < |slots| ==> slots[j] == slots[1..][j - 1];
      1 + FirstBusy(slots[1..])
  }

  /** The mirror's manager after it has recovered a check point, at the start of its own main loop */
  function Restarted(queue: seq<Task>): Farm {
    Farm(queue, [None, None, None, None], None, [false, false, false, false], |queue|, 0)
  }

  lemma RestartedIsFresh(f: Farm)
    requires Fresh(f)
    ensures Fresh(Restarted(f.queue))
  {
    BusyNone(Restarted(f.queue).sent);
  }

  lemma WaitingIsRaw(f: Farm)
    requires |f.slots| == MAX_CHILDREN_NUMBER && AllFree(f.slots) && f.pending.Some? && f.pending.value.status != 0
    ensures Deserialize(Serialize(f)).Some? && Deserialize(Serialize(f)).value.pending.Raw?
  {
    DeserializeQueue(f);
    ReadFreeSlots(f.slots, SlotWords(f.pending));
    ReadOccupiedSlot(f.pending.value, []);
    assert TaskWords(f.pending.value) + [] == SlotWords(f.pending);
  }

  /** A master that has received its first result has it waiting; the check point it writes at the head of
      the next round, which there is with three tasks or more, is not read back. */
  lemma WaitingResultIsLost(f: Farm, answers: seq<bool>)
    requires Fresh(f) && |f.queue| >= 2 && Alive(answers)
    ensures var r := CheckRecv(Dispatch(f, 0), answers, 0).farm;
            && Invariant(r) && Idle(r) && (|f.queue| >= 3 ==> r.inQueue > 1)
            && Deserialize(Serialize(r)).Some?
            && Deserialize(Serialize(r)).value.pending.Raw?
            && !Recovers(Deserialize(Serialize(r)).value, r.queue)
  {
    IdleCounts(f);
    RoundResolves(f, answers);
    WaitingIsRaw(Succeed(Dispatch(f, 0), 0));
  }

  /** Failover: a mirror that restarts from the check point taken before the loop outputs the very
      sequence the primary would have, whatever workers die under either of them, unless one of them overruns
      its send buffer; and that no schedule does for the one or none does for the other. */
  lemma FailoverIsInvisible(f: Farm, answers: seq<bool>, mirrorAnswers: seq<bool>)
    requires Fresh(f) && f.queue != []
    ensures Deserialize(Serialize(f)).Some?
    ensures var mirror := Restarted(Deserialize(Serialize(f)).value.queue);
            && Fresh(mirror)
            && Recovers(Deserialize(Serialize(f)).value, mirror.queue)
            && (RunsAlwaysFit(mirror) <==> RunsAlwaysFit(f))
            && (RunFits(f, answers) && RunFits(mirror, mirrorAnswers) ==>
                  Output(mirror, mirrorAnswers) == Output(f, answers))
  {
    DeserializeQueue(f);
    RestartedIsFresh(f);
    FreshIsRestarted(f);
    CheckpointRecovers(f);
    if RunFits(f, answers) && RunFits(f, mirrorAnswers) {
      FailuresDoNotShow(f, f, mirrorAnswers, answers);
    }
  }

  lemma FreshIsRestarted(f: Farm)
    requires Fresh(f)
    ensures f == Restarted(f.queue)
  {
    BusyNone(f.sent);
    assert f.sent == [false, false, false, false];
    assert f.slots == [None, None, None, None];
  }
}
