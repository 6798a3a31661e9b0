/** The master's state and its steps: dispatch, worker failure, worker success.
    Everything here is stated for any set of busy slaves. */
module TaskFarm {
  import opened Options
  import opened Sorting
  import opened Tasks

  const MAX_CHILDREN_NUMBER: nat := 4

  /** slots[i] is the task slave i works on, pending the result that waits for a partner. */
  datatype Farm = Farm(
    queue: seq<Task>, slots: seq<Option<Task>>, pending: Option<Task>,
    sent: seq<bool>, inQueue: int, toReceive: int)

  function Busy(sent: seq<bool>): nat {
    if sent == [] then 0 else (if sent[0] then 1 else 0) + Busy(sent[1..])
  }

  /** The counters, the slots and the sent flags tell the same story. */
  ghost predicate Agree(f: Farm) {
    && |f.slots| == |f.sent| == MAX_CHILDREN_NUMBER
    && (forall i :: 0 <= i < |f.sent| ==> (f.sent[i] <==> f.slots[i].Some?))
    && f.inQueue == |f.queue| + Busy(f.sent)
    && f.toReceive == Busy(f.sent)
  }

  ghost predicate TasksReady(f: Farm) {
    && (forall i :: 0 <= i < |f.queue| ==> f.queue[i].status == TASK_NOT_SOLVED && Mergeable(f.queue[i]))
    && (forall i :: 0 <= i < |f.slots| && f.slots[i].Some? ==>
          f.slots[i].value.status == TASK_IN_PROGRESS && Mergeable(f.slots[i].value))
    && (f.pending.Some? ==>
          f.pending.value.Sort? && f.pending.value.status == TASK_NOT_SOLVED && Sorted(f.pending.value.data))
  }

  ghost predicate Invariant(f: Farm) {
    Agree(f) && TasksReady(f)
  }

  /** No slave has work: the situation at the head of the main loop. */
  ghost predicate Idle(f: Farm) {
    forall i :: 0 <= i < |f.sent| ==> !f.sent[i]
  }

  function QueueNumbers(queue: seq<Task>): multiset<int> {
    if queue == [] then multiset{} else Numbers(queue[0]) + QueueNumbers(queue[1..])
  }

  function SlotNumbers(slots: seq<Option<Task>>): multiset<int> {
    if slots == [] then multiset{} else OptionNumbers(slots[0]) + SlotNumbers(slots[1..])
  }

  function OptionNumbers(t: Option<Task>): multiset<int> {
    if t.Some? then Numbers(t.value) else multiset{}
  }

  /** Every number the master is responsible for, wherever it is held */
  function AllNumbers(f: Farm): multiset<int> {
    QueueNumbers(f.queue) + SlotNumbers(f.slots) + OptionNumbers(f.pending)
  }

  // ---------------------------------------------------------------- steps

  /** removeTask(slave) followed by the bookkeeping of the main loop */
  function Dispatch(f: Farm, i: nat): Farm
    requires i < |f.slots| == |f.sent| && f.queue != []
  {
    f.(queue := f.queue[1..],
       slots := f.slots[i := Some(f.queue[0].(status := TASK_IN_PROGRESS))],
       sent := f.sent[i := true],
       toReceive := f.toReceive + 1)
  }

  /** A dead worker's task goes back to the end of the queue. */
  function Fail(f: Farm, i: nat): Farm
    requires i < |f.slots| == |f.sent|
  {
    f.(queue := if f.slots[i].Some? then f.queue + [f.slots[i].value.(status := TASK_NOT_SOLVED)] else f.queue,
       slots := f.slots[i := None],
       sent := f.sent[i := false],
       toReceive := f.toReceive - 1)
  }

  /** A result either waits for a partner or completes a new merge task. */
  function Succeed(f: Farm, i: nat): Farm
    requires i < |f.slots| == |f.sent| && f.slots[i].Some?
    requires f.pending.Some? ==> f.pending.value.Sort?
  {
    var result := Result(f.slots[i].value);
    var g := f.(slots := f.slots[i := None], sent := f.sent[i := false],
                inQueue := f.inQueue - 1, toReceive := f.toReceive - 1);
    match f.pending
    case None => g.(pending := Some(Sort(result, TASK_NOT_SOLVED)))
    case Some(p) => g.(queue := f.queue + [Merge(p.data, result, TASK_NOT_SOLVED)],
                       pending := None, inQueue := f.inQueue)
  }

  // ---------------------------------------------------------------- conservation

  lemma {:induction false} QueueAppend(queue: seq<Task>, t: Task)
    ensures QueueNumbers(queue + [t]) == QueueNumbers(queue) + Numbers(t)
  {
    if queue == [] {
      assert queue + [t] == [t];
    } else {
      QueueAppend(queue[1..], t);
      assert (queue + [t])[1..] == queue[1..] + [t];
    }
  }

  lemma {:induction false} SlotClear(slots: seq<Option<Task>>, i: nat)
    requires i < |slots|
    ensures SlotNumbers(slots) == SlotNumbers(slots[i := None]) + OptionNumbers(slots[i])
  {
    if i > 0 {
      SlotClear(slots[1..], i - 1);
      assert slots[i := None][1..] == slots[1..][i - 1 := None];
    } else {
      assert slots[i := None][1..] == slots[1..];
    }
  }

  lemma SlotFill(slots: seq<Option<Task>>, i: nat, t: Task)
    requires i < |slots| && slots[i] == None
    ensures SlotNumbers(slots[i := Some(t)]) == SlotNumbers(slots) + Numbers(t)
  {
    SlotClear(slots[i := Some(t)], i);
    assert slots[i := Some(t)][i := None] == slots;
  }

  lemma {:induction false} BusyUpdate(sent: seq<bool>, i: nat, b: bool)
    requires i < |sent| && sent[i] != b
    ensures Busy(sent[i := b]) == if b then Busy(sent) + 1 else Busy(sent) - 1
  {
    if i > 0 {
      BusyUpdate(sent[1..], i - 1, b);
      assert sent[i := b][1..] == sent[1..][i - 1 := b];
    } else {
      assert sent[i := b][1..] == sent[1..];
    }
  }

  lemma {:induction false} BusyNone(sent: seq<bool>)
    ensures Busy(sent) == 0 <==> forall i :: 0 <= i < |sent| ==> !sent[i]
  {
    if sent != [] {
      BusyNone(sent[1..]);
      assert forall i :: 1 <= i < |sent| ==> sent[i] == sent[1..][i - 1];
    }
  }

  lemma StatusKeepsNumbers(t: Task, status: int)
    ensures Numbers(t.(status := status)) == Numbers(t)
    ensures Mergeable(t) ==> Mergeable(t.(status := status))
  {
  }

  lemma DispatchNumbers(f: Farm, i: nat)
    requires i < |f.slots| == |f.sent| && f.queue != [] && f.slots[i] == None
    ensures AllNumbers(Dispatch(f, i)) == AllNumbers(f)
  {
    SlotFill(f.slots, i, f.queue[0].(status := TASK_IN_PROGRESS));
    StatusKeepsNumbers(f.queue[0], TASK_IN_PROGRESS);
  }

  lemma FailNumbers(f: Farm, i: nat)
    requires i < |f.slots| == |f.sent| && f.slots[i].Some?
    ensures AllNumbers(Fail(f, i)) == AllNumbers(f)
  {
    var t := f.slots[i].value;
    SlotClear(f.slots, i);
    QueueAppend(f.queue, t.(status := TASK_NOT_SOLVED));
    StatusKeepsNumbers(t, TASK_NOT_SOLVED);
  }

  lemma SucceedNumbers(f: Farm, i: nat)
    requires i < |f.slots| == |f.sent| && f.slots[i].Some?
    requires f.pending.Some? ==> f.pending.value.Sort?
    ensures AllNumbers(Succeed(f, i)) == AllNumbers(f)
  {
    var t := f.slots[i].value;
    ResultCorrect(t);
    SlotClear(f.slots, i);
    if f.pending.Some? {
      QueueAppend(f.queue, Merge(f.pending.value.data, Result(t), TASK_NOT_SOLVED));
    }
  }

  lemma DispatchAgrees(f: Farm, i: nat)
    requires Agree(f) && i < MAX_CHILDREN_NUMBER && f.queue != [] && !f.sent[i]
    ensures Agree(Dispatch(f, i))
  {
    BusyUpdate(f.sent, i, true);
  }

  lemma FailAgrees(f: Farm, i: nat)
    requires Agree(f) && i < MAX_CHILDREN_NUMBER && f.sent[i]
    ensures Agree(Fail(f, i))
  {
    BusyUpdate(f.sent, i, false);
  }

  lemma SucceedAgrees(f: Farm, i: nat)
    requires Agree(f) && i < MAX_CHILDREN_NUMBER && f.sent[i]
    requires f.pending.Some? ==> f.pending.value.Sort?
    ensures Agree(Succeed(f, i))
  {
    BusyUpdate(f.sent, i, false);
  }

  lemma SucceedReady(f: Farm, i: nat)
    requires TasksReady(f) && i < |f.slots| == |f.sent| && f.slots[i].Some?
    ensures TasksReady(Succeed(f, i))
  {
    ResultCorrect(f.slots[i].value);
    var g := Succeed(f, i);
    if f.pending.Some? {
      var merge := Task.Merge(f.pending.value.data, Result(f.slots[i].value), TASK_NOT_SOLVED);
      assert g.queue == f.queue + [merge] && Mergeable(merge);
    } else {
      assert g.queue == f.queue;
    }
  }

  /** Handing a queued task to a free slave keeps the invariant and every number. */
  lemma DispatchKeeps(f: Farm, i: nat)
    requires Invariant(f) && i < MAX_CHILDREN_NUMBER && f.queue != [] && !f.sent[i]
    ensures Invariant(Dispatch(f, i))
    ensures AllNumbers(Dispatch(f, i)) == AllNumbers(f)
    ensures Measure(Dispatch(f, i)) == Measure(f)
  {
    DispatchNumbers(f, i);
    DispatchAgrees(f, i);
    StatusKeepsNumbers(f.queue[0], TASK_IN_PROGRESS);
  }

  /** A worker's death loses nothing and changes no count of work left. */
  lemma FailKeeps(f: Farm, i: nat)
    requires Invariant(f) && i < MAX_CHILDREN_NUMBER && f.sent[i]
    ensures Invariant(Fail(f, i))
    ensures AllNumbers(Fail(f, i)) == AllNumbers(f)
    ensures Measure(Fail(f, i)) == Measure(f)
  {
    FailNumbers(f, i);
    FailAgrees(f, i);
    StatusKeepsNumbers(f.slots[i].value, TASK_NOT_SOLVED);
  }

  /** A result keeps every number, and any merge task built from it has sorted halves. */
  lemma SucceedKeeps(f: Farm, i: nat)
    requires Invariant(f) && i < MAX_CHILDREN_NUMBER && f.sent[i]
    ensures Invariant(Succeed(f, i))
    ensures AllNumbers(Succeed(f, i)) == AllNumbers(f)
    ensures Measure(Succeed(f, i)) == Measure(f) - 1
  {
    SucceedNumbers(f, i);
    SucceedAgrees(f, i);
    SucceedReady(f, i);
  }

  /** Twice the tasks left plus the waiting result: what each success lowers by one */
  function Measure(f: Farm): int {
    2 * f.inQueue + if f.pending.Some? then 1 else 0
  }
}
