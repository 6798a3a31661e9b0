/** Whole runs of the master: receiving from slaves, the main loop, and the last merge. */
module FarmRuns {
  import opened Options
  import opened Sorting
  import opened Tasks
  import opened TaskPackets
  import opened TaskFarm

  // ------------------------------------------------ any interleaving of steps

  datatype Step = Dispatched(i: nat) | Failed(i: nat) | Succeeded(i: nat)

  /** What a step needs to be carried out at all; nothing of the invariant is assumed. */
  ghost predicate Enabled(f: Farm, step: Step) {
    && |f.slots| == |f.sent| == MAX_CHILDREN_NUMBER && step.i < MAX_CHILDREN_NUMBER
    && match step
       case Dispatched(i) => f.queue != [] && !f.sent[i]
       case Failed(i) => f.sent[i]
       case Succeeded(i) => f.sent[i] && f.slots[i].Some? && (f.pending.Some? ==> f.pending.value.Sort?)
  }

  ghost function Next(f: Farm, step: Step): Farm
    requires Enabled(f, step)
  {
    match step
    case Dispatched(i) => Dispatch(f, i)
    case Failed(i) => Fail(f, i)
    case Succeeded(i) => Succeed(f, i)
  }

  ghost predicate IsRun(run: seq<Farm>, steps: seq<Step>) {
    && |run| == |steps| + 1
    && forall k :: 0 <= k < |steps| ==> Enabled(run[k], steps[k]) && run[k + 1] == Next(run[k], steps[k])
  }

  function Successes(steps: seq<Step>): nat {
    if steps == [] then 0
    else Successes(steps[..|steps| - 1]) + if steps[|steps| - 1].Succeeded? then 1 else 0
  }

  /** Whatever the slaves do and in whatever order, no number is lost or invented, the counters
      stay right, and exactly the successes consume the remaining work. */
  lemma {:induction false} RunConserves(run: seq<Farm>, steps: seq<Step>)
    requires IsRun(run, steps) && Invariant(run[0])
    ensures Invariant(run[|steps|])
    ensures AllNumbers(run[|steps|]) == AllNumbers(run[0])
    ensures Measure(run[|steps|]) == Measure(run[0]) - Successes(steps)
  {
    if steps != [] {
      var n := |steps| - 1;
      assert IsRun(run[..n + 1], steps[..n]);
      RunConserves(run[..n + 1], steps[..n]);
      assert Enabled(run[n], steps[n]);
      match steps[n]
      case Dispatched(i) => DispatchKeeps(run[n], i);
      case Failed(i) => FailKeeps(run[n], i);
      case Succeeded(i) => SucceedKeeps(run[n], i);
    }
  }

  // ------------------------------------------------ check_recv_from_slaves

  /** Answers of is_process_alive still to come; once they run out every worker answers. */
  function Alive(answers: seq<bool>): bool {
    answers == [] || answers[0]
  }

  function Later(answers: seq<bool>): seq<bool> {
    if answers == [] then [] else answers[1..]
  }

  datatype Outcome = Outcome(farm: Farm, answers: seq<bool>, successes: nat)

  /** Slaves are visited from i upwards; every dead one is requeued, the first live one ends the visit. */
  function CheckRecv(f: Farm, answers: seq<bool>, i: nat): Outcome
    requires |f.slots| == |f.sent| == MAX_CHILDREN_NUMBER && i <= MAX_CHILDREN_NUMBER
    requires forall j :: 0 <= j < MAX_CHILDREN_NUMBER && f.sent[j] ==> f.slots[j].Some?
    requires f.pending.Some? ==> f.pending.value.Sort?
    decreases MAX_CHILDREN_NUMBER - i
  {
    if i == MAX_CHILDREN_NUMBER then Outcome(f, answers, 0)
    else if !f.sent[i] then CheckRecv(f, answers, i + 1)
    else if Alive(answers) then Outcome(Succeed(f, i), Later(answers), 1)
    else CheckRecv(Fail(f, i), Later(answers), i + 1)
  }

  /** g is what f may become: same numbers, invariant kept, `successes` units of work done. */
  ghost predicate Follows(f: Farm, g: Farm, successes: nat) {
    Invariant(g) && AllNumbers(g) == AllNumbers(f) && Measure(g) == Measure(f) - successes
  }

  /** One visit keeps the invariant and the numbers for any set of busy slaves. */
  lemma {:induction false} CheckRecvKeeps(f: Farm, answers: seq<bool>, i: nat)
    requires Invariant(f) && i <= MAX_CHILDREN_NUMBER
    ensures var r := CheckRecv(f, answers, i); r.successes <= 1 && Follows(f, r.farm, r.successes)
    decreases MAX_CHILDREN_NUMBER - i
  {
    if i < MAX_CHILDREN_NUMBER {
      if !f.sent[i] {
        CheckRecvKeeps(f, answers, i + 1);
      } else if Alive(answers) {
        SucceedKeeps(f, i);
      } else {
        FailKeeps(f, i);
        CheckRecvKeeps(Fail(f, i), Later(answers), i + 1);
      }
    }
  }

  /** No slave is busy after it that was not busy before. */
  ghost predicate NoNewWork(before: seq<bool>, after: seq<bool>) {
    |after| == |before| && forall j :: 0 <= j < |after| && after[j] ==> before[j]
  }

  lemma StopGivesNoWork(before: seq<bool>, i: nat, after: seq<bool>)
    requires i < |before| && NoNewWork(before[i := false], after)
    ensures NoNewWork(before, after) && !after[i]
  {
    assert !before[i := false][i];
    forall j | 0 <= j < |after| && after[j] ensures before[j] {
      assert before[i := false][j];
    }
  }

  /** A visit gives no slave new work, and when it brings no result every slave from i upwards has
      been found dead and freed. */
  lemma {:induction false} CheckRecvFrees(f: Farm, answers: seq<bool>, i: nat)
    requires Invariant(f) && i <= MAX_CHILDREN_NUMBER
    ensures var r := CheckRecv(f, answers, i);
            && |r.farm.sent| == MAX_CHILDREN_NUMBER && NoNewWork(f.sent, r.farm.sent)
            && (r.successes == 0 ==> forall j :: i <= j < MAX_CHILDREN_NUMBER ==> !r.farm.sent[j])
    decreases MAX_CHILDREN_NUMBER - i
  {
    if i < MAX_CHILDREN_NUMBER {
      if !f.sent[i] {
        CheckRecvFrees(f, answers, i + 1);
      } else if !Alive(answers) {
        FailKeeps(f, i);
        CheckRecvFrees(Fail(f, i), Later(answers), i + 1);
        StopGivesNoWork(f.sent, i, CheckRecv(Fail(f, i), Later(answers), i + 1).farm.sent);
      }
    }
  }

  lemma {:induction false} CheckRecvIdle(f: Farm, answers: seq<bool>, i: nat)
    requires Invariant(f) && Idle(f) && i <= MAX_CHILDREN_NUMBER
    ensures CheckRecv(f, answers, i) == Outcome(f, answers, 0)
    decreases MAX_CHILDREN_NUMBER - i
  {
    if i < MAX_CHILDREN_NUMBER { CheckRecvIdle(f, answers, i + 1); }
  }

  // ------------------------------------------------ main_loop

  lemma FreedIsIdle(f: Farm)
    requires Invariant(f) && Idle(f) && f.queue != []
    ensures !Fail(Dispatch(f, 0), 0).sent[0]
    ensures Idle(Fail(Dispatch(f, 0), 0)) && Idle(Succeed(Dispatch(f, 0), 0))
  {
    var g := Dispatch(f, 0);
    assert g.sent[0 := false] == f.sent;
  }

  /** One round of the main loop from an idle state: slave 0 is given the first task and the visit
      that follows always resolves it, so every slave is idle again. */
  lemma RoundResolves(f: Farm, answers: seq<bool>)
    requires Invariant(f) && Idle(f) && f.queue != []
    ensures Invariant(Dispatch(f, 0)) && AllNumbers(Dispatch(f, 0)) == AllNumbers(f)
    ensures CheckRecv(Dispatch(f, 0), answers, 0) ==
            if Alive(answers) then Outcome(Succeed(Dispatch(f, 0), 0), Later(answers), 1)
            else Outcome(Fail(Dispatch(f, 0), 0), Later(answers), 0)
    ensures Idle(CheckRecv(Dispatch(f, 0), answers, 0).farm)
    ensures Follows(f, CheckRecv(Dispatch(f, 0), answers, 0).farm, if Alive(answers) then 1 else 0)
  {
    var g := Dispatch(f, 0);
    DispatchKeeps(f, 0);
    CheckRecvKeeps(g, answers, 0);
    FreedIsIdle(f);
    if !Alive(answers) {
      FailKeeps(g, 0);
      CheckRecvIdle(Fail(g, 0), Later(answers), 1);
    }
  }

  lemma IdleCounts(f: Farm)
    requires Invariant(f) && Idle(f)
    ensures f.toReceive == 0 && f.inQueue == |f.queue|
    ensures SlotNumbers(f.slots) == multiset{}
  {
    BusyNone(f.sent);
    EmptySlots(f.slots);
  }

  lemma {:induction false} EmptySlots(slots: seq<Option<Task>>)
    requires forall i :: 0 <= i < |slots| ==> slots[i].None?
    ensures SlotNumbers(slots) == multiset{}
  {
    if slots != [] { EmptySlots(slots[1..]); }
  }

  /** The state the main loop ends in, the answers it did not use, and the results it received */
  ghost function MainLoop(f: Farm, answers: seq<bool>): Outcome
    requires Invariant(f) && Idle(f)
    decreases Measure(f), |answers|
  {
    if f.inQueue + f.toReceive > 0 && !(f.inQueue == 1 && f.toReceive == 0) then
      IdleCounts(f);
      RoundResolves(f, answers);
      var r := CheckRecv(Dispatch(f, 0), answers, 0);
      var rest := MainLoop(r.farm, r.answers);
      rest.(successes := rest.successes + r.successes)
    else Outcome(f, answers, 0)
  }

  /** For every schedule of failures the loop ends with one queued task (and, unless it started with
      one task, one waiting result) after a number of results the failures cannot change. */
  lemma {:induction false} MainLoopEnds(f: Farm, answers: seq<bool>)
    requires Invariant(f) && Idle(f)
    ensures var r := MainLoop(f, answers);
            && Invariant(r.farm) && Idle(r.farm) && AllNumbers(r.farm) == AllNumbers(f)
            && (Measure(f) <= 2 ==> r.farm == f && r.successes == 0)
            && (Measure(f) >= 3 ==>
                  |r.farm.queue| == 1 && r.farm.pending.Some? && r.successes == Measure(f) - 3)
    decreases Measure(f), |answers|
  {
    IdleCounts(f);
    if f.inQueue > 1 {
      RoundResolves(f, answers);
      var r := CheckRecv(Dispatch(f, 0), answers, 0);
      MainLoopEnds(r.farm, r.answers);
    }
  }

  // ------------------------------------------------ finish_solving

  /** The last task is solved by the master and merged with the waiting result; None is the null
      task that an empty queue yields. */
  function Finish(f: Farm): Option<seq<int>>
    requires f.pending.Some? ==> f.pending.value.Sort?
  {
    if f.queue == [] then None
    else
      var result := Result(f.queue[0]);
      Some(if f.pending.Some? then Sorting.Merge(result, f.pending.value.data) else result)
  }

  lemma FinishSorts(f: Farm)
    requires Invariant(f) && Idle(f) && |f.queue| == 1
    ensures Finish(f).Some?
    ensures Sorted(Finish(f).value) && multiset(Finish(f).value) == AllNumbers(f)
  {
    IdleCounts(f);
    ResultCorrect(f.queue[0]);
    assert QueueNumbers(f.queue) == Numbers(f.queue[0]) + QueueNumbers([]);
    if f.pending.Some? {
      MergePermutes(Result(f.queue[0]), f.pending.value.data);
      MergeSorts(Result(f.queue[0]), f.pending.value.data);
    }
  }

  /** A master about to enter the loop: only queued tasks */
  ghost predicate Fresh(f: Farm) {
    Invariant(f) && Idle(f) && f.pending.None?
  }

  // ------------------------------------------------ the send buffer

  /** A task whose packet fits the buffer that send_task fills */
  predicate Fits(t: Task) {
    |Packet(t)| <= MAX_PACKET_SIZE
  }

  /** The reply to a packet that fits is no longer than the packet. */
  lemma ReplyFits(t: Task)
    ensures |Packet(Sort(Result(t), TASK_NOT_SOLVED))| <= |Packet(t)|
  {
    ResultCorrect(t);
    PacketSize(t);
  }

  /** Every packet the main loop sends fits the buffer. */
  ghost predicate RunFits(f: Farm, answers: seq<bool>)
    requires Invariant(f) && Idle(f)
    decreases Measure(f), |answers|
  {
    if f.inQueue <= 1 then true
    else
      IdleCounts(f);
      RoundResolves(f, answers);
      var r := CheckRecv(Dispatch(f, 0), answers, 0);
      Fits(f.queue[0]) && RunFits(r.farm, r.answers)
  }

  ghost predicate RunsAlwaysFit(f: Farm)
    requires Invariant(f) && Idle(f)
  {
    forall answers :: RunFits(f, answers)
  }

  // ------------------------------------------------ one round at a time

  /** From f the loop reaches g, with the answers left, after n results and with every packet fitting. */
  ghost predicate LeadsTo(f: Farm, answers: seq<bool>, g: Farm, left: seq<bool>, n: nat)
    requires Invariant(f) && Idle(f) && Invariant(g) && Idle(g)
  {
    && MainLoop(f, answers) == MainLoop(g, left).(successes := MainLoop(g, left).successes + n)
    && (RunFits(f, answers) <==> RunFits(g, left))
  }

  /** From g the loop will end in `expected`, which counts the n results that came before g as well, and the
      packets it still sends fit or do not. */
  ghost predicate Expects(g: Farm, left: seq<bool>, n: int, expected: Outcome, fits: bool)
    requires Invariant(g) && Idle(g)
  {
    var rest := MainLoop(g, left);
    && rest.farm == expected.farm && rest.answers == expected.answers && n + rest.successes == expected.successes
    && RunFits(g, left) == fits
  }

  /** A round of the loop makes progress. */
  lemma RoundProgress(f: Farm, answers: seq<bool>)
    requires Invariant(f) && Idle(f) && f.inQueue > 1
    ensures f.queue != [] && f.toReceive == 0 && Invariant(Dispatch(f, 0))
    ensures var r := CheckRecv(Dispatch(f, 0), answers, 0);
            && Invariant(r.farm) && Idle(r.farm)
            && (Measure(r.farm) < Measure(f) || (Measure(r.farm) == Measure(f) && |r.answers| < |answers|))
  {
    IdleCounts(f);
    RoundResolves(f, answers);
  }

  /** What a round does, as its caller sees it: the loop goes on from there */
  lemma MainLoopRound(f: Farm, answers: seq<bool>, r: Outcome)
    requires Invariant(f) && Idle(f) && f.inQueue > 1 && f.queue != [] && Invariant(Dispatch(f, 0))
    requires r == CheckRecv(Dispatch(f, 0), answers, 0) && Invariant(r.farm) && Idle(r.farm)
    ensures Fits(f.queue[0]) ==> LeadsTo(f, answers, r.farm, r.answers, r.successes)
    ensures !Fits(f.queue[0]) ==> !RunFits(f, answers)
  {
    IdleCounts(f);
  }

  lemma MainLoopStops(f: Farm, answers: seq<bool>)
    requires Invariant(f) && Idle(f) && f.inQueue <= 1
    ensures f.toReceive == 0 && 0 <= f.inQueue
    ensures MainLoop(f, answers) == Outcome(f, answers, 0) && RunFits(f, answers)
  {
    IdleCounts(f);
  }

  /** How a run ends: a packet is written on behind the buffer, the null task of an empty queue is used, or
      the numbers are put out. */
  datatype Ending = Overrun | NoTask | Done(numbers: seq<int>)

  ghost function Output(f: Farm, answers: seq<bool>): Ending
    requires Fresh(f)
  {
    MainLoopEnds(f, answers);
    if !RunFits(f, answers) then Overrun
    else match Finish(MainLoop(f, answers).farm)
         case None => NoTask
         case Some(numbers) => Done(numbers)
  }

  /** The distributed sort is correct: whatever the failures, a run whose packets all fit the send buffer
      outputs exactly the queued numbers in order, after 2n - 3 results (none for a single task). */
  lemma SortedWhateverFails(f: Farm, answers: seq<bool>)
    requires Fresh(f)
    ensures Output(f, answers).Overrun? <==> !RunFits(f, answers)
    ensures Output(f, answers).NoTask? <==> f.queue == []
    ensures Output(f, answers).Done? ==>
              && Sorted(Output(f, answers).numbers)
              && multiset(Output(f, answers).numbers) == QueueNumbers(f.queue)
    ensures MainLoop(f, answers).successes == if |f.queue| <= 1 then 0 else 2 * |f.queue| - 3
  {
    IdleCounts(f);
    MainLoopEnds(f, answers);
    if f.queue != [] { FinishSorts(MainLoop(f, answers).farm); }
  }

  /** Two masters that start from queues of the same numbers output the same sequence, each under its
      own failures, unless one of them overruns its send buffer. */
  lemma FailuresDoNotShow(f: Farm, g: Farm, answers: seq<bool>, otherAnswers: seq<bool>)
    requires Fresh(f) && Fresh(g) && f.queue != [] && g.queue != []
    requires QueueNumbers(f.queue) == QueueNumbers(g.queue)
    requires RunFits(f, answers) && RunFits(g, otherAnswers)
    ensures Output(f, answers).Done? && Output(f, answers) == Output(g, otherAnswers)
  {
    SortedWhateverFails(f, answers);
    SortedWhateverFails(g, otherAnswers);
    SortedUnique(Output(f, answers).numbers, Output(g, otherAnswers).numbers);
  }
}
