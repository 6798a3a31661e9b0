/** Which inputs can overrun the send buffer: the sizes of the queued tasks, the rounds of the main loop on
    them, and the exact bound up to which no schedule of failures leads to a packet that does not fit. */
module PacketLoad {
  import opened Options
  import opened Sorting
  import opened Tasks
  import opened TaskPackets
  import opened TaskFarm
  import opened FarmRuns

  /** A queued task: how many numbers it holds, and whether it is a merge task */
  datatype Item = Item(size: nat, merged: bool)

  /** The queue, and the size of the waiting result */
  datatype Load = Load(queue: seq<Item>, pending: Option<nat>)

  /** The words of an item's packet */
  function Words(i: Item): nat {
    i.size + if i.merged then 3 else 2
  }

  /** A round of the main loop: the first task's worker answers, or dies */
  function Round(l: Load, alive: bool): Load
    requires l.queue != []
  {
    var first, rest := l.queue[0], l.queue[1..];
    if !alive then l.(queue := rest + [first])
    else
      match l.pending
      case None => Load(rest, Some(first.size))
      case Some(size) => Load(rest + [Item(size + first.size, true)], None)
  }

  function Left(l: Load): nat {
    2 * |l.queue| + if l.pending.Some? then 1 else 0
  }

  /** Every packet sent from here on has at most `limit` words. */
  ghost predicate LoadFits(l: Load, answers: seq<bool>, limit: nat)
    decreases Left(l), |answers|
  {
    |l.queue| > 1 ==>
      && Words(l.queue[0]) <= limit
      && LoadFits(Round(l, Alive(answers)), Later(answers), limit)
  }

  // ------------------------------------------------ the load of a master

  function ItemOf(t: Task): Item {
    Item(|Numbers(t)|, t.Merge?)
  }

  function Map<T, U>(f: T -> U, s: seq<T>): (r: seq<U>)
    ensures |r| == |s| && forall i :: 0 <= i < |r| ==> r[i] == f(s[i])
  {
    seq(|s|, i requires 0 <= i < |s| => f(s[i]))
  }

  lemma MapRest<T, U>(f: T -> U, s: seq<T>, t: T)
    requires s != []
    ensures Map(f, s[1..]) == Map(f, s)[1..]
    ensures Map(f, s[1..] + [t]) == Map(f, s)[1..] + [f(t)]
  {}

  function Items(queue: seq<Task>): (items: seq<Item>)
    ensures |items| == |queue| && forall i :: 0 <= i < |items| ==> items[i] == ItemOf(queue[i])
  {
    Map(ItemOf, queue)
  }

  function LoadOf(f: Farm): Load {
    Load(Items(f.queue), if f.pending.Some? then Some(|Numbers(f.pending.value)|) else None)
  }

  lemma WordsOfPacket(t: Task)
    ensures Words(ItemOf(t)) == |Packet(t)|
  {
    PacketSize(t);
  }

  lemma ItemsOfRest(queue: seq<Task>, t: Task)
    requires queue != []
    ensures Items(queue[1..]) == Items(queue)[1..]
    ensures Items(queue[1..] + [t]) == Items(queue)[1..] + [ItemOf(t)]
  {
    MapRest(ItemOf, queue, t);
  }

  lemma FailLoads(f: Farm)
    requires |f.slots| == |f.sent| == MAX_CHILDREN_NUMBER && f.queue != []
    ensures LoadOf(Fail(Dispatch(f, 0), 0)) == Round(LoadOf(f), false)
  {
    var t := f.queue[0].(status := TASK_IN_PROGRESS).(status := TASK_NOT_SOLVED);
    ItemsOfRest(f.queue, t);
    assert ItemOf(t) == ItemOf(f.queue[0]);
  }

  lemma SucceedWaits(f: Farm)
    requires |f.slots| == |f.sent| == MAX_CHILDREN_NUMBER && f.queue != [] && f.pending.None?
    ensures LoadOf(Succeed(Dispatch(f, 0), 0)) == Round(LoadOf(f), true)
  {
    var t := f.queue[0].(status := TASK_IN_PROGRESS);
    ResultCorrect(t);
    ItemsOfRest(f.queue, t);
    assert |Result(t)| == |Numbers(f.queue[0])|;
  }

  lemma MergedItem(waiting: Task, t: Task)
    requires waiting.Sort?
    ensures ItemOf(Merge(waiting.data, Result(t), TASK_NOT_SOLVED)) == Item(|Numbers(waiting)| + |Numbers(t)|, true)
  {
    ResultCorrect(t);
  }

  lemma MergeLoads(f: Farm, g: Farm, merge: Task)
    requires f.queue != [] && f.pending.Some? && g.pending.None? && g.queue == f.queue[1..] + [merge]
    requires ItemOf(merge) == Item(|Numbers(f.pending.value)| + |Numbers(f.queue[0])|, true)
    ensures LoadOf(g) == Round(LoadOf(f), true)
  {
    ItemsOfRest(f.queue, merge);
  }

  lemma SucceedMerges(f: Farm)
    requires |f.slots| == |f.sent| == MAX_CHILDREN_NUMBER && f.queue != []
    requires f.pending.Some? && f.pending.value.Sort?
    ensures LoadOf(Succeed(Dispatch(f, 0), 0)) == Round(LoadOf(f), true)
  {
    var t := f.queue[0].(status := TASK_IN_PROGRESS);
    MergedItem(f.pending.value, t);
    StatusKeepsNumbers(f.queue[0], TASK_IN_PROGRESS);
    MergeLoads(f, Succeed(Dispatch(f, 0), 0), Merge(f.pending.value.data, Result(t), TASK_NOT_SOLVED));
  }

  /** A round of the main loop is a round on the sizes. */
  lemma RoundLoads(f: Farm, answers: seq<bool>)
    requires Invariant(f) && Idle(f) && f.queue != []
    ensures LoadOf(CheckRecv(Dispatch(f, 0), answers, 0).farm) == Round(LoadOf(f), Alive(answers))
  {
    RoundResolves(f, answers);
    FailLoads(f);
    if f.pending.None? { SucceedWaits(f); } else { SucceedMerges(f); }
  }

  lemma {:induction false} RunIsLoad(f: Farm, answers: seq<bool>)
    requires Invariant(f) && Idle(f)
    ensures RunFits(f, answers) <==> LoadFits(LoadOf(f), answers, MAX_PACKET_SIZE)
    decreases Measure(f), |answers|
  {
    IdleCounts(f);
    if f.inQueue > 1 {
      RoundProgress(f, answers);
      RoundResolves(f, answers);
      RoundLoads(f, answers);
      WordsOfPacket(f.queue[0]);
      var r := CheckRecv(Dispatch(f, 0), answers, 0);
      RunIsLoad(r.farm, r.answers);
    }
  }

  // ------------------------------------------------ sums

  function Sum(queue: seq<Item>): nat {
    if queue == [] then 0 else queue[0].size + Sum(queue[1..])
  }

  function Total(l: Load): nat {
    Sum(l.queue) + if l.pending.Some? then l.pending.value else 0
  }

  lemma {:induction false} SumAppend(queue: seq<Item>, i: Item)
    ensures Sum(queue + [i]) == Sum(queue) + i.size
  {
    if queue == [] {
      assert queue + [i] == [i] && [i][1..] == [];
    } else {
      SumAppend(queue[1..], i);
      assert (queue + [i])[0] == queue[0] && (queue + [i])[1..] == queue[1..] + [i];
    }
  }

  lemma {:induction false} SumBounds(queue: seq<Item>, p: nat)
    requires p < |queue|
    ensures queue[p].size <= Sum(queue)
    ensures p > 0 ==> queue[0].size + queue[p].size <= Sum(queue)
  {
    if p > 0 {
      SumBounds(queue[1..], p - 1);
    }
  }

  lemma SumTwo(queue: seq<Item>)
    requires |queue| == 2
    ensures Sum(queue) == queue[0].size + queue[1].size
  {
    var rest := queue[1..];
    assert Sum(rest) == rest[0].size + Sum(rest[1..]) && rest[1..] == [];
  }

  lemma RoundTotal(l: Load, alive: bool)
    requires l.queue != []
    ensures Total(Round(l, alive)) == Total(l)
  {
    var first, rest := l.queue[0], l.queue[1..];
    SumAppend(rest, first);
    if l.pending.Some? {
      SumAppend(rest, Item(l.pending.value + first.size, true));
    }
  }

  // ------------------------------------------------ when no schedule overruns

  ghost predicate AtLeast(queue: seq<Item>, m: nat) {
    forall i :: 0 <= i < |queue| ==> m <= queue[i].size
  }

  /** A packet leaves at least one other task behind, so it carries no more than all but the smallest. */
  lemma {:induction false} SmallLoadFits(l: Load, answers: seq<bool>, limit: nat, m: nat)
    requires AtLeast(l.queue, m) && Total(l) - m + 3 <= limit
    ensures LoadFits(l, answers, limit)
    decreases Left(l), |answers|
  {
    if |l.queue| > 1 {
      SumBounds(l.queue, 1);
      RoundTotal(l, Alive(answers));
      SmallLoadFits(Round(l, Alive(answers)), Later(answers), limit, m);
    }
  }

  /** Two sort tasks: each may be sent, their merge never is. */
  lemma {:induction false} TwoTasksFit(l: Load, answers: seq<bool>, limit: nat)
    requires |l.queue| == 2 && l.pending.None? && Words(l.queue[0]) <= limit && Words(l.queue[1]) <= limit
    ensures LoadFits(l, answers, limit)
    decreases |answers|
  {
    if !Alive(answers) {
      TwoTasksFit(Round(l, false), Later(answers), limit);
    }
  }

  // ------------------------------------------------ when some schedule does

  /** Work is left that will merge everything but the task at p. */
  predicate WillMerge(l: Load, p: nat) {
    && p < |l.queue| && |l.queue| >= 2
    && (|l.queue| >= 3 || l.pending.Some? || l.queue[1 - p].merged)
  }

  /** A schedule in which the worker of the task at p always dies and every other worker answers: in the end
      one packet carries all the other numbers. */
  function Starve(l: Load, p: nat): seq<bool>
    requires WillMerge(l, p)
    decreases Left(l), if p == 0 then 1 else 0
  {
    if p == 0 then [false] + Starve(Round(l, false), |l.queue| - 1)
    else if |l.queue| == 2 && l.pending.None? then []
    else [true] + Starve(Round(l, true), p - 1)
  }

  lemma {:induction false} StarvingOverruns(l: Load, p: nat, limit: nat)
    requires WillMerge(l, p) && Total(l) - l.queue[p].size + 3 > limit
    ensures !LoadFits(l, Starve(l, p), limit)
    decreases Left(l), if p == 0 then 1 else 0
  {
    var answers := Starve(l, p);
    if p == 0 {
      RoundTotal(l, false);
      StarvingOverruns(Round(l, false), |l.queue| - 1, limit);
      assert Later(answers) == Starve(Round(l, false), |l.queue| - 1);
    } else if |l.queue| == 2 && l.pending.None? {
      SumTwo(l.queue);
    } else {
      RoundTotal(l, true);
      StarvingOverruns(Round(l, true), p - 1, limit);
      assert Later(answers) == Starve(Round(l, true), p - 1);
    }
  }

  // ------------------------------------------------ the exact bound

  function Smallest(queue: seq<Item>): (p: nat)
    requires queue != []
    ensures p < |queue| && AtLeast(queue, queue[p].size)
  {
    if |queue| == 1 then 0
    else
      var p := Smallest(queue[1..]) + 1;
      assert forall i :: 1 <= i < |queue| ==> queue[i] == queue[1..][i - 1];
      if queue[0].size <= queue[p].size then 0 else p
  }

  /** Of one task nothing is sent, of two their own packets; with more, some schedule has one packet carry
      everything but the smallest task. */
  predicate Bounded(queue: seq<Item>, limit: nat) {
    if |queue| <= 1 then true
    else if |queue| == 2 then Words(queue[0]) <= limit && Words(queue[1]) <= limit
    else Sum(queue) - queue[Smallest(queue)].size + 3 <= limit
  }

  ghost predicate NeverOverruns(l: Load, limit: nat) {
    forall answers :: LoadFits(l, answers, limit)
  }

  lemma TwoTasksExactly(l: Load, limit: nat)
    requires |l.queue| == 2 && l.pending.None?
    ensures NeverOverruns(l, limit) <==> Bounded(l.queue, limit)
  {
    if Bounded(l.queue, limit) {
      forall answers ensures LoadFits(l, answers, limit) {
        TwoTasksFit(l, answers, limit);
      }
    } else {
      assert Round(l, false).queue[0] == l.queue[1];
      assert !LoadFits(l, [false], limit);
    }
  }

  /** No schedule of failures overruns the buffer if and only if the bound holds. */
  lemma NeverOverrunsExactly(l: Load, limit: nat)
    requires l.pending.None?
    ensures NeverOverruns(l, limit) <==> Bounded(l.queue, limit)
  {
    if |l.queue| == 2 {
      TwoTasksExactly(l, limit);
    } else if |l.queue| >= 3 {
      var p := Smallest(l.queue);
      SumBounds(l.queue, p);
      if Bounded(l.queue, limit) {
        forall answers ensures LoadFits(l, answers, limit) {
          SmallLoadFits(l, answers, limit, l.queue[p].size);
        }
      } else {
        StarvingOverruns(l, p, limit);
      }
    }
  }

  lemma RunsAreLoads(f: Farm)
    requires Invariant(f) && Idle(f)
    ensures RunsAlwaysFit(f) <==> NeverOverruns(LoadOf(f), MAX_PACKET_SIZE)
  {
    if RunsAlwaysFit(f) {
      forall answers ensures LoadFits(LoadOf(f), answers, MAX_PACKET_SIZE) {
        RunIsLoad(f, answers);
      }
    }
    if NeverOverruns(LoadOf(f), MAX_PACKET_SIZE) {
      forall answers ensures RunFits(f, answers) {
        RunIsLoad(f, answers);
      }
    }
  }

  /** A master that enters the main loop overruns its buffer under no schedule if and only if its queue is
      within the bound. */
  lemma RunsFitExactly(f: Farm)
    requires Fresh(f)
    ensures RunsAlwaysFit(f) <==> Bounded(Items(f.queue), MAX_PACKET_SIZE)
  {
    RunsAreLoads(f);
    NeverOverrunsExactly(LoadOf(f), MAX_PACKET_SIZE);
  }
}
