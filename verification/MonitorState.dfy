/** The generic monitor as a state machine: one atomic step per operation, the monitor handed over by
    planifica to the thread it releases. */
module MonitorState {
  import opened Options

  type Thread = nat

  const SIGNAL_AND_WAIT: int := 0
  const SIGNAL_AND_CONTINUE: int := 1

  /** What the Inc and Dec callbacks have counted */
  datatype Counts = Counts(enter: int, signal: int, wait: int, cond: seq<int>)

  datatype State = State(
    policy: int, owner: Option<Thread>,
    entry: seq<Thread>, signaled: seq<Thread>, waiting: seq<Thread>, conditions: seq<seq<Thread>>,
    entered: set<Thread>, counts: Counts)

  // ------------------------------------------------ operations

  /** The owner gives the monitor up: first to Waiting, then (through Waiting) to Signaled, then to Entry. */
  function Planifica(s: State): State
    decreases if s.waiting == [] then 1 else 0
  {
    if s.waiting != [] then
      s.(owner := Some(s.waiting[0]), waiting := s.waiting[1..], counts := s.counts.(wait := s.counts.wait - 1))
    else if s.signaled != [] then
      Planifica(s.(signaled := s.signaled[1..], waiting := s.waiting + [s.signaled[0]],
                   counts := s.counts.(signal := s.counts.signal - 1, wait := s.counts.wait + 1)))
    else if s.entry != [] then
      s.(owner := Some(s.entry[0]), entry := s.entry[1..], entered := s.entered + {s.entry[0]},
         counts := s.counts.(enter := s.counts.enter - 1))
    else
      s.(owner := None)
  }

  /** Result codes: 0, or -1 when the call is refused */
  function Enter(s: State, t: Thread): (State, int) {
    if t in s.entered then (s, -1)
    else if s.owner.None? then (s.(owner := Some(t), entered := s.entered + {t}), 0)
    else (s.(entry := s.entry + [t], counts := s.counts.(enter := s.counts.enter + 1)), 0)
  }

  function Leave(s: State, t: Thread): (State, int) {
    if t !in s.entered then (s, -1)
    else (Planifica(s.(entered := s.entered - {t})), 0)
  }

  function PushCond(s: State, t: Thread, c: nat): State
    requires c < |s.conditions| == |s.counts.cond|
  {
    s.(conditions := s.conditions[c := s.conditions[c] + [t]],
       counts := s.counts.(cond := s.counts.cond[c := s.counts.cond[c] + 1]))
  }

  /** The first thread of a condition queue becomes ready to run. */
  function PopCond(s: State, c: nat): State
    requires c < |s.conditions| == |s.counts.cond| && s.conditions[c] != []
  {
    s.(conditions := s.conditions[c := s.conditions[c][1..]], waiting := s.waiting + [s.conditions[c][0]],
       counts := s.counts.(cond := s.counts.cond[c := s.counts.cond[c] - 1], wait := s.counts.wait + 1))
  }

  function PopAll(s: State, c: nat): State
    requires c < |s.conditions| == |s.counts.cond|
    decreases |s.conditions[c]|
  {
    if s.conditions[c] == [] then s else PopAll(PopCond(s, c), c)
  }

  /** The signaller steps back under SIGNAL_AND_WAIT. */
  function StepBack(s: State, t: Thread): State {
    Planifica(s.(signaled := s.signaled + [t], counts := s.counts.(signal := s.counts.signal + 1)))
  }

  function Wait(s: State, t: Thread, c: nat): (State, int)
    requires |s.conditions| == |s.counts.cond|
  {
    if c >= |s.conditions| then (s, -1) else (Planifica(PushCond(s, t, c)), 0)
  }

  function Signal(s: State, t: Thread, c: nat): (State, int)
    requires |s.conditions| == |s.counts.cond|
  {
    if c >= |s.conditions| then (s, -1)
    else
      var moved := if s.conditions[c] != [] then PopCond(s, c) else s;
      (if s.policy == SIGNAL_AND_WAIT then StepBack(moved, t) else moved, 0)
  }

  /** An unknown policy is reported only after the threads have been moved. */
  function Broadcast(s: State, t: Thread, c: nat): (State, int)
    requires |s.conditions| == |s.counts.cond|
  {
    if c >= |s.conditions| then (s, -1)
    else
      var moved := PopAll(s, c);
      if s.policy == SIGNAL_AND_WAIT then (StepBack(moved, t), 0)
      else (moved, if s.policy == SIGNAL_AND_CONTINUE then 0 else -1)
  }

  // ------------------------------------------------ where threads are

  function Occurs(queue: seq<Thread>, t: Thread): nat {
    multiset(queue)[t]
  }

  function CondOccurs(conditions: seq<seq<Thread>>, t: Thread): nat {
    if conditions == [] then 0 else Occurs(conditions[0], t) + CondOccurs(conditions[1..], t)
  }

  function Owns(s: State, t: Thread): nat {
    if s.owner == Some(t) then 1 else 0
  }

  /** The places thread t holds inside the monitor or blocked in it, the entry queue excepted */
  function Admitted(s: State, t: Thread): nat {
    Owns(s, t) + Occurs(s.signaled, t) + Occurs(s.waiting, t) + CondOccurs(s.conditions, t)
  }

  /** All places thread t holds in the monitor; 0 when it has no business there */
  function Places(s: State, t: Thread): nat {
    Admitted(s, t) + Occurs(s.entry, t)
  }

  ghost predicate CountsAgree(s: State) {
    && |s.conditions| == |s.counts.cond|
    && s.counts.enter == |s.entry| && s.counts.signal == |s.signaled| && s.counts.wait == |s.waiting|
    && forall c :: 0 <= c < |s.conditions| ==> s.counts.cond[c] == |s.conditions[c]|
  }

  ghost predicate OnePlaceEach(s: State) {
    forall t :: Places(s, t) <= 1
  }

  ghost predicate EnteredAgrees(s: State) {
    forall t :: t in s.entered <==> Admitted(s, t) > 0
  }

  /** An idle monitor keeps nobody waiting who could run. */
  ghost predicate IdleIsEmpty(s: State) {
    s.owner.None? ==> s.waiting == [] && s.signaled == [] && s.entry == []
  }

  ghost predicate Invariant(s: State) {
    CountsAgree(s) && OnePlaceEach(s) && EnteredAgrees(s) && IdleIsEmpty(s)
  }

  // ------------------------------------------------ planifica

  /** The thread that gets the monitor next */
  function Candidate(s: State): Option<Thread> {
    if s.waiting != [] then Some(s.waiting[0])
    else if s.signaled != [] then Some(s.signaled[0])
    else if s.entry != [] then Some(s.entry[0])
    else None
  }

  /** planifica hands the monitor to exactly one thread, the head of the first non-empty queue in the
      order Waiting, Signaled, Entry, and moves nobody else. */
  lemma PlanificaPicks(s: State)
    ensures var r := Planifica(s);
            && r.owner == Candidate(s)
            && r.policy == s.policy && r.conditions == s.conditions && r.counts.cond == s.counts.cond
            && r.waiting == (if s.waiting != [] then s.waiting[1..] else [])
            && r.signaled == (if s.waiting == [] && s.signaled != [] then s.signaled[1..] else s.signaled)
            && r.entry == (if s.waiting == [] && s.signaled == [] && s.entry != [] then s.entry[1..] else s.entry)
            && r.entered == (if s.waiting == [] && s.signaled == [] && s.entry != []
                             then s.entered + {s.entry[0]} else s.entered)
            && (r.owner.None? ==> r.waiting == [] && r.signaled == [] && r.entry == [])
  {
    if s.waiting == [] && s.signaled != [] {
      assert ([] + [s.signaled[0]])[1..] == [];
    }
  }

  lemma PlanificaCounts(s: State)
    requires CountsAgree(s)
    ensures CountsAgree(Planifica(s))
  {
  }

  lemma HeadAndTail(q: seq<Thread>, t: Thread)
    requires q != []
    ensures Occurs(q, t) == (if q[0] == t then 1 else 0) + Occurs(q[1..], t)
  {
    assert q == [q[0]] + q[1..];
  }

  /** The previous owner's place passes to the released thread; everyone else keeps theirs. */
  lemma PlanificaPlaces(s: State, t: Thread)
    ensures Places(Planifica(s), t) == Places(s, t) - Owns(s, t)
    ensures Admitted(Planifica(s), t) == Admitted(s, t) - Owns(s, t) +
            if s.waiting == [] && s.signaled == [] && s.entry != [] && s.entry[0] == t then 1 else 0
  {
    PlanificaPicks(s);
    if s.waiting != [] { HeadAndTail(s.waiting, t); }
    if s.signaled != [] { HeadAndTail(s.signaled, t); }
    if s.entry != [] { HeadAndTail(s.entry, t); }
  }

  lemma PlanificaKeeps(s: State)
    requires CountsAgree(s)
    requires forall t :: Places(s, t) - Owns(s, t) <= 1
    requires forall t :: t in s.entered <==> Admitted(s, t) - Owns(s, t) > 0
    ensures Invariant(Planifica(s))
  {
    PlanificaCounts(s);
    PlanificaPicks(s);
    forall t
      ensures Places(Planifica(s), t) <= 1
      ensures t in Planifica(s).entered <==> Admitted(Planifica(s), t) > 0
    {
      PlanificaPlaces(s, t);
    }
  }

  // ------------------------------------------------ condition queues

  lemma {:induction false} CondUpdate(conditions: seq<seq<Thread>>, c: nat, q: seq<Thread>, t: Thread)
    requires c < |conditions|
    ensures CondOccurs(conditions[c := q], t) == CondOccurs(conditions, t) - Occurs(conditions[c], t) + Occurs(q, t)
    ensures Occurs(conditions[c], t) <= CondOccurs(conditions, t)
  {
    if c > 0 {
      CondUpdate(conditions[1..], c - 1, q, t);
      assert conditions[c := q][1..] == conditions[1..][c - 1 := q];
    } else {
      assert conditions[c := q][1..] == conditions[1..];
    }
  }

  lemma PopCondPlaces(s: State, c: nat, t: Thread)
    requires c < |s.conditions| == |s.counts.cond| && s.conditions[c] != []
    ensures Admitted(PopCond(s, c), t) == Admitted(s, t)
  {
    CondUpdate(s.conditions, c, s.conditions[c][1..], t);
    HeadAndTail(s.conditions[c], t);
  }

  /** Broadcast empties the queue into Waiting, in order. */
  lemma {:induction false} PopAllMoves(s: State, c: nat)
    requires CountsAgree(s) && c < |s.conditions|
    ensures CountsAgree(PopAll(s, c))
    ensures PopAll(s, c) == s.(conditions := s.conditions[c := []], waiting := s.waiting + s.conditions[c],
                               counts := PopAll(s, c).counts)
    ensures forall t :: Admitted(PopAll(s, c), t) == Admitted(s, t)
    decreases |s.conditions[c]|
  {
    var q := s.conditions[c];
    if q == [] {
      assert s.conditions[c := []] == s.conditions;
      assert s.waiting + [] == s.waiting;
    } else {
      var r := PopCond(s, c);
      PopAllMoves(r, c);
      assert r.conditions[c := []] == s.conditions[c := []];
      assert s.waiting + [q[0]] + q[1..] == s.waiting + q;
      forall t ensures Admitted(PopAll(s, c), t) == Admitted(s, t) { PopCondPlaces(s, c, t); }
    }
  }

  // ------------------------------------------------ the invariant over every operation

  lemma EnterPlaces(s: State, t: Thread, u: Thread)
    requires Occurs(s.entry, t) == 0 && EnteredAgrees(s)
    ensures Places(Enter(s, t).0, u) == Places(s, u) + if u == t && Enter(s, t).1 == 0 then 1 else 0
    ensures u in Enter(s, t).0.entered <==> Admitted(Enter(s, t).0, u) > 0
    ensures Enter(s, t).1 == 0 ==> Places(s, t) == 0
  {
    assert t !in s.entered ==> Admitted(s, t) == 0;
  }

  /** A thread that is not inside either takes the free monitor or joins the entry queue. */
  lemma EnterKeeps(s: State, t: Thread)
    requires Invariant(s) && Occurs(s.entry, t) == 0
    ensures Invariant(Enter(s, t).0)
    ensures forall u :: Places(Enter(s, t).0, u) == Places(s, u) + if u == t && Enter(s, t).1 == 0 then 1 else 0
  {
    forall u
      ensures Places(Enter(s, t).0, u) == Places(s, u) + if u == t && Enter(s, t).1 == 0 then 1 else 0
      ensures Places(Enter(s, t).0, u) <= 1
      ensures u in Enter(s, t).0.entered <==> Admitted(Enter(s, t).0, u) > 0
    {
      EnterPlaces(s, t, u);
    }
  }

  lemma LeaveKeeps(s: State, t: Thread)
    requires Invariant(s) && (t in s.entered ==> s.owner == Some(t))
    ensures Invariant(Leave(s, t).0)
    ensures forall u :: Places(Leave(s, t).0, u) == Places(s, u) - if u == t && Leave(s, t).1 == 0 then 1 else 0
  {
    if t in s.entered {
      var left := s.(entered := s.entered - {t});
      forall u ensures Places(left, u) == Places(s, u) && Admitted(left, u) == Admitted(s, u) {}
      PlanificaKeeps(left);
      forall u ensures Places(Planifica(left), u) == Places(s, u) - if u == t then 1 else 0 { PlanificaPlaces(left, u); }
    }
  }

  lemma PushCondPlaces(s: State, t: Thread, c: nat, u: Thread)
    requires c < |s.conditions| == |s.counts.cond|
    ensures Admitted(PushCond(s, t, c), u) == Admitted(s, u) + if u == t then 1 else 0
  {
    CondUpdate(s.conditions, c, s.conditions[c] + [t], u);
  }

  lemma WaitKeeps(s: State, t: Thread, c: nat)
    requires Invariant(s) && s.owner == Some(t)
    ensures Invariant(Wait(s, t, c).0)
    ensures forall u :: Places(Wait(s, t, c).0, u) == Places(s, u)
  {
    if c < |s.conditions| {
      var pushed := PushCond(s, t, c);
      forall u
        ensures Places(pushed, u) - Owns(pushed, u) == Places(s, u)
        ensures Admitted(pushed, u) - Owns(pushed, u) == Admitted(s, u)
      {
        PushCondPlaces(s, t, c, u);
      }
      PlanificaKeeps(pushed);
      forall u ensures Places(Planifica(pushed), u) == Places(s, u) { PlanificaPlaces(pushed, u); }
    }
  }

  /** What Signal and Broadcast do to the queues before any change of owner */
  ghost predicate Moved(s: State, m: State) {
    && m.owner == s.owner && m.entry == s.entry && m.signaled == s.signaled && m.entered == s.entered
    && m.policy == s.policy && CountsAgree(m) && forall u :: Admitted(m, u) == Admitted(s, u)
  }

  lemma StepBackKeeps(s: State, m: State, t: Thread)
    requires Invariant(s) && s.owner == Some(t) && Moved(s, m)
    ensures Invariant(m) && Invariant(StepBack(m, t))
    ensures forall u :: Places(m, u) == Places(s, u) && Places(StepBack(m, t), u) == Places(s, u)
  {
    var back := m.(signaled := m.signaled + [t], counts := m.counts.(signal := m.counts.signal + 1));
    forall u
      ensures Places(back, u) - Owns(back, u) == Places(s, u)
      ensures Admitted(back, u) - Owns(back, u) == Admitted(s, u)
    {
      assert Occurs(m.signaled + [t], u) == Occurs(m.signaled, u) + if u == t then 1 else 0;
    }
    PlanificaKeeps(back);
    forall u ensures Places(StepBack(m, t), u) == Places(s, u) { PlanificaPlaces(back, u); }
  }

  lemma SignalKeeps(s: State, t: Thread, c: nat)
    requires Invariant(s) && s.owner == Some(t)
    ensures Invariant(Signal(s, t, c).0)
    ensures forall u :: Places(Signal(s, t, c).0, u) == Places(s, u)
  {
    if c < |s.conditions| {
      var m := if s.conditions[c] != [] then PopCond(s, c) else s;
      if s.conditions[c] != [] {
        forall u ensures Admitted(m, u) == Admitted(s, u) { PopCondPlaces(s, c, u); }
      }
      StepBackKeeps(s, m, t);
    }
  }

  lemma BroadcastKeeps(s: State, t: Thread, c: nat)
    requires Invariant(s) && s.owner == Some(t)
    ensures Invariant(Broadcast(s, t, c).0)
    ensures forall u :: Places(Broadcast(s, t, c).0, u) == Places(s, u)
  {
    if c < |s.conditions| {
      PopAllMoves(s, c);
      StepBackKeeps(s, PopAll(s, c), t);
    }
  }

  // ------------------------------------------------ runs

  datatype Op =
    | EnterOp(t: Thread) | LeaveOp(t: Thread)
    | WaitOp(t: Thread, c: nat) | SignalOp(t: Thread, c: nat) | BroadcastOp(t: Thread, c: nat)

  /** Only running threads make calls: Enter and a refused Leave from outside, the rest by the owner. */
  ghost predicate CanCall(s: State, op: Op) {
    match op
    case EnterOp(t) => Places(s, t) == 0 || s.owner == Some(t)
    case LeaveOp(t) => Places(s, t) == 0 || s.owner == Some(t)
    case _ => s.owner == Some(op.t)
  }

  function Apply(s: State, op: Op): (State, int)
    requires |s.conditions| == |s.counts.cond|
  {
    match op
    case EnterOp(t) => Enter(s, t)
    case LeaveOp(t) => Leave(s, t)
    case WaitOp(t, c) => Wait(s, t, c)
    case SignalOp(t, c) => Signal(s, t, c)
    case BroadcastOp(t, c) => Broadcast(s, t, c)
  }

  function Initial(conditions: nat, policy: int): State {
    State(policy, None, [], [], [], seq(conditions, _ => []), {}, Counts(0, 0, 0, seq(conditions, _ => 0)))
  }

  ghost predicate IsRun(run: seq<State>, ops: seq<Op>) {
    && |run| == |ops| + 1
    && forall k :: 0 <= k < |ops| ==>
         && |run[k].conditions| == |run[k].counts.cond|
         && CanCall(run[k], ops[k]) && run[k + 1] == Apply(run[k], ops[k]).0
  }

  lemma {:induction false} InitialPlaces(conditions: seq<seq<Thread>>, t: Thread)
    requires forall c :: 0 <= c < |conditions| ==> conditions[c] == []
    ensures CondOccurs(conditions, t) == 0
  {
    if conditions != [] { InitialPlaces(conditions[1..], t); }
  }

  lemma InitialInvariant(conditions: nat, policy: int)
    ensures Invariant(Initial(conditions, policy))
  {
    var s := Initial(conditions, policy);
    forall t ensures Places(s, t) <= 1 && (t in s.entered <==> Admitted(s, t) > 0) {
      InitialPlaces(s.conditions, t);
    }
  }

  lemma ApplyKeeps(s: State, op: Op)
    requires Invariant(s) && CanCall(s, op)
    ensures Invariant(Apply(s, op).0)
  {
    match op
    case EnterOp(t) => EnterKeeps(s, t);
    case LeaveOp(t) => LeaveKeeps(s, t);
    case WaitOp(t, c) => WaitKeeps(s, t, c);
    case SignalOp(t, c) => SignalKeeps(s, t, c);
    case BroadcastOp(t, c) => BroadcastKeeps(s, t, c);
  }

  /** In every reachable state, under either policy: each thread is in at most one place, the callback
      counts are the queue lengths, and an idle monitor has nobody ready to run. */
  lemma {:induction false} ReachableInvariant(run: seq<State>, ops: seq<Op>, conditions: nat, policy: int)
    requires IsRun(run, ops) && run[0] == Initial(conditions, policy)
    ensures Invariant(run[|ops|])
  {
    if ops == [] {
      InitialInvariant(conditions, policy);
    } else {
      var n := |ops| - 1;
      assert IsRun(run[..n + 1], ops[..n]);
      ReachableInvariant(run[..n + 1], ops[..n], conditions, policy);
      ApplyKeeps(run[n], ops[n]);
    }
  }
}
