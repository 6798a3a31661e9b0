/** In what order the monitor serves the threads: what each operation does to the owner and to every queue,
    and that no queue is ever left out of turn. */
module MonitorOrder {
  import opened Options
  import opened MonitorState

  /** The first thread of a queue, if there is one */
  function First(q: seq<Thread>): seq<Thread> {
    if q == [] then [] else [q[0]]
  }

  function Rest(q: seq<Thread>): seq<Thread> {
    if q == [] then [] else q[1..]
  }

  /** The monitor passes from the threads w in Waiting, g in Signaled and e in Entry: the first of them, in
      this order, owns it, and all others keep their places. */
  ghost predicate Served(w: seq<Thread>, g: seq<Thread>, e: seq<Thread>, r: State) {
    && r.owner == (if w != [] then Some(w[0]) else if g != [] then Some(g[0]) else if e != [] then Some(e[0]) else None)
    && r.waiting == Rest(w)
    && r.signaled == (if w == [] then Rest(g) else g)
    && r.entry == if w == [] && g == [] then Rest(e) else e
  }

  // ------------------------------------------------ every operation

  /** A thread inside is refused; the free monitor is taken; else the caller is last in Entry. */
  lemma EnterExactly(s: State, t: Thread)
    ensures var (r, rc) := Enter(s, t);
            && (rc == -1 <==> t in s.entered) && (rc == 0 <==> t !in s.entered)
            && r.waiting == s.waiting && r.signaled == s.signaled && r.conditions == s.conditions
            && r.owner == (if rc == 0 && s.owner.None? then Some(t) else s.owner)
            && r.entry == if rc == 0 && s.owner.Some? then s.entry + [t] else s.entry
  {}

  /** A thread that is not inside is refused; else the monitor passes on. */
  lemma LeaveExactly(s: State, t: Thread)
    ensures var (r, rc) := Leave(s, t);
            && (rc == -1 <==> t !in s.entered) && (rc == 0 <==> t in s.entered)
            && (rc == -1 ==> r == s)
            && (rc == 0 ==> Served(s.waiting, s.signaled, s.entry, r) && r.conditions == s.conditions)
  {
    PlanificaPicks(s.(entered := s.entered - {t}));
  }

  /** An unknown condition is refused; else the caller is last in its queue and the monitor passes on. */
  lemma WaitExactly(s: State, t: Thread, c: nat)
    requires |s.conditions| == |s.counts.cond|
    ensures var (r, rc) := Wait(s, t, c);
            && (rc == -1 <==> c >= |s.conditions|) && (rc == 0 <==> c < |s.conditions|)
            && (rc == -1 ==> r == s)
            && (rc == 0 ==>
                  && Served(s.waiting, s.signaled, s.entry, r)
                  && r.conditions == s.conditions[c := s.conditions[c] + [t]])
  {
    if c < |s.conditions| { PlanificaPicks(PushCond(s, t, c)); }
  }

  /** The threads that are woken become the last in Waiting. Under SIGNAL_AND_WAIT the caller becomes the last
      in Signaled and the monitor passes on; under any other policy the caller keeps it. */
  ghost predicate Woke(s: State, t: Thread, woken: seq<Thread>, r: State) {
    if s.policy == SIGNAL_AND_WAIT then Served(s.waiting + woken, s.signaled + [t], s.entry, r)
    else r.owner == s.owner && r.waiting == s.waiting + woken && r.signaled == s.signaled && r.entry == s.entry
  }

  lemma SignalExactly(s: State, t: Thread, c: nat)
    requires |s.conditions| == |s.counts.cond|
    ensures var (r, rc) := Signal(s, t, c);
            && (rc == -1 <==> c >= |s.conditions|) && (rc == 0 <==> c < |s.conditions|)
            && (rc == -1 ==> r == s)
            && (rc == 0 ==>
                  && Woke(s, t, First(s.conditions[c]), r)
                  && r.conditions == s.conditions[c := Rest(s.conditions[c])])
  {
    if c < |s.conditions| {
      var m := if s.conditions[c] != [] then PopCond(s, c) else s;
      assert m.waiting == s.waiting + First(s.conditions[c]);
      PlanificaPicks(m.(signaled := m.signaled + [t], counts := m.counts.(signal := m.counts.signal + 1)));
    }
  }

  /** The same for all threads of a condition; an unknown policy is an error, but the threads are woken. */
  lemma BroadcastExactly(s: State, t: Thread, c: nat)
    requires CountsAgree(s)
    ensures var (r, rc) := Broadcast(s, t, c);
            && (c >= |s.conditions| ==> rc == -1 && r == s)
            && (c < |s.conditions| ==>
                  && rc == (if s.policy == SIGNAL_AND_WAIT || s.policy == SIGNAL_AND_CONTINUE then 0 else -1)
                  && Woke(s, t, s.conditions[c], r)
                  && r.conditions == s.conditions[c := []])
  {
    if c < |s.conditions| {
      PopAllMoves(s, c);
      var m := PopAll(s, c);
      PlanificaPicks(m.(signaled := m.signaled + [t], counts := m.counts.(signal := m.counts.signal + 1)));
    }
  }

  /** Under SIGNAL_AND_WAIT the signalled thread runs at once when nobody else was ready, and the signaller
      is the next one to run. */
  lemma SignalHandsOver(s: State, t: Thread, c: nat)
    requires |s.conditions| == |s.counts.cond| && c < |s.conditions| && s.conditions[c] != []
    requires s.policy == SIGNAL_AND_WAIT && s.waiting == [] && s.signaled == []
    ensures var r := Signal(s, t, c).0;
            r.owner == Some(s.conditions[c][0]) && r.waiting == [] && r.signaled == [t]
    ensures forall u :: u in Signal(s, t, c).0.entered ==> Leave(Signal(s, t, c).0, u).0.owner == Some(t)
  {
    SignalExactly(s, t, c);
    var r := Signal(s, t, c).0;
    forall u | u in r.entered ensures Leave(r, u).0.owner == Some(t) { LeaveExactly(r, u); }
  }

  // ------------------------------------------------ no queue is left out of turn

  datatype Queue = EntryQueue | SignaledQueue | WaitingQueue | ConditionQueue(c: nat)

  function Of(s: State, q: Queue): seq<Thread> {
    match q
    case EntryQueue => s.entry
    case SignaledQueue => s.signaled
    case WaitingQueue => s.waiting
    case ConditionQueue(c) => if c < |s.conditions| then s.conditions[c] else []
  }

  /** Threads leave only from the front of a queue, and join only at its end. */
  ghost predicate Fifo(before: seq<Thread>, after: seq<Thread>) {
    exists n: nat, joined: seq<Thread> :: LeftAndJoined(before, n, joined, after)
  }

  ghost predicate LeftAndJoined(before: seq<Thread>, n: nat, joined: seq<Thread>, after: seq<Thread>) {
    n <= |before| && after == before[n..] + joined && forall t :: t in joined ==> t !in before
  }

  lemma RestIsFifo(q: seq<Thread>)
    ensures Fifo(q, q) && Fifo(q, Rest(q)) && Fifo(q, [])
  {
    assert LeftAndJoined(q, 0, [], q);
    assert LeftAndJoined(q, if q == [] then 0 else 1, [], Rest(q));
    assert LeftAndJoined(q, |q|, [], []);
  }

  lemma JoinedIsFifo(q: seq<Thread>, joined: seq<Thread>)
    requires forall t :: t in joined ==> t !in q
    ensures Fifo(q, q + joined) && Fifo(q, Rest(q + joined))
  {
    assert LeftAndJoined(q, 0, joined, q + joined);
    if q == [] {
      assert LeftAndJoined(q, 0, Rest(joined), Rest(q + joined));
    } else {
      assert LeftAndJoined(q, 1, joined, Rest(q + joined));
    }
  }

  lemma ServedIsFifo(s: State, woken: seq<Thread>, stepped: seq<Thread>, r: State)
    requires Served(s.waiting + woken, s.signaled + stepped, s.entry, r)
    requires forall t :: t in woken ==> t !in s.waiting
    requires forall t :: t in stepped ==> t !in s.signaled
    ensures Fifo(s.waiting, r.waiting) && Fifo(s.signaled, r.signaled) && Fifo(s.entry, r.entry)
  {
    JoinedIsFifo(s.waiting, woken);
    JoinedIsFifo(s.signaled, stepped);
    RestIsFifo(s.entry);
  }

  lemma WokeIsFifo(s: State, t: Thread, woken: seq<Thread>, r: State)
    requires Woke(s, t, woken, r) && t !in s.signaled && forall u :: u in woken ==> u !in s.waiting
    ensures Fifo(s.waiting, r.waiting) && Fifo(s.signaled, r.signaled) && Fifo(s.entry, r.entry)
  {
    if s.policy == SIGNAL_AND_WAIT {
      ServedIsFifo(s, woken, [t], r);
    } else {
      JoinedIsFifo(s.waiting, woken);
      RestIsFifo(s.signaled);
      RestIsFifo(s.entry);
    }
  }

  lemma PassedIsFifo(s: State, r: State)
    requires Served(s.waiting, s.signaled, s.entry, r)
    ensures Fifo(s.waiting, r.waiting) && Fifo(s.signaled, r.signaled) && Fifo(s.entry, r.entry)
  {
    RestIsFifo(s.waiting);
    RestIsFifo(s.signaled);
    RestIsFifo(s.entry);
  }

  lemma UnchangedIsFifo(s: State, q: Queue)
    ensures Fifo(Of(s, q), Of(s, q))
  {
    RestIsFifo(Of(s, q));
  }

  lemma ConditionsAreFifo(s: State, r: State, c: nat, q: seq<Thread>, k: nat)
    requires c < |s.conditions| && r.conditions == s.conditions[c := q] && Fifo(s.conditions[c], q)
    ensures Fifo(Of(s, ConditionQueue(k)), Of(r, ConditionQueue(k)))
  {
    if k != c { UnchangedIsFifo(s, ConditionQueue(k)); }
  }

  /** The running thread, and one outside the monitor, is in no queue. */
  lemma InNoQueue(s: State, t: Thread, q: Queue)
    requires OnePlaceEach(s) && (Places(s, t) == 0 || s.owner == Some(t))
    ensures t !in Of(s, q)
  {
    assert Places(s, t) <= 1;
    if q.ConditionQueue? && q.c < |s.conditions| { CondUpdate(s.conditions, q.c, [], t); }
  }

  /** A thread that waits for a condition is not in Waiting as well. */
  lemma BlockedIsNotReady(s: State, c: nat, t: Thread)
    requires OnePlaceEach(s) && c < |s.conditions| && t in s.conditions[c]
    ensures t !in s.waiting
  {
    assert Places(s, t) <= 1;
    CondUpdate(s.conditions, c, [], t);
  }

  lemma BlockedAreNotReady(s: State, c: nat)
    requires OnePlaceEach(s) && c < |s.conditions|
    ensures forall t :: t in s.conditions[c] ==> t !in s.waiting
  {
    forall t | t in s.conditions[c] ensures t !in s.waiting { BlockedIsNotReady(s, c, t); }
  }

  lemma EnterIsFifo(s: State, t: Thread, q: Queue)
    requires t !in s.entry
    ensures Fifo(Of(s, q), Of(Enter(s, t).0, q))
  {
    EnterExactly(s, t);
    UnchangedIsFifo(s, q);
    if q.EntryQueue? {
      JoinedIsFifo(s.entry, [t]);
    }
  }

  lemma LeaveIsFifo(s: State, t: Thread, q: Queue)
    ensures Fifo(Of(s, q), Of(Leave(s, t).0, q))
  {
    LeaveExactly(s, t);
    UnchangedIsFifo(s, q);
    if t in s.entered { PassedIsFifo(s, Leave(s, t).0); }
  }

  lemma WaitIsFifo(s: State, t: Thread, c: nat, q: Queue)
    requires Invariant(s) && s.owner == Some(t)
    ensures Fifo(Of(s, q), Of(Wait(s, t, c).0, q))
  {
    WaitExactly(s, t, c);
    UnchangedIsFifo(s, q);
    if c < |s.conditions| {
      var r := Wait(s, t, c).0;
      if q.ConditionQueue? {
        InNoQueue(s, t, ConditionQueue(c));
        JoinedIsFifo(s.conditions[c], [t]);
        ConditionsAreFifo(s, r, c, s.conditions[c] + [t], q.c);
      } else {
        PassedIsFifo(s, r);
      }
    }
  }

  lemma SignalIsFifo(s: State, t: Thread, c: nat, q: Queue)
    requires Invariant(s) && s.owner == Some(t)
    ensures Fifo(Of(s, q), Of(Signal(s, t, c).0, q))
  {
    SignalExactly(s, t, c);
    UnchangedIsFifo(s, q);
    if c < |s.conditions| {
      var r := Signal(s, t, c).0;
      InNoQueue(s, t, SignaledQueue);
      BlockedAreNotReady(s, c);
      WokeIsFifo(s, t, First(s.conditions[c]), r);
      RestIsFifo(s.conditions[c]);
      if q.ConditionQueue? { ConditionsAreFifo(s, r, c, Rest(s.conditions[c]), q.c); }
    }
  }

  lemma BroadcastIsFifo(s: State, t: Thread, c: nat, q: Queue)
    requires Invariant(s) && s.owner == Some(t)
    ensures Fifo(Of(s, q), Of(Broadcast(s, t, c).0, q))
  {
    BroadcastExactly(s, t, c);
    UnchangedIsFifo(s, q);
    if c < |s.conditions| {
      var r := Broadcast(s, t, c).0;
      InNoQueue(s, t, SignaledQueue);
      BlockedAreNotReady(s, c);
      WokeIsFifo(s, t, s.conditions[c], r);
      RestIsFifo(s.conditions[c]);
      if q.ConditionQueue? { ConditionsAreFifo(s, r, c, [], q.c); }
    }
  }

  /** Every operation leaves every queue in order. */
  lemma EveryQueueIsFifo(s: State, op: Op, q: Queue)
    requires Invariant(s) && CanCall(s, op)
    ensures Fifo(Of(s, q), Of(Apply(s, op).0, q))
  {
    match op
    case EnterOp(t) => InNoQueue(s, t, EntryQueue); EnterIsFifo(s, t, q);
    case LeaveOp(t) => LeaveIsFifo(s, t, q);
    case WaitOp(t, c) => WaitIsFifo(s, t, c, q);
    case SignalOp(t, c) => SignalIsFifo(s, t, c, q);
    case BroadcastOp(t, c) => BroadcastIsFifo(s, t, c, q);
  }

  // ------------------------------------------------ over every run

  /** t stands in front of u. */
  ghost predicate Ahead(q: seq<Thread>, t: Thread, u: Thread) {
    exists i, j :: 0 <= i < j < |q| && q[i] == t && q[j] == u
  }

  ghost predicate NoneTwice(q: seq<Thread>) {
    forall t :: Occurs(q, t) <= 1
  }

  lemma CountedTwice(q: seq<Thread>, i: nat, j: nat)
    requires i < j < |q| && q[i] == q[j]
    ensures Occurs(q, q[i]) >= 2
  {
    assert q == q[..i] + [q[i]] + q[i + 1..j] + [q[j]] + q[j + 1..];
  }

  lemma AtOnePosition(q: seq<Thread>, i: nat, j: nat)
    requires NoneTwice(q) && i < |q| && j < |q| && q[i] == q[j]
    ensures i == j
  {
    if i != j {
      CountedTwice(q, if i < j then i else j, if i < j then j else i);
    }
  }

  lemma StaysAhead(before: seq<Thread>, after: seq<Thread>, t: Thread, u: Thread)
    requires Fifo(before, after) && NoneTwice(before) && Ahead(before, t, u) && t in after
    ensures Ahead(after, t, u)
  {
    var n: nat, joined: seq<Thread> :| LeftAndJoined(before, n, joined, after);
    var i, j :| 0 <= i < j < |before| && before[i] == t && before[j] == u;
    var k :| 0 <= k < |before[n..]| && before[n..][k] == t;
    AtOnePosition(before, n + k, i);
    assert after[k] == t && after[j - n] == u;
  }

  lemma QueuesAreDistinct(s: State, q: Queue)
    requires OnePlaceEach(s)
    ensures NoneTwice(Of(s, q))
  {
    forall t ensures Occurs(Of(s, q), t) <= 1 {
      assert Places(s, t) <= 1;
      if q.ConditionQueue? && q.c < |s.conditions| { CondUpdate(s.conditions, q.c, [], t); }
    }
  }

  lemma RunStep(run: seq<State>, ops: seq<Op>, k: nat, next: State)
    requires IsRun(run, ops) && k < |ops| && next == run[k + 1]
    ensures |run[k].conditions| == |run[k].counts.cond|
    ensures CanCall(run[k], ops[k]) && next == Apply(run[k], ops[k]).0
  {}

  lemma ReachableAt(run: seq<State>, ops: seq<Op>, conditions: nat, policy: int, k: nat)
    requires IsRun(run, ops) && run[0] == Initial(conditions, policy) && k <= |ops|
    ensures Invariant(run[k])
  {
    assert IsRun(run[..k + 1], ops[..k]);
    ReachableInvariant(run[..k + 1], ops[..k], conditions, policy);
  }

  lemma RunIsOrderly(run: seq<State>, ops: seq<Op>, conditions: nat, policy: int, q: Queue, k: nat)
    requires IsRun(run, ops) && run[0] == Initial(conditions, policy) && k < |ops|
    ensures Fifo(Of(run[k], q), Of(run[k + 1], q)) && NoneTwice(Of(run[k], q))
  {
    ReachableAt(run, ops, conditions, policy, k);
    RunStep(run, ops, k, run[k + 1]);
    EveryQueueIsFifo(run[k], ops[k], q);
    QueuesAreDistinct(run[k], q);
  }

  /** What has been in one queue over time */
  function History(run: seq<State>, q: Queue): (queues: seq<seq<Thread>>)
    ensures |queues| == |run| && forall k :: 0 <= k < |run| ==> queues[k] == Of(run[k], q)
  {
    seq(|run|, k requires 0 <= k < |run| => Of(run[k], q))
  }

  /** Every queue is served in order, over every run and under every policy. */
  lemma QueuesAreOrderly(run: seq<State>, ops: seq<Op>, conditions: nat, policy: int, q: Queue)
    requires IsRun(run, ops) && run[0] == Initial(conditions, policy)
    ensures Orderly(History(run, q))
  {
    var queues := History(run, q);
    forall k | 0 <= k < |ops| ensures Fifo(queues[k], queues[k + 1]) && NoneTwice(queues[k]) {
      RunIsOrderly(run, ops, conditions, policy, q, k);
    }
  }

  ghost predicate Orderly(queues: seq<seq<Thread>>) {
    forall k :: 0 <= k < |queues| - 1 ==> Fifo(queues[k], queues[k + 1]) && NoneTwice(queues[k])
  }

  lemma {:induction false} OrderKeepsAhead(queues: seq<seq<Thread>>, i: nat, j: nat, t: Thread, u: Thread)
    requires Orderly(queues) && i <= j < |queues|
    requires Ahead(queues[i], t, u) && forall k :: i < k <= j ==> t in queues[k]
    ensures Ahead(queues[j], t, u)
  {
    if i < j {
      OrderKeepsAhead(queues, i, j - 1, t, u);
      StaysAhead(queues[j - 1], queues[j - 1 + 1], t, u);
    }
  }

  /** In every run and under every policy: a thread that stands behind another in a queue stays behind it for
      as long as the other is there, so it cannot get out first. */
  lemma NoOvertaking(run: seq<State>, ops: seq<Op>, conditions: nat, policy: int,
                     q: Queue, i: nat, j: nat, t: Thread, u: Thread)
    requires IsRun(run, ops) && run[0] == Initial(conditions, policy) && i <= j <= |ops|
    requires Ahead(History(run, q)[i], t, u) && forall k :: i < k <= j ==> t in History(run, q)[k]
    ensures Ahead(History(run, q)[j], t, u)
  {
    QueuesAreOrderly(run, ops, conditions, policy, q);
    OrderKeepsAhead(History(run, q), i, j, t, u);
  }
}
