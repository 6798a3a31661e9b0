/** The monitor object, whose operations change its queues in place. */
module MonitorObject {
  import opened Options
  import S = MonitorState

  class Monitor {
    const policy: int
    var owner: Option<S.Thread>
    var entryQueue: seq<S.Thread>
    var signaledQueue: seq<S.Thread>
    var waitingQueue: seq<S.Thread>
    var conditionsQueue: seq<seq<S.Thread>>
    var enteredThreads: set<S.Thread>
    var incEnter: int
    var incSignal: int
    var incWait: int
    var incCond: seq<int>

    constructor (conditions: nat, policy: int)
      ensures View() == S.Initial(conditions, policy) && Valid()
    {
      this.policy := policy;
      owner, entryQueue, signaledQueue, waitingQueue := None, [], [], [];
      conditionsQueue := seq(conditions, _ => []);
      enteredThreads := {};
      incEnter, incSignal, incWait := 0, 0, 0;
      incCond := seq(conditions, _ => 0);
    }

    ghost function View(): S.State
      reads this
    {
      S.State(policy, owner, entryQueue, signaledQueue, waitingQueue, conditionsQueue, enteredThreads,
              S.Counts(incEnter, incSignal, incWait, incCond))
    }

    ghost predicate Valid()
      reads this
    {
      |conditionsQueue| == |incCond|
    }

    /** True when some thread was released */
    method Planifica() returns (ok: bool)
      requires Valid()
      modifies this
      ensures Valid() && View() == S.Planifica(old(View()))
      ensures ok == owner.Some?
      decreases if waitingQueue == [] then 1 else 0
    {
      if |waitingQueue| > 0 {
        owner := Some(waitingQueue[0]);
        waitingQueue := waitingQueue[1..];
        incWait := incWait - 1;
        return true;
      } else if |signaledQueue| > 0 {
        var thread := signaledQueue[0];
        signaledQueue := signaledQueue[1..];
        incSignal := incSignal - 1;
        waitingQueue := waitingQueue + [thread];
        incWait := incWait + 1;
        ok := Planifica();
      } else if |entryQueue| > 0 {
        var thread := entryQueue[0];
        entryQueue := entryQueue[1..];
        incEnter := incEnter - 1;
        owner := Some(thread);
        enteredThreads := enteredThreads + {thread};
        return true;
      } else {
        owner := None;
        return false;
      }
    }

    method Enter(t: S.Thread) returns (rc: int)
      requires Valid()
      modifies this
      ensures Valid() && (View(), rc) == S.Enter(old(View()), t)
    {
      if t in enteredThreads {
        return -1;
      }
      if owner.None? {
        owner := Some(t);
        enteredThreads := enteredThreads + {t};
      } else {
        entryQueue := entryQueue + [t];
        incEnter := incEnter + 1;
      }
      return 0;
    }

    method Leave(t: S.Thread) returns (rc: int)
      requires Valid()
      modifies this
      ensures Valid() && (View(), rc) == S.Leave(old(View()), t)
    {
      if t !in enteredThreads {
        return -1;
      }
      enteredThreads := enteredThreads - {t};
      var ok := Planifica();
      return 0;
    }

    method Wait(t: S.Thread, cond: nat) returns (rc: int)
      requires Valid()
      modifies this
      ensures Valid() && (View(), rc) == S.Wait(old(View()), t, cond)
    {
      if cond >= |conditionsQueue| {
        return -1;
      }
      conditionsQueue := conditionsQueue[cond := conditionsQueue[cond] + [t]];
      incCond := incCond[cond := incCond[cond] + 1];
      var ok := Planifica();
      return 0;
    }

    method StepBack(t: S.Thread)
      requires Valid()
      modifies this
      ensures Valid() && View() == S.StepBack(old(View()), t)
    {
      signaledQueue := signaledQueue + [t];
      incSignal := incSignal + 1;
      var ok := Planifica();
    }

    method Signal(t: S.Thread, cond: nat) returns (rc: int)
      requires Valid()
      modifies this
      ensures Valid() && (View(), rc) == S.Signal(old(View()), t, cond)
    {
      if cond >= |conditionsQueue| {
        return -1;
      }
      if |conditionsQueue[cond]| > 0 {
        var thread := conditionsQueue[cond][0];
        conditionsQueue := conditionsQueue[cond := conditionsQueue[cond][1..]];
        incCond := incCond[cond := incCond[cond] - 1];
        waitingQueue := waitingQueue + [thread];
        incWait := incWait + 1;
      }
      if policy == S.SIGNAL_AND_WAIT {
        StepBack(t);
      }
      return 0;
    }

    method Broadcast(t: S.Thread, cond: nat) returns (rc: int)
      requires Valid()
      modifies this
      ensures Valid() && (View(), rc) == S.Broadcast(old(View()), t, cond)
    {
      if cond >= |conditionsQueue| {
        return -1;
      }
      while |conditionsQueue[cond]| > 0
        invariant Valid() && cond < |conditionsQueue|
        invariant S.PopAll(View(), cond) == S.PopAll(old(View()), cond)
        decreases |conditionsQueue[cond]|
      {
        waitingQueue := waitingQueue + [conditionsQueue[cond][0]];
        conditionsQueue := conditionsQueue[cond := conditionsQueue[cond][1..]];
        incWait := incWait + 1;
        incCond := incCond[cond := incCond[cond] - 1];
      }
      if policy == S.SIGNAL_AND_WAIT {
        StepBack(t);
      } else if policy != S.SIGNAL_AND_CONTINUE {
        return -1;
      }
      return 0;
    }
  }
}
