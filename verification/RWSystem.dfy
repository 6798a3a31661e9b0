/** Readers and writers on the monitor itself: every run of the protocol on the monitor's scheduler is a
    run of the protocol under free scheduling, and an idle monitor with nobody reading or writing has
    nobody blocked. */
module RWSystem {
  import opened Options
  import opened MonitorState
  import RW = ReadersWriters

  datatype System = System(
    mon: State,
    nreaders: int, nwaitingreaders: int, nwriters: int, nwaitingwriters: int,
    phase: map<Thread, RW.Phase>, call: map<Thread, RW.Call>)

  const READ_COND: nat := 0
  const WRITE_COND: nat := 1

  /** The protocol's own view: counters, condition queues, phases */
  function View(s: System): RW.RW
    requires |s.mon.conditions| == 2
  {
    RW.RW(s.nreaders, s.nwaitingreaders, s.nwriters, s.nwaitingwriters,
          s.mon.conditions[READ_COND], s.mon.conditions[WRITE_COND], s.phase)
  }

  // ------------------------------------------------ steps

  /** A thread that is not in the monitor calls one of the four operations, which starts with Enter. */
  predicate CanStart(s: System, t: Thread, call: RW.Call) {
    && t in s.phase && Places(s.mon, t) == 0
    && match call
       case StartCit => s.phase[t] == RW.Outside
       case StopCit => s.phase[t] == RW.Reading
       case StartScrit => s.phase[t] == RW.Outside
       case StopScrit => s.phase[t] == RW.Writing
  }

  function Start(s: System, t: Thread, call: RW.Call): System {
    s.(mon := Enter(s.mon, t).0, call := s.call[t := call])
  }

  /** The owner of the monitor runs until it waits or leaves. */
  predicate CanRun(s: System, t: Thread) {
    s.mon.owner == Some(t) && t in s.phase && t in s.call && |s.mon.conditions| == |s.mon.counts.cond| == 2
  }

  function Run(s: System, t: Thread): System
    requires CanRun(s, t)
  {
    match s.call[t]
    case StartCit => RunStartCit(s, t)
    case StopCit => RunStopCit(s, t)
    case StartScrit => RunStartScrit(s, t)
    case StopScrit => RunStopScrit(s, t)
  }

  function RunStartCit(s: System, t: Thread): System
    requires CanRun(s, t)
  {
    var waiters := if s.phase[t] == RW.AskRead then s.nwaitingreaders - 1 else s.nwaitingreaders;
    if s.nwriters + s.nwaitingwriters > 0 then
      s.(nwaitingreaders := waiters + 1, mon := Wait(s.mon, t, READ_COND).0, phase := s.phase[t := RW.AskRead])
    else
      s.(nwaitingreaders := waiters, nreaders := s.nreaders + 1, mon := Leave(s.mon, t).0,
         phase := s.phase[t := RW.Reading])
  }

  function RunStopCit(s: System, t: Thread): System
    requires CanRun(s, t)
  {
    var left := s.nreaders - 1;
    var mon := if left == 0 && s.nwaitingwriters > 0 then Signal(s.mon, t, WRITE_COND).0 else s.mon;
    s.(nreaders := left, mon := Leave(mon, t).0, phase := s.phase[t := RW.Outside])
  }

  function RunStartScrit(s: System, t: Thread): System
    requires CanRun(s, t)
  {
    var waiters := if s.phase[t] == RW.AskWrite then s.nwaitingwriters - 1 else s.nwaitingwriters;
    if s.nreaders + s.nwriters > 0 then
      s.(nwaitingwriters := waiters + 1, mon := Wait(s.mon, t, WRITE_COND).0, phase := s.phase[t := RW.AskWrite])
    else
      s.(nwaitingwriters := waiters, nwriters := s.nwriters + 1, mon := Leave(s.mon, t).0,
         phase := s.phase[t := RW.Writing])
  }

  function RunStopScrit(s: System, t: Thread): System
    requires CanRun(s, t)
  {
    var mon := if s.nwaitingwriters > 0 then Signal(s.mon, t, WRITE_COND).0
               else if s.nwaitingreaders > 0 then Broadcast(s.mon, t, READ_COND).0
               else s.mon;
    s.(nwriters := s.nwriters - 1, mon := Leave(mon, t).0, phase := s.phase[t := RW.Outside])
  }

  // ------------------------------------------------ invariant

  /** The call a thread is executing fits its phase. */
  predicate Fits(call: RW.Call, phase: RW.Phase) {
    match call
    case StartCit => phase == RW.Outside || phase == RW.AskRead
    case StopCit => phase == RW.Reading
    case StartScrit => phase == RW.Outside || phase == RW.AskWrite
    case StopScrit => phase == RW.Writing
  }

  predicate Asking(phase: RW.Phase) {
    phase == RW.AskRead || phase == RW.AskWrite
  }

  ghost predicate MonitorReady(mon: State) {
    && Invariant(mon) && |mon.conditions| == 2
    && mon.policy == SIGNAL_AND_CONTINUE && mon.signaled == []
  }

  ghost predicate Linked(s: System) {
    && (forall t :: Places(s.mon, t) > 0 ==> t in s.phase && t in s.call && Fits(s.call[t], s.phase[t]))
    && (forall t :: t in s.phase && Asking(s.phase[t]) ==> Places(s.mon, t) > 0)
    && (forall t :: t in s.mon.entry ==> t in s.phase && !Asking(s.phase[t]))
  }

  ghost predicate SystemInvariant(s: System) {
    MonitorReady(s.mon) && Linked(s) && RW.Invariant(View(s))
  }

  lemma TwoConditions(mon: State, t: Thread)
    requires |mon.conditions| == 2
    ensures CondOccurs(mon.conditions, t) == Occurs(mon.conditions[0], t) + Occurs(mon.conditions[1], t)
  {
    var rest := mon.conditions[1..];
    assert rest[0] == mon.conditions[1] && rest[1..] == [];
    assert CondOccurs(rest, t) == Occurs(rest[0], t) + CondOccurs(rest[1..], t);
  }

  /** The owner is in no queue. */
  lemma OwnerIsFree(mon: State, t: Thread)
    requires MonitorReady(mon) && mon.owner == Some(t)
    ensures t !in mon.conditions[0] && t !in mon.conditions[1] && t !in mon.entry && t in mon.entered
    ensures Places(mon, t) == 1
  {
    TwoConditions(mon, t);
    assert Places(mon, t) <= 1;
    assert t in multiset(mon.conditions[0]) || Occurs(mon.conditions[0], t) == 0;
  }

  /** m2 is m1 after its owner t has waited (stays) or left; everyone else keeps their place. */
  ghost predicate Passed(m1: State, m2: State, t: Thread, stays: bool) {
    && MonitorReady(m2)
    && (forall u :: u != t ==> Places(m2, u) == Places(m1, u))
    && Places(m2, t) == (if stays then 1 else 0)
    && (forall u :: u in m2.entry ==> u in m1.entry)
  }

  lemma LeavePasses(mon: State, t: Thread)
    requires MonitorReady(mon) && mon.owner == Some(t)
    ensures Passed(mon, Leave(mon, t).0, t, false)
    ensures Leave(mon, t).0.conditions == mon.conditions
  {
    OwnerIsFree(mon, t);
    LeaveKeeps(mon, t);
    PlanificaPicks(mon.(entered := mon.entered - {t}));
  }

  lemma WaitPasses(mon: State, t: Thread, c: nat)
    requires MonitorReady(mon) && mon.owner == Some(t) && c < 2
    ensures Passed(mon, Wait(mon, t, c).0, t, true)
    ensures Wait(mon, t, c).0.conditions == mon.conditions[c := mon.conditions[c] + [t]]
  {
    OwnerIsFree(mon, t);
    WaitKeeps(mon, t, c);
    PlanificaPicks(PushCond(mon, t, c));
  }

  lemma SignalAndLeave(mon: State, t: Thread, c: nat)
    requires MonitorReady(mon) && mon.owner == Some(t) && c < 2
    ensures var m := Signal(mon, t, c).0;
            && Passed(mon, Leave(m, t).0, t, false)
            && Leave(m, t).0.conditions ==
               (if mon.conditions[c] != [] then mon.conditions[c := mon.conditions[c][1..]] else mon.conditions)
  {
    SignalKeeps(mon, t, c);
    LeavePasses(Signal(mon, t, c).0, t);
  }

  lemma BroadcastAndLeave(mon: State, t: Thread, c: nat)
    requires MonitorReady(mon) && mon.owner == Some(t) && c < 2
    ensures var m := Broadcast(mon, t, c).0;
            Passed(mon, Leave(m, t).0, t, false) && Leave(m, t).0.conditions == mon.conditions[c := []]
  {
    BroadcastKeeps(mon, t, c);
    PopAllMoves(mon, c);
    LeavePasses(Broadcast(mon, t, c).0, t);
  }

  // ------------------------------------------------ refinement

  /** What a segment of t does to the system, as the rest of the proof needs it */
  ghost predicate Handed(s: System, r: System, t: Thread, p: RW.Phase) {
    && Passed(s.mon, r.mon, t, Asking(p)) && r.call == s.call && r.phase == s.phase[t := p]
    && (Asking(p) ==> t in s.call && Fits(s.call[t], p))
  }

  lemma RunStartCitRefines(s: System, t: Thread)
    requires MonitorReady(s.mon) && CanRun(s, t) && s.call[t] == RW.StartCit
    ensures var r := RunStartCit(s, t); Handed(s, r, t, r.phase[t]) && View(r) == RW.StartCitStep(View(s), t)
  {
    if s.nwriters + s.nwaitingwriters > 0 { WaitPasses(s.mon, t, READ_COND); } else { LeavePasses(s.mon, t); }
  }

  lemma RunStopCitRefines(s: System, t: Thread)
    requires MonitorReady(s.mon) && CanRun(s, t) && s.call[t] == RW.StopCit
    ensures var r := RunStopCit(s, t); Handed(s, r, t, RW.Outside) && View(r) == RW.StopCitStep(View(s), t)
  {
    if s.nreaders - 1 == 0 && s.nwaitingwriters > 0 {
      SignalAndLeave(s.mon, t, WRITE_COND);
    } else {
      LeavePasses(s.mon, t);
    }
  }

  lemma RunStartScritRefines(s: System, t: Thread)
    requires MonitorReady(s.mon) && CanRun(s, t) && s.call[t] == RW.StartScrit
    ensures var r := RunStartScrit(s, t); Handed(s, r, t, r.phase[t]) && View(r) == RW.StartScritStep(View(s), t)
  {
    if s.nreaders + s.nwriters > 0 { WaitPasses(s.mon, t, WRITE_COND); } else { LeavePasses(s.mon, t); }
  }

  lemma RunStopScritRefines(s: System, t: Thread)
    requires MonitorReady(s.mon) && CanRun(s, t) && s.call[t] == RW.StopScrit
    ensures var r := RunStopScrit(s, t); Handed(s, r, t, RW.Outside) && View(r) == RW.StopScritStep(View(s), t)
  {
    if s.nwaitingwriters > 0 {
      SignalAndLeave(s.mon, t, WRITE_COND);
    } else if s.nwaitingreaders > 0 {
      BroadcastAndLeave(s.mon, t, READ_COND);
    } else {
      LeavePasses(s.mon, t);
    }
  }

  /** One segment on the monitor is one step of the freely scheduled protocol. */
  lemma RunRefines(s: System, t: Thread)
    requires SystemInvariant(s) && CanRun(s, t)
    ensures RW.Enabled(View(s), t, s.call[t])
    ensures t in Run(s, t).phase && Handed(s, Run(s, t), t, Run(s, t).phase[t])
    ensures View(Run(s, t)) == RW.Step(View(s), t, s.call[t])
  {
    OwnerIsFree(s.mon, t);
    match s.call[t]
    case StartCit => RunStartCitRefines(s, t);
    case StopCit => RunStopCitRefines(s, t);
    case StartScrit => RunStartScritRefines(s, t);
    case StopScrit => RunStopScritRefines(s, t);
  }

  lemma HandedLinks(s: System, r: System, t: Thread, p: RW.Phase)
    requires Linked(s) && t in s.phase && t in s.call && Handed(s, r, t, p) && t !in s.mon.entry
    ensures Linked(r)
  {
  }

  lemma RunKeeps(s: System, t: Thread)
    requires SystemInvariant(s) && CanRun(s, t)
    ensures SystemInvariant(Run(s, t))
  {
    RunRefines(s, t);
    RW.StepKeeps(View(s), t, s.call[t]);
    OwnerIsFree(s.mon, t);
    HandedLinks(s, Run(s, t), t, Run(s, t).phase[t]);
  }

  lemma StartLinks(s: System, t: Thread, call: RW.Call, mon: State)
    requires Linked(s) && CanStart(s, t, call) && (mon.entry == s.mon.entry || mon.entry == s.mon.entry + [t])
    requires forall u :: u != t ==> Places(mon, u) == Places(s.mon, u)
    requires Places(mon, t) == 1
    ensures Linked(s.(mon := mon, call := s.call[t := call]))
  {
  }

  /** Calling an operation does not change the protocol's view. */
  lemma StartKeeps(s: System, t: Thread, call: RW.Call)
    requires SystemInvariant(s) && CanStart(s, t, call)
    ensures SystemInvariant(Start(s, t, call)) && View(Start(s, t, call)) == View(s)
  {
    EnterKeeps(s.mon, t);
    EnterPlaces(s.mon, t, t);
    StartLinks(s, t, call, Enter(s.mon, t).0);
  }

  // ------------------------------------------------ runs

  datatype Event = Started(t: Thread, call: RW.Call) | Ran(t: Thread)

  ghost predicate Possible(s: System, e: Event) {
    match e
    case Started(t, call) => CanStart(s, t, call)
    case Ran(t) => CanRun(s, t)
  }

  ghost function Next(s: System, e: Event): System
    requires Possible(s, e)
  {
    match e
    case Started(t, call) => Start(s, t, call)
    case Ran(t) => Run(s, t)
  }

  ghost predicate IsRun(run: seq<System>, events: seq<Event>) {
    && |run| == |events| + 1
    && forall k :: 0 <= k < |events| ==> Possible(run[k], events[k]) && run[k + 1] == Next(run[k], events[k])
  }

  ghost predicate InitialSystem(s: System) {
    && s.mon == Initial(2, SIGNAL_AND_CONTINUE)
    && RW.Initial(View(s))
  }

  lemma InitialKeeps(s: System)
    requires InitialSystem(s)
    ensures SystemInvariant(s)
  {
    MonitorState.InitialInvariant(2, SIGNAL_AND_CONTINUE);
    RW.InitialInvariant(View(s));
    forall t ensures Places(s.mon, t) == 0 { InitialPlaces(s.mon.conditions, t); }
  }

  lemma {:induction false} ReachableSystem(run: seq<System>, events: seq<Event>)
    requires IsRun(run, events) && InitialSystem(run[0])
    ensures SystemInvariant(run[|events|])
  {
    if events == [] {
      InitialKeeps(run[0]);
    } else {
      var n := |events| - 1;
      assert IsRun(run[..n + 1], events[..n]);
      ReachableSystem(run[..n + 1], events[..n]);
      match events[n]
      case Started(t, call) => StartKeeps(run[n], t, call);
      case Ran(t) => RunKeeps(run[n], t);
    }
  }

  /** No thread is ever forgotten in the monitor: in every reachable state in which the monitor is idle
      and nobody is reading or writing, no thread is blocked anywhere. */
  lemma NobodyLeftBehind(run: seq<System>, events: seq<Event>, t: Thread)
    requires IsRun(run, events) && InitialSystem(run[0])
    requires var s := run[|events|]; s.mon.owner.None? && s.nreaders == 0 && s.nwriters == 0
    ensures Places(run[|events|].mon, t) == 0
  {
    var s := run[|events|];
    ReachableSystem(run, events);
    forall u | u in s.phase && Asking(s.phase[u])
      ensures u in (if s.phase[u] == RW.AskRead then View(s).readQueue else View(s).writeQueue)
    {
      TwoConditions(s.mon, u);
      InItsQueue(s, u);
    }
    RW.NoLostWakeup(View(s));
    TwoConditions(s.mon, t);
  }

  lemma InItsQueue(s: System, u: Thread)
    requires SystemInvariant(s) && s.mon.owner.None? && u in s.phase && Asking(s.phase[u])
    ensures u in (if s.phase[u] == RW.AskRead then View(s).readQueue else View(s).writeQueue)
  {
    TwoConditions(s.mon, u);
    assert Places(s.mon, u) > 0;
    assert u in s.mon.conditions[0] || u in s.mon.conditions[1];
    var v := View(s);
    if u in v.readQueue { var i :| 0 <= i < |v.readQueue| && v.readQueue[i] == u; }
    if u in v.writeQueue { var i :| 0 <= i < |v.writeQueue| && v.writeQueue[i] == u; }
  }
}
