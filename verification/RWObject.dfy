/** The readers-writers library: four counters and a monitor, changed segment by segment. */
module RWObject {
  import opened MonitorState
  import opened MonitorObject
  import RW = ReadersWriters
  import opened RWSystem

  class ReadersWritersMonitor {
    const m: Monitor
    var nreaders: int
    var nwaitingreaders: int
    var nwriters: int
    var nwaitingwriters: int
    /** What every thread is doing, for the specification only */
    ghost var phase: map<Thread, RW.Phase>
    ghost var call: map<Thread, RW.Call>

    constructor (ghost threads: set<Thread>)
      ensures InitialSystem(View()) && phase.Keys == threads && m.Valid() && fresh(m)
    {
      m := new Monitor(2, SIGNAL_AND_CONTINUE);
      nreaders, nwaitingreaders, nwriters, nwaitingwriters := 0, 0, 0, 0;
      phase := map t | t in threads :: RW.Outside;
      call := map[];
    }

    ghost function View(): System
      reads this, m
    {
      System(m.View(), nreaders, nwaitingreaders, nwriters, nwaitingwriters, phase, call)
    }

    /** Enter, the first statement of every operation */
    method Begin(t: Thread, operation: RW.Call)
      requires m.Valid() && CanStart(View(), t, operation)
      modifies this, m
      ensures m.Valid() && View() == Start(old(View()), t, operation)
    {
      var rc := m.Enter(t);
      call := call[t := operation];
    }

    /** StartCit from Enter or from the Wait it resumes; false when it waits (again) */
    method StartCit(t: Thread, resumed: bool) returns (reading: bool)
      requires m.Valid() && CanRun(View(), t) && call[t] == RW.StartCit
      requires resumed == (phase[t] == RW.AskRead)
      modifies this, m
      ensures m.Valid() && View() == Run(old(View()), t)
      ensures reading == (phase[t] == RW.Reading) == (old(nwriters) + old(nwaitingwriters) <= 0)
    {
      if resumed {
        nwaitingreaders := nwaitingreaders - 1;
      }
      if nwriters + nwaitingwriters > 0 {
        nwaitingreaders := nwaitingreaders + 1;
        var rc := m.Wait(t, 0);
        phase := phase[t := RW.AskRead];
        return false;
      }
      nreaders := nreaders + 1;
      var rc := m.Leave(t);
      phase := phase[t := RW.Reading];
      return true;
    }

    method StopCit(t: Thread)
      requires m.Valid() && CanRun(View(), t) && call[t] == RW.StopCit
      modifies this, m
      ensures m.Valid() && View() == Run(old(View()), t)
    {
      nreaders := nreaders - 1;
      var rc;
      if nreaders == 0 && nwaitingwriters > 0 {
        rc := m.Signal(t, 1);
      }
      rc := m.Leave(t);
      phase := phase[t := RW.Outside];
    }

    /** StartScrit from Enter or from the Wait it resumes; false when it waits (again) */
    method StartScrit(t: Thread, resumed: bool) returns (writing: bool)
      requires m.Valid() && CanRun(View(), t) && call[t] == RW.StartScrit
      requires resumed == (phase[t] == RW.AskWrite)
      modifies this, m
      ensures m.Valid() && View() == Run(old(View()), t)
      ensures writing == (phase[t] == RW.Writing) == (old(nreaders) + old(nwriters) <= 0)
    {
      if resumed {
        nwaitingwriters := nwaitingwriters - 1;
      }
      if nreaders + nwriters > 0 {
        nwaitingwriters := nwaitingwriters + 1;
        var rc := m.Wait(t, 1);
        phase := phase[t := RW.AskWrite];
        return false;
      }
      nwriters := nwriters + 1;
      var rc := m.Leave(t);
      phase := phase[t := RW.Writing];
      return true;
    }

    method StopScrit(t: Thread)
      requires m.Valid() && CanRun(View(), t) && call[t] == RW.StopScrit
      modifies this, m
      ensures m.Valid() && View() == Run(old(View()), t)
    {
      nwriters := nwriters - 1;
      var rc;
      if nwaitingwriters > 0 {
        rc := m.Signal(t, 1);
      } else if nwaitingreaders > 0 {
        rc := m.Broadcast(t, 0);
      }
      rc := m.Leave(t);
      phase := phase[t := RW.Outside];
    }
  }
}
