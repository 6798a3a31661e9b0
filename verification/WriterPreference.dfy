/** Who gets in, and who is woken: writers go before readers. Everything is stated on what the threads are
    doing and on the two condition queues, over every run. */
module WriterPreference {
  import M = MonitorState
  import opened ReadersWriters
  import S = RWSystem

  predicate Nobody(phase: map<M.Thread, Phase>, p: Phase) {
    forall t :: t in phase ==> phase[t] != p
  }

  lemma NobodyIsNone(phase: map<M.Thread, Phase>, p: Phase)
    ensures |In(phase, p)| == 0 <==> Nobody(phase, p)
  {
    if !Nobody(phase, p) {
      var t :| t in phase && phase[t] == p;
      assert t in In(phase, p);
    } else {
      assert In(phase, p) == {};
    }
  }

  /** The guards of the protocol, as the counters of a sound state decide them */
  lemma GuardsByPhase(s: RW)
    requires Invariant(s)
    ensures s.nwriters + s.nwaitingwriters > 0 <==> !(Nobody(s.phase, Writing) && Nobody(s.phase, AskWrite))
    ensures s.nreaders + s.nwriters > 0 <==> !(Nobody(s.phase, Reading) && Nobody(s.phase, Writing))
    ensures s.nwaitingreaders > 0 <==> !Nobody(s.phase, AskRead)
    ensures s.nwaitingwriters > 0 <==> !Nobody(s.phase, AskWrite)
  {
    NobodyIsNone(s.phase, Reading);
    NobodyIsNone(s.phase, Writing);
    NobodyIsNone(s.phase, AskRead);
    NobodyIsNone(s.phase, AskWrite);
  }

  // ------------------------------------------------ getting in

  /** A reader gets in exactly when nobody writes and nobody asks to; otherwise it is last in its queue. */
  lemma ReaderEntersExactly(s: RW, t: M.Thread)
    requires Invariant(s) && Enabled(s, t, StartCit)
    ensures var r, free := Step(s, t, StartCit), Nobody(s.phase, Writing) && Nobody(s.phase, AskWrite);
            && r.phase == s.phase[t := if free then Reading else AskRead]
            && r.readQueue == s.readQueue + (if free then [] else [t])
            && r.writeQueue == s.writeQueue
  {
    GuardsByPhase(s);
  }

  /** A writer gets in exactly when nobody reads and nobody writes; otherwise it is last in its queue. */
  lemma WriterEntersExactly(s: RW, t: M.Thread)
    requires Invariant(s) && Enabled(s, t, StartScrit)
    ensures var r, free := Step(s, t, StartScrit), Nobody(s.phase, Reading) && Nobody(s.phase, Writing);
            && r.phase == s.phase[t := if free then Writing else AskWrite]
            && r.writeQueue == s.writeQueue + (if free then [] else [t])
            && r.readQueue == s.readQueue
  {
    GuardsByPhase(s);
  }

  // ------------------------------------------------ getting out

  /** What is left of a queue when its first thread, if there is one, is woken */
  function Rest(q: seq<M.Thread>): seq<M.Thread> {
    if q == [] then [] else q[1..]
  }

  /** Only the last reader wakes anybody, and then it is the writer that has waited longest. */
  lemma ReaderLeavesExactly(s: RW, t: M.Thread)
    requires Invariant(s) && Enabled(s, t, StopCit)
    ensures var r := Step(s, t, StopCit);
            && r.phase == s.phase[t := Outside]
            && r.readQueue == s.readQueue
            && r.writeQueue == if Nobody(r.phase, Reading) then Rest(s.writeQueue) else s.writeQueue
  {
    PhaseChanges(s.phase, t, Outside);
    var left := s.phase[t := Outside];
    NobodyIsNone(left, Reading);
    QueueNeedsAsking(s.writeQueue, In(s.phase, AskWrite));
  }

  /** A writer that leaves wakes the writer that has waited longest when some writer asks, and all readers
      when none does. */
  lemma WriterLeavesExactly(s: RW, t: M.Thread)
    requires Invariant(s) && Enabled(s, t, StopScrit)
    ensures var r := Step(s, t, StopScrit);
            && r.phase == s.phase[t := Outside]
            && r.writeQueue == Rest(s.writeQueue)
            && r.readQueue == if Nobody(s.phase, AskWrite) then [] else s.readQueue
  {
    GuardsByPhase(s);
    QueueNeedsAsking(s.writeQueue, In(s.phase, AskWrite));
    QueueNeedsAsking(s.readQueue, In(s.phase, AskRead));
  }

  lemma QueueNeedsAsking(q: seq<M.Thread>, asking: set<M.Thread>)
    requires Blocked(q, asking)
    ensures q != [] ==> |asking| > 0
  {
    if q != [] {
      assert q[0] in asking;
    }
  }

  // ------------------------------------------------ over every run

  lemma ReachableAt(run: seq<RW>, steps: seq<(M.Thread, Call)>, k: nat)
    requires IsRun(run, steps) && Initial(run[0]) && k <= |steps|
    ensures Invariant(run[k])
  {
    assert IsRun(run[..k + 1], steps[..k]);
    ReachableInvariant(run[..k + 1], steps[..k]);
  }

  /** In every run, a step leads a thread to reading exactly when it is a StartCit taken while nobody writes
      and nobody asks to; any other StartCit leaves the thread asking, last in the readers' queue. */
  lemma WritersGoFirst(run: seq<RW>, steps: seq<(M.Thread, Call)>, k: nat)
    requires IsRun(run, steps) && Initial(run[0]) && k < |steps|
    ensures var (t, call) := steps[k]; var s, r := run[k], run[k + 1];
            && t in s.phase && t in r.phase && (forall u :: u != t ==> u in r.phase <==> u in s.phase)
            && (forall u :: u != t && u in s.phase ==> r.phase[u] == s.phase[u])
            && (r.phase[t] == Reading <==>
                  call == StartCit && Nobody(s.phase, Writing) && Nobody(s.phase, AskWrite))
            && (call == StartCit && r.phase[t] != Reading ==>
                  r.phase[t] == AskRead && r.readQueue == s.readQueue + [t])
  {
    ReachableAt(run, steps, k);
    var (t, call) := steps[k];
    match call
    case StartCit => ReaderEntersExactly(run[k], t);
    case StopCit => ReaderLeavesExactly(run[k], t);
    case StartScrit => WriterEntersExactly(run[k], t);
    case StopScrit => WriterLeavesExactly(run[k], t);
  }

  lemma {:induction false} ShrinkingSets(sets: seq<set<M.Thread>>, i: nat, j: nat)
    requires i <= j < |sets|
    requires forall k :: i < k <= j ==> sets[k] <= sets[k - 1]
    ensures sets[j] <= sets[i]
  {
    if i < j {
      ShrinkingSets(sets, i, j - 1);
    }
  }

  lemma NobodyStartsReading(run: seq<RW>, steps: seq<(M.Thread, Call)>, k: nat)
    requires IsRun(run, steps) && Initial(run[0]) && 0 < k <= |steps| && !Nobody(run[k - 1].phase, AskWrite)
    ensures In(run[k].phase, Reading) <= In(run[k - 1].phase, Reading)
  {
    WritersGoFirst(run, steps, k - 1);
  }

  /** While some writer asks, readers only leave: none that is not reading already gets in. */
  lemma NoReaderOvertakes(run: seq<RW>, steps: seq<(M.Thread, Call)>, i: nat, j: nat)
    requires IsRun(run, steps) && Initial(run[0]) && i <= j <= |steps|
    requires forall k :: i <= k < j ==> !Nobody(run[k].phase, AskWrite)
    ensures In(run[j].phase, Reading) <= In(run[i].phase, Reading)
  {
    var reading := seq(|run|, k requires 0 <= k < |run| => In(run[k].phase, Reading));
    forall k | i < k <= j ensures reading[k] <= reading[k - 1] {
      NobodyStartsReading(run, steps, k);
    }
    ShrinkingSets(reading, i, j);
  }

  // ------------------------------------------------ on the monitor

  lemma ReachableSystemAt(run: seq<S.System>, events: seq<S.Event>, k: nat)
    requires S.IsRun(run, events) && S.InitialSystem(run[0]) && k <= |events|
    ensures S.SystemInvariant(run[k])
  {
    assert S.IsRun(run[..k + 1], events[..k]);
    S.ReachableSystem(run[..k + 1], events[..k]);
  }

  /** The same on the monitor, whoever it releases: a thread that was not reading reads after an event only
      when nobody wrote and nobody asked to. */
  lemma WritersGoFirstOnTheMonitor(run: seq<S.System>, events: seq<S.Event>, k: nat, u: M.Thread)
    requires S.IsRun(run, events) && S.InitialSystem(run[0]) && k < |events|
    requires u in run[k + 1].phase && run[k + 1].phase[u] == Reading
    ensures u in run[k].phase
    ensures run[k].phase[u] != Reading ==>
              && events[k] == S.Ran(u) && u in run[k].call && run[k].call[u] == StartCit
              && Nobody(run[k].phase, Writing) && Nobody(run[k].phase, AskWrite)
  {
    ReachableSystemAt(run, events, k);
    var s := run[k];
    match events[k]
    case Started(t, call) =>
    case Ran(t) =>
      S.RunRefines(s, t);
      if t == u && s.phase[u] != Reading {
        var v := S.View(s);
        match s.call[t]
        case StartCit => ReaderEntersExactly(v, t);
        case StopCit => ReaderLeavesExactly(v, t);
        case StartScrit => WriterEntersExactly(v, t);
        case StopScrit => WriterLeavesExactly(v, t);
      }
  }

  lemma NobodyStartsReadingOnTheMonitor(run: seq<S.System>, events: seq<S.Event>, k: nat)
    requires S.IsRun(run, events) && S.InitialSystem(run[0]) && 0 < k <= |events|
    requires !Nobody(run[k - 1].phase, AskWrite)
    ensures In(run[k].phase, Reading) <= In(run[k - 1].phase, Reading)
  {
    forall u | u in In(run[k].phase, Reading) ensures u in In(run[k - 1].phase, Reading) {
      WritersGoFirstOnTheMonitor(run, events, k - 1, u);
    }
  }

  /** While some writer asks, readers only leave, whichever threads the monitor releases. */
  lemma NoReaderOvertakesOnTheMonitor(run: seq<S.System>, events: seq<S.Event>, i: nat, j: nat)
    requires S.IsRun(run, events) && S.InitialSystem(run[0]) && i <= j <= |events|
    requires forall k :: i <= k < j ==> !Nobody(run[k].phase, AskWrite)
    ensures In(run[j].phase, Reading) <= In(run[i].phase, Reading)
  {
    var reading := seq(|run|, k requires 0 <= k < |run| => In(run[k].phase, Reading));
    forall k | i < k <= j ensures reading[k] <= reading[k - 1] {
      NobodyStartsReadingOnTheMonitor(run, events, k);
    }
    ShrinkingSets(reading, i, j);
  }
}
