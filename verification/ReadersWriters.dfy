/** The readers-writers protocol with writer preference, for any number of threads. One step is one
    segment of code between two monitor calls; any thread that is not blocked may take the next step,
    so nothing here depends on how the monitor chooses among threads. */
module ReadersWriters {
  import opened MonitorState

  /** Where a thread is: AskRead and AskWrite are threads that have called Wait in StartCit or StartScrit
      and have not got through yet. */
  datatype Phase = Outside | AskRead | Reading | AskWrite | Writing

  datatype RW = RW(
    nreaders: int, nwaitingreaders: int, nwriters: int, nwaitingwriters: int,
    readQueue: seq<Thread>, writeQueue: seq<Thread>, phase: map<Thread, Phase>)

  datatype Call = StartCit | StopCit | StartScrit | StopScrit

  function In(phase: map<Thread, Phase>, p: Phase): set<Thread> {
    set t | t in phase && phase[t] == p
  }

  // ------------------------------------------------ segments

  /** From Enter, or from the Wait just left, to the next Wait or to Leave */
  function StartCitStep(s: RW, t: Thread): RW
    requires t in s.phase
  {
    var waiters := if s.phase[t] == AskRead then s.nwaitingreaders - 1 else s.nwaitingreaders;
    if s.nwriters + s.nwaitingwriters > 0 then
      s.(nwaitingreaders := waiters + 1, readQueue := s.readQueue + [t], phase := s.phase[t := AskRead])
    else
      s.(nwaitingreaders := waiters, nreaders := s.nreaders + 1, phase := s.phase[t := Reading])
  }

  function StopCitStep(s: RW, t: Thread): RW
    requires t in s.phase
  {
    var left := s.(nreaders := s.nreaders - 1, phase := s.phase[t := Outside]);
    if left.nreaders == 0 && left.nwaitingwriters > 0 then WakeWriter(left) else left
  }

  function StartScritStep(s: RW, t: Thread): RW
    requires t in s.phase
  {
    var waiters := if s.phase[t] == AskWrite then s.nwaitingwriters - 1 else s.nwaitingwriters;
    if s.nreaders + s.nwriters > 0 then
      s.(nwaitingwriters := waiters + 1, writeQueue := s.writeQueue + [t], phase := s.phase[t := AskWrite])
    else
      s.(nwaitingwriters := waiters, nwriters := s.nwriters + 1, phase := s.phase[t := Writing])
  }

  function StopScritStep(s: RW, t: Thread): RW
    requires t in s.phase
  {
    var left := s.(nwriters := s.nwriters - 1, phase := s.phase[t := Outside]);
    if left.nwaitingwriters > 0 then WakeWriter(left)
    else if left.nwaitingreaders > 0 then left.(readQueue := [])
    else left
  }

  function WakeWriter(s: RW): RW {
    if s.writeQueue != [] then s.(writeQueue := s.writeQueue[1..]) else s
  }

  /** A thread may take a step when it is not blocked and the call fits what it is doing. */
  predicate Enabled(s: RW, t: Thread, call: Call) {
    && t in s.phase
    && match call
       case StartCit => s.phase[t] == Outside || (s.phase[t] == AskRead && t !in s.readQueue)
       case StopCit => s.phase[t] == Reading
       case StartScrit => s.phase[t] == Outside || (s.phase[t] == AskWrite && t !in s.writeQueue)
       case StopScrit => s.phase[t] == Writing
  }

  function Step(s: RW, t: Thread, call: Call): RW
    requires t in s.phase
  {
    match call
    case StartCit => StartCitStep(s, t)
    case StopCit => StopCitStep(s, t)
    case StartScrit => StartScritStep(s, t)
    case StopScrit => StopScritStep(s, t)
  }

  // ------------------------------------------------ invariant

  ghost predicate Distinct(q: seq<Thread>) {
    forall i, j :: 0 <= i < j < |q| ==> q[i] != q[j]
  }

  ghost predicate Blocked(q: seq<Thread>, asking: set<Thread>) {
    Distinct(q) && forall i :: 0 <= i < |q| ==> q[i] in asking
  }

  /** The four counters count what their names say. */
  ghost predicate CountersAgree(s: RW) {
    && s.nreaders == |In(s.phase, Reading)| && s.nwriters == |In(s.phase, Writing)|
    && s.nwaitingreaders == |In(s.phase, AskRead)| && s.nwaitingwriters == |In(s.phase, AskWrite)|
  }

  ghost predicate QueuesAgree(s: RW) {
    Blocked(s.readQueue, In(s.phase, AskRead)) && Blocked(s.writeQueue, In(s.phase, AskWrite))
  }

  ghost predicate Exclusion(s: RW) {
    s.nwriters <= 1 && (s.nwriters == 1 ==> s.nreaders == 0)
  }

  /** Nobody is blocked without somebody who will wake them: a blocked reader has a writer inside or
      asking, a blocked writer has somebody inside or a woken writer ahead of it. */
  ghost predicate NobodyForgotten(s: RW) {
    && (s.readQueue != [] ==> s.nwriters + s.nwaitingwriters > 0)
    && (s.writeQueue != [] ==> s.nreaders + s.nwriters > 0 || s.nwaitingwriters > |s.writeQueue|)
  }

  ghost predicate Invariant(s: RW) {
    CountersAgree(s) && QueuesAgree(s) && Exclusion(s) && NobodyForgotten(s)
  }

  lemma PhaseChange(phase: map<Thread, Phase>, t: Thread, p: Phase, q: Phase)
    requires t in phase
    ensures In(phase[t := p], q) == if q == p then In(phase, q) + {t} else In(phase, q) - {t}
    ensures |In(phase[t := p], q)| ==
            |In(phase, q)| + (if q == p && phase[t] != p then 1 else if q != p && phase[t] == q then -1 else 0)
  {
    assert In(phase[t := p], q) == if q == p then In(phase, q) + {t} else In(phase, q) - {t};
    if q == p && phase[t] == p { assert In(phase, q) + {t} == In(phase, q); }
    if q != p && phase[t] != q { assert In(phase, q) - {t} == In(phase, q); }
  }

  /** The four sets of threads that matter, after one thread changes phase */
  lemma PhaseChanges(phase: map<Thread, Phase>, t: Thread, p: Phase)
    requires t in phase
    ensures forall q | q in {AskRead, Reading, AskWrite, Writing} ::
              && In(phase[t := p], q) == (if q == p then In(phase, q) + {t} else In(phase, q) - {t})
              && |In(phase[t := p], q)| ==
                 |In(phase, q)| + (if q == p && phase[t] != p then 1 else if q != p && phase[t] == q then -1 else 0)
  {
    PhaseChange(phase, t, p, AskRead);
    PhaseChange(phase, t, p, Reading);
    PhaseChange(phase, t, p, AskWrite);
    PhaseChange(phase, t, p, Writing);
  }

  lemma {:induction false} BlockedFits(q: seq<Thread>, asking: set<Thread>)
    requires Blocked(q, asking)
    ensures |q| <= |asking|
    ensures forall t :: t in asking && t !in q ==> |q| < |asking|
    ensures |q| == |asking| ==> forall t :: t in asking ==> t in q
  {
    if q != [] {
      BlockedFits(q[1..], asking - {q[0]});
      assert |asking| == |asking - {q[0]}| + 1;
      assert forall t :: t in q <==> t == q[0] || t in q[1..];
    }
  }

  lemma BlockedGrows(q: seq<Thread>, asking: set<Thread>, t: Thread)
    requires Blocked(q, asking) && t !in q
    ensures Blocked(q + [t], asking + {t})
  {
  }

  lemma BlockedShrinks(q: seq<Thread>, asking: set<Thread>, t: Thread)
    requires Blocked(q, asking) && t !in q
    ensures Blocked(q, asking - {t})
    ensures q != [] ==> Blocked(q[1..], asking - {t})
  {
  }

  // ------------------------------------------------ every step keeps the invariant

  lemma ReaderBlocksCounted(s: RW, t: Thread)
    requires CountersAgree(s) && Enabled(s, t, StartCit) && s.nwriters + s.nwaitingwriters > 0
    ensures CountersAgree(StartCitStep(s, t))
  {
    PhaseChanges(s.phase, t, AskRead);
  }

  lemma ReaderBlocksQueued(s: RW, t: Thread)
    requires QueuesAgree(s) && Enabled(s, t, StartCit) && s.nwriters + s.nwaitingwriters > 0
    ensures QueuesAgree(StartCitStep(s, t))
  {
    PhaseChanges(s.phase, t, AskRead);
    BlockedShrinks(s.writeQueue, In(s.phase, AskWrite), t);
    BlockedGrows(s.readQueue, In(s.phase, AskRead), t);
  }

  lemma ReaderBlocks(s: RW, t: Thread)
    requires Invariant(s) && Enabled(s, t, StartCit) && s.nwriters + s.nwaitingwriters > 0
    ensures Invariant(StartCitStep(s, t))
  {
    ReaderBlocksCounted(s, t);
    ReaderBlocksQueued(s, t);
  }

  lemma ReaderEnters(s: RW, t: Thread)
    requires Invariant(s) && Enabled(s, t, StartCit) && s.nwriters + s.nwaitingwriters <= 0
    ensures Invariant(StartCitStep(s, t))
  {
    PhaseChanges(s.phase, t, Reading);
    BlockedShrinks(s.writeQueue, In(s.phase, AskWrite), t);
    BlockedShrinks(s.readQueue, In(s.phase, AskRead), t);
  }

  lemma StopCitKeeps(s: RW, t: Thread)
    requires Invariant(s) && Enabled(s, t, StopCit)
    ensures Invariant(StopCitStep(s, t))
  {
    PhaseChanges(s.phase, t, Outside);
    BlockedFits(s.writeQueue, In(s.phase, AskWrite));
    BlockedShrinks(s.writeQueue, In(s.phase, AskWrite), t);
    BlockedShrinks(s.readQueue, In(s.phase, AskRead), t);
  }

  lemma WriterBlocks(s: RW, t: Thread)
    requires Invariant(s) && Enabled(s, t, StartScrit) && s.nreaders + s.nwriters > 0
    ensures Invariant(StartScritStep(s, t))
  {
    PhaseChanges(s.phase, t, AskWrite);
    BlockedShrinks(s.readQueue, In(s.phase, AskRead), t);
    BlockedGrows(s.writeQueue, In(s.phase, AskWrite), t);
  }

  lemma WriterEnters(s: RW, t: Thread)
    requires Invariant(s) && Enabled(s, t, StartScrit) && s.nreaders + s.nwriters <= 0
    ensures Invariant(StartScritStep(s, t))
  {
    PhaseChanges(s.phase, t, Writing);
    BlockedFits(s.writeQueue, In(s.phase, AskWrite));
    BlockedShrinks(s.readQueue, In(s.phase, AskRead), t);
    BlockedShrinks(s.writeQueue, In(s.phase, AskWrite), t);
  }

  lemma StopScritKeeps(s: RW, t: Thread)
    requires Invariant(s) && Enabled(s, t, StopScrit)
    ensures Invariant(StopScritStep(s, t))
  {
    PhaseChanges(s.phase, t, Outside);
    BlockedFits(s.readQueue, In(s.phase, AskRead));
    BlockedFits(s.writeQueue, In(s.phase, AskWrite));
    BlockedShrinks(s.writeQueue, In(s.phase, AskWrite), t);
    BlockedShrinks(s.readQueue, In(s.phase, AskRead), t);
  }

  lemma StepKeeps(s: RW, t: Thread, call: Call)
    requires Invariant(s) && Enabled(s, t, call)
    ensures Invariant(Step(s, t, call))
  {
    match call
    case StartCit => if s.nwriters + s.nwaitingwriters > 0 { ReaderBlocks(s, t); } else { ReaderEnters(s, t); }
    case StopCit => StopCitKeeps(s, t);
    case StartScrit => if s.nreaders + s.nwriters > 0 { WriterBlocks(s, t); } else { WriterEnters(s, t); }
    case StopScrit => StopScritKeeps(s, t);
  }

  // ------------------------------------------------ what the invariant says

  /** No lost wakeup: when nobody reads or writes and no woken thread is on its way, nobody is blocked. */
  lemma NoLostWakeup(s: RW)
    requires Invariant(s) && s.nreaders == 0 && s.nwriters == 0
    requires forall t :: t in s.phase && s.phase[t] == AskRead ==> t in s.readQueue
    requires forall t :: t in s.phase && s.phase[t] == AskWrite ==> t in s.writeQueue
    ensures s.readQueue == [] && s.writeQueue == []
  {
    var asking := In(s.phase, AskWrite);
    BlockedFits(s.writeQueue, asking);
    AllBlocked(s.writeQueue, asking);
  }

  lemma {:induction false} AllBlocked(q: seq<Thread>, asking: set<Thread>)
    requires Distinct(q) && forall t :: t in asking ==> t in q
    ensures |asking| <= |q|
  {
    if q == [] {
      assert asking == {};
    } else {
      AllBlocked(q[1..], asking - {q[0]});
    }
  }

  /** The number of woken threads is what the waiting counters exceed the queues by. */
  lemma WokenCount(s: RW)
    requires Invariant(s)
    ensures s.nwaitingreaders == |s.readQueue| + |set t | t in In(s.phase, AskRead) && t !in s.readQueue|
    ensures s.nwaitingwriters == |s.writeQueue| + |set t | t in In(s.phase, AskWrite) && t !in s.writeQueue|
  {
    Woken(s.readQueue, In(s.phase, AskRead));
    Woken(s.writeQueue, In(s.phase, AskWrite));
  }

  lemma {:induction false} Woken(q: seq<Thread>, asking: set<Thread>)
    requires Blocked(q, asking)
    ensures |asking| == |q| + |set t | t in asking && t !in q|
  {
    var woken := set t | t in asking && t !in q;
    if q == [] {
      assert woken == asking;
    } else {
      Woken(q[1..], asking - {q[0]});
      assert woken == set t | t in asking - {q[0]} && t !in q[1..];
    }
  }

  /** At most one writer, never together with a reader, counted by the threads themselves. */
  lemma MutualExclusion(s: RW, t: Thread, u: Thread)
    requires Invariant(s) && t in s.phase && u in s.phase && t != u
    requires s.phase[t] == Writing
    ensures s.phase[u] != Writing && s.phase[u] != Reading
  {
    SubsetSize({t}, In(s.phase, Writing));
    assert In(s.phase, Reading) == {};
    if s.phase[u] == Writing { SubsetSize({t, u}, In(s.phase, Writing)); }
    assert u !in In(s.phase, Reading);
  }

  lemma {:induction false} SubsetSize(a: set<Thread>, b: set<Thread>)
    requires a <= b
    ensures |a| <= |b|
  {
    if a != {} {
      var x :| x in a;
      SubsetSize(a - {x}, b - {x});
    }
  }

  // ------------------------------------------------ runs

  ghost predicate IsRun(run: seq<RW>, steps: seq<(Thread, Call)>) {
    && |run| == |steps| + 1
    && forall k :: 0 <= k < |steps| ==>
         Enabled(run[k], steps[k].0, steps[k].1) && run[k + 1] == Step(run[k], steps[k].0, steps[k].1)
  }

  /** All threads outside, all counters 0 */
  ghost predicate Initial(s: RW) {
    && s.nreaders == s.nwaitingreaders == s.nwriters == s.nwaitingwriters == 0
    && s.readQueue == [] && s.writeQueue == []
    && forall t :: t in s.phase ==> s.phase[t] == Outside
  }

  lemma InitialInvariant(s: RW)
    requires Initial(s)
    ensures Invariant(s)
  {
    assert In(s.phase, Reading) == {} && In(s.phase, Writing) == {};
    assert In(s.phase, AskRead) == {} && In(s.phase, AskWrite) == {};
  }

  /** Every reachable state, for any threads taking steps in any order, has the invariant. */
  lemma {:induction false} ReachableInvariant(run: seq<RW>, steps: seq<(Thread, Call)>)
    requires IsRun(run, steps) && Initial(run[0])
    ensures Invariant(run[|steps|])
  {
    if steps == [] {
      InitialInvariant(run[0]);
    } else {
      var n := |steps| - 1;
      assert IsRun(run[..n + 1], steps[..n]);
      ReachableInvariant(run[..n + 1], steps[..n]);
      StepKeeps(run[n], steps[n].0, steps[n].1);
    }
  }
}
