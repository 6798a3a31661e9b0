/** The check points written at the heads of the rounds: which of them are read back, what a mirror that starts
    from one of those puts out, and which one is left when the loop has ended. */
module Takeover {
  import opened Options
  import opened Tasks
  import opened TaskFarm
  import opened FarmRuns
  import opened Checkpoint

  /** h is the head of a round of a master that started on f and has received n results since. */
  ghost predicate IsHead(f: Farm, h: Farm, n: nat) {
    Follows(f, h, n) && Idle(h)
  }

  /** From head to head: a round brings a result, or it does not. */
  lemma NextHead(f: Farm, h: Farm, n: nat, answers: seq<bool>)
    requires IsHead(f, h, n) && h.queue != []
    ensures IsHead(f, CheckRecv(Dispatch(h, 0), answers, 0).farm, if Alive(answers) then n + 1 else n)
  {
    RoundResolves(h, answers);
  }

  /** Every state the loop reaches with a round before it is a head. */
  lemma ReachedIsHead(f: Farm, answers: seq<bool>, h: Farm, left: seq<bool>, n: nat)
    requires Invariant(f) && Idle(f) && Invariant(h) && Idle(h) && LeadsTo(f, answers, h, left, n)
    requires f.inQueue > 1 && h.inQueue > 1
    ensures IsHead(f, h, n)
  {
    MainLoopEnds(f, answers);
    MainLoopEnds(h, left);
  }

  lemma IdleSlotsAreFree(f: Farm)
    requires Invariant(f) && Idle(f)
    ensures NothingInFlight(f) <==> f.pending.None?
  {}

  lemma WaitingByParity(f: Farm, h: Farm, n: nat)
    requires Measure(h) == Measure(f) - n && f.pending.None?
    ensures h.pending.None? <==> n % 2 == 0
  {}

  /** A check point is read back if and only if an even number of results came before it: an odd one waits for
      its partner. */
  lemma ReadBackExactly(f: Farm, h: Farm, n: nat)
    requires Fresh(f) && IsHead(f, h, n)
    ensures Deserialize(Serialize(h)).Some?
    ensures Recovers(Deserialize(Serialize(h)).value, h.queue) <==> n % 2 == 0
  {
    CheckpointRecovers(h);
    IdleSlotsAreFree(h);
    WaitingByParity(f, h, n);
  }

  lemma QueueHoldsAll(f: Farm)
    requires Fresh(f)
    ensures QueueNumbers(f.queue) == AllNumbers(f) && (f.queue != [] <==> f.inQueue > 0)
  {
    IdleCounts(f);
  }

  lemma EvenHeadIsFresh(f: Farm, h: Farm, n: nat)
    requires Fresh(f) && IsHead(f, h, n) && n % 2 == 0
    ensures Fresh(h) && h == Restarted(h.queue) && QueueNumbers(h.queue) == QueueNumbers(f.queue)
  {
    WaitingByParity(f, h, n);
    FreshIsRestarted(h);
    QueueHoldsAll(f);
    QueueHoldsAll(h);
  }

  /** A mirror that starts from any check point that is read back puts out what the primary puts out, each
      under its own failures, unless one of them overruns its send buffer. */
  lemma AnyReadBackWillDo(f: Farm, answers: seq<bool>, h: Farm, n: nat, mirrorAnswers: seq<bool>)
    requires Fresh(f) && IsHead(f, h, n) && n % 2 == 0 && f.queue != [] && h.queue != []
    ensures Fresh(Restarted(h.queue))
    ensures RunFits(f, answers) && RunFits(Restarted(h.queue), mirrorAnswers) ==>
              Output(f, answers).Done? && Output(Restarted(h.queue), mirrorAnswers) == Output(f, answers)
  {
    EvenHeadIsFresh(f, h, n);
    if RunFits(f, answers) && RunFits(h, mirrorAnswers) {
      FailuresDoNotShow(f, h, answers, mirrorAnswers);
    }
  }

  // ------------------------------------------------ the file that is left

  /** h is the head of the round before `now`, to which that round brought at most one result. */
  ghost predicate HeadBefore(numbers: multiset<int>, h: Farm, now: Farm) {
    && Invariant(h) && Idle(h) && h.inQueue > 1 && AllNumbers(h) == numbers
    && Measure(h) - 1 <= Measure(now) <= Measure(h)
  }

  lemma NumbersOfExpected(h: Farm, left: seq<bool>, n: int, expected: Outcome, fits: bool)
    requires Invariant(h) && Idle(h) && Expects(h, left, n, expected, fits)
    ensures AllNumbers(expected.farm) == AllNumbers(h)
  {
    MainLoopEnds(h, left);
  }

  lemma StartExpects(f: Farm, answers: seq<bool>, expected: Outcome, fits: bool)
    requires Invariant(f) && Idle(f) && expected == MainLoop(f, answers) && fits == RunFits(f, answers)
    ensures Expects(f, answers, 0, expected, fits) && AllNumbers(expected.farm) == AllNumbers(f)
  {
    MainLoopEnds(f, answers);
  }

  /** All that a round does: it expects the same end, and leaves the file of its head behind. */
  lemma RoundLeadsOn(h: Farm, left: seq<bool>, n: int, expected: Outcome, fits: bool)
    requires Invariant(h) && Idle(h) && h.inQueue > 1 && Expects(h, left, n, expected, fits)
    ensures h.queue != [] && Invariant(Dispatch(h, 0)) && (fits ==> Fits(h.queue[0]))
    ensures var r := CheckRecv(Dispatch(h, 0), left, 0);
            && Invariant(r.farm) && Idle(r.farm) && HeadBefore(AllNumbers(expected.farm), h, r.farm)
            && (Fits(h.queue[0]) ==> Expects(r.farm, r.answers, n + r.successes, expected, fits))
            && (Measure(r.farm) < Measure(h) || (Measure(r.farm) == Measure(h) && |r.answers| < |left|))
  {
    RoundProgress(h, left);
    RoundResolves(h, left);
    MainLoopRound(h, left, CheckRecv(Dispatch(h, 0), left, 0));
    NumbersOfExpected(h, left, n, expected, fits);
  }

  lemma LastPairIsFresh(numbers: multiset<int>, h: Farm, now: Farm)
    requires HeadBefore(numbers, h, now) && now.inQueue == 1
    ensures Fresh(h) && h.inQueue == 2
  {}

  lemma FreshIsReadBack(h: Farm)
    requires Fresh(h)
    ensures Deserialize(Serialize(h)).Some? && Recovers(Deserialize(Serialize(h)).value, h.queue)
  {
    CheckpointRecovers(h);
    IdleSlotsAreFree(h);
  }

  /** A check point that is read back, and holds two tasks with all the numbers of f */
  ghost predicate HoldsLastPair(f: Farm, file: seq<int>) {
    && Deserialize(file).Some?
    && var image := Deserialize(file).value;
       Recovers(image, image.queue) && |image.queue| == 2 && QueueNumbers(image.queue) == QueueNumbers(f.queue)
  }

  /** The check point the loop leaves holds the last two tasks, and is always read back. */
  lemma LastIsReadBack(f: Farm, h: Farm, now: Farm)
    requires Fresh(f) && HeadBefore(AllNumbers(f), h, now) && now.inQueue == 1
    ensures HoldsLastPair(f, Serialize(h))
  {
    LastPairIsFresh(AllNumbers(f), h, now);
    FreshIsReadBack(h);
    IdleCounts(h);
    QueueHoldsAll(f);
    QueueHoldsAll(h);
  }

  lemma LoopLeaves(f: Farm, answers: seq<bool>, h: Farm)
    requires Fresh(f) && f.inQueue > 1 && HeadBefore(AllNumbers(f), h, MainLoop(f, answers).farm)
    ensures HoldsLastPair(f, Serialize(h))
  {
    MainLoopEnds(f, answers);
    IdleCounts(MainLoop(f, answers).farm);
    LastIsReadBack(f, h, MainLoop(f, answers).farm);
  }
}
