/** An input beyond the bound of the send buffer: the one the build generates by default, 20000 numbers sorted
    by two processes. Three deaths are enough. */
module DefaultInput {
  import opened Options
  import opened TaskPackets
  import opened TaskFarm
  import opened FarmRuns
  import opened PacketLoad
  import opened Checkpoint
  import opened Partition
  import opened SortService

  const SIZE: nat := 20000

  const PROCESSES: nat := 2

  const THREE_DEATHS: seq<bool> := [
    true, true, true, true, true, true, false, true, true, true, true, false, true, true, false]

  function S(size: nat): Item {
    Item(size, false)
  }

  function M(size: nat): Item {
    Item(size, true)
  }

  /** The loads before every round of that schedule */
  function LoadAt(k: nat): Load
    requires k <= |THREE_DEATHS|
  {
    if k == 0 then Load([S(3072), S(3072), S(3072), S(784), S(3072), S(3072), S(3072), S(784)], None)
    else if k == 1 then Load([S(3072), S(3072), S(784), S(3072), S(3072), S(3072), S(784)], Some(3072))
    else if k == 2 then Load([S(3072), S(784), S(3072), S(3072), S(3072), S(784), M(6144)], None)
    else if k == 3 then Load([S(784), S(3072), S(3072), S(3072), S(784), M(6144)], Some(3072))
    else if k == 4 then Load([S(3072), S(3072), S(3072), S(784), M(6144), M(3856)], None)
    else if k == 5 then Load([S(3072), S(3072), S(784), M(6144), M(3856)], Some(3072))
    else if k == 6 then Load([S(3072), S(784), M(6144), M(3856), M(6144)], None)
    else if k == 7 then Load([S(784), M(6144), M(3856), M(6144), S(3072)], None)
    else if k == 8 then Load([M(6144), M(3856), M(6144), S(3072)], Some(784))
    else if k == 9 then Load([M(3856), M(6144), S(3072), M(6928)], None)
    else if k == 10 then Load([M(6144), S(3072), M(6928)], Some(3856))
    else if k == 11 then Load([S(3072), M(6928), M(10000)], None)
    else if k == 12 then Load([M(6928), M(10000), S(3072)], None)
    else if k == 13 then Load([M(10000), S(3072)], Some(6928))
    else if k == 14 then Load([S(3072), M(16928)], None)
    else Load([M(16928), S(3072)], None)
  }

  lemma Rounds0To3(k: nat)
    requires 0 <= k <= 3
    ensures |LoadAt(k).queue| > 1 && Round(LoadAt(k), THREE_DEATHS[k]) == LoadAt(k + 1)
  {
    if k == 0 { assert Round(LoadAt(0), THREE_DEATHS[0]) == LoadAt(1); }
    else if k == 1 { assert Round(LoadAt(1), THREE_DEATHS[1]) == LoadAt(2); }
    else if k == 2 { assert Round(LoadAt(2), THREE_DEATHS[2]) == LoadAt(3); }
    else if k == 3 { assert Round(LoadAt(3), THREE_DEATHS[3]) == LoadAt(4); }
  }

  lemma Rounds4To7(k: nat)
    requires 4 <= k <= 7
    ensures |LoadAt(k).queue| > 1 && Round(LoadAt(k), THREE_DEATHS[k]) == LoadAt(k + 1)
  {
    if k == 4 { assert Round(LoadAt(4), THREE_DEATHS[4]) == LoadAt(5); }
    else if k == 5 { assert Round(LoadAt(5), THREE_DEATHS[5]) == LoadAt(6); }
    else if k == 6 { assert Round(LoadAt(6), THREE_DEATHS[6]) == LoadAt(7); }
    else if k == 7 { assert Round(LoadAt(7), THREE_DEATHS[7]) == LoadAt(8); }
  }

  lemma Rounds8To11(k: nat)
    requires 8 <= k <= 11
    ensures |LoadAt(k).queue| > 1 && Round(LoadAt(k), THREE_DEATHS[k]) == LoadAt(k + 1)
  {
    if k == 8 { assert Round(LoadAt(8), THREE_DEATHS[8]) == LoadAt(9); }
    else if k == 9 { assert Round(LoadAt(9), THREE_DEATHS[9]) == LoadAt(10); }
    else if k == 10 { assert Round(LoadAt(10), THREE_DEATHS[10]) == LoadAt(11); }
    else if k == 11 { assert Round(LoadAt(11), THREE_DEATHS[11]) == LoadAt(12); }
  }

  lemma Rounds12To14(k: nat)
    requires 12 <= k <= 14
    ensures |LoadAt(k).queue| > 1 && Round(LoadAt(k), THREE_DEATHS[k]) == LoadAt(k + 1)
  {
    if k == 12 { assert Round(LoadAt(12), THREE_DEATHS[12]) == LoadAt(13); }
    else if k == 13 { assert Round(LoadAt(13), THREE_DEATHS[13]) == LoadAt(14); }
    else if k == 14 { assert Round(LoadAt(14), THREE_DEATHS[14]) == LoadAt(15); }
  }

  /** Each round leads from one of these loads to the next. */
  lemma RoundsAt(k: nat)
    requires k < |THREE_DEATHS|
    ensures |LoadAt(k).queue| > 1 && Round(LoadAt(k), THREE_DEATHS[k]) == LoadAt(k + 1)
  {
    if k <= 3 { Rounds0To3(k); }
    else if k <= 7 { Rounds4To7(k); }
    else if k <= 11 { Rounds8To11(k); }
    else { Rounds12To14(k); }
  }

  lemma {:induction false} OverrunAt(k: nat)
    requires k <= |THREE_DEATHS|
    ensures !LoadFits(LoadAt(k), THREE_DEATHS[k..], MAX_PACKET_SIZE)
    decreases |THREE_DEATHS| - k
  {
    if k < |THREE_DEATHS| {
      RoundsAt(k);
      OverrunAt(k + 1);
      assert THREE_DEATHS[k..][0] == THREE_DEATHS[k] && THREE_DEATHS[k..][1..] == THREE_DEATHS[k + 1..];
    }
  }

  lemma ChunksOfShare(share: seq<int>)
    requires |share| == 10000
    ensures var chunks := Chunks(share, OPTIM_SIZE);
            |chunks| == 4 && |chunks[0]| == |chunks[1]| == |chunks[2]| == 3072 && |chunks[3]| == 784
  {
    var rest1 := share[3072..];
    var rest2 := rest1[3072..];
    var rest3 := rest2[3072..];
    assert Chunks(rest3, OPTIM_SIZE) == [rest3];
    assert Chunks(rest2, OPTIM_SIZE) == [rest2[..3072]] + Chunks(rest3, OPTIM_SIZE);
    assert Chunks(rest1, OPTIM_SIZE) == [rest1[..3072]] + Chunks(rest2, OPTIM_SIZE);
    assert Chunks(share, OPTIM_SIZE) == [share[..3072]] + Chunks(rest1, OPTIM_SIZE);
  }

  lemma ChunksOfFile(file: seq<int>)
    requires |file| == SIZE
    ensures AllChunks(file, PROCESSES, OPTIM_SIZE, PROCESSES)
         == Chunks(Share(file, PROCESSES, 0), OPTIM_SIZE) + Chunks(Share(file, PROCESSES, 1), OPTIM_SIZE)
    ensures |Share(file, PROCESSES, 0)| == |Share(file, PROCESSES, 1)| == 10000
  {
    var first := Chunks(Share(file, PROCESSES, 0), OPTIM_SIZE);
    assert AllChunks(file, PROCESSES, OPTIM_SIZE, 0) == [];
    assert AllChunks(file, PROCESSES, OPTIM_SIZE, 1) == [] + first == first;
  }

  lemma ChunkAt(first: seq<seq<int>>, second: seq<seq<int>>, i: nat)
    requires |first| == |second| == 4 && i < 8
    requires |first[0]| == |first[1]| == |first[2]| == 3072 && |first[3]| == 784
    requires |second[0]| == |second[1]| == |second[2]| == 3072 && |second[3]| == 784
    ensures S(|(first + second)[i]|) == LoadAt(0).queue[i]
  {
    assert (first + second)[i] == if i < 4 then first[i] else second[i - 4];
  }

  lemma LoadOfFile(file: seq<int>)
    requires |file| == SIZE
    ensures LoadOf(Restarted(InitialQueue(file, PROCESSES))) == LoadAt(0)
  {
    var first, second := Share(file, PROCESSES, 0), Share(file, PROCESSES, 1);
    ChunksOfFile(file);
    ChunksOfShare(first);
    ChunksOfShare(second);
    PieceAt(file, PROCESSES, 0);
    forall i | 0 <= i < 8 ensures Pieces(file, PROCESSES)[i] == LoadAt(0).queue[i] {
      PieceAt(file, PROCESSES, i);
      ChunkAt(Chunks(first, OPTIM_SIZE), Chunks(second, OPTIM_SIZE), i);
    }
  }

  /** Sorting 20000 numbers with two processes, three deaths lead to a merge packet of 16931 words. */
  lemma DefaultInputOverruns(file: seq<int>)
    requires |file| == SIZE
    ensures Fresh(Restarted(InitialQueue(file, PROCESSES)))
    ensures !RunFits(Restarted(InitialQueue(file, PROCESSES)), THREE_DEATHS)
    ensures !WithinBuffer(file, PROCESSES)
  {
    BufferSufficesExactly(file, PROCESSES);
    LoadOfFile(file);
    OverrunAt(0);
    assert THREE_DEATHS[0..] == THREE_DEATHS;
    RunIsLoad(Restarted(InitialQueue(file, PROCESSES)), THREE_DEATHS);
  }
}
