/** How the input file is divided among the processes and each share cut into tasks. */
module Partition {
  import opened Options

  /** my_numbers: rank 0 takes the remainder as well. */
  function ShareSize(n: nat, p: nat, rank: nat): nat
    requires p >= 1
  {
    if rank == 0 then n / p + n % p else n / p
  }

  /** my_offset */
  function ShareOffset(n: nat, p: nat, rank: nat): nat
    requires p >= 1
  {
    if rank == 0 then 0 else n / p * rank + n % p
  }

  lemma ShareFits(n: nat, p: nat, rank: nat)
    requires rank < p
    ensures ShareOffset(n, p, rank) + ShareSize(n, p, rank) == n / p * (rank + 1) + n % p
    ensures n / p * (rank + 1) + n % p <= n
  {
    assert n == n / p * p + n % p;
    MulLe(n / p, rank + 1, p);
    assert n / p * (rank + 1) == n / p * rank + n / p;
  }

  lemma MulLe(a: nat, b: nat, c: nat)
    requires b <= c
    ensures a * b <= a * c
  {
    assert a * c == a * b + a * (c - b);
  }

  function Share(file: seq<int>, p: nat, rank: nat): seq<int>
    requires rank < p
  {
    ShareFits(|file|, p, rank);
    file[ShareOffset(|file|, p, rank)..ShareOffset(|file|, p, rank) + ShareSize(|file|, p, rank)]
  }

  /** The number of packets each process announces */
  function PacketCount(numbers: nat, size: nat): nat
    requires size >= 1
  {
    if numbers % size == 0 then numbers / size else numbers / size + 1
  }

  function Chunks(share: seq<int>, size: nat): seq<seq<int>>
    requires size >= 1
  {
    if share == [] then []
    else if size <= |share| then [share[..size]] + Chunks(share[size..], size)
    else [share]
  }

  function Flatten(chunks: seq<seq<int>>): seq<int> {
    if chunks == [] then [] else chunks[0] + Flatten(chunks[1..])
  }

  /** The chunks of ranks 0 .. ranks - 1, in the order the master queues them */
  function AllChunks(file: seq<int>, p: nat, size: nat, ranks: nat): seq<seq<int>>
    requires ranks <= p && size >= 1
  {
    if ranks == 0 then [] else AllChunks(file, p, size, ranks - 1) + Chunks(Share(file, p, ranks - 1), size)
  }

  lemma {:induction false} FlattenAppend(a: seq<seq<int>>, b: seq<seq<int>>)
    ensures Flatten(a + b) == Flatten(a) + Flatten(b)
  {
    if a == [] {
      assert a + b == b;
    } else {
      FlattenAppend(a[1..], b);
      assert (a + b)[0] == a[0] && (a + b)[1..] == a[1..] + b;
    }
  }

  ghost predicate WellSized(chunks: seq<seq<int>>, size: nat) {
    forall i :: 0 <= i < |chunks| ==> 1 <= |chunks[i]| <= size
  }

  /** One share is cut without loss into non-empty chunks of at most the wanted size, as many as announced. */
  lemma {:induction false} ChunksExact(share: seq<int>, size: nat)
    requires size >= 1
    ensures Flatten(Chunks(share, size)) == share
    ensures WellSized(Chunks(share, size), size)
    ensures |Chunks(share, size)| == PacketCount(|share|, size)
  {
    if size <= |share| {
      ChunksExact(share[size..], size);
      assert share == share[..size] + share[size..];
      var chunks := Chunks(share, size);
      assert chunks[0] == share[..size] && chunks[1..] == Chunks(share[size..], size);
      DivStep(|share|, size);
    } else if share != [] {
      assert Flatten([share]) == share + Flatten([]);
    }
  }

  lemma DivStep(n: nat, size: nat)
    requires 1 <= size <= n
    ensures (n - size) % size == n % size && (n - size) / size == n / size - 1
  {
    var q, r := n / size, n % size;
    assert n - size == (q - 1) * size + r;
    DivUnique(n - size, size, q - 1, r);
  }

  lemma DivUnique(n: nat, size: nat, q: int, r: nat)
    requires size >= 1 && n == q * size + r && r < size
    ensures n / size == q && n % size == r
  {
    var d := n / size - q;
    assert n == n / size * size + n % size;
    assert d * size == r - n % size;
    if d >= 1 { MulLe(size, 1, d); }
  }

  /** Where the shares of ranks 0 .. ranks - 1 end */
  function SharesEnd(n: nat, p: nat, ranks: nat): nat
    requires p >= 1
  {
    if ranks == 0 then 0 else n / p * ranks + n % p
  }

  lemma ShareAt(file: seq<int>, p: nat, rank: nat)
    requires rank < p
    ensures SharesEnd(|file|, p, rank) <= SharesEnd(|file|, p, rank + 1) <= |file|
    ensures file[..SharesEnd(|file|, p, rank + 1)] == file[..SharesEnd(|file|, p, rank)] + Share(file, p, rank)
  {
    ShareFits(|file|, p, rank);
  }

  lemma WellSizedAppend(a: seq<seq<int>>, b: seq<seq<int>>, size: nat)
    requires WellSized(a, size) && WellSized(b, size)
    ensures WellSized(a + b, size)
  {}

  lemma {:induction false} ChunksCover(file: seq<int>, p: nat, size: nat, ranks: nat)
    requires ranks <= p && p >= 1 && size >= 1
    ensures SharesEnd(|file|, p, ranks) <= |file|
    ensures Flatten(AllChunks(file, p, size, ranks)) == file[..SharesEnd(|file|, p, ranks)]
    ensures WellSized(AllChunks(file, p, size, ranks), size)
  {
    if ranks > 0 {
      var before, chunks := AllChunks(file, p, size, ranks - 1), Chunks(Share(file, p, ranks - 1), size);
      ChunksCover(file, p, size, ranks - 1);
      ShareAt(file, p, ranks - 1);
      ChunksExact(Share(file, p, ranks - 1), size);
      FlattenAppend(before, chunks);
      WellSizedAppend(before, chunks, size);
    }
  }

  lemma SharesEndTheFile(n: nat, p: nat)
    requires p >= 1
    ensures SharesEnd(n, p, p) == n
  {
    assert n == n / p * p + n % p;
  }

  lemma SomethingInChunks(chunks: seq<seq<int>>, size: nat)
    requires WellSized(chunks, size)
    ensures Flatten(chunks) != [] <==> chunks != []
  {
    if chunks != [] {
      assert |chunks[0]| >= 1 && Flatten(chunks)[0] == chunks[0][0];
    }
  }

  /** The chunks of all ranks are the file, once and in order. */
  lemma PartitionExact(file: seq<int>, p: nat, size: nat)
    requires p >= 1 && size >= 1
    ensures Flatten(AllChunks(file, p, size, p)) == file
    ensures WellSized(AllChunks(file, p, size, p), size)
    ensures file != [] <==> AllChunks(file, p, size, p) != []
  {
    ChunksCover(file, p, size, p);
    SharesEndTheFile(|file|, p);
    assert file[..|file|] == file;
    SomethingInChunks(AllChunks(file, p, size, p), size);
  }

  function FirstChunk(rest: seq<int>, size: nat): Option<seq<int>> {
    if rest == [] then None else if size <= |rest| then Some(rest[..size]) else Some(rest)
  }

  /** The cutting loop of one process; the offset outlives each call. */
  class Chunker {
    var currentOffset: nat

    constructor ()
      ensures currentOffset == 0
    {
      currentOffset := 0;
    }

    method NextTask(buffer: seq<int>, optimSize: nat) returns (chunk: Option<seq<int>>)
      modifies this
      ensures currentOffset == if old(currentOffset) >= |buffer| then old(currentOffset) else old(currentOffset) + optimSize
      ensures chunk == FirstChunk(if old(currentOffset) <= |buffer| then buffer[old(currentOffset)..] else [], optimSize)
    {
      if currentOffset >= |buffer| {
        return None;
      }
      ghost var rest := buffer[currentOffset..];
      if currentOffset + optimSize <= |buffer| {
        assert rest[..optimSize] == buffer[currentOffset..currentOffset + optimSize];
        chunk := Some(buffer[currentOffset..currentOffset + optimSize]);
      } else {
        assert rest == buffer[currentOffset..|buffer|];
        chunk := Some(buffer[currentOffset..|buffer|]);
      }
      currentOffset := currentOffset + optimSize;
    }
  }

  method CutShare(share: seq<int>, optimSize: nat) returns (chunks: seq<seq<int>>)
    requires optimSize >= 1
    ensures chunks == Chunks(share, optimSize)
  {
    var chunker := new Chunker();
    chunks := [];
    assert share[0..] == share;
    var chunk := chunker.NextTask(share, optimSize);
    ghost var from := 0;
    while chunk.Some?
      invariant 0 <= from <= |share|
      invariant chunks + Chunks(share[from..], optimSize) == Chunks(share, optimSize)
      invariant chunk.None? <==> from == |share|
      invariant chunk.Some? ==> chunk == FirstChunk(share[from..], optimSize)
      invariant from < |share| ==> chunker.currentOffset == from + optimSize
      invariant from == |share| ==> chunker.currentOffset >= from
      decreases |share| - from
    {
      ghost var rest := share[from..];
      ghost var next := if from + optimSize <= |share| then from + optimSize else |share|;
      assert Chunks(rest, optimSize) == [chunk.value] + Chunks(share[next..], optimSize) by {
        if from + optimSize <= |share| {
          assert rest[optimSize..] == share[next..];
        } else {
          assert share[next..] == [];
        }
      }
      chunks := chunks + [chunk.value];
      chunk := chunker.NextTask(share, optimSize);
      from := next;
    }
    assert share[from..] == [];
  }
}
