/** The server's request handlers, working on the shared bytes in place. */
module HashTableServer {
  import opened Options
  import opened CStrings
  import opened WordHash
  import opened WordTable
  import M = SharedMemory
  import WordSet

  lemma {:induction false} FindIs(mem: seq<Byte>, q: nat, end: nat, w: Word, r: nat)
    requires q <= r < end && M.EqualAt(mem, r * WORD_SIZE, w)
    requires forall s :: q <= s < r ==> !M.EqualAt(mem, s * WORD_SIZE, w)
    ensures M.Find(mem, q, end, w) == Some(r)
    decreases r - q
  {
    if q < r {
      FindIs(mem, q + 1, end, w, r);
    }
  }

  class HashTable {
    const memory: array<Byte>

    constructor ()
      ensures fresh(memory) && M.Holds(memory[..], {})
    {
      memory := new Byte[M.SHARED_MEMORY_SIZE](_ => 0);
      new;
      assert memory[..] == M.Memset(memory[..], 0, memory.Length);
      WordSet.ClearExactly(memory[..]);
    }

    method Strcmp(p: nat, str: seq<Byte>, ghost w: Word) returns (equal: bool)
      requires IsString(str, w) && p + |w| < memory.Length
      ensures equal == M.EqualAt(memory[..], p, w)
    {
      var k := 0;
      while str[k] != 0
        invariant k <= |w|
        invariant forall j :: p <= j < p + k ==> memory[j] == w[j - p]
        decreases |w| - k
      {
        if memory[p + k] != str[k] {
          assert memory[..][p + k] != w[p + k - p];
          return false;
        }
        k := k + 1;
      }
      return memory[p + k] == 0;
    }

    method Strcpy(p: nat, str: seq<Byte>, ghost w: Word)
      requires IsString(str, w) && p + |w| < memory.Length
      modifies memory
      ensures memory[..] == M.Strcpy(old(memory[..]), p, w)
    {
      var k := 0;
      while str[k] != 0
        invariant k <= |w|
        invariant forall j :: p <= j < p + k ==> memory[j] == w[j - p]
        invariant forall j :: 0 <= j < memory.Length && !(p <= j < p + k) ==> memory[j] == old(memory[j])
        decreases |w| - k
      {
        memory[p + k] := str[k];
        k := k + 1;
      }
      memory[p + k] := 0;
    }

    method Memset(p: nat, n: nat)
      requires p + n <= memory.Length
      modifies memory
      ensures memory[..] == M.Memset(old(memory[..]), p, n)
    {
      for k := 0 to n
        invariant forall j :: p <= j < p + k ==> memory[j] == 0
        invariant forall j :: 0 <= j < memory.Length && !(p <= j < p + k) ==> memory[j] == old(memory[j])
      {
        memory[p + k] := 0;
      }
    }

    method Strlen(str: seq<Byte>, ghost w: Word) returns (n: nat)
      requires IsString(str, w)
      ensures n == |w|
    {
      n := 0;
      while str[n] != 0
        invariant n <= |w|
        decreases |w| - n
      {
        n := n + 1;
      }
    }

    /** The number of the slot of the bucket that stores the word, or none of them */
    method Search(bucket: nat, str: seq<Byte>, ghost w: Word) returns (found: Option<nat>)
      requires memory.Length == M.SHARED_MEMORY_SIZE && IsString(str, w) && |w| <= M.MAX_WORD_IN_PACKET
      requires bucket == Bucket(w)
      ensures found.Some? ==> M.FindInBucket(memory[..], w) == Some(bucket * WORDS_PER_BUCKET + found.value)
      ensures found.None? ==> M.FindInBucket(memory[..], w) == None
    {
      ghost var mem := memory[..];
      ghost var first := bucket * WORDS_PER_BUCKET;
      for i := 0 to WORDS_PER_BUCKET
        invariant forall q :: first <= q < first + i ==> !M.EqualAt(mem, q * WORD_SIZE, w)
      {
        M.SlotAddress(bucket, i);
        var equal := Strcmp(M.PositionAt(bucket, i), str, w);
        if equal {
          FindIs(mem, first, first + WORDS_PER_BUCKET, w, first + i);
          return Some(i);
        }
      }
      return None;
    }

    method Add(str: seq<Byte>, ghost w: Word)
      requires M.TailZero(memory[..]) && IsString(str, w) && |w| <= M.MAX_WORD_IN_PACKET
      modifies memory
      ensures memory[..] == M.AddTo(old(memory[..]), w)
    {
      ghost var mem := memory[..];
      var bucket := Hash(str, w);
      var found := Search(bucket, str, w);
      if found.None? {
        var pos := 0;
        ghost var first := bucket * WORDS_PER_BUCKET;
        M.SlotAddress(bucket, pos);
        while memory[M.PositionAt(bucket, pos)] != 0
          invariant memory[..] == mem && first + pos <= SLOTS
          invariant M.PositionAt(bucket, pos) == (first + pos) * WORD_SIZE
          invariant M.FirstFree(mem, first) == M.FirstFree(mem, first + pos)
          decreases SLOTS - pos
        {
          assert mem[SLOTS * WORD_SIZE] == 0;
          pos := pos + 1;
          M.SlotAddress(bucket, pos);
        }
        Strcpy(M.PositionAt(bucket, pos), str, w);
      }
    }

    method Remove(str: seq<Byte>, ghost w: Word)
      requires memory.Length == M.SHARED_MEMORY_SIZE && IsString(str, w) && |w| <= M.MAX_WORD_IN_PACKET
      modifies memory
      ensures memory[..] == M.RemoveFrom(old(memory[..]), w)
    {
      var bucket := Hash(str, w);
      var found := Search(bucket, str, w);
      if found.Some? {
        var n := Strlen(str, w);
        M.SlotAddress(bucket, found.value);
        Memset(M.PositionAt(bucket, found.value), n);
      }
    }

    method Clear()
      modifies memory
      ensures memory[..] == M.Memset(old(memory[..]), 0, memory.Length)
    {
      Memset(0, memory.Length);
    }
  }
}
