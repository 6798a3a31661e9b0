/** The bytes of the shared table, what adding, removing and clearing do to them, and the set of words they
    stand for. */
module SharedMemory {
  import opened Options
  import opened CStrings
  import opened WordHash
  import opened WordTable

  /** One byte more per word is allocated than a slot is wide; the surplus lies behind the last slot. */
  const SHARED_MEMORY_SIZE: nat := 1114112

  const TABLE_END: nat := 1048576

  /** A message of 1024 bytes carries its type and at most this many bytes of a word. */
  const MAX_WORD_IN_PACKET: nat := 1023

  function PositionAt(i: nat, j: nat): nat {
    i * WORDS_PER_BUCKET * WORD_SIZE + j * WORD_SIZE
  }

  /** The address of a slot of a bucket is that of the slots counted through all the buckets. */
  lemma SlotAddress(i: nat, j: nat)
    ensures PositionAt(i, j) == (i * WORDS_PER_BUCKET + j) * WORD_SIZE
  {}

  predicate TailZero(mem: seq<Byte>) {
    |mem| == SHARED_MEMORY_SIZE && forall p :: TABLE_END <= p < SHARED_MEMORY_SIZE ==> mem[p] == 0
  }

  /** The string that starts at p is the given word. */
  predicate EqualAt(mem: seq<Byte>, p: nat, w: Word) {
    p + |w| < |mem| && mem[p + |w|] == 0 && forall k :: p <= k < p + |w| ==> mem[k] == w[k - p]
  }

  function Strcpy(mem: seq<Byte>, p: nat, w: Word): (r: seq<Byte>)
    requires p + |w| < |mem|
  {
    seq(|mem|, k requires 0 <= k < |mem| =>
      if p <= k < p + |w| then w[k - p] else if k == p + |w| then 0 else mem[k])
  }

  function Memset(mem: seq<Byte>, p: nat, n: nat): (r: seq<Byte>)
    requires p + n <= |mem|
  {
    seq(|mem|, k requires 0 <= k < |mem| => if p <= k < p + n then 0 else mem[k])
  }

  /** The first slot from q on, short of `end`, that stores the word */
  function Find(mem: seq<Byte>, q: nat, end: nat, w: Word): (found: Option<nat>)
    requires q <= end
    ensures found.Some? ==> q <= found.value < end && EqualAt(mem, found.value * WORD_SIZE, w)
    ensures found.None? ==> forall r :: q <= r < end ==> !EqualAt(mem, r * WORD_SIZE, w)
    decreases end - q
  {
    if q == end then None
    else if EqualAt(mem, q * WORD_SIZE, w) then Some(q)
    else Find(mem, q + 1, end, w)
  }

  /** The first empty slot from q on, in whichever bucket it is */
  function FirstFree(mem: seq<Byte>, q: nat): (free: nat)
    requires TailZero(mem) && q <= SLOTS
    ensures q <= free <= SLOTS && mem[free * WORD_SIZE] == 0
    ensures forall r :: q <= r < free ==> mem[r * WORD_SIZE] != 0
    decreases SLOTS - q
  {
    if mem[q * WORD_SIZE] == 0 then q else FirstFree(mem, q + 1)
  }

  function FindInBucket(mem: seq<Byte>, w: Word): Option<nat> {
    Find(mem, Bucket(w) * WORDS_PER_BUCKET, (Bucket(w) + 1) * WORDS_PER_BUCKET, w)
  }

  function AddTo(mem: seq<Byte>, w: Word): seq<Byte>
    requires TailZero(mem) && |w| <= MAX_WORD_IN_PACKET
  {
    if FindInBucket(mem, w).Some? then mem
    else Strcpy(mem, FirstFree(mem, Bucket(w) * WORDS_PER_BUCKET) * WORD_SIZE, w)
  }

  function RemoveFrom(mem: seq<Byte>, w: Word): seq<Byte> {
    var found := FindInBucket(mem, w);
    if found.Some? then Memset(mem, found.value * WORD_SIZE, |w|) else mem
  }

  // ------------------------------------------------ bytes and slots

  /** A slot holds a word when the word and zeros fill it. */
  ghost predicate SlotHolds(mem: seq<Byte>, q: nat, w: Word)
    requires |mem| == SHARED_MEMORY_SIZE && q < SLOTS
  {
    && |w| < WORD_SIZE && NulFree(w)
    && var p := q * WORD_SIZE;
       forall k :: p <= k < p + WORD_SIZE ==> mem[k] == if k - p < |w| then w[k - p] else 0
  }

  ghost predicate Encodes(mem: seq<Byte>, t: seq<Word>) {
    && TailZero(mem) && |t| == SLOTS
    && forall q :: 0 <= q < SLOTS ==> SlotHolds(mem, q, t[q])
  }

  lemma SlotIsEmpty(mem: seq<Byte>, q: nat, w: Word)
    requires |mem| == SHARED_MEMORY_SIZE && q < SLOTS && SlotHolds(mem, q, w)
    ensures mem[q * WORD_SIZE] == 0 <==> w == []
  {
  }

  /** Comparing the string at a slot with a word compares the word the slot holds. */
  lemma EqualAtSlot(mem: seq<Byte>, q: nat, v: Word, w: Word)
    requires |mem| == SHARED_MEMORY_SIZE && q < SLOTS && SlotHolds(mem, q, v)
    requires NulFree(w) && |w| <= MAX_WORD_IN_PACKET
    ensures EqualAt(mem, q * WORD_SIZE, w) <==> v == w
  {
    var p := q * WORD_SIZE;
    if |w| < |v| {
      assert mem[p + |w|] == v[|w|];
    } else if |v| < |w| {
      assert mem[p + |v|] == 0 && w[|v|] != 0;
    } else if EqualAt(mem, p, w) {
      forall k | 0 <= k < |v| ensures v[k] == w[k] {
        assert mem[p + k] == v[k];
      }
    }
  }

  lemma CopyIntoSlot(mem: seq<Byte>, t: seq<Word>, q: nat, w: Word)
    requires Encodes(mem, t) && q < SLOTS && t[q] == [] && |w| < WORD_SIZE && NulFree(w)
    ensures Encodes(Strcpy(mem, q * WORD_SIZE, w), t[q := w])
  {}

  lemma EraseSlot(mem: seq<Byte>, t: seq<Word>, q: nat)
    requires Encodes(mem, t) && q < SLOTS && |t[q]| < WORD_SIZE
    ensures Encodes(Memset(mem, q * WORD_SIZE, |t[q]|), t[q := []])
  {}

  // ------------------------------------------------ the set the bytes stand for

  ghost predicate Holds(mem: seq<Byte>, words: set<Word>) {
    exists t :: Encodes(mem, t) && Placed(t) && Contents(t) == words
  }

  lemma EncodingIsUnique(mem: seq<Byte>, t: seq<Word>, u: seq<Word>)
    requires Encodes(mem, t) && Encodes(mem, u)
    ensures t == u
  {
    forall q | 0 <= q < SLOTS ensures t[q] == u[q] {
      assert SlotHolds(mem, q, t[q]) && SlotHolds(mem, q, u[q]);
      EqualAtSlot(mem, q, t[q], u[q]);
      EqualAtSlot(mem, q, u[q], u[q]);
    }
  }

  /** Bytes stand for one set of words at most. */
  lemma HeldSetIsUnique(mem: seq<Byte>, a: set<Word>, b: set<Word>)
    requires Holds(mem, a) && Holds(mem, b)
    ensures a == b
  {
    var t :| Encodes(mem, t) && Placed(t) && Contents(t) == a;
    var u :| Encodes(mem, u) && Placed(u) && Contents(u) == b;
    EncodingIsUnique(mem, t, u);
  }

  lemma FindReadsSlots(mem: seq<Byte>, t: seq<Word>, w: Word)
    requires Encodes(mem, t) && NulFree(w) && |w| <= MAX_WORD_IN_PACKET
    ensures var found := FindInBucket(mem, w);
            && (found.Some? ==> Within(Bucket(w), found.value) && t[found.value] == w)
            && (found.None? ==> forall q: nat :: Within(Bucket(w), q) ==> t[q] != w)
  {
    forall q: nat | Within(Bucket(w), q) ensures EqualAt(mem, q * WORD_SIZE, w) <==> t[q] == w {
      assert SlotHolds(mem, q, t[q]);
      EqualAtSlot(mem, q, t[q], w);
    }
  }

  lemma FreeReadsSlots(mem: seq<Byte>, t: seq<Word>, q: nat)
    requires Encodes(mem, t) && q <= SLOTS
    ensures var free := FirstFree(mem, q);
            && (free < SLOTS ==> t[free] == [])
            && forall r :: q <= r < free ==> t[r] != []
  {
    var free := FirstFree(mem, q);
    if free < SLOTS {
      assert SlotHolds(mem, free, t[free]);
      SlotIsEmpty(mem, free, t[free]);
    }
    forall r | q <= r < free ensures t[r] != [] {
      assert SlotHolds(mem, r, t[r]);
      SlotIsEmpty(mem, r, t[r]);
    }
  }
}
