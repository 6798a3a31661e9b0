/** The table as a set of words: each request does to the bytes what it does to a set whose buckets have a
    fixed capacity, as long as the set has room, and never otherwise. */
module WordSet {
  import opened Options
  import opened CStrings
  import opened WordHash
  import opened WordTable
  import opened SharedMemory

  datatype Request = Add(word: Word) | Remove(word: Word) | Clear

  predicate Sendable(w: Word) {
    NulFree(w) && |w| <= MAX_WORD_IN_PACKET
  }

  function Inserted(words: set<Word>, w: Word): set<Word> {
    if w == [] then words else words + {w}
  }

  /** Writing nothing over an empty string changes nothing. */
  lemma EmptyCopy(mem: seq<Byte>, p: nat)
    requires p < |mem| && mem[p] == 0
    ensures Strcpy(mem, p, []) == mem
  {}

  /** The word is found exactly when it is stored; the empty word is "found" in any empty slot. */
  lemma FoundIsStored(mem: seq<Byte>, t: seq<Word>, w: Word)
    requires Encodes(mem, t) && Placed(t) && Sendable(w) && w != []
    ensures FindInBucket(mem, w).Some? <==> w in Contents(t)
  {
    FindReadsSlots(mem, t, w);
    StoredInItsBucket(t, w);
  }

  lemma AddNewWord(mem: seq<Byte>, t: seq<Word>, w: Word)
    requires Encodes(mem, t) && Placed(t) && Sendable(w) && w != [] && |w| < WORD_SIZE
    requires w !in Contents(t) && |InBucket(Contents(t), Bucket(w))| < WORDS_PER_BUCKET
    ensures Holds(AddTo(mem, w), Contents(t) + {w})
  {
    FoundIsStored(mem, t, w);
    RoomIsFreeSlot(t, Bucket(w));
    var q: nat :| Within(Bucket(w), q) && t[q] == [];
    var start := Bucket(w) * WORDS_PER_BUCKET;
    FreeReadsSlots(mem, t, start);
    var free := FirstFree(mem, start);
    assert free <= q;
    WithinIsQuotient(Bucket(w), free);
    InsertPlaced(t, free, w);
    CopyIntoSlot(mem, t, free, w);
  }

  lemma AddEmptyWord(mem: seq<Byte>)
    requires TailZero(mem)
    ensures AddTo(mem, []) == mem
  {
    if FindInBucket(mem, []).None? {
      EmptyCopy(mem, FirstFree(mem, Bucket([]) * WORDS_PER_BUCKET) * WORD_SIZE);
    }
  }

  lemma AddWithRoom(mem: seq<Byte>, words: set<Word>, w: Word)
    requires Holds(mem, words) && Sendable(w) && HasRoom(words, w)
    ensures Holds(AddTo(mem, w), Inserted(words, w))
  {
    var t :| Encodes(mem, t) && Placed(t) && Contents(t) == words;
    if w == [] {
      AddEmptyWord(mem);
    } else if w in words {
      FoundIsStored(mem, t, w);
      assert words + {w} == words;
    } else {
      AddNewWord(mem, t, w);
    }
  }

  lemma LongWordHasNoEnd(mem: seq<Byte>, p: nat, w: Word)
    requires p + |w| < |mem| && NulFree(w)
    ensures |w| >= WORD_SIZE ==> Strcpy(mem, p, w)[p + WORD_SIZE - 1] != 0
  {}

  /** Without room the word lands where no table has it. */
  lemma AddWithoutRoom(mem: seq<Byte>, t: seq<Word>, w: Word, u: seq<Word>)
    requires Encodes(mem, t) && Placed(t) && Sendable(w) && !HasRoom(Contents(t), w)
    requires Encodes(AddTo(mem, w), u)
    ensures !Placed(u)
  {
    NotFoundWithoutRoom(mem, t, w);
    var start := Bucket(w) * WORDS_PER_BUCKET;
    var free, after := FirstFree(mem, start), AddTo(mem, w);
    FreeReadsSlots(mem, t, start);
    assert after[free * WORD_SIZE] == w[0];
    assert free < SLOTS;
    LongWordHasNoEnd(mem, free * WORD_SIZE, w);
    assert SlotHolds(after, free, u[free]);
    assert |w| < WORD_SIZE;
    RoomIsFreeSlot(t, Bucket(w));
    WithinIsQuotient(Bucket(w), free);
    CopyIntoSlot(mem, t, free, w);
    EncodingIsUnique(after, u, t[free := w]);
  }

  lemma NotFoundWithoutRoom(mem: seq<Byte>, t: seq<Word>, w: Word)
    requires Encodes(mem, t) && Placed(t) && Sendable(w) && !HasRoom(Contents(t), w)
    ensures w != [] && FindInBucket(mem, w).None?
  {
    FoundIsStored(mem, t, w);
  }

  /** Adding keeps a table exactly when there is room, and then it inserts the word. */
  lemma AddExactly(mem: seq<Byte>, words: set<Word>, w: Word)
    requires Holds(mem, words) && Sendable(w)
    ensures HasRoom(words, w) ==> Holds(AddTo(mem, w), Inserted(words, w))
    ensures !HasRoom(words, w) ==> forall any :: !Holds(AddTo(mem, w), any)
  {
    if HasRoom(words, w) {
      AddWithRoom(mem, words, w);
    } else {
      var t :| Encodes(mem, t) && Placed(t) && Contents(t) == words;
      forall u | Encodes(AddTo(mem, w), u) ensures !Placed(u) {
        AddWithoutRoom(mem, t, w, u);
      }
    }
  }

  /** Removing deletes the word, whatever its length, and nothing else. */
  lemma RemoveExactly(mem: seq<Byte>, words: set<Word>, w: Word)
    requires Holds(mem, words) && Sendable(w)
    ensures Holds(RemoveFrom(mem, w), words - {w})
  {
    var t :| Encodes(mem, t) && Placed(t) && Contents(t) == words;
    FindReadsSlots(mem, t, w);
    var found := FindInBucket(mem, w);
    if w == [] {
      assert found.Some? ==> Memset(mem, found.value * WORD_SIZE, 0) == mem;
      assert words - {w} == words;
    } else {
      FoundIsStored(mem, t, w);
      if found.Some? {
        ErasePlaced(t, found.value);
        EraseSlot(mem, t, found.value);
      } else {
        assert words - {w} == words;
      }
    }
  }

  lemma ClearExactly(mem: seq<Byte>)
    requires |mem| == SHARED_MEMORY_SIZE
    ensures Holds(Memset(mem, 0, |mem|), {})
  {
    var after := Memset(mem, 0, |mem|);
    var t: seq<Word> := seq(SLOTS, _ => []);
    forall q | 0 <= q < SLOTS ensures SlotHolds(after, q, t[q]) {}
    assert Encodes(after, t) && Placed(t);
    assert Contents(t) == {};
  }

  // ------------------------------------------------ runs

  function Apply(words: set<Word>, r: Request): set<Word> {
    match r
    case Add(w) => Inserted(words, w)
    case Remove(w) => words - {w}
    case Clear => {}
  }

  function Serve(mem: seq<Byte>, r: Request): seq<Byte>
    requires TailZero(mem) && (r.Add? ==> Sendable(r.word))
  {
    match r
    case Add(w) => AddTo(mem, w)
    case Remove(w) => RemoveFrom(mem, w)
    case Clear => Memset(mem, 0, |mem|)
  }

  function ApplyAll(words: set<Word>, requests: seq<Request>): set<Word>
    decreases |requests|
  {
    if requests == [] then words else ApplyAll(Apply(words, requests[0]), requests[1..])
  }

  predicate AllSendable(requests: seq<Request>) {
    forall i :: 0 <= i < |requests| ==> requests[i].Clear? || Sendable(requests[i].word)
  }

  /** Every word added finds room in the set it is added to. */
  ghost predicate AllHaveRoom(words: set<Word>, requests: seq<Request>)
    decreases |requests|
  {
    requests != [] ==>
      && (requests[0].Add? ==> HasRoom(words, requests[0].word))
      && AllHaveRoom(Apply(words, requests[0]), requests[1..])
  }

  ghost predicate IsTable(mem: seq<Byte>) {
    exists words :: Holds(mem, words)
  }

  /** The bytes are a table before, between and after the requests. */
  ghost predicate TableThroughout(mem: seq<Byte>, requests: seq<Request>)
    requires AllSendable(requests)
    decreases |requests|
  {
    IsTable(mem) && (requests != [] ==> TableThroughout(Serve(mem, requests[0]), requests[1..]))
  }

  ghost function ServeAll(mem: seq<Byte>, requests: seq<Request>): seq<Byte>
    requires AllSendable(requests) && TableThroughout(mem, requests)
    decreases |requests|
  {
    if requests == [] then mem else ServeAll(Serve(mem, requests[0]), requests[1..])
  }

  lemma ServeApplies(mem: seq<Byte>, words: set<Word>, r: Request)
    requires Holds(mem, words) && (r.Clear? || Sendable(r.word))
    requires r.Add? ==> HasRoom(words, r.word)
    ensures Holds(Serve(mem, r), Apply(words, r))
  {
    match r
    case Add(w) => AddWithRoom(mem, words, w);
    case Remove(w) => RemoveExactly(mem, words, w);
    case Clear => ClearExactly(mem);
  }

  /** Over every run the bytes are a table throughout exactly when every word added has room; and then they
      stand for what the requests make of a set. */
  lemma {:induction false} RunRefinesSet(mem: seq<Byte>, words: set<Word>, requests: seq<Request>)
    requires Holds(mem, words) && AllSendable(requests)
    ensures TableThroughout(mem, requests) <==> AllHaveRoom(words, requests)
    ensures AllHaveRoom(words, requests) ==> Holds(ServeAll(mem, requests), ApplyAll(words, requests))
    decreases |requests|
  {
    if requests != [] {
      var r := requests[0];
      var next := Serve(mem, r);
      if r.Add? && !HasRoom(words, r.word) {
        AddExactly(mem, words, r.word);
        assert !IsTable(next);
      } else {
        ServeApplies(mem, words, r);
        RunRefinesSet(next, Apply(words, r), requests[1..]);
      }
    }
  }

  // ------------------------------------------------ what does not fit

  /** A word of sixteen bytes, which a packet holds, does not fit a slot of sixteen bytes. */
  lemma SixteenBytesBreakTheTable(mem: seq<Byte>, w: Word)
    requires Holds(mem, {}) && NulFree(w) && |w| == WORD_SIZE
    ensures forall any :: !Holds(AddTo(mem, w), any)
  {
    AddExactly(mem, {}, w);
  }
}
