/** The shared table seen as slots: which set of words it stores, and when a bucket is full. */
module WordTable {
  import opened CStrings
  import opened WordHash

  const WORDS_PER_BUCKET: nat := 256

  const SLOTS: nat := 65536

  const WORD_SIZE: nat := 16

  /** Every slot has room for a word and its end, every word is in the bucket of its hash, and no word is
      stored twice. */
  ghost predicate Placed(t: seq<Word>) {
    && |t| == SLOTS
    && (forall q :: 0 <= q < SLOTS ==> |t[q]| < WORD_SIZE && NulFree(t[q]))
    && (forall q :: 0 <= q < SLOTS && t[q] != [] ==> Bucket(t[q]) == q / WORDS_PER_BUCKET)
    && forall q, r :: 0 <= q < r < SLOTS && t[q] != [] ==> t[q] != t[r]
  }

  ghost function Contents(t: seq<Word>): set<Word> {
    set q | 0 <= q < |t| && t[q] != [] :: t[q]
  }

  ghost function InBucket(words: set<Word>, h: nat): set<Word> {
    set w | w in words && Bucket(w) == h
  }

  /** What a set with buckets of a fixed capacity can take in */
  ghost predicate HasRoom(words: set<Word>, w: Word) {
    && |w| < WORD_SIZE
    && (w == [] || w in words || |InBucket(words, Bucket(w))| < WORDS_PER_BUCKET)
  }

  /** Slot q is one of bucket h's. */
  predicate Within(h: nat, q: nat) {
    h * WORDS_PER_BUCKET <= q < (h + 1) * WORDS_PER_BUCKET
  }

  lemma WithinIsQuotient(h: nat, q: nat)
    ensures Within(h, q) <==> q / WORDS_PER_BUCKET == h
  {}

  /** The words in the slots of a bucket that come before slot n */
  ghost function Row(t: seq<Word>, h: nat, n: nat): set<Word>
    requires |t| == SLOTS && n <= SLOTS
  {
    set q | h * WORDS_PER_BUCKET <= q < n && t[q] != [] :: t[q]
  }

  /** The words of a bucket are counted slot by slot. */
  lemma {:induction false} RowCount(t: seq<Word>, h: nat, n: nat)
    requires Placed(t) && h < BUCKET_COUNT && h * WORDS_PER_BUCKET <= n <= (h + 1) * WORDS_PER_BUCKET
    ensures |Row(t, h, n)| <= n - h * WORDS_PER_BUCKET
    ensures |Row(t, h, n)| == n - h * WORDS_PER_BUCKET <==>
              forall q :: h * WORDS_PER_BUCKET <= q < n ==> t[q] != []
  {
    if n == h * WORDS_PER_BUCKET {
      assert Row(t, h, n) == {};
    } else {
      RowCount(t, h, n - 1);
      NextInRow(t, h, n - 1);
    }
  }

  lemma NextInRow(t: seq<Word>, h: nat, n: nat)
    requires Placed(t) && h * WORDS_PER_BUCKET <= n < SLOTS
    ensures |Row(t, h, n + 1)| == |Row(t, h, n)| + if t[n] != [] then 1 else 0
  {
    if t[n] == [] {
      assert Row(t, h, n + 1) == Row(t, h, n);
    } else {
      assert t[n] !in Row(t, h, n);
      assert Row(t, h, n + 1) == Row(t, h, n) + {t[n]};
    }
  }

  lemma RowIsBucket(t: seq<Word>, h: nat)
    requires Placed(t) && h < BUCKET_COUNT
    ensures Row(t, h, (h + 1) * WORDS_PER_BUCKET) == InBucket(Contents(t), h)
  {
    var row, bucket := Row(t, h, (h + 1) * WORDS_PER_BUCKET), InBucket(Contents(t), h);
    forall w | w in row ensures w in bucket {
      var q: nat :| Within(h, q) && t[q] != [] && t[q] == w;
      WithinIsQuotient(h, q);
    }
    forall w | w in bucket ensures w in row {
      var q :| 0 <= q < |t| && t[q] != [] && t[q] == w;
      assert Within(h, q);
    }
  }

  /** A bucket has a free slot exactly when it stores fewer words than its capacity. */
  lemma RoomIsFreeSlot(t: seq<Word>, h: nat)
    requires Placed(t) && h < BUCKET_COUNT
    ensures |InBucket(Contents(t), h)| < WORDS_PER_BUCKET <==> exists q: nat :: Within(h, q) && t[q] == []
  {
    RowCount(t, h, (h + 1) * WORDS_PER_BUCKET);
    RowIsBucket(t, h);
  }

  /** A word is stored exactly when some slot of its bucket holds it. */
  lemma StoredInItsBucket(t: seq<Word>, w: Word)
    requires Placed(t) && w != []
    ensures w in Contents(t) <==> exists q: nat :: Within(Bucket(w), q) && t[q] == w
  {}

  lemma InsertPlaced(t: seq<Word>, q: nat, w: Word)
    requires Placed(t) && q < SLOTS && t[q] == [] && w != [] && |w| < WORD_SIZE && NulFree(w)
    requires Bucket(w) == q / WORDS_PER_BUCKET && w !in Contents(t)
    ensures Placed(t[q := w]) && Contents(t[q := w]) == Contents(t) + {w}
  {
    var after := t[q := w];
    forall r | 0 <= r < SLOTS && r != q ensures after[r] == t[r] && t[r] != w {
      assert t[r] != [] ==> t[r] in Contents(t);
    }
    forall v | v in Contents(t) + {w} ensures v in Contents(after) {
      if v == w {
        assert after[q] == v;
      } else {
        var r :| 0 <= r < |t| && t[r] != [] && t[r] == v;
        assert after[r] == v;
      }
    }
  }

  lemma ErasePlaced(t: seq<Word>, q: nat)
    requires Placed(t) && q < SLOTS && t[q] != []
    ensures Placed(t[q := []]) && Contents(t[q := []]) == Contents(t) - {t[q]}
  {
    var after := t[q := []];
    forall r | 0 <= r < SLOTS && r != q ensures after[r] == t[r] && t[r] != t[q] {
      if r < q && t[r] != [] {
        assert t[r] != t[q];
      }
    }
    forall v | v in Contents(t) - {t[q]} ensures v in Contents(after) {
      var r :| 0 <= r < |t| && t[r] != [] && t[r] == v;
      assert after[r] == v;
    }
  }
}
