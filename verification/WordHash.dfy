/** The words of the shared table and the hash that picks their bucket. */
module WordHash {
  import opened CStrings

  type Word = seq<Byte>

  const BUCKET_COUNT: nat := 256

  const TWO_TO_THE_32: nat := 0x1_0000_0000

  /** The accumulator after the word, in 32 bits */
  function Djb2(hash: nat, w: Word): nat
    decreases |w|
  {
    if w == [] then hash else Djb2(Mix(hash, w[0]), w[1..])
  }

  function Mix(hash: nat, b: Byte): nat {
    ((hash * 32) % TWO_TO_THE_32 + hash + Signed(b)) % TWO_TO_THE_32
  }

  function Bucket(w: Word): (h: nat)
    ensures h < BUCKET_COUNT
  {
    Djb2(5381, w) % BUCKET_COUNT
  }

  /** The bucket by plain arithmetic on byte values: no wrap-around and no sign */
  function Fold(h: nat, w: Word): nat
    decreases |w|
  {
    if w == [] then h else Fold((h * 33 + w[0]) % BUCKET_COUNT, w[1..])
  }

  lemma SameRemainder(a: int, b: int, k: int)
    requires a == b + BUCKET_COUNT * k
    ensures a % BUCKET_COUNT == b % BUCKET_COUNT
  {}

  /** Wrapping to 32 bits takes away a multiple of the bucket count. */
  lemma WrapKeepsRemainder(x: int) returns (k: int)
    ensures x == x % TWO_TO_THE_32 + BUCKET_COUNT * k
  {
    k := 0x100_0000 * (x / TWO_TO_THE_32);
  }

  lemma MixModulo(hash: nat, b: Byte)
    ensures Mix(hash, b) % BUCKET_COUNT == ((hash % BUCKET_COUNT) * 33 + b) % BUCKET_COUNT
  {
    var shifted := (hash * 32) % TWO_TO_THE_32;
    var k := WrapKeepsRemainder(hash * 32);
    var j := WrapKeepsRemainder(shifted + hash + Signed(b));
    var i := hash / BUCKET_COUNT;
    var sign := if b < 128 then 0 else 1;
    SameRemainder(Mix(hash, b), (hash % BUCKET_COUNT) * 33 + b, 33 * i - k - j - sign);
  }

  /** Neither the 32-bit wrap-around nor the sign of char can be seen in the bucket. */
  lemma {:induction false} BucketIsFold(hash: nat, w: Word)
    ensures Djb2(hash, w) % BUCKET_COUNT == Fold(hash % BUCKET_COUNT, w)
    decreases |w|
  {
    if w != [] {
      MixModulo(hash, w[0]);
      BucketIsFold(Mix(hash, w[0]), w[1..]);
    }
  }

  method Hash(str: seq<Byte>, ghost w: Word) returns (h: nat)
    requires IsString(str, w)
    ensures h == Bucket(w) == Fold(5381 % BUCKET_COUNT, w)
  {
    var hash: nat := 5381;
    var i := 0;
    while str[i] != 0
      invariant i <= |w|
      invariant Djb2(hash, w[i..]) == Djb2(5381, w)
      decreases |w| - i
    {
      hash := Mix(hash, str[i]);
      assert w[i..][1..] == w[i + 1..];
      i := i + 1;
    }
    BucketIsFold(5381, w);
    return hash % BUCKET_COUNT;
  }
}
