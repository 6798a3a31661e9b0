/** Any change confined to four consecutive bytes changes the CRC. */
module CrcBursts {
  import opened CrcDivision
  import opened Crc32

  ghost predicate Separates<T(!new), B(!new)>(step: (T, B) -> T) {
    forall x, y, b :: step(x, b) == step(y, b) ==> x == y
  }

  /** Two register values that a common buffer makes equal were equal before it. */
  lemma {:induction false} FoldInjective<T(!new), B(!new)>(step: (T, B) -> T, c: T, d: T, buf: seq<B>)
    requires Separates(step)
    requires Fold(step, c, buf) == Fold(step, d, buf)
    ensures c == d
  {
    if buf != [] { FoldInjective(step, step(c, buf[0]), step(d, buf[0]), buf[1..]); }
  }

  lemma XorCancels(a: bv32, b: bv32, w: bv32)
    requires Xor(a, w) == Xor(b, w)
    ensures a == b
  {
  }

  lemma XorSwaps(c: bv32, w: bv32)
    ensures Xor(c, w) == Xor(w, c)
  {
  }

  /** step is the register step built on the division step f. */
  ghost predicate Steps(f: bv32 -> bv32, step: (bv32, byte) -> bv32) {
    forall c, b :: step(c, b) == f(Xor(c, b as bv32))
  }

  /** All that the argument below uses of the CRC: a division step f, and the register step built on it */
  ghost predicate Division(f: bv32 -> bv32, step: (bv32, byte) -> bv32) {
    Linear(f, Xor) && Injective(f) && Shifts(f) && Steps(f, step)
  }

  lemma CrcDivides()
    ensures Division(ByteStep, BitwiseStep)
  {
    ByteDivision();
  }

  lemma StepInjective(f: bv32 -> bv32, step: (bv32, byte) -> bv32)
    requires Injective(f) && Steps(f, step)
    ensures Separates(step)
  {
    forall c, d, b | step(c, b) == step(d, b) ensures c == d {
      StepInjectiveAt(f, step, c, d, b);
    }
  }

  lemma StepInjectiveAt(f: bv32 -> bv32, step: (bv32, byte) -> bv32, c: bv32, d: bv32, b: byte)
    requires Injective(f) && Steps(f, step) && step(c, b) == step(d, b)
    ensures c == d
  {
    assert step(c, b) == f(Xor(c, b as bv32)) && step(d, b) == f(Xor(d, b as bv32));
    assert Xor(c, b as bv32) == Xor(d, b as bv32);
    XorCancels(c, d, b as bv32);
  }

  // ------------------------------------------------ four bytes at once

  lemma XorAssociates(a: bv32, b: bv32, c: bv32)
    ensures Xor(Xor(a, b), c) == Xor(a, Xor(b, c))
  {
  }

  /** Dividing a word and then adding its rest is dividing its low byte and adding the rest shifted. */
  lemma Absorb(f: bv32 -> bv32, c: bv32, w: bv32)
    requires Linear(f, Xor) && Shifts(f)
    ensures f(Xor(c, w)) == Xor(f(Xor(c, w & 0xff)), w >> 8)
  {
    SplitWord(w);
    XorAssociates(c, w & 0xff, w & 0xffffff00);
    assert f(Xor(Xor(c, w & 0xff), w & 0xffffff00)) == Xor(f(Xor(c, w & 0xff)), f(w & 0xffffff00));
  }

  /** Four division steps that take one byte each */
  function FourBytes(f: bv32 -> bv32, c: bv32, b0: byte, b1: byte, b2: byte, b3: byte): bv32 {
    f(Xor(f(Xor(f(Xor(f(Xor(c, b0 as bv32)), b1 as bv32)), b2 as bv32)), b3 as bv32))
  }

  function Word(b0: byte, b1: byte, b2: byte, b3: byte): bv32 {
    (b0 as bv32) | ((b1 as bv32) << 8) | ((b2 as bv32) << 16) | ((b3 as bv32) << 24)
  }

  lemma WordBytes(b0: byte, b1: byte, b2: byte, b3: byte)
    ensures var w := Word(b0, b1, b2, b3);
            && w & 0xff == b0 as bv32
            && (w >> 8) & 0xff == b1 as bv32
            && ((w >> 8) >> 8) & 0xff == b2 as bv32
            && ((w >> 8) >> 8) >> 8 == b3 as bv32
  {
  }

  lemma WordAbsorbed(f: bv32 -> bv32, c: bv32, b0: byte, b1: byte, b2: byte, b3: byte)
    requires Linear(f, Xor) && Shifts(f)
    ensures f(f(f(f(Xor(c, Word(b0, b1, b2, b3)))))) == FourBytes(f, c, b0, b1, b2, b3)
  {
    var w0 := Word(b0, b1, b2, b3);
    WordBytes(b0, b1, b2, b3);
    var w1 := w0 >> 8;
    var w2 := w1 >> 8;
    var c1 := f(Xor(c, b0 as bv32));
    var c2 := f(Xor(c1, b1 as bv32));
    var c3 := f(Xor(c2, b2 as bv32));
    Absorb(f, c, w0);
    Absorb(f, c1, w1);
    Absorb(f, c2, w2);
  }

  lemma InjectiveFourTimes<T(!new)>(f: T -> T, x: T, y: T)
    requires Injective(f) && f(f(f(f(x)))) == f(f(f(f(y))))
    ensures x == y
  {
  }

  lemma WordInjective(a0: byte, a1: byte, a2: byte, a3: byte, b0: byte, b1: byte, b2: byte, b3: byte)
    requires Word(a0, a1, a2, a3) == Word(b0, b1, b2, b3)
    ensures a0 == b0 && a1 == b1 && a2 == b2 && a3 == b3
  {
  }

  lemma FourBytesInjective(f: bv32 -> bv32, c: bv32, a0: byte, a1: byte, a2: byte, a3: byte,
                           b0: byte, b1: byte, b2: byte, b3: byte)
    requires Linear(f, Xor) && Injective(f) && Shifts(f)
    requires FourBytes(f, c, a0, a1, a2, a3) == FourBytes(f, c, b0, b1, b2, b3)
    ensures a0 == b0 && a1 == b1 && a2 == b2 && a3 == b3
  {
    var x, y := Word(a0, a1, a2, a3), Word(b0, b1, b2, b3);
    WordAbsorbed(f, c, a0, a1, a2, a3);
    WordAbsorbed(f, c, b0, b1, b2, b3);
    InjectiveFourTimes(f, Xor(c, x), Xor(c, y));
    XorSwaps(c, x);
    XorSwaps(c, y);
    XorCancels(x, y, c);
    WordInjective(a0, a1, a2, a3, b0, b1, b2, b3);
  }

  lemma FoldFour<T, B>(step: (T, B) -> T, c: T, x: seq<B>)
    requires |x| == 4
    ensures Fold(step, c, x) == step(step(step(step(c, x[0]), x[1]), x[2]), x[3])
  {
    var x1 := x[1..];
    var x2 := x1[1..];
    var x3 := x2[1..];
    assert x1[0] == x[1] && x2[0] == x[2] && x3[0] == x[3] && x3[1..] == [];
    var c1 := step(c, x[0]);
    var c2 := step(c1, x[1]);
    assert Fold(step, c, x) == Fold(step, c1, x1);
    assert Fold(step, c1, x1) == Fold(step, c2, x2);
    assert Fold(step, c2, x2) == Fold(step, step(c2, x[2]), x3);
  }

  lemma FoldIsFourBytes(f: bv32 -> bv32, step: (bv32, byte) -> bv32, c: bv32, x: seq<byte>)
    requires Division(f, step) && |x| == 4
    ensures Fold(step, c, x) == FourBytes(f, c, x[0], x[1], x[2], x[3])
  {
    FoldFour(step, c, x);
  }

  lemma FourByteBlock(f: bv32 -> bv32, step: (bv32, byte) -> bv32, c: bv32, x: seq<byte>, y: seq<byte>)
    requires Division(f, step) && |x| == |y| == 4
    requires Fold(step, c, x) == Fold(step, c, y)
    ensures x == y
  {
    FoldIsFourBytes(f, step, c, x);
    FoldIsFourBytes(f, step, c, y);
    FourBytesInjective(f, c, x[0], x[1], x[2], x[3], y[0], y[1], y[2], y[3]);
  }

  /** Shorter blocks are padded to four bytes with a common tail. */
  lemma ShortBlock(f: bv32 -> bv32, step: (bv32, byte) -> bv32, c: bv32, x: seq<byte>, y: seq<byte>)
    requires Division(f, step) && |x| == |y| <= 4
    requires Fold(step, c, x) == Fold(step, c, y)
    ensures x == y
  {
    var pad := seq(4 - |x|, _ => 0 as byte);
    FoldConcat(step, c, x, pad);
    FoldConcat(step, c, y, pad);
    FourByteBlock(f, step, c, x + pad, y + pad);
    assert x == (x + pad)[..|x|] && y == (y + pad)[..|y|];
  }

  lemma SameMiddle(f: bv32 -> bv32, step: (bv32, byte) -> bv32, r: bv32,
                   front: seq<byte>, x: seq<byte>, y: seq<byte>, back: seq<byte>)
    requires Division(f, step) && |x| == |y| <= 4
    requires Fold(step, r, front + x + back) == Fold(step, r, front + y + back)
    ensures x == y
  {
    FoldConcat(step, r, front + x, back);
    FoldConcat(step, r, front + y, back);
    FoldConcat(step, r, front, x);
    FoldConcat(step, r, front, y);
    StepInjective(f, step);
    FoldInjective(step, Fold(step, r, front + x), Fold(step, r, front + y), back);
    ShortBlock(f, step, Fold(step, r, front), x, y);
  }

  /** u and v have the same bytes outside i .. i + 3. */
  predicate DifferWithin(u: seq<byte>, v: seq<byte>, i: nat) {
    |u| == |v| && forall k :: 0 <= k < |u| && !(i <= k < i + 4) ==> u[k] == v[k]
  }

  lemma SplitInThree(s: seq<byte>, lo: nat, hi: nat)
    requires lo <= hi <= |s|
    ensures s == s[..lo] + s[lo..hi] + s[hi..]
  {}

  lemma BurstSeen(f: bv32 -> bv32, step: (bv32, byte) -> bv32, r: bv32, u: seq<byte>, v: seq<byte>, i: nat)
    requires Division(f, step) && DifferWithin(u, v, i)
    requires Fold(step, r, u) == Fold(step, r, v)
    ensures u == v
  {
    var n := |u|;
    var lo := if i < n then i else n;
    var hi := if i + 4 < n then i + 4 else n;
    SplitInThree(u, lo, hi);
    SplitInThree(v, lo, hi);
    assert v[..lo] == u[..lo] && v[hi..] == u[hi..];
    SameMiddle(f, step, r, u[..lo], u[lo..hi], v[lo..hi], u[hi..]);
  }

  /** Buffers that differ, and only within four consecutive bytes, have different CRCs. */
  lemma BurstDetected(c: bv32, u: seq<byte>, v: seq<byte>, i: nat)
    requires DifferWithin(u, v, i) && u != v
    ensures Crc(c, u) != Crc(c, v)
  {
    if Crc(c, u) == Crc(c, v) {
      XorCancels(Fold(BitwiseStep, c ^ 0xffffffff, u), Fold(BitwiseStep, c ^ 0xffffffff, v), 0xffffffff);
      CrcDivides();
      BurstSeen(ByteStep, BitwiseStep, c ^ 0xffffffff, u, v, i);
    }
  }

  // ------------------------------------------------ the bound is sharp

  const FIVE_ZEROS: seq<byte> := [0, 0, 0, 0, 0]
  const FIVE_BYTES: seq<byte> := [0x01, 0x96, 0x30, 0x07, 0x77]

  lemma XorZero(a: bv32, p: bv32)
    ensures Xor(a, 0) == a && Xor(Xor(a, p), p) == a
  {
  }

  /** Adding the remainder of 1 twice cancels it. */
  lemma FiveBytesCollide(f: bv32 -> bv32, c: bv32, p: bv32)
    requires Linear(f, Xor) && f(1) == p
    ensures f(f(f(f(Xor(f(Xor(c, 1)), p))))) == f(f(f(f(Xor(f(Xor(c, 0)), 0)))))
  {
    assert f(Xor(c, 1)) == Xor(f(c), f(1));
    XorZero(f(c), p);
    XorZero(c, p);
  }

  lemma FoldFive(f: bv32 -> bv32, step: (bv32, byte) -> bv32, r: bv32, b: byte, x: seq<byte>)
    requires Division(f, step) && |x| == 4
    ensures Fold(step, r, [b] + x) ==
            f(f(f(f(Xor(f(Xor(r, b as bv32)), Word(x[0], x[1], x[2], x[3]))))))
  {
    assert ([b] + x)[1..] == x;
    FoldIsFourBytes(f, step, step(r, b), x);
    WordAbsorbed(f, step(r, b), x[0], x[1], x[2], x[3]);
  }

  lemma FiveBytesMissed(f: bv32 -> bv32, step: (bv32, byte) -> bv32, r: bv32)
    requires Division(f, step) && f(1) == 0x77073096
    ensures Fold(step, r, FIVE_BYTES) == Fold(step, r, FIVE_ZEROS)
  {
    assert FIVE_BYTES == [0x01] + [0x96, 0x30, 0x07, 0x77];
    assert FIVE_ZEROS == [0] + [0, 0, 0, 0];
    FoldFive(f, step, r, 0x01, [0x96, 0x30, 0x07, 0x77]);
    FoldFive(f, step, r, 0, [0, 0, 0, 0]);
    FiveBytesCollide(f, r, 0x77073096);
  }

  /** Five bytes are too many: this change goes unnoticed in front of any tail, from any start value. */
  lemma FiveBytesUndetected(c: bv32, rest: seq<byte>)
    ensures Crc(c, FIVE_BYTES + rest) == Crc(c, FIVE_ZEROS + rest)
  {
    var r := c ^ 0xffffffff;
    FoldConcat(BitwiseStep, r, FIVE_BYTES, rest);
    FoldConcat(BitwiseStep, r, FIVE_ZEROS, rest);
    CrcDivides();
    FiveBytesMissed(ByteStep, BitwiseStep, r);
  }
}
