/** Which value the CRC is: the residue that data followed by its own CRC leaves, and the check value of CRC-32. */
module CrcResidue {
  import opened CrcDivision
  import opened Crc32
  import opened CrcBursts

  // ------------------------------------------------ a CRC as it is stored

  function Bytes(c: bv32): seq<byte> {
    [(c & 0xff) as byte, ((c >> 8) & 0xff) as byte, ((c >> 16) & 0xff) as byte, (c >> 24) as byte]
  }

  lemma BytesWord(c: bv32)
    ensures var b := Bytes(c); Word(b[0], b[1], b[2], b[3]) == c
  {
    WordOfParts(c);
  }

  lemma WordOfParts(c: bv32)
    ensures Word((c & 0xff) as byte, ((c >> 8) & 0xff) as byte, ((c >> 16) & 0xff) as byte, (c >> 24) as byte) == c
  {
  }

  // ------------------------------------------------ data followed by its own CRC

  lemma ComplementLeft(r: bv32)
    ensures Xor(r, r ^ 0xffffffff) == 0xffffffff
  {}

  lemma OnesDivided()
    ensures ByteStep(0xffffffff) == 0x2dfd1072
    ensures ByteStep(0x2dfd1072) == 0xbe26ed00
    ensures ByteStep(0xbe26ed00) == 0x00be26ed
    ensures ByteStep(0x00be26ed) == 0xdebb20e3
  {}

  /** A register takes its own complement to the division of all ones, whatever it held. */
  lemma OwnComplement(f: bv32 -> bv32, step: (bv32, byte) -> bv32, r: bv32, c: bv32)
    requires Division(f, step) && Xor(r, c) == 0xffffffff
    ensures |Bytes(c)| == 4 && Fold(step, r, Bytes(c)) == f(f(f(f(0xffffffff))))
  {
    var b := Bytes(c);
    BytesWord(c);
    FoldIsFourBytes(f, step, r, b);
    WordAbsorbed(f, r, b[0], b[1], b[2], b[3]);
  }

  lemma FourTimes<T>(f: T -> T, x0: T, x1: T, x2: T, x3: T, x4: T)
    requires f(x0) == x1 && f(x1) == x2 && f(x2) == x3 && f(x3) == x4
    ensures f(f(f(f(x0)))) == x4
  {}

  lemma ComplementFolded(r: bv32, c: bv32)
    requires Xor(r, c) == 0xffffffff
    ensures Fold(BitwiseStep, r, Bytes(c)) == 0xdebb20e3
  {
    CrcDivides();
    OwnComplement(ByteStep, BitwiseStep, r, c);
    OnesDivided();
    FourTimes(ByteStep, 0xffffffff, 0x2dfd1072, 0xbe26ed00, 0x00be26ed, 0xdebb20e3);
  }

  lemma CrcOf(x: seq<byte>, register: bv32)
    requires Fold(BitwiseStep, 0xffffffff, x) == register
    ensures Crc(0, x) == register ^ 0xffffffff
  {}

  /** Any data followed by its own CRC, lowest byte first, has the CRC 0x2144df1c. */
  lemma Residue(x: seq<byte>)
    ensures Crc(0, x + Bytes(Crc(0, x))) == 0x2144df1c
  {
    var r, c := Fold(BitwiseStep, 0xffffffff, x), Crc(0, x);
    CrcOf(x, r);
    ComplementLeft(r);
    ComplementFolded(r, c);
    FoldConcat(BitwiseStep, 0xffffffff, x, Bytes(c));
    CrcOf(x + Bytes(c), 0xdebb20e3);
  }

  // ------------------------------------------------ the check value

  const CHECK: seq<byte> := [0x31, 0x32, 0x33, 0x34, 0x35, 0x36, 0x37, 0x38, 0x39]

  lemma Digit1()
    ensures BitwiseStep(0xffffffff, 0x31) == 0x7c231048
  {}

  lemma Digit2()
    ensures BitwiseStep(0x7c231048, 0x32) == 0xb0acbb32
  {}

  lemma Digit3()
    ensures BitwiseStep(0xb0acbb32, 0x33) == 0x77b79c2d
  {}

  lemma Digit4()
    ensures BitwiseStep(0x77b79c2d, 0x34) == 0x641c1f5c
  {}

  lemma Digit5()
    ensures BitwiseStep(0x641c1f5c, 0x35) == 0x340ac5e3
  {}

  lemma Digit6()
    ensures BitwiseStep(0x340ac5e3, 0x36) == 0xf68d2c9e
  {}

  lemma Digit7()
    ensures BitwiseStep(0xf68d2c9e, 0x37) == 0xaffc9660
  {}

  lemma Digit8()
    ensures BitwiseStep(0xaffc9660, 0x38) == 0x651f2550
  {}

  lemma Digit9()
    ensures BitwiseStep(0x651f2550, 0x39) == 0x340bc6d9
  {}

  lemma FoldNext<T, B>(step: (T, B) -> T, c: T, buf: seq<B>, n: nat)
    requires n < |buf|
    ensures Fold(step, c, buf[..n + 1]) == step(Fold(step, c, buf[..n]), buf[n])
  {
    assert buf[..n + 1] == buf[..n] + [buf[n]];
    FoldOne(step, c, buf[..n], buf[n]);
  }

  lemma NineSteps<T, B>(step: (T, B) -> T, c: T, b: seq<B>)
    requires |b| == 9
    ensures Fold(step, c, b) ==
            step(step(step(step(step(step(step(step(step(c, b[0]), b[1]), b[2]), b[3]), b[4]), b[5]), b[6]), b[7]), b[8])
  {
    FoldNext(step, c, b, 0);
    FoldNext(step, c, b, 1);
    FoldNext(step, c, b, 2);
    FoldNext(step, c, b, 3);
    FoldNext(step, c, b, 4);
    FoldNext(step, c, b, 5);
    FoldNext(step, c, b, 6);
    FoldNext(step, c, b, 7);
    FoldNext(step, c, b, 8);
    assert b[..9] == b;
  }

  lemma DigitsFolded()
    ensures Fold(BitwiseStep, 0xffffffff, CHECK) == 0x340bc6d9
  {
    NineSteps(BitwiseStep, 0xffffffff, CHECK);
    Digit1();
    Digit2();
    Digit3();
    Digit4();
    Digit5();
    Digit6();
    Digit7();
    Digit8();
    Digit9();
  }

  /** The CRC of the nine digits 1 to 9 in ASCII */
  lemma CheckValue()
    ensures Crc(0, CHECK) == 0xcbf43926
  {
    DigitsFolded();
  }
}
