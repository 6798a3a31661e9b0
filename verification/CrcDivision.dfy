/** Division of bytes by the CRC-32 polynomial of section 8 of RFC 1952, one bit at a time. */
module CrcDivision {

  /** One bit of the division */
  function BitStep(c: bv32): bv32 {
    if c & 1 == 1 then 0xedb88320 ^ (c >> 1) else c >> 1
  }

  /** Eight bits of the division */
  function ByteStep(c: bv32): bv32 {
    BitStep(BitStep(BitStep(BitStep(BitStep(BitStep(BitStep(BitStep(c))))))))
  }

  function Xor(a: bv32, b: bv32): bv32 { a ^ b }

  /** f distributes over an addition. */
  ghost predicate Linear<T(!new)>(f: T -> T, add: (T, T) -> T) {
    forall a, b :: f(add(a, b)) == add(f(a), f(b))
  }

  ghost predicate Injective<T(!new)>(f: T -> T) {
    forall a, b :: f(a) == f(b) ==> a == b
  }

  ghost predicate Twice<T(!new)>(f: T -> T, g: T -> T) {
    forall a :: g(a) == f(f(a))
  }

  lemma LinearTwice<T(!new)>(f: T -> T, g: T -> T, add: (T, T) -> T)
    requires Linear(f, add) && Twice(f, g)
    ensures Linear(g, add)
  {
  }

  lemma InjectiveTwice<T(!new)>(f: T -> T, g: T -> T)
    requires Injective(f) && Twice(f, g)
    ensures Injective(g)
  {
  }

  lemma BothOdd(a: bv32, b: bv32)
    requires a & 1 == 1 && b & 1 == 1
    ensures BitStep(a ^ b) == BitStep(a) ^ BitStep(b)
  {
  }

  lemma OneOdd(a: bv32, b: bv32)
    requires a & 1 == 1 && b & 1 == 0
    ensures BitStep(a ^ b) == BitStep(a) ^ BitStep(b) == BitStep(b ^ a)
  {
  }

  lemma BothEven(a: bv32, b: bv32)
    requires a & 1 == 0 && b & 1 == 0
    ensures BitStep(a ^ b) == BitStep(a) ^ BitStep(b)
  {
  }

  lemma LowBit(a: bv32)
    ensures a & 1 == 0 || a & 1 == 1
  {
  }

  lemma XorSwap(a: bv32, b: bv32)
    ensures a ^ b == b ^ a
  {
  }

  lemma BitLinear(a: bv32, b: bv32)
    ensures BitStep(a ^ b) == BitStep(a) ^ BitStep(b)
  {
    LowBit(a);
    LowBit(b);
    if a & 1 == 1 && b & 1 == 1 { BothOdd(a, b); }
    else if a & 1 == 1 { OneOdd(a, b); }
    else if b & 1 == 1 { OneOdd(b, a); XorSwap(BitStep(a), BitStep(b)); }
    else { BothEven(a, b); }
  }

  lemma BitInjective(a: bv32, b: bv32)
    requires BitStep(a) == BitStep(b)
    ensures a == b
  {
  }

  lemma BitIsLinear()
    ensures Linear(BitStep, Xor)
  {
    forall a, b ensures BitStep(Xor(a, b)) == Xor(BitStep(a), BitStep(b)) { BitLinear(a, b); }
  }

  lemma BitIsInjective()
    ensures Injective(BitStep)
  {
    forall a, b | BitStep(a) == BitStep(b) ensures a == b { BitInjective(a, b); }
  }

  function TwoSteps(c: bv32): bv32 { BitStep(BitStep(c)) }

  function FourSteps(c: bv32): bv32 { TwoSteps(TwoSteps(c)) }

  lemma Doubling()
    ensures Twice(BitStep, TwoSteps) && Twice(TwoSteps, FourSteps) && Twice(FourSteps, ByteStep)
  {
  }

  lemma ByteIsLinear()
    ensures Linear(ByteStep, Xor)
  {
    BitIsLinear();
    Doubling();
    LinearTwice(BitStep, TwoSteps, Xor);
    LinearTwice(TwoSteps, FourSteps, Xor);
    LinearTwice(FourSteps, ByteStep, Xor);
  }

  lemma ByteIsInjective()
    ensures Injective(ByteStep)
  {
    BitIsInjective();
    Doubling();
    InjectiveTwice(BitStep, TwoSteps);
    InjectiveTwice(TwoSteps, FourSteps);
    InjectiveTwice(FourSteps, ByteStep);
  }

  /** Eight zero bits are shifted out without touching the rest. */
  lemma ByteShifts(a: bv32)
    requires a & 0xff == 0
    ensures ByteStep(a) == a >> 8
  {
  }
}
