/** Network masks, bit by bit. */
module AddressBits {

  function Half(x: bv32): bv32 { x >> 1 }

  predicate Odd(x: bv32) { x & 1 == 1 }

  function Masked(x: bv32, mask: bv32): bv32 { x & mask }

  function Iterate<T>(f: T -> T, x: T, n: nat): T
    decreases n
  {
    if n == 0 then x else Iterate(f, f(x), n - 1)
  }

  /** Bit i of a word, counted from the lowest */
  predicate Bit(x: bv32, i: nat) {
    Odd(Iterate(Half, x, i))
  }

  /** Two addresses have the same bit wherever the mask has one. */
  predicate Agree(a: bv32, b: bv32, mask: bv32) {
    forall i: nat :: i < 32 && Bit(mask, i) ==> (Bit(a, i) <==> Bit(b, i))
  }

  // ------------------------------------------------ a word has 32 bits

  lemma {:induction false} IterateMore<T>(f: T -> T, x: T, m: nat, n: nat)
    ensures Iterate(f, x, m + n) == Iterate(f, Iterate(f, x, m), n)
    decreases m
  {
    if m > 0 { IterateMore(f, f(x), m - 1, n); }
  }

  lemma FourTimesEight<T(!new)>(f: T -> T, g: T -> T, x: T)
    requires forall y :: Iterate(f, y, 4) == g(y)
    ensures Iterate(f, x, 32) == g(g(g(g(g(g(g(g(x))))))))
  {
    IterateMore(f, x, 4, 28);
    IterateMore(f, g(x), 4, 24);
    IterateMore(f, g(g(x)), 4, 20);
    IterateMore(f, g(g(g(x))), 4, 16);
    IterateMore(f, g(g(g(g(x)))), 4, 12);
    IterateMore(f, g(g(g(g(g(x))))), 4, 8);
    IterateMore(f, g(g(g(g(g(g(x)))))), 4, 4);
  }

  function Sixteenth(x: bv32): bv32 { x >> 4 }

  lemma HalfFourTimes(x: bv32)
    ensures Half(Half(Half(Half(x)))) == Sixteenth(x)
  {}

  lemma Iterate4<T>(f: T -> T, x: T)
    ensures Iterate(f, x, 4) == f(f(f(f(x))))
  {}

  lemma ShiftedOut(x: bv32)
    ensures Sixteenth(Sixteenth(Sixteenth(Sixteenth(Sixteenth(Sixteenth(Sixteenth(Sixteenth(x)))))))) == 0
  {}

  lemma WordHas32Bits(x: bv32)
    ensures Iterate(Half, x, 32) == 0
  {
    forall y ensures Iterate(Half, y, 4) == Sixteenth(y) {
      Iterate4(Half, y);
      HalfFourTimes(y);
    }
    FourTimesEight(Half, Sixteenth, x);
    ShiftedOut(x);
  }

  // ------------------------------------------------ from the mask to its bits

  lemma HalfOfMasked(x: bv32, mask: bv32)
    ensures Half(Masked(x, mask)) == Masked(Half(x), Half(mask))
  {}

  lemma OddMasked(x: bv32, mask: bv32)
    ensures Odd(Masked(x, mask)) <==> Odd(x) && Odd(mask)
  {}

  lemma SameWord(x: bv32, y: bv32)
    ensures x == y <==> (Odd(x) <==> Odd(y)) && Half(x) == Half(y)
  {}

  lemma NothingMasked(x: bv32)
    ensures Masked(x, 0) == 0
  {}

  /** Halving takes one bit off a masked word. */
  ghost predicate OneBitOff<T(!new)>(half: T -> T, odd: T -> bool, masked: (T, T) -> T) {
    Halves(half, masked) && KeepsOdd(odd, masked) && Decides(half, odd)
  }

  ghost predicate Halves<T(!new)>(half: T -> T, masked: (T, T) -> T) {
    forall x, m :: half(masked(x, m)) == masked(half(x), half(m))
  }

  ghost predicate KeepsOdd<T(!new)>(odd: T -> bool, masked: (T, T) -> T) {
    forall x, m :: odd(masked(x, m)) <==> odd(x) && odd(m)
  }

  ghost predicate Decides<T(!new)>(half: T -> T, odd: T -> bool) {
    forall x, y :: odd(x) == odd(y) && half(x) == half(y) ==> x == y
  }

  ghost predicate Erases<T(!new)>(zero: T, masked: (T, T) -> T) {
    forall x :: masked(x, zero) == zero
  }

  lemma WordsHalve()
    ensures Halves(Half, Masked)
  {
    forall x, m ensures Half(Masked(x, m)) == Masked(Half(x), Half(m)) { HalfOfMasked(x, m); }
  }

  lemma WordsKeepOdd()
    ensures KeepsOdd(Odd, Masked)
  {
    forall x, m ensures Odd(Masked(x, m)) <==> Odd(x) && Odd(m) { OddMasked(x, m); }
  }

  lemma WordsDecide()
    ensures Decides(Half, Odd)
  {
    forall x, y | Odd(x) == Odd(y) && Half(x) == Half(y) ensures x == y { SameWord(x, y); }
  }

  lemma WordsErase()
    ensures Erases(0, Masked)
  {
    forall x ensures Masked(x, 0) == 0 { NothingMasked(x); }
  }

  ghost predicate AgreeUpTo<T>(half: T -> T, odd: T -> bool, a: T, b: T, m: T, n: nat) {
    forall i: nat :: i < n && odd(Iterate(half, m, i)) ==> odd(Iterate(half, a, i)) == odd(Iterate(half, b, i))
  }

  lemma AgreeOneMore<T>(half: T -> T, odd: T -> bool, a: T, b: T, m: T, n: nat)
    requires n > 0
    ensures AgreeUpTo(half, odd, a, b, m, n) <==>
              (odd(m) ==> odd(a) == odd(b)) && AgreeUpTo(half, odd, half(a), half(b), half(m), n - 1)
  {
    if AgreeUpTo(half, odd, a, b, m, n) {
      assert Iterate(half, m, 0) == m;
      forall i: nat | i < n - 1 && odd(Iterate(half, half(m), i))
        ensures odd(Iterate(half, half(a), i)) == odd(Iterate(half, half(b), i))
      {
        assert Iterate(half, m, i + 1) == Iterate(half, half(m), i);
      }
    } else {
      var i: nat :| i < n && odd(Iterate(half, m, i)) && odd(Iterate(half, a, i)) != odd(Iterate(half, b, i));
      if i > 0 {
        assert Iterate(half, m, i) == Iterate(half, half(m), i - 1);
      }
    }
  }

  lemma {:induction false} MaskedUpTo<T(!new)>(half: T -> T, odd: T -> bool, masked: (T, T) -> T, zero: T,
                                               a: T, b: T, m: T, n: nat)
    requires OneBitOff(half, odd, masked) && Erases(zero, masked)
    requires Iterate(half, m, n) == zero
    ensures masked(a, m) == masked(b, m) <==> AgreeUpTo(half, odd, a, b, m, n)
    decreases n
  {
    if n > 0 {
      MaskedUpTo(half, odd, masked, zero, half(a), half(b), half(m), n - 1);
      AgreeOneMore(half, odd, a, b, m, n);
      assert half(masked(a, m)) == masked(half(a), half(m)) && half(masked(b, m)) == masked(half(b), half(m));
    }
  }

  lemma AgreementByBits(a: bv32, b: bv32, mask: bv32)
    ensures Agree(a, b, mask) <==> AgreeUpTo(Half, Odd, a, b, mask, 32)
  {
    forall i: nat | i < 32
      ensures Bit(mask, i) == Odd(Iterate(Half, mask, i))
      ensures Bit(a, i) == Odd(Iterate(Half, a, i)) && Bit(b, i) == Odd(Iterate(Half, b, i))
    {}
  }

  lemma MaskedByBits(a: bv32, b: bv32, mask: bv32)
    ensures Masked(a, mask) == Masked(b, mask) <==> AgreeUpTo(Half, Odd, a, b, mask, 32)
  {
    WordsHalve();
    WordsKeepOdd();
    WordsDecide();
    WordsErase();
    WordHas32Bits(mask);
    MaskedUpTo(Half, Odd, Masked, 0, a, b, mask, 32);
  }

  /** Two addresses are equal under a mask exactly when they agree on every bit of the mask. */
  lemma MaskedIsAgreement(a: bv32, b: bv32, mask: bv32)
    ensures a & mask == b & mask <==> Agree(a, b, mask)
  {
    MaskedByBits(a, b, mask);
    AgreementByBits(a, b, mask);
  }
}
