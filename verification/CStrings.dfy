/** Bytes and the strings C keeps in them. */
module CStrings {
  type Byte = x: int | 0 <= x < 256

  /** A string as C stores it holds no zero byte before its end. */
  predicate NulFree(w: seq<Byte>) {
    forall k :: 0 <= k < |w| ==> w[k] != 0
  }

  /** The string `str` ends at its first zero byte; `w` is what stands before it. */
  ghost predicate IsString(str: seq<Byte>, w: seq<Byte>) {
    && |w| < |str| && str[|w|] == 0 && NulFree(w)
    && forall k :: 0 <= k < |w| ==> str[k] == w[k]
  }

  /** The value of a byte read through a signed char */
  function Signed(b: Byte): int {
    if b < 128 then b else b - 256
  }

  /** What stands before the first zero byte, or everything when there is none */
  function Cut(s: seq<Byte>): (r: seq<Byte>)
    ensures NulFree(r) && r <= s
    ensures NulFree(s) ==> r == s
  {
    if s == [] || s[0] == 0 then [] else [s[0]] + Cut(s[1..])
  }

  lemma FirstOfPrefix(w: seq<Byte>, s: seq<Byte>)
    requires w != [] && w <= s
    ensures w[0] == s[0]
  {}

  /** It is the one prefix without a zero byte that a zero byte, or nothing, follows. */
  lemma {:induction false} CutExactly(s: seq<Byte>, w: seq<Byte>)
    ensures w == Cut(s) <==> NulFree(w) && w <= s && (|w| < |s| ==> s[|w|] == 0)
    decreases |s|
  {
    if s == [] {
    } else if s[0] == 0 {
      if w != [] && w <= s { FirstOfPrefix(w, s); }
    } else if w == [] {
      assert Cut(s)[0] == s[0];
    } else {
      CutExactly(s[1..], w[1..]);
      if NulFree(w) && w <= s && (|w| < |s| ==> s[|w|] == 0) {
        forall k | 0 <= k < |w| - 1 ensures w[1..][k] != 0 { assert w[k + 1] != 0; }
        assert w == [s[0]] + w[1..];
      } else if w == Cut(s) {
        assert w[1..] == Cut(s[1..]);
      }
    }
  }
}
