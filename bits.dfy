/**
 * Unsigned big-endian integers over bit strings: the arithmetic behind
 * the range extraction of an AIS payload. A payload bit string is a
 * `seq<bool>` whose first element is the most significant bit.
 */
module Bits {

  /** 2 raised to the power `n`. */
  function Pow2(n: nat): (r: nat)
    ensures r >= 1
  {
    if n == 0 then 1 else 2 * Pow2(n - 1)
  }

  /** The numeric value of one bit. */
  function BitValue(b: bool): nat
  {
    if b then 1 else 0
  }

  /**
   * The big-endian unsigned value of `s`: the last bit weighs 1, the one
   * before it 2, and so on. A string of `|s|` bits is always below 2^|s|.
   */
  function UInt(s: seq<bool>): (r: nat)
    ensures r < Pow2(|s|)
    decreases |s|
  {
    if |s| == 0 then 0 else 2 * UInt(s[..|s| - 1]) + BitValue(s[|s| - 1])
  }

  /** The `w`-bit big-endian representation of `v`; the inverse of `UInt`. */
  function ToBits(v: nat, w: nat): (r: seq<bool>)
    requires v < Pow2(w)
    ensures |r| == w
    ensures UInt(r) == v
    decreases w
  {
    if w == 0 then []
    else
      var high := ToBits(v / 2, w - 1);
      assert (high + [v % 2 == 1])[..w - 1] == high;
      high + [v % 2 == 1]
  }

  /** Reading a bit string as a number and writing it back at the same width gives the string again. */
  lemma {:induction false} ToBitsOfUInt(s: seq<bool>)
    ensures ToBits(UInt(s), |s|) == s
    decreases |s|
  {
    if |s| > 0 {
      var init := s[..|s| - 1];
      ToBitsOfUInt(init);
      assert UInt(s) / 2 == UInt(init);
      assert (UInt(s) % 2 == 1) == s[|s| - 1];
      assert s == init + [s[|s| - 1]];
    }
  }

  /**
   * The value of a concatenation: the bits of `a` are shifted left past
   * the bits of `b`. A range that straddles a six-bit character boundary
   * therefore reads as the big-endian concatenation of its parts.
   */
  lemma {:induction false} UIntAppend(a: seq<bool>, b: seq<bool>)
    ensures UInt(a + b) == UInt(a) * Pow2(|b|) + UInt(b)
    decreases |b|
  {
    if |b| == 0 {
      assert a + b == a;
    } else {
      var init := b[..|b| - 1];
      UIntAppend(a, init);
      assert (a + b)[..|a + b| - 1] == a + init;
      assert (a + b)[|a + b| - 1] == b[|b| - 1];
      assert UInt(a + b) == 2 * UInt(a + init) + BitValue(b[|b| - 1]);
      assert UInt(b) == 2 * UInt(init) + BitValue(b[|b| - 1]);
      ShiftStep(UInt(a), Pow2(|init|), UInt(init), BitValue(b[|b| - 1]));
    }
  }

  /** One doubling step of a shifted value, with the terms kept abstract. */
  lemma ShiftStep(x: int, p: int, y: int, c: int)
    ensures 2 * (x * p + y) + c == x * (2 * p) + (2 * y + c)
  {
  }
}
