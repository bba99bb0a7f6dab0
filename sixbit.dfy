/**
 * The decoded AIS payload as seen by a message parser: a bit sequence
 * with range-based extraction of unsigned integers, six-bit text and
 * single-bit flags, and the six-bit ASCII table of ITU-R M.1371
 * (values 0..31 stand for '@'..'_', values 32..63 for ' '..'?').
 */
module Sixbit {
  import opened Bits

  /** The value of one payload character: six bits. */
  type Sextet = v: nat | v < 64

  /** The 64 characters of the six-bit ASCII table, ' ' (32) through '_' (95). */
  predicate InAlphabet(c: char)
  {
    ' ' <= c <= '_'
  }

  /** Every character of `s` has a six-bit code. */
  predicate IsSixbitText(s: string)
  {
    forall k :: 0 <= k < |s| ==> InAlphabet(s[k])
  }

  /** The character a six-bit value stands for in text fields. */
  function CharOf(v: Sextet): (c: char)
    ensures InAlphabet(c)
    ensures v < 32 <==> '@' <= c
    ensures v < 32 ==> c as int == v + 64
    ensures 32 <= v ==> c as int == v
  {
    if v < 32 then (v + 64) as char else v as char
  }

  /** The six-bit code of a character of the alphabet; the inverse of `CharOf`. */
  function ValueOf(c: char): (v: Sextet)
    requires InAlphabet(c)
    ensures CharOf(v) == c
  {
    if '@' <= c then c as int - 64 else c as int
  }

  /** `CharOf` is one-to-one: decoding a code and encoding it back gives the code. */
  lemma ValueOfCharOf(v: Sextet)
    ensures ValueOf(CharOf(v)) == v
  {
  }

  /** A stretch of `n` six-bit characters. */
  lemma WholeCharacters(n: nat)
    ensures (6 * n) % 6 == 0 && (6 * n) / 6 == n
  {
  }

  /** A six-bit character holds 64 values. */
  lemma Pow2Six()
    ensures Pow2(6) == 64
  {
  }

  /** The payload bits that encode a text of the alphabet, six bits per character. */
  function TextBits(s: string): (bits: seq<bool>)
    requires IsSixbitText(s)
    ensures |bits| == 6 * |s|
  {
    if s == [] then []
    else
      Pow2Six();
      ToBits(ValueOf(s[0]), 6) + TextBits(s[1..])
  }

  /** The bits of a concatenation of texts are the concatenation of their bits. */
  lemma {:induction false} TextBitsAppend(a: string, b: string)
    requires IsSixbitText(a) && IsSixbitText(b)
    ensures IsSixbitText(a + b)
    ensures TextBits(a + b) == TextBits(a) + TextBits(b)
    decreases |a|
  {
    var ab := a + b;
    assert IsSixbitText(ab) by {
      forall k | 0 <= k < |ab|
        ensures InAlphabet(ab[k])
      {
        if k < |a| {
          assert ab[k] == a[k];
        } else {
          assert ab[k] == b[k - |a|];
        }
      }
    }
    if a == [] {
      assert ab == b;
    } else {
      assert ab[0] == a[0] && ab[1..] == a[1..] + b;
      TextBitsAppend(a[1..], b);
      ConcatAssoc(ToBits(ValueOf(a[0]), 6), TextBits(a[1..]), TextBits(b));
    }
  }

  /** Concatenation of sequences is associative. */
  lemma ConcatAssoc<T>(x: seq<T>, y: seq<T>, z: seq<T>)
    ensures x + (y + z) == (x + y) + z
  {
  }

  /**
   * `getInt(from, to)`: the big-endian unsigned value of bits `[from, to)`.
   * A range of `w` bits always gives a value below 2^w.
   */
  function GetInt(bits: seq<bool>, from: nat, to: nat): (r: nat)
    requires from < to <= |bits|
    ensures r < Pow2(to - from)
  {
    UInt(bits[from..to])
  }

  /**
   * A range that crosses any boundary `mid`, in particular a six-bit
   * character boundary, reads as the big-endian concatenation of the
   * values on either side.
   */
  lemma GetIntSplit(bits: seq<bool>, from: nat, mid: nat, to: nat)
    requires from < mid < to <= |bits|
    ensures GetInt(bits, from, to) == GetInt(bits, from, mid) * Pow2(to - mid) + GetInt(bits, mid, to)
  {
    assert bits[from..to] == bits[from..mid] + bits[mid..to];
    UIntAppend(bits[from..mid], bits[mid..to]);
  }

  /**
   * `getString(from, to)`: the text of bits `[from, to)`, one character per
   * six-bit group, each mapped through the six-bit ASCII table. Nothing is
   * trimmed here.
   */
  function GetString(bits: seq<bool>, from: nat, to: nat): (s: string)
    requires from <= to <= |bits|
    requires (to - from) % 6 == 0
    ensures |s| == (to - from) / 6
    ensures forall k :: 0 <= k < |s| ==> s[k] == CharOf(GetInt(bits, from + 6 * k, from + 6 * k + 6))
    ensures IsSixbitText(s)
    decreases |bits| - from
  {
    if from == to then ""
    else
      Pow2Six();
      [CharOf(GetInt(bits, from, from + 6))] + GetString(bits, from + 6, to)
  }

  /** Text encoded with `TextBits` in bits `[from, to)` reads back unchanged through `GetString`. */
  lemma {:induction false} GetStringOfTextBits(bits: seq<bool>, from: nat, to: nat, s: string)
    requires IsSixbitText(s)
    requires from <= to <= |bits|
    requires bits[from..to] == TextBits(s)
    ensures (to - from) % 6 == 0
    ensures GetString(bits, from, to) == s
    decreases |s|
  {
    WholeCharacters(|s|);
    if s != [] {
      Pow2Six();
      var head, tail := ToBits(ValueOf(s[0]), 6), TextBits(s[1..]);
      assert TextBits(s) == head + tail;
      SplitStretch(bits, from, to, head, tail);
      GetStringOfTextBits(bits, from + 6, to, s[1..]);
      GetStringUnfold(bits, from, to);
      assert s == [s[0]] + s[1..];
    }
  }

  /** `GetString` reads nothing outside its range: two payloads that agree on `[from, to)` give the same text. */
  lemma {:induction false} GetStringLocal(bits: seq<bool>, other: seq<bool>, from: nat, to: nat)
    requires from <= to <= |bits| && to <= |other| && (to - from) % 6 == 0
    requires bits[from..to] == other[from..to]
    ensures GetString(bits, from, to) == GetString(other, from, to)
    decreases |bits| - from
  {
    if from < to {
      GetStringUnfold(bits, from, to);
      GetStringUnfold(other, from, to);
      SliceOfSlice(bits, from, to, 0, 6);
      SliceOfSlice(other, from, to, 0, 6);
      SliceOfSlice(bits, from, to, 6, to - from);
      SliceOfSlice(other, from, to, 6, to - from);
      GetStringLocal(bits, other, from + 6, to);
    }
  }

  /** `GetString` reads the first character of a non-empty range, then the rest. */
  lemma GetStringUnfold(bits: seq<bool>, from: nat, to: nat)
    requires from < to <= |bits| && (to - from) % 6 == 0
    ensures from + 6 <= to && (to - (from + 6)) % 6 == 0
    ensures GetString(bits, from, to) == [CharOf(GetInt(bits, from, from + 6))] + GetString(bits, from + 6, to)
  {
  }

  /** A stretch of bits that is the concatenation of two parts holds each part at its place. */
  lemma SplitStretch(bits: seq<bool>, from: nat, to: nat, head: seq<bool>, tail: seq<bool>)
    requires from <= to <= |bits|
    requires bits[from..to] == head + tail
    ensures bits[from .. from + |head|] == head
    ensures bits[from + |head| .. to] == tail
  {
    SliceOfSlice(bits, from, to, 0, |head|);
    SliceOfSlice(bits, from, to, |head|, to - from);
  }

  /** A slice that lies wholly in the first part of a concatenation. */
  lemma SliceOfPrefix<T>(a: seq<T>, b: seq<T>, lo: nat, hi: nat)
    requires lo <= hi <= |a|
    ensures (a + b)[lo..hi] == a[lo..hi]
  {
  }

  /** A slice of a slice is a slice of the whole. */
  lemma SliceOfSlice<T>(s: seq<T>, from: nat, to: nat, lo: nat, hi: nat)
    requires from <= to <= |s| && lo <= hi <= to - from
    ensures s[from..to][lo..hi] == s[from + lo .. from + hi]
  {
    var inner := s[from..to];
    assert forall i :: 0 <= i < hi - lo ==> inner[lo..hi][i] == inner[lo + i] == s[from + lo + i];
  }

  /** `getBoolean(index)`: the flag at bit `index` (0-based), set exactly when that one-bit range reads 1. */
  function GetBoolean(bits: seq<bool>, index: nat): (r: bool)
    requires index < |bits|
    ensures r <==> GetInt(bits, index, index + 1) == 1
  {
    assert bits[index .. index + 1][..0] == [];
    bits[index]
  }
}
