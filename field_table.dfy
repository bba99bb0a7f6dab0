/**
 * Field tables in general: field `i` of a message occupies the half-open,
 * 0-based bit range `[from[i], to[i])`. The table may list more end
 * positions than start positions (a single-bit flag is read at one of the
 * extra `to` entries). This module states when such a table is well formed
 * and how a payload laid out by the table is put together.
 */
module FieldTable {

  /** Every range holds at least one bit. */
  predicate Increasing(from: seq<nat>, to: seq<nat>)
    requires |from| <= |to|
  {
    forall i :: 0 <= i < |from| ==> from[i] < to[i]
  }

  /** Each range starts where the previous one ends: no gap and no overlap. */
  predicate Contiguous(from: seq<nat>, to: seq<nat>)
    requires |from| <= |to|
  {
    forall i :: 0 <= i < |from| - 1 ==> to[i] == from[i + 1]
  }

  /** A contiguous table of non-empty ranges lists its fields in bit order: an earlier field ends before a later one starts. */
  lemma {:induction false} Ordered(from: seq<nat>, to: seq<nat>, i: nat, j: nat)
    requires |from| <= |to| && Increasing(from, to) && Contiguous(from, to)
    requires i < j < |from|
    ensures to[i] <= from[j]
    decreases j - i
  {
    if i + 1 < j {
      Ordered(from, to, i, j - 1);
    }
  }

  /** Every range of such a table lies within the span from the first start to the last end. */
  lemma Span(from: seq<nat>, to: seq<nat>, i: nat)
    requires |from| <= |to| && Increasing(from, to) && Contiguous(from, to)
    requires i < |from|
    ensures from[0] <= from[i] < to[i] <= to[|from| - 1]
  {
    if 0 < i {
      Ordered(from, to, 0, i);
    }
    if i < |from| - 1 {
      Ordered(from, to, i, |from| - 1);
    }
  }

  /** The pieces of a payload, laid end to end. */
  function Concat<T>(segs: seq<seq<T>>): seq<T>
  {
    if segs == [] then [] else segs[0] + Concat(segs[1..])
  }

  /** Laying out two lists of pieces one after the other is laying out each and concatenating. */
  lemma {:induction false} ConcatAppend<T>(a: seq<seq<T>>, b: seq<seq<T>>)
    ensures Concat(a + b) == Concat(a) + Concat(b)
    decreases |a|
  {
    if a == [] {
      assert a + b == b;
    } else {
      assert (a + b)[0] == a[0];
      assert (a + b)[1..] == a[1..] + b;
      ConcatAppend(a[1..], b);
    }
  }

  /** Piece `k` sits right after the pieces before it. */
  lemma ConcatAt<T>(segs: seq<seq<T>>, k: nat)
    requires k < |segs|
    ensures |Concat(segs[..k])| + |segs[k]| <= |Concat(segs)|
    ensures Concat(segs)[|Concat(segs[..k])| .. |Concat(segs[..k])| + |segs[k]|] == segs[k]
  {
    assert segs == segs[..k] + segs[k..];
    ConcatAppend(segs[..k], segs[k..]);
    assert segs[k..][0] == segs[k];
    assert segs[k..][1..] == segs[k + 1..];
    var before, rest := Concat(segs[..k]), Concat(segs[k + 1..]);
    assert Concat(segs) == before + (segs[k] + rest);
    assert (before + (segs[k] + rest))[|before| .. |before| + |segs[k]|] == segs[k];
  }

  /**
   * A payload built as a prefix of `from[0]` bits followed by one piece per
   * field, each as wide as its range, puts field `k`'s piece after
   * `from[k]` bits and ends it after `to[k]` bits.
   */
  lemma {:induction false} PrefixFollowsTable<T>(segs: seq<seq<T>>, from: seq<nat>, to: seq<nat>, k: nat)
    requires |from| <= |to| && Increasing(from, to) && Contiguous(from, to)
    requires k < |from| < |segs|
    requires |segs[0]| == from[0]
    requires forall i :: 0 <= i < |from| ==> |segs[i + 1]| == to[i] - from[i]
    ensures |Concat(segs[..k + 1])| == from[k]
    ensures |Concat(segs[..k + 2])| == to[k]
    decreases k
  {
    assert segs[..k + 2] == segs[..k + 1] + [segs[k + 1]];
    ConcatAppend(segs[..k + 1], [segs[k + 1]]);
    assert Concat([segs[k + 1]]) == segs[k + 1];
    if k == 0 {
      assert segs[..1] == [segs[0]];
      assert Concat([segs[0]]) == segs[0];
    } else {
      PrefixFollowsTable(segs, from, to, k - 1);
    }
  }

  /** A payload of a prefix and exactly one piece per field ends where the last range ends. */
  lemma TableLength<T>(segs: seq<seq<T>>, from: seq<nat>, to: seq<nat>)
    requires |from| <= |to| && Increasing(from, to) && Contiguous(from, to)
    requires 0 < |from| && |segs| == |from| + 1
    requires |segs[0]| == from[0]
    requires forall i :: 0 <= i < |from| ==> |segs[i + 1]| == to[i] - from[i]
    ensures |Concat(segs)| == to[|from| - 1]
  {
    PrefixFollowsTable(segs, from, to, |from| - 1);
    assert segs[..|from| + 1] == segs;
  }

  /** In such a payload, the bits of range `k` are exactly field `k`'s piece. */
  lemma FieldOfConcat<T>(segs: seq<seq<T>>, from: seq<nat>, to: seq<nat>, k: nat)
    requires |from| <= |to| && Increasing(from, to) && Contiguous(from, to)
    requires k < |from| < |segs|
    requires |segs[0]| == from[0]
    requires forall i :: 0 <= i < |from| ==> |segs[i + 1]| == to[i] - from[i]
    ensures to[k] <= |Concat(segs)|
    ensures Concat(segs)[from[k] .. to[k]] == segs[k + 1]
  {
    PrefixFollowsTable(segs, from, to, k);
    ConcatAt(segs, k + 1);
  }
}
