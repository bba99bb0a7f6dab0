/**
 * `java.lang.String.trim()`, which the message parser applies to every
 * text field: it removes every leading and every trailing character whose
 * code is at or below U+0020 (the space), and nothing else. In the six-bit
 * alphabet only the space is such a character; the '@' padding of six-bit
 * value 0 is kept.
 */
module JavaString {

  /** A character that `trim` removes at either end of a string. */
  predicate IsTrimmable(c: char)
  {
    c <= ' '
  }

  /** A string that starts and ends with characters `trim` keeps. */
  predicate IsTrimmed(s: string)
  {
    s == [] || (!IsTrimmable(s[0]) && !IsTrimmable(s[|s| - 1]))
  }

  /** Every character of `s[lo..hi]` is trimmable. */
  predicate AllTrimmable(s: string, lo: nat, hi: nat)
    requires lo <= hi <= |s|
  {
    forall k :: lo <= k < hi ==> IsTrimmable(s[k])
  }

  /**
   * `s[st..en]` is what is left after cutting trimmable characters off both
   * ends of `s` until a kept character (or nothing) remains.
   */
  predicate IsTrimOf(s: string, st: nat, en: nat)
  {
    st <= en <= |s| && AllTrimmable(s, 0, st) && AllTrimmable(s, en, |s|) && IsTrimmed(s[st..en])
  }

  /** The forward scan of `trim`: from `st`, the first index that holds a kept character, or `|s|`. */
  function SkipLeading(s: string, st: nat): (r: nat)
    requires st <= |s|
    ensures st <= r <= |s|
    ensures AllTrimmable(s, st, r)
    ensures r < |s| ==> !IsTrimmable(s[r])
    decreases |s| - st
  {
    if st < |s| && IsTrimmable(s[st]) then SkipLeading(s, st + 1) else st
  }

  /** The backward scan of `trim`: from `len`, moving down no further than `st`, the end of the kept part. */
  function SkipTrailing(s: string, st: nat, len: nat): (r: nat)
    requires st <= len <= |s|
    ensures st <= r <= len
    ensures AllTrimmable(s, r, len)
    ensures st < r ==> !IsTrimmable(s[r - 1])
    decreases len
  {
    if st < len && IsTrimmable(s[len - 1]) then SkipTrailing(s, st, len - 1) else len
  }

  /** `s.trim()`: `s` without its leading and trailing characters at or below the space. */
  function Trim(s: string): (r: string)
    ensures |r| <= |s|
    ensures IsTrimmed(r)
    ensures IsTrimOf(s, SkipLeading(s, 0), SkipLeading(s, 0) + |r|)
    ensures r == s[SkipLeading(s, 0) .. SkipLeading(s, 0) + |r|]
  {
    var st := SkipLeading(s, 0);
    var len := SkipTrailing(s, st, |s|);
    assert AllTrimmable(s, len, |s|);
    s[st..len]
  }

  /**
   * The trimmed part of a string is unique: whatever cut of trimmable
   * characters at both ends leaves a trimmed middle, `trim` returns that
   * middle.
   */
  lemma TrimIsUnique(s: string, st: nat, en: nat)
    requires IsTrimOf(s, st, en)
    ensures Trim(s) == s[st..en]
  {
    var st0 := SkipLeading(s, 0);
    if st == en {
      assert AllTrimmable(s, 0, |s|) by {
        forall k | 0 <= k < |s|
          ensures IsTrimmable(s[k])
        {
          if k >= st {
            assert AllTrimmable(s, en, |s|);
          }
        }
      }
      assert st0 == |s|;
    } else {
      assert !IsTrimmable(s[st]) && !IsTrimmable(s[en - 1]);
      assert st0 == st;
      var len := SkipTrailing(s, st0, |s|);
      assert len == en;
    }
  }

  /** A trimmed string is left alone by `trim`. */
  lemma TrimOfTrimmed(s: string)
    requires IsTrimmed(s)
    ensures Trim(s) == s
  {
    TrimIsUnique(s, 0, |s|);
  }

  /** `trim` is idempotent. */
  lemma TrimIdempotent(s: string)
    ensures Trim(Trim(s)) == Trim(s)
  {
    TrimOfTrimmed(Trim(s));
  }

  /** A trimmed string padded on the right with trimmable characters trims back to itself. */
  lemma TrimOfPadded(s: string, pad: string)
    requires IsTrimmed(s)
    requires AllTrimmable(pad, 0, |pad|)
    ensures Trim(s + pad) == s
  {
    var t := s + pad;
    assert t[0..|s|] == s;
    assert AllTrimmable(t, |s|, |t|) by {
      forall k | |s| <= k < |t|
        ensures IsTrimmable(t[k])
      {
        assert t[k] == pad[k - |s|];
      }
    }
    TrimIsUnique(t, 0, |s|);
  }
}
