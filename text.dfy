/**
 * `string.Trim` over an arbitrary set of characters to strip, given as a
 * predicate: `Trim('/')` strips slashes, `Trim()` strips white space.
 * As in .NET, trimming finds the first kept position from the left and
 * the last kept position from the right, and takes the substring between.
 */
module Text {

  /** Every character of `s` is one that is stripped. */
  predicate AllStrip(s: string, strip: char -> bool)
  {
    forall i :: 0 <= i < |s| ==> strip(s[i])
  }

  /** Every character of `s` at a position in `[lo, hi)` is stripped. */
  predicate StripBetween(s: string, lo: nat, hi: nat, strip: char -> bool)
  {
    forall k :: lo <= k < hi && k < |s| ==> strip(s[k])
  }

  /** `s` neither begins nor ends with a character that is stripped. */
  predicate Trimmed(s: string, strip: char -> bool)
  {
    s == [] || (!strip(s[0]) && !strip(s[|s| - 1]))
  }

  /** The first position at or after `i` whose character is kept, or `|s|`. */
  function FirstKept(s: string, i: nat, strip: char -> bool): (r: nat)
    requires i <= |s|
    ensures i <= r <= |s|
    ensures StripBetween(s, i, r, strip)
    ensures r == |s| || !strip(s[r])
    decreases |s| - i
  {
    if i < |s| && strip(s[i]) then FirstKept(s, i + 1, strip) else i
  }

  /** The end of the kept part: the last position before `j`, and not before `lo`, whose character is kept, plus one. */
  function KeptEnd(s: string, lo: nat, j: nat, strip: char -> bool): (r: nat)
    requires lo <= j <= |s|
    ensures lo <= r <= j
    ensures StripBetween(s, r, j, strip)
    ensures r == lo || !strip(s[r - 1])
    decreases j
  {
    if j > lo && strip(s[j - 1]) then KeptEnd(s, lo, j - 1, strip) else j
  }

  /**
   * Removes the leading and the trailing characters that are stripped:
   * the result is the slice `s[i..j]` with only stripped characters
   * before `i` and after `j`, and it neither begins nor ends with one.
   */
  function Trim(s: string, strip: char -> bool): (r: string)
    ensures Trimmed(r, strip)
    ensures var i := FirstKept(s, 0, strip); var j := KeptEnd(s, i, |s|, strip);
      && r == s[i..j] && StripBetween(s, 0, i, strip) && StripBetween(s, j, |s|, strip)
  {
    var i := FirstKept(s, 0, strip);
    var j := KeptEnd(s, i, |s|, strip);
    assert i < j ==> !strip(s[i]);
    s[i..j]
  }

  /** `FirstKept` stops at the first kept position. */
  lemma {:induction false} FirstKeptAt(s: string, i: nat, a: nat, strip: char -> bool)
    requires i <= a <= |s|
    requires StripBetween(s, i, a, strip) && (a == |s| || !strip(s[a]))
    ensures FirstKept(s, i, strip) == a
    decreases a - i
  {
    if i < a {
      FirstKeptAt(s, i + 1, a, strip);
    }
  }

  /** `KeptEnd` stops after the last kept position. */
  lemma {:induction false} KeptEndAt(s: string, lo: nat, j: nat, b: nat, strip: char -> bool)
    requires lo <= b <= j <= |s|
    requires StripBetween(s, b, j, strip) && (b == lo || !strip(s[b - 1]))
    ensures KeptEnd(s, lo, j, strip) == b
    decreases j - b
  {
    if b < j {
      KeptEndAt(s, lo, j - 1, b, strip);
    }
  }

  /**
   * `Trim` is determined by its contract: a slice `s[a..b]` with only
   * stripped characters around it and none at its ends is the result.
   */
  lemma TrimUnique(s: string, a: nat, b: nat, strip: char -> bool)
    requires a <= b <= |s|
    requires StripBetween(s, 0, a, strip) && StripBetween(s, b, |s|, strip)
    requires a == b || (!strip(s[a]) && !strip(s[b - 1]))
    ensures Trim(s, strip) == s[a..b]
  {
    if a < b {
      FirstKeptAt(s, 0, a, strip);
      KeptEndAt(s, a, |s|, b, strip);
    } else {
      FirstKeptAt(s, 0, |s|, strip);
    }
  }

  /** A string with no stripped characters at its ends is left as it is. */
  lemma TrimFixed(s: string, strip: char -> bool)
    requires Trimmed(s, strip)
    ensures Trim(s, strip) == s
  {
    TrimUnique(s, 0, |s|, strip);
  }

  /** Trimming twice is trimming once. */
  lemma TrimIdempotent(s: string, strip: char -> bool)
    ensures Trim(Trim(s, strip), strip) == Trim(s, strip)
  {
    TrimFixed(Trim(s, strip), strip);
  }

  /** Positions of `s` inside `pre + s + suf`, with stripped characters around it. */
  lemma AbsorbIndices(pre: string, s: string, suf: string, i: nat, j: nat, strip: char -> bool)
    requires i <= j <= |s|
    requires AllStrip(pre, strip) && AllStrip(suf, strip)
    requires StripBetween(s, 0, i, strip) && StripBetween(s, j, |s|, strip)
    ensures var x := pre + s + suf;
      && StripBetween(x, 0, |pre| + i, strip)
      && StripBetween(x, |pre| + j, |x|, strip)
      && x[|pre| + i..|pre| + j] == s[i..j]
      && (i < j ==> x[|pre| + i] == s[i] && x[|pre| + j - 1] == s[j - 1])
  {
    var x := pre + s + suf;
    assert StripBetween(x, 0, |pre| + i, strip) by {
      forall k | 0 <= k < |pre| + i ensures strip(x[k]) {
        if k >= |pre| { assert x[k] == s[k - |pre|]; }
      }
    }
    assert StripBetween(x, |pre| + j, |x|, strip) by {
      forall k | |pre| + j <= k < |x| ensures strip(x[k]) {
        if k < |pre| + |s| { assert x[k] == s[k - |pre|]; }
        else { assert x[k] == suf[k - |pre| - |s|]; }
      }
    }
    assert x[|pre|..|pre| + |s|] == s;
    assert x[|pre| + i..|pre| + j] == x[|pre|..|pre| + |s|][i..j];
  }

  /**
   * Stripped characters added at either end do not change the result:
   * `Trim(pre + s + suf) == Trim(s)`.
   */
  lemma TrimAbsorbs(pre: string, s: string, suf: string, strip: char -> bool)
    requires AllStrip(pre, strip) && AllStrip(suf, strip)
    ensures Trim(pre + s + suf, strip) == Trim(s, strip)
  {
    var i := FirstKept(s, 0, strip);
    var j := KeptEnd(s, i, |s|, strip);
    AbsorbIndices(pre, s, suf, i, j, strip);
    if i == j {
      TrimUnique(pre + s + suf, |pre| + j, |pre| + j, strip);
    } else {
      TrimUnique(pre + s + suf, |pre| + i, |pre| + j, strip);
    }
  }
}
