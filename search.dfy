/**
 * Searching sequences: the first occurrence of a pattern at or after a
 * position (Java's `String.indexOf(String, int)` and `findSequence` in
 * FileController.java) and the last occurrence of an element
 * (`String.lastIndexOf(char)`).
 */
module Search {
  import opened Charset

  /** `pat` occurs in `s` starting at offset `i`. */
  predicate MatchAt<T(==)>(s: seq<T>, pat: seq<T>, i: int) {
    0 <= i && i + |pat| <= |s| && s[i..i + |pat|] == pat
  }

  /**
   * The least `i >= from` at which `pat` occurs in `s`, or -1 when there is
   * none. For the non-empty patterns this model searches for, this is what
   * `String.indexOf(pat, from)` returns.
   */
  function IndexOf<T(==)>(s: seq<T>, pat: seq<T>, from: nat): (r: int)
    ensures r == -1 || (from <= r && MatchAt(s, pat, r))
    ensures r == -1 ==> forall i :: from <= i ==> !MatchAt(s, pat, i)
    ensures r != -1 ==> forall i :: from <= i < r ==> !MatchAt(s, pat, i)
    decreases |s| - from
  {
    if from + |pat| > |s| then -1
    else if s[from..from + |pat|] == pat then from
    else IndexOf(s, pat, from + 1)
  }

  /**
   * `findSequence(data, sequence, startPos)`: a scan of every candidate
   * offset, comparing byte by byte and moving to the next offset at the first
   * mismatch (the labelled `continue outer` of the source).
   */
  method FindSequence(data: seq<byte>, sequence: seq<byte>, startPos: nat) returns (r: int)
    ensures r == IndexOf(data, sequence, startPos)
    ensures r == -1 || (startPos <= r && r + |sequence| <= |data|)
  {
    var i := startPos;
    label Outer:
    while i <= |data| - |sequence|
      invariant startPos <= i
      invariant forall k :: startPos <= k < i ==> !MatchAt(data, sequence, k)
      decreases |data| - |sequence| - i + 1
    {
      var j := 0;
      while j < |sequence|
        invariant 0 <= j <= |sequence|
        invariant forall k :: 0 <= k < j ==> data[i + k] == sequence[k]
      {
        if data[i + j] != sequence[j] {
          assert data[i..i + |sequence|][j] != sequence[j];
          i := i + 1;
          continue Outer;
        }
        j := j + 1;
      }
      assert data[i..i + |sequence|] == sequence;
      IndexOfIs(data, sequence, startPos, i);
      return i;
    }
    return -1;
  }

  /** The index of the last `c` in `s`, or -1: `String.lastIndexOf(char)`. */
  function LastIndexOf<T(==)>(s: seq<T>, c: T): (r: int)
    ensures -1 <= r < |s|
    ensures r >= 0 ==> s[r] == c
    ensures forall i :: r < i < |s| ==> s[i] != c
  {
    if |s| == 0 then -1
    else if s[|s| - 1] == c then |s| - 1
    else LastIndexOf(s[..|s| - 1], c)
  }

  /** A match that no earlier offset beats is what `IndexOf` finds. */
  lemma IndexOfIs<T>(s: seq<T>, pat: seq<T>, from: nat, k: int)
    requires from <= k && MatchAt(s, pat, k)
    requires forall i :: from <= i < k ==> !MatchAt(s, pat, i)
    ensures IndexOf(s, pat, from) == k
  {
  }

  /**
   * No offset in `[lo, hi)` matches when the pattern's element at `m` is
   * absent from the part of `s` those offsets would put it on.
   */
  lemma NoMatchByElement<T>(s: seq<T>, pat: seq<T>, m: nat, lo: int, hi: int)
    requires m < |pat|
    requires forall j :: lo + m <= j < hi + m && 0 <= j < |s| ==> s[j] != pat[m]
    ensures forall i :: lo <= i < hi ==> !MatchAt(s, pat, i)
  {
    forall i | lo <= i < hi
      ensures !MatchAt(s, pat, i)
    {
      if 0 <= i && i + |pat| <= |s| {
        assert s[i..i + |pat|][m] != pat[m];
      }
    }
  }

  /** A match inside `s` is a match inside `s + t`, and conversely. */
  lemma MatchAtPrefix<T>(s: seq<T>, t: seq<T>, pat: seq<T>, i: int)
    requires 0 <= i && i + |pat| <= |s|
    ensures MatchAt(s + t, pat, i) <==> MatchAt(s, pat, i)
  {
    assert (s + t)[i..i + |pat|] == s[i..i + |pat|];
  }
}
