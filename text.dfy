/**
 * The C string routines the menu relies on. A C string is modelled as the
 * sequence of its characters before the terminating NUL.
 */
module Text {

  predicate IsAsciiUpper(c: char)
  {
    'A' <= c <= 'Z'
  }

  /** g_ascii_tolower: folds the 26 letters 'A'..'Z' and leaves every other character alone. */
  function AsciiLower(c: char): (r: char)
    ensures !IsAsciiUpper(r)
    ensures IsAsciiUpper(c) ==> r as int - c as int == 'a' as int - 'A' as int
    ensures !IsAsciiUpper(c) ==> r == c
  {
    if IsAsciiUpper(c) then (c as int + ('a' as int - 'A' as int)) as char else c
  }

  /** g_ascii_strdown: AsciiLower applied to every character. */
  function AsciiDown(s: string): (r: string)
    ensures |r| == |s|
    ensures forall i :: 0 <= i < |s| ==> r[i] == AsciiLower(s[i])
  {
    seq(|s|, i requires 0 <= i < |s| => AsciiLower(s[i]))
  }

  /** `needle` occurs in `hay` starting at position `i`. */
  predicate OccursAt(hay: string, needle: string, i: int)
  {
    0 <= i && i + |needle| <= |hay| && hay[i..i + |needle|] == needle
  }

  /**
   * strstr / g_strrstr reduced to their NULL-or-not answer: `needle`
   * occurs somewhere in `hay`.
   */
  predicate Contains(hay: string, needle: string)
  {
    exists i :: 0 <= i <= |hay| && OccursAt(hay, needle, i)
  }

  /** A needle with a character that never occurs in `hay` is not contained in it. */
  lemma ContainsNeedsChar(hay: string, needle: string, k: nat)
    requires k < |needle| && needle[k] !in hay
    ensures !Contains(hay, needle)
  {
  }

  /** `needle` occurs in `hay` at `i` when ASCII letters are compared without regard to case. */
  predicate FoldedOccursAt(hay: string, needle: string, i: int)
  {
    0 <= i && i + |needle| <= |hay|
    && forall k :: 0 <= k < |needle| ==> AsciiLower(hay[i + k]) == AsciiLower(needle[k])
  }

  /**
   * Lower-casing both sides and then searching is the same as searching
   * with an ASCII-case-insensitive comparison of characters.
   */
  lemma FoldedContainsIff(hay: string, needle: string)
    ensures Contains(AsciiDown(hay), AsciiDown(needle)) <==> exists i :: FoldedOccursAt(hay, needle, i)
  {
    var h, n := AsciiDown(hay), AsciiDown(needle);
    forall i | 0 <= i && i + |n| <= |h|
      ensures OccursAt(h, n, i) <==> FoldedOccursAt(hay, needle, i)
    {
      if OccursAt(h, n, i) {
        forall k | 0 <= k < |needle|
          ensures AsciiLower(hay[i + k]) == AsciiLower(needle[k])
        {
          assert h[i..i + |n|][k] == h[i + k];
        }
      }
      if FoldedOccursAt(hay, needle, i) {
        assert forall k :: 0 <= k < |n| ==> h[i..i + |n|][k] == n[k];
      }
    }
    if exists i :: FoldedOccursAt(hay, needle, i) {
      var i :| FoldedOccursAt(hay, needle, i);
      assert OccursAt(h, n, i);
    }
  }

  /** The upper-case partner of a lower-case ASCII letter. */
  function AsciiUpper(c: char): (r: char)
    requires 'a' <= c <= 'z'
    ensures IsAsciiUpper(r) && AsciiLower(r) == c
  {
    (c as int - ('a' as int - 'A' as int)) as char
  }

  /**
   * A needle with a lower-case letter that occurs in `hay` in neither case
   * has no case-insensitive occurrence in `hay`.
   */
  lemma FoldedNeedsLetter(hay: string, needle: string, k: nat)
    requires k < |needle| && 'a' <= needle[k] <= 'z'
    requires needle[k] !in hay && AsciiUpper(needle[k]) !in hay
    ensures forall i :: !FoldedOccursAt(hay, needle, i)
  {
  }
}
