/**
 * The two string operations the application relies on: `str.lower()`
 * (restricted to ASCII letters) and Python's substring test `pat in text`.
 */
module Text {

  predicate IsUpperAscii(c: char) {
    'A' <= c <= 'Z'
  }

  /** One character of `str.lower()`: ASCII capitals fold, everything else is kept. */
  function LowerChar(c: char): char {
    if IsUpperAscii(c) then (c as int + 32) as char else c
  }

  /** `s.lower()`, for the ASCII letters. */
  function Lower(s: string): (r: string)
    ensures |r| == |s|
    ensures forall i :: 0 <= i < |s| ==> r[i] == LowerChar(s[i])
  {
    if s == [] then [] else [LowerChar(s[0])] + Lower(s[1..])
  }

  /** A string with no ASCII capital in it. */
  predicate IsLowerAscii(s: string) {
    forall i :: 0 <= i < |s| ==> !IsUpperAscii(s[i])
  }

  /** The result of `lower()` has no capitals left. */
  lemma LowerIsLower(s: string)
    ensures IsLowerAscii(Lower(s))
  {
  }

  /** `lower()` leaves a string without capitals unchanged, so it is idempotent. */
  lemma LowerFixesLower(s: string)
    requires IsLowerAscii(s)
    ensures Lower(s) == s
  {
  }

  lemma LowerIdempotent(s: string)
    ensures Lower(Lower(s)) == Lower(s)
  {
    LowerIsLower(s);
    LowerFixesLower(Lower(s));
  }

  /** `pat` stands in `text` starting at index `i`. */
  predicate OccursAt(pat: string, text: string, i: int) {
    0 <= i && i + |pat| <= |text| && text[i..i + |pat|] == pat
  }

  /** Python's `pat in text` for two strings: `pat` is a contiguous substring of `text`. */
  ghost predicate Occurs(pat: string, text: string) {
    exists i :: OccursAt(pat, text, i)
  }

  /** When `pat` is not at the front of `text`, it occurs in `text` iff it occurs in the rest. */
  lemma OccursInTail(pat: string, text: string)
    requires text != [] && !OccursAt(pat, text, 0)
    ensures Occurs(pat, text) <==> Occurs(pat, text[1..])
  {
    if Occurs(pat, text) {
      var i :| OccursAt(pat, text, i);
      assert i != 0;
      assert text[1..][i - 1..i - 1 + |pat|] == text[i..i + |pat|];
      assert OccursAt(pat, text[1..], i - 1);
    }
    if Occurs(pat, text[1..]) {
      var i :| OccursAt(pat, text[1..], i);
      assert text[1..][i..i + |pat|] == text[i + 1..i + 1 + |pat|];
      assert OccursAt(pat, text, i + 1);
    }
  }

  /** The executable substring test, scanning `text` from the left. */
  function Contains(text: string, pat: string): (r: bool)
    ensures r <==> Occurs(pat, text)
    decreases |text|
  {
    if |pat| > |text| then false
    else if text[..|pat|] == pat then assert OccursAt(pat, text, 0); true
    else OccursInTail(pat, text); Contains(text[1..], pat)
  }

  /** The empty string is in every string; no non-empty string is in the empty one. */
  lemma OccursEmpty(pat: string, text: string)
    ensures pat == [] ==> Occurs(pat, text)
    ensures text == [] ==> (Occurs(pat, text) <==> pat == [])
  {
    if pat == [] {
      assert OccursAt(pat, text, 0);
    }
  }

  /** Substring is transitive: a piece of a piece of `text` is a piece of `text`. */
  lemma {:induction false} OccursTransitive(p: string, q: string, text: string)
    requires Occurs(p, q) && Occurs(q, text)
    ensures Occurs(p, text)
  {
    var i :| OccursAt(p, q, i);
    var k :| OccursAt(q, text, k);
    forall j | 0 <= j < |p|
      ensures text[k + i + j] == p[j]
    {
      assert p[j] == q[i + j] == text[k..k + |q|][i + j];
    }
    assert text[k + i..k + i + |p|] == p;
    assert OccursAt(p, text, k + i);
  }

  /**
   * `pat` is absent from `text` when one of its characters, `pat[k]`, stands
   * in `text` only at positions `j` where the whole of `pat` does not fit
   * (with `at` empty: the character is missing from `text` altogether).
   */
  lemma CharPinsOccurrence(pat: string, text: string, k: int, at: set<int>)
    requires 0 <= k < |pat|
    requires forall j :: 0 <= j < |text| && text[j] == pat[k] ==> j in at
    requires forall j :: j in at ==> !OccursAt(pat, text, j - k)
    ensures !Occurs(pat, text)
  {
    forall i | 0 <= i && i + |pat| <= |text|
      ensures !OccursAt(pat, text, i)
    {
      assert text[i..i + |pat|][k] == text[i + k];
      if text[i + k] == pat[k] {
        assert i + k in at;
      }
    }
  }
}
