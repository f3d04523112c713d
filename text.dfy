/** Character-level helpers shared by the tokenizer, the edit-distance matcher
    and the title search: ASCII letters, ASCII lowercasing (the part of
    Python's `str.lower` this model covers) and the substring test behind
    Python's `needle in haystack` on strings. */
module Text {

  predicate IsUpper(c: char) { 'A' <= c <= 'Z' }

  predicate IsLower(c: char) { 'a' <= c <= 'z' }

  /** The character class `[A-Za-z]`. */
  predicate IsLetter(c: char) { IsUpper(c) || IsLower(c) }

  function LowerChar(c: char): (r: char)
    ensures !IsUpper(r)
    ensures IsLetter(c) <==> IsLetter(r)
    ensures IsLower(c) || !IsLetter(c) ==> r == c
    ensures IsUpper(c) ==> r as int == c as int + 32
  {
    if IsUpper(c) then (c as int + 32) as char else c
  }

  /** `s.lower()`, restricted to ASCII. */
  function Lower(s: string): (r: string)
    ensures |r| == |s|
    ensures forall i :: 0 <= i < |s| ==> r[i] == LowerChar(s[i])
    ensures forall i :: 0 <= i < |r| ==> !IsUpper(r[i])
  {
    seq(|s|, i requires 0 <= i < |s| => LowerChar(s[i]))
  }

  /** `needle in haystack` for Python strings, by scanning start positions. */
  function Contains(haystack: string, needle: string): bool
    decreases |haystack|
  {
    if needle <= haystack then true
    else if haystack == [] then false
    else Contains(haystack[1..], needle)
  }

  /** The reference meaning of the substring test: some window of the
      haystack equals the needle. */
  ghost predicate OccursAt(haystack: string, needle: string, k: int)
  {
    0 <= k && k + |needle| <= |haystack| && haystack[k..k + |needle|] == needle
  }

  lemma {:induction false} ContainsMeansWindow(haystack: string, needle: string)
    ensures Contains(haystack, needle) <==> exists k :: OccursAt(haystack, needle, k)
    decreases |haystack|
  {
    if needle <= haystack {
      assert haystack[0..|needle|] == needle;
      assert OccursAt(haystack, needle, 0);
    } else if haystack != [] {
      ContainsMeansWindow(haystack[1..], needle);
      forall k | OccursAt(haystack[1..], needle, k)
        ensures OccursAt(haystack, needle, k + 1)
      {
        assert haystack[k + 1..k + 1 + |needle|] == haystack[1..][k..k + |needle|];
      }
      forall k | OccursAt(haystack, needle, k)
        ensures OccursAt(haystack[1..], needle, k - 1)
      {
        assert haystack[1..][k - 1..k - 1 + |needle|] == haystack[k..k + |needle|];
      }
    }
  }

  /** Every string contains itself, and the empty string is in every string. */
  lemma ContainsSelf(s: string)
    ensures Contains(s, s)
    ensures Contains(s, "")
  {
  }
}
