/** Text operations the voice relay relies on: Python's substring test `pat in text`
    and the lowercasing `str.lower()` applied to every transcript. */
module Strings {

  /** `pat` occurs in `text` starting at index `i`. */
  ghost predicate OccursAt(pat: string, text: string, i: int)
  {
    0 <= i && i + |pat| <= |text| && text[i..i + |pat|] == pat
  }

  /** Python's `pat in text` on strings, scanning the windows of `text` from the left.
      The empty pattern occurs in every text, the empty one included. */
  predicate Contains(text: string, pat: string): (r: bool)
    ensures |pat| == 0 ==> r
    ensures r ==> |pat| <= |text|
    decreases |text|
  {
    if |text| < |pat| then false
    else if text[..|pat|] == pat then true
    else Contains(text[1..], pat)
  }

  /** The scan agrees with the definition of a substring: it succeeds exactly when some
      window of `text` equals `pat`. */
  lemma {:induction false} ContainsIffOccurs(text: string, pat: string)
    ensures Contains(text, pat) <==> exists i :: OccursAt(pat, text, i)
    decreases |text|
  {
    if |text| < |pat| {
      assert forall i :: !OccursAt(pat, text, i);
    } else if text[..|pat|] == pat {
      assert OccursAt(pat, text, 0);
    } else {
      var rest := text[1..];
      ContainsIffOccurs(rest, pat);
      if Contains(text, pat) {
        var j :| OccursAt(pat, rest, j);
        assert text[j + 1..j + 1 + |pat|] == rest[j..j + |pat|];
        assert OccursAt(pat, text, j + 1);
      }
      if i :| OccursAt(pat, text, i) {
        assert i != 0;
        assert rest[i - 1..i - 1 + |pat|] == text[i..i + |pat|];
        assert OccursAt(pat, rest, i - 1);
      }
    }
  }

  /** A window at any position is found by the scan. */
  lemma ContainsWindow(text: string, pat: string, i: int)
    requires OccursAt(pat, text, i)
    ensures Contains(text, pat)
  {
    ContainsIffOccurs(text, pat);
  }

  /** A pattern placed between any two strings is found by the scan. */
  lemma ContainsBetween(before: string, pat: string, after: string)
    ensures Contains(before + pat + after, pat)
  {
    var text := before + pat + after;
    assert text[|before|..|before| + |pat|] == pat;
    ContainsWindow(text, pat, |before|);
  }

  /** A pattern whose first character is absent from the text cannot occur in it. */
  lemma MissingFirstChar(text: string, pat: string)
    requires |pat| > 0 && pat[0] !in text
    ensures !Contains(text, pat)
  {
    ContainsIffOccurs(text, pat);
  }

  /** Upper-case letters of ASCII and of the Latin-1 supplement (U+00C0 to U+00DE without the
      multiplication sign U+00D7) each sit 32 code points below their lower-case form. */
  predicate IsUpper(c: char)
  {
    'A' <= c <= 'Z' || ('\U{C0}' <= c <= '\U{DE}' && c != '\U{D7}')
  }

  /** `str.lower()` on one character, for the letters `IsUpper` covers. */
  function LowerChar(c: char): (r: char)
    ensures (r == c) == !IsUpper(c)
    ensures !IsUpper(r)
  {
    if IsUpper(c) then (c as int + 32) as char else c
  }

  /** `str.lower()` on a string: character by character, keeping the length. */
  function Lower(s: string): (r: string)
    ensures |r| == |s|
    ensures forall i :: 0 <= i < |s| ==> r[i] == LowerChar(s[i])
  {
    seq(|s|, i requires 0 <= i < |s| => LowerChar(s[i]))
  }

  /** Lowercasing twice is lowercasing once. */
  lemma LowerIdempotent(s: string)
    ensures Lower(Lower(s)) == Lower(s)
  {
  }

  /** Lowercasing works piece by piece: the lower form of a concatenation is the
      concatenation of the lower forms. */
  lemma LowerConcat(a: string, b: string)
    ensures Lower(a + b) == Lower(a) + Lower(b)
  {
  }

  /** A string without upper-case letters is its own lower-case form. */
  lemma LowerOfLower(s: string)
    requires forall i :: 0 <= i < |s| ==> !IsUpper(s[i])
    ensures Lower(s) == s
  {
  }
}
