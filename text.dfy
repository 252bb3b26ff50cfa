/** String operations used by the loader and the query box: ASCII case
    mapping (Python's str.lower / str.upper restricted to ASCII letters) and
    the plain substring test behind pandas' str.contains for patterns without
    regular-expression metacharacters. */
module Text {

  predicate IsUpper(c: char) { 'A' <= c <= 'Z' }

  predicate IsLower(c: char) { 'a' <= c <= 'z' }

  /** Lower-cases one ASCII letter; every other character is unchanged. */
  function Lower(c: char): (r: char)
    ensures !IsUpper(r)
    ensures IsUpper(c) ==> IsLower(r) && r as int - c as int == 32
    ensures !IsUpper(c) ==> r == c
  {
    if IsUpper(c) then (c as int + 32) as char else c
  }

  /** Upper-cases one ASCII letter; every other character is unchanged. */
  function Upper(c: char): (r: char)
    ensures !IsLower(r)
    ensures IsLower(c) ==> IsUpper(r) && c as int - r as int == 32
    ensures !IsLower(c) ==> r == c
  {
    if IsLower(c) then (c as int - 32) as char else c
  }

  /** Two characters that differ at most in ASCII letter case. */
  predicate SameIgnoringCase(a: char, b: char) { Lower(a) == Lower(b) }

  function LowerStr(s: string): (r: string)
    ensures |r| == |s|
    ensures forall i :: 0 <= i < |s| ==> r[i] == Lower(s[i])
  {
    seq(|s|, i requires 0 <= i < |s| => Lower(s[i]))
  }

  function UpperStr(s: string): (r: string)
    ensures |r| == |s|
    ensures forall i :: 0 <= i < |s| ==> r[i] == Upper(s[i])
  {
    seq(|s|, i requires 0 <= i < |s| => Upper(s[i]))
  }

  /** Strings of the same length that agree position by position up to case. */
  predicate EqualIgnoringCase(a: string, b: string)
  {
    |a| == |b| && forall i :: 0 <= i < |a| ==> SameIgnoringCase(a[i], b[i])
  }

  lemma LowerOfUpper(c: char)
    ensures Lower(Upper(c)) == Lower(c)
  {
  }

  /** Strings equal up to case have the same lower-cased form, and conversely. */
  lemma EqualIgnoringCaseIff(a: string, b: string)
    ensures EqualIgnoringCase(a, b) <==> LowerStr(a) == LowerStr(b)
  {
    if LowerStr(a) == LowerStr(b) {
      assert |a| == |LowerStr(a)| == |LowerStr(b)| == |b|;
      forall i | 0 <= i < |a| ensures SameIgnoringCase(a[i], b[i]) {
        assert LowerStr(a)[i] == LowerStr(b)[i];
      }
    }
  }

  lemma UpperStrEqualIgnoringCase(s: string)
    ensures EqualIgnoringCase(s, UpperStr(s))
  {
    forall i | 0 <= i < |s| ensures SameIgnoringCase(s[i], UpperStr(s)[i]) {
      LowerOfUpper(s[i]);
    }
  }

  lemma UpperStrIdempotent(s: string)
    ensures UpperStr(UpperStr(s)) == UpperStr(s)
  {
    assert forall i :: 0 <= i < |s| ==> UpperStr(UpperStr(s))[i] == UpperStr(s)[i];
  }

  /** `pat` occurs in `text` starting at index `i`. */
  ghost predicate OccursAt(text: string, pat: string, i: int)
  {
    0 <= i && i + |pat| <= |text| && text[i..i + |pat|] == pat
  }

  /** Substring test, scanning `text` from the left. */
  predicate Contains(text: string, pat: string)
    ensures Contains(text, pat) <==> exists i :: OccursAt(text, pat, i)
    decreases |text|
  {
    if |pat| > |text| then
      false
    else if text[..|pat|] == pat then
      assert OccursAt(text, pat, 0);
      true
    else
      var rest := text[1..];
      assert forall i :: OccursAt(rest, pat, i) <==> OccursAt(text, pat, i + 1) by {
        forall i ensures OccursAt(rest, pat, i) <==> OccursAt(text, pat, i + 1) {
          if 0 <= i && i + |pat| <= |rest| {
            assert rest[i..i + |pat|] == text[i + 1..i + 1 + |pat|];
          }
        }
      }
      assert !OccursAt(text, pat, 0);
      assert forall i :: OccursAt(text, pat, i) ==> i > 0 && OccursAt(rest, pat, i - 1);
      Contains(rest, pat)
  }
}
