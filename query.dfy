/** The ATC code typed into the text box is upper-cased before it is handed
    to the vectorizer; an empty box asks for nothing. */
module Query {
  import opened Wrappers
  import opened Text

  /** The normalised query, or None when the box is empty (an empty string is
      falsy, so no prediction is made). */
  function NormalizeQuery(input: string): (q: Option<string>)
    ensures q.None? <==> input == ""
    ensures q.Some? ==> EqualIgnoringCase(input, q.value)
    ensures q.Some? ==> forall i :: 0 <= i < |q.value| ==> !IsLower(q.value[i])
  {
    if input == "" then
      None
    else
      UpperStrEqualIgnoringCase(input);
      Some(UpperStr(input))
  }

  /** Normalising an already normalised query changes nothing. */
  lemma NormalizeQueryIdempotent(input: string)
    requires input != ""
    ensures NormalizeQuery(NormalizeQuery(input).value) == NormalizeQuery(input)
  {
    UpperStrIdempotent(input);
  }

  /** Queries that differ only in letter case are normalised alike. */
  lemma NormalizeQueryIgnoresCase(a: string, b: string)
    requires EqualIgnoringCase(a, b)
    ensures NormalizeQuery(a) == NormalizeQuery(b)
  {
    forall i | 0 <= i < |a| ensures Upper(a[i]) == Upper(b[i]) {
      assert Lower(a[i]) == Lower(b[i]);
    }
    assert UpperStr(a) == UpperStr(b);
  }
}
