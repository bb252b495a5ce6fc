/** Argument checks and null/empty string normalisation (the library's own
    cut-down copy of Guava's `Preconditions` and `Strings`).

    A nullable Java `String` is an `Option<string>`; a nullable collection is
    an `Option<seq<T>>`. */
module Preconditions {
  import opened Base

  /** `checkArgument`: raises IllegalArgumentException when the expression is false. */
  function CheckArgument(expression: bool): (r: Outcome)
    ensures r.Pass? <==> expression
    ensures r.Fail? ==> r.error == IllegalArgument
  {
    if expression then Pass else Fail(IllegalArgument)
  }

  /** `checkNotNull`: raises NullPointerException on null, otherwise hands the
      reference back unchanged. */
  function CheckNotNull<T>(reference: Option<T>): (r: Result<T>)
    ensures reference.None? <==> r == Err(NullPointer)
    ensures reference.Some? ==> r == Ok(reference.value)
  {
    match reference
    case None => Err(NullPointer)
    case Some(v) => Ok(v)
  }

  /** `checkNotEmpty` on a `CharSequence`: null raises NullPointerException,
      the empty string raises IllegalArgumentException. */
  function CheckNotEmpty(reference: Option<string>): (r: Result<string>)
    ensures reference.None? ==> r == Err(NullPointer)
    ensures reference == Some("") ==> r == Err(IllegalArgument)
    ensures r.Ok? <==> reference.Some? && |reference.value| > 0
    ensures r.Ok? ==> r.value == reference.value
  {
    var s :- CheckNotNull(reference);
    if |s| == 0 then Err(IllegalArgument) else Ok(s)
  }

  /** `checkNotEmpty` on a `Collection`: same rule, emptiness is size zero. */
  function CheckNotEmptyItems<T>(reference: Option<seq<T>>): (r: Result<seq<T>>)
    ensures reference.None? ==> r == Err(NullPointer)
    ensures reference == Some([]) ==> r == Err(IllegalArgument)
    ensures r.Ok? <==> reference.Some? && |reference.value| > 0
    ensures r.Ok? ==> r.value == reference.value
  {
    var s :- CheckNotNull(reference);
    if |s| == 0 then Err(IllegalArgument) else Ok(s)
  }

  /** `isNullOrEmpty`. */
  predicate IsNullOrEmpty(s: Option<string>)
  {
    s.None? || |s.value| == 0
  }

  /** `nullToEmpty`: null becomes "", anything else is returned as is. */
  function NullToEmpty(s: Option<string>): (r: string)
    ensures s.None? ==> r == ""
    ensures s.Some? ==> r == s.value
  {
    s.GetOr("")
  }

  /** `emptyToNull`: null and "" both become null, anything else is returned as is. */
  function EmptyToNull(s: Option<string>): (r: Option<string>)
    ensures r.None? <==> IsNullOrEmpty(s)
    ensures r.Some? ==> r == s && |r.value| > 0
  {
    if IsNullOrEmpty(s) then None else s
  }

  /** The two normalisations undo each other on the non-empty strings and
      `emptyToNull` is idempotent. */
  lemma NormalisationRoundTrips(s: Option<string>)
    ensures EmptyToNull(EmptyToNull(s)) == EmptyToNull(s)
    ensures NullToEmpty(EmptyToNull(s)) == NullToEmpty(s)
    ensures EmptyToNull(Some(NullToEmpty(s))) == EmptyToNull(s)
    ensures !IsNullOrEmpty(s) ==> EmptyToNull(s) == s
  {
  }

  /** Whitespace in the sense of `isBlank`.  Only the ASCII whitespace
      characters are modelled. */
  predicate IsWhitespace(c: char)
  {
    c == ' ' || c == '\t' || c == '\n' || c == '\r' || c == '\U{000C}' || c == '\U{000B}'
  }

  /** `isBlank`, which the source calls but does not define: null, empty, or
      whitespace only. */
  predicate IsBlank(s: Option<string>)
  {
    s.None? || forall i :: 0 <= i < |s.value| ==> IsWhitespace(s.value[i])
  }

  /** Whatever else it means, a blank string includes the null and empty
      ones, and a string with a visible character is not blank. */
  lemma BlankCoversNullOrEmpty(s: Option<string>)
    ensures IsNullOrEmpty(s) ==> IsBlank(s)
    ensures s.Some? && (exists i :: 0 <= i < |s.value| && !IsWhitespace(s.value[i])) ==> !IsBlank(s)
  {
  }
}
