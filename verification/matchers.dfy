/** `Matchers`: the stock value-acceptance predicates.

    A matcher is only ever asked about a non-null value (the callers reject
    null first), so it is a predicate over `Scalar`.  The min/max matcher
    calls `compareTo` on its bounds, which raises ClassCastException when a
    bound and the value are of different classes; `Verdict` is the
    matcher's answer with that failure.  The regular-expression
    matcher is kept abstract: it carries the `find` predicate of its
    compiled pattern. */
module Matchers {
  import opened Base
  import opened Values

  datatype Matcher =
    | AcceptAll
    | ValidList(acceptable: seq<Scalar>)
    | MinMax(min: Value, max: Value)
    | RegexFind(find: string -> bool)
    | Custom(accept: Scalar -> bool)

  /** `isAcceptableValue` of each kind of matcher. */
  predicate Accepts(m: Matcher, v: Scalar)
  {
    match m
    case AcceptAll => true
    case ValidList(acceptable) => v in acceptable
    case MinMax(min, max) =>
      (min.Null? || Compare(min.scalar, v) <= 0) && (max.Null? || Compare(max.scalar, v) > 0)
    case RegexFind(find) => v.Str? && find(v.s)
    case Custom(accept) => accept(v)
  }

  /** Whether `isAcceptableValue` reaches a `compareTo` between a bound and a
      value of another class.  The minimum is compared first; the maximum
      only when the minimum did not already reject the value, as `&&`
      short-circuits. */
  predicate Clashes(m: Matcher, v: Scalar)
  {
    match m
    case MinMax(min, max) =>
      || (min.Of? && !SameKind(min.scalar, v))
      || ((min.Null? || Compare(min.scalar, v) <= 0) && max.Of? && !SameKind(max.scalar, v))
    case _ => false
  }

  /** `isAcceptableValue` of a non-null value: the verdict, or the
      ClassCastException a cross-class `compareTo` raises. */
  function Verdict(m: Matcher, v: Scalar): (r: Result<bool>)
    ensures r.Err? <==> Clashes(m, v)
    ensures r.Err? ==> r.error == ClassCast
    ensures r.Ok? ==> r.value == Accepts(m, v)
    ensures !m.MinMax? ==> r.Ok?
  {
    if Clashes(m, v) then Err(ClassCast) else Ok(Accepts(m, v))
  }

  /** `newAllAcceptor()`. */
  function NewAllAcceptor(): (m: Matcher)
    ensures forall v :: Accepts(m, v)
  {
    AcceptAll
  }

  /** `newValidListAcceptor(list)`: membership by equality. */
  function NewValidListAcceptor(acceptable: seq<Scalar>): (m: Matcher)
    ensures forall v :: Accepts(m, v) <==> v in acceptable
    ensures |acceptable| == 0 ==> forall v :: !Accepts(m, v)
  {
    ValidList(acceptable)
  }

  /** `newMinMaxAcceptor(min, max)`: the half-open range `min <= v < max`;
      a null bound leaves that side open. */
  function NewMinMaxAcceptor(min: Value, max: Value): (m: Matcher)
    ensures forall v :: Accepts(m, v) <==>
      && (min.Of? ==> Compare(min.scalar, v) <= 0)
      && (max.Of? ==> Compare(v, max.scalar) < 0)
    ensures min.Null? && max.Null? ==> forall v :: Accepts(m, v)
  {
    forall v | max.Of?
      ensures Compare(max.scalar, v) > 0 <==> Compare(v, max.scalar) < 0
    {
      CompareAntisymmetric(max.scalar, v);
    }
    MinMax(min, max)
  }

  /** `newRegexStringAcceptor(pattern)`: a string is accepted when the
      pattern is found in it. */
  function NewRegexStringAcceptor(find: string -> bool): (m: Matcher)
    ensures forall s :: Accepts(m, Str(s)) <==> find(s)
  {
    RegexFind(find)
  }

  /** The range includes its lower bound and excludes its upper bound. */
  lemma MinMaxIsHalfOpen(min: Scalar, max: Scalar)
    ensures Compare(min, max) < 0 ==> Accepts(NewMinMaxAcceptor(Of(min), Of(max)), min)
    ensures !Accepts(NewMinMaxAcceptor(Of(min), Of(max)), max)
  {
    CompareReflexive(min);
    CompareReflexive(max);
  }

  /** A range whose minimum is not below its maximum accepts nothing. */
  lemma EmptyRangeAcceptsNothing(min: Scalar, max: Scalar, v: Scalar)
    requires Compare(min, max) >= 0
    ensures !Accepts(NewMinMaxAcceptor(Of(min), Of(max)), v)
  {
    if Compare(min, v) <= 0 && Compare(v, max) < 0 {
      CompareTransitive(min, v, max);
      assert false;
    }
  }

  /** Bounds of the value's own class never raise: the matcher answers with
      the half-open range, and a minimum above the value rejects it without
      the maximum being looked at. */
  lemma SameKindBoundsNeverClash(min: Value, max: Value, v: Scalar)
    requires min.Of? ==> SameKind(min.scalar, v)
    requires max.Of? ==> SameKind(max.scalar, v)
    ensures Verdict(NewMinMaxAcceptor(min, max), v) ==
              Ok((min.Null? || Compare(min.scalar, v) <= 0) && (max.Null? || Compare(v, max.scalar) < 0))
  {
  }

  /** A range of characters asked about a string, as happens when a
      `Character` column is read with `getString`, raises ClassCastException
      from the minimum's `compareTo`, whatever the maximum. */
  lemma CharRangeRejectsString(lo: char, max: Value, s: string)
    ensures Verdict(NewMinMaxAcceptor(Of(Chr(lo)), max), Str(s)) == Err(ClassCast)
  {
  }

  /** With a null minimum the maximum's class decides: a string below a
      character maximum raises as well. */
  lemma CharMaxRejectsString(hi: char, s: string)
    ensures Verdict(NewMinMaxAcceptor(Null, Of(Chr(hi))), Str(s)) == Err(ClassCast)
  {
  }
}
