/** `JoinPair`: the two column names an INNER JOIN matches on, the first in
    the previous table and the second in the joined one. */
module JoinPairs {
  import opened Base
  import Preconditions
  import Text
  import Values

  datatype JoinPair = JoinPair(firstTableColumn: string, secondTableColumn: string)

  /** The constructor: each name is checked with `checkNotEmpty`, so a null
      name raises NullPointerException and an empty one
      IllegalArgumentException, the first name being checked first. */
  function New(first: Option<string>, second: Option<string>): (r: Result<JoinPair>)
    ensures r.Ok? <==> !Preconditions.IsNullOrEmpty(first) && !Preconditions.IsNullOrEmpty(second)
    ensures first.None? ==> r == Err(NullPointer)
    ensures first == Some("") ==> r == Err(IllegalArgument)
    ensures !Preconditions.IsNullOrEmpty(first) && second.None? ==> r == Err(NullPointer)
    ensures !Preconditions.IsNullOrEmpty(first) && second == Some("") ==> r == Err(IllegalArgument)
    ensures r.Ok? ==> FirstTableColumn(r.value) == first.value && SecondTableColumn(r.value) == second.value
  {
    var a :- Preconditions.CheckNotEmpty(first);
    var b :- Preconditions.CheckNotEmpty(second);
    Ok(JoinPair(a, b))
  }

  /** `getFirstTableColumn`. */
  function FirstTableColumn(p: JoinPair): string
  {
    p.firstTableColumn
  }

  /** `getSecondTableColumn`. */
  function SecondTableColumn(p: JoinPair): string
  {
    p.secondTableColumn
  }

  /** `equals`: ordered and pairwise. */
  predicate Equal(p: JoinPair, q: JoinPair)
  {
    FirstTableColumn(p) == FirstTableColumn(q) && SecondTableColumn(p) == SecondTableColumn(q)
  }

  /** Integers congruent modulo 2^32 wrap to the same 32-bit value. */
  lemma WrapCongruent(n: int, m: int, k: int)
    requires n - m == k * Values.TwoTo32
    ensures Values.Wrap32(n) == Values.Wrap32(m)
  {
    assert n % Values.TwoTo32 == m % Values.TwoTo32;
  }

  /** Wrapping an intermediate result does not change the final 32-bit
      value of `c * a + b`. */
  lemma WrapInner(a: int, b: int, c: int)
    ensures Values.Wrap32(c * Values.Wrap32(a) + b) == Values.Wrap32(c * a + b)
  {
    var k := (Values.Wrap32(a) - a) / Values.TwoTo32;
    assert Values.Wrap32(a) == a + k * Values.TwoTo32;
    assert c * Values.Wrap32(a) + b - (c * a + b) == (c * k) * Values.TwoTo32;
    WrapCongruent(c * Values.Wrap32(a) + b, c * a + b, c * k);
  }

  /** `31 * (31 + h1) + h2` computed with every intermediate wrapped equals
      the exact value wrapped once. */
  lemma ObjectsHashWraps(p1: int, p2: int)
    ensures Values.Wrap32(31 * Values.Wrap32(31 + Values.Wrap32(p1)) + Values.Wrap32(p2)) == Values.Wrap32(961 + 31 * p1 + p2)
  {
    var inner := Values.Wrap32(31 + p1);
    calc {
      Values.Wrap32(31 * Values.Wrap32(31 + Values.Wrap32(p1)) + Values.Wrap32(p2));
      { WrapInner(p1, 31, 1); assert Values.Wrap32(31 + Values.Wrap32(p1)) == inner; }
      Values.Wrap32(1 * Values.Wrap32(p2) + 31 * inner);
      { WrapInner(p2, 31 * inner, 1); }
      Values.Wrap32(31 * inner + p2);
      { WrapInner(31 + p1, p2, 31); }
      Values.Wrap32(961 + 31 * p1 + p2);
    }
  }

  function Pow31(n: nat): int
  {
    if n == 0 then 1 else 31 * Pow31(n - 1)
  }

  /** The exact polynomial the `String.hashCode` documentation gives:
      `u[0]*31^(n-1) + u[1]*31^(n-2) + ... + u[n-1]` over the code units. */
  function Poly(units: seq<int>): int
  {
    if |units| == 0 then 0 else units[0] * Pow31(|units| - 1) + Poly(units[1..])
  }

  /** One more unit multiplies the polynomial by 31 and adds the unit. */
  lemma {:induction false} PolySnoc(units: seq<int>, u: int)
    ensures Poly(units + [u]) == 31 * Poly(units) + u
    decreases |units|
  {
    if |units| > 0 {
      assert (units + [u])[1..] == units[1..] + [u];
      PolySnoc(units[1..], u);
      var x, p := units[0], Pow31(|units| - 1);
      assert Pow31(|units|) == 31 * p;
      assert x * (31 * p) == 31 * (x * p);
    } else {
      assert units + [u] == [u];
    }
  }

  /** The hash loop `h = 31 * h + u` over the code units, in 32-bit
      arithmetic; it agrees with the reduced polynomial. */
  function UnitsHash(units: seq<int>): (h: int)
    ensures h == Values.Wrap32(Poly(units))
    decreases |units|
  {
    if |units| == 0 then 0
    else
      var front, last := units[..|units| - 1], units[|units| - 1];
      var h := Values.Wrap32(31 * UnitsHash(front) + last);
      WrapInner(Poly(front), last, 31);
      assert units == front + [last];
      PolySnoc(front, last);
      h
  }

  /** `String.hashCode`, computed over the string's UTF-16 code units. */
  function StringHash(s: string): (h: int)
    ensures -0x8000_0000 <= h < 0x8000_0000
    ensures h == Values.Wrap32(Poly(Text.Utf16(s)))
  {
    UnitsHash(Text.Utf16(s))
  }

  /** `hashCode`: `Objects.hash(first, second)`, that is `31 * (31 + h1) + h2`
      where `h1` and `h2` are the names' `String.hashCode`, all of it in
      32-bit arithmetic: the exact `961 + 31 * h1 + h2` reduced once. */
  function HashCode(p: JoinPair): (h: int)
    ensures -0x8000_0000 <= h < 0x8000_0000
    ensures h == Values.Wrap32(961 + 31 * StringHash(p.firstTableColumn) + StringHash(p.secondTableColumn))
  {
    var h1, h2 := StringHash(p.firstTableColumn), StringHash(p.secondTableColumn);
    WrapInner(31 + h1, h2, 31);
    Values.Wrap32(31 * Values.Wrap32(31 + h1) + h2)
  }

  /** Over the exact name polynomials, the pair's hash is
      `961 + 31 * poly(first) + poly(second)` reduced once to 32 bits. */
  lemma HashCodeIsPolynomial(p: JoinPair)
    ensures HashCode(p) == Values.Wrap32(961 + 31 * Poly(Text.Utf16(p.firstTableColumn)) + Poly(Text.Utf16(p.secondTableColumn)))
  {
    HashFromParts(StringHash(p.firstTableColumn), StringHash(p.secondTableColumn),
                  Poly(Text.Utf16(p.firstTableColumn)), Poly(Text.Utf16(p.secondTableColumn)));
  }

  lemma HashFromParts(h1: int, h2: int, p1: int, p2: int)
    requires h1 == Values.Wrap32(p1) && h2 == Values.Wrap32(p2)
    ensures Values.Wrap32(961 + 31 * h1 + h2) == Values.Wrap32(961 + 31 * p1 + p2)
  {
    ObjectsHashWraps(p1, p2);
    WrapInner(31 + h1, h2, 31);
  }

  /** A pair built from two names gives them back, and two pairs built from
      names are equal exactly when the names are equal in order, so swapped
      names give an equal pair only when both names are the same. */
  lemma ConstructionRoundTrip(a: string, b: string, c: string, d: string)
    requires a != "" && b != "" && c != "" && d != ""
    ensures New(Some(a), Some(b)).Ok?
    ensures var p := New(Some(a), Some(b)).value;
            FirstTableColumn(p) == a && SecondTableColumn(p) == b
    ensures Equal(New(Some(a), Some(b)).value, New(Some(c), Some(d)).value) <==> a == c && b == d
  {
  }

  /** `equals` is exactly structural equality, so equal pairs have equal
      hash codes. */
  lemma EqualityIsStructural(p: JoinPair, q: JoinPair)
    ensures Equal(p, q) <==> p == q
    ensures Equal(p, q) ==> HashCode(p) == HashCode(q)
  {
  }

  /** The hash of short ASCII names is the exact polynomial. */
  lemma HashOfShortNames()
    ensures StringHash("a") == 97
    ensures StringHash("b") == 98
    ensures StringHash("ab") == 97 * 31 + 98
  {
    assert StringHash("a") == 97 by {
      assert Text.Utf16("a") == [97];
      assert Poly([97]) == 97;
      assert Values.Wrap32(97) == 97;
    }
    assert StringHash("b") == 98 by {
      assert Text.Utf16("b") == [98];
      assert Poly([98]) == 98;
      assert Values.Wrap32(98) == 98;
    }
    assert Text.Utf16("ab") == [97, 98];
    assert [97, 98][1..] == [98];
    assert Poly([97, 98]) == 3105;
    assert Values.Wrap32(3105) == 3105;
  }

  /** The pair hash of two one-letter names, reduced exactly once. */
  lemma HashOfShortPair()
    ensures HashCode(JoinPair("a", "b")) == 31 * (31 + 97) + 98
  {
    HashOfShortNames();
    assert 961 + 31 * StringHash("a") + StringHash("b") == 4066;
    assert Values.Wrap32(4066) == 4066;
  }



}
