/** Column values as a closed tagged union.

    The Java source passes column values around as `Object` / `T extends
    Comparable`; the supported kinds are exactly those the builders map to a
    JDBC type: String, BigDecimal, Integer, Long, java.sql.Date,
    java.sql.Timestamp, Character and Boolean.  This module gives them the
    natural ordering (`compareTo`) and the natural string form
    (`String.valueOf`, that is each class's `toString`) the rest of the model
    needs. */
module Values {
  import opened Base
  import Text

  newtype int32 = x: int | -0x8000_0000 <= x < 0x8000_0000
  newtype int64 = x: int | -0x8000_0000_0000_0000 <= x < 0x8000_0000_0000_0000

  /** A non-null value.  A BigDecimal is `unscaled * 10^-scale`, the scale
      possibly negative (its scale is part of its identity: 8.0 and 8.00 are
      different values that compare equal).  Dates and timestamps are held as calendar fields. */
  datatype Scalar =
    | Str(s: string)
    | Decimal(unscaled: int, scale: int)
    | Int32(i: int32)
    | Int64(l: int64)
    | Date(year: nat, month: nat, day: nat)
    | Timestamp(tyear: nat, tmonth: nat, tday: nat, hour: nat, minute: nat, second: nat, nanos: nat)
    | Chr(c: char)
    | Bool(b: bool)

  /** A possibly-null Java object of one of the supported kinds. */
  datatype Value = Null | Of(scalar: Scalar)

  // ---------------------------------------------------------------------
  // Ordering
  // ---------------------------------------------------------------------

  /** Position of a kind.  Java's `compareTo` between values of different
      kinds raises ClassCastException; `Compare` orders kinds by this rank
      only to stay total, and the one place where different kinds do meet
      (a min/max matcher of a `Character` spec, whose cells are read as
      strings) checks `SameKind` first, in `Matchers.Clashes`. */
  function Rank(x: Scalar): nat
  {
    match x
    case Str(_) => 0
    case Decimal(_, _) => 1
    case Int32(_) => 2
    case Int64(_) => 3
    case Date(_, _, _) => 4
    case Timestamp(_, _, _, _, _, _, _) => 5
    case Chr(_) => 6
    case Bool(_) => 7
  }

  /** Both values are of the same Java class. */
  predicate SameKind(a: Scalar, b: Scalar)
  {
    Rank(a) == Rank(b)
  }

  const TwoTo32: int := 0x1_0000_0000

  /** Reduction of an integer to Java's 32-bit two's-complement range, as
      `int` arithmetic wraps. */
  function Wrap32(n: int): (r: int)
    ensures -0x8000_0000 <= r < 0x8000_0000
    ensures (r - n) % TwoTo32 == 0
  {
    var m := n % TwoTo32;
    if m >= 0x8000_0000 then m - TwoTo32 else m
  }

  function Sign(x: real): int
  {
    if x < 0.0 then -1 else if x > 0.0 then 1 else 0
  }

  function Pow10(n: nat): (r: nat)
    ensures r >= 1
  {
    if n == 0 then 1 else 10 * Pow10(n - 1)
  }

  /** The numeric value of a BigDecimal. */
  function DecimalValue(unscaled: int, scale: int): real
  {
    if scale >= 0 then unscaled as real / Pow10(scale) as real
    else (unscaled * Pow10(-scale)) as real
  }

  /** Lexicographic comparison of integer sequences, a proper prefix coming
      first; on UTF-16 code units this is the sign of Java's
      `String.compareTo`. */
  function LexCompare(a: seq<int>, b: seq<int>): (r: int)
    ensures -1 <= r <= 1
  {
    if |a| == 0 && |b| == 0 then 0
    else if |a| == 0 then -1
    else if |b| == 0 then 1
    else if a[0] < b[0] then -1
    else if a[0] > b[0] then 1
    else LexCompare(a[1..], b[1..])
  }

  function BoolCode(b: bool): int
  {
    if b then 1 else 0
  }

  /** Comparison key of the kinds ordered field by field. */
  function Key(x: Scalar): seq<int>
  {
    match x
    case Str(s) => Text.Utf16(s)
    case Decimal(_, _) => []
    case Int32(i) => [i as int]
    case Int64(l) => [l as int]
    case Date(y, m, d) => [y, m, d]
    case Timestamp(y, m, d, h, mi, s, n) => [y, m, d, h, mi, s, n]
    case Chr(c) => [c as int]
    case Bool(b) => [BoolCode(b)]
  }

  /** The sign of `a.compareTo(b)`. */
  function Compare(a: Scalar, b: Scalar): (r: int)
    ensures -1 <= r <= 1
  {
    if Rank(a) < Rank(b) then -1
    else if Rank(a) > Rank(b) then 1
    else if a.Decimal? && b.Decimal? then
      Sign(DecimalValue(a.unscaled, a.scale) - DecimalValue(b.unscaled, b.scale))
    else LexCompare(Key(a), Key(b))
  }

  lemma {:induction false} LexReflexive(a: seq<int>)
    ensures LexCompare(a, a) == 0
    decreases |a|
  {
    if |a| > 0 {
      LexReflexive(a[1..]);
    }
  }

  lemma {:induction false} LexAntisymmetric(a: seq<int>, b: seq<int>)
    ensures LexCompare(a, b) == -LexCompare(b, a)
    decreases |a|
  {
    if |a| > 0 && |b| > 0 && a[0] == b[0] {
      LexAntisymmetric(a[1..], b[1..]);
    }
  }

  /** `LexCompare` is a total order: comparisons chain, and one strict link
      makes the chain strict. */
  lemma {:induction false} LexTransitive(a: seq<int>, b: seq<int>, c: seq<int>)
    requires LexCompare(a, b) <= 0 && LexCompare(b, c) <= 0
    ensures LexCompare(a, c) <= 0
    ensures LexCompare(a, b) < 0 || LexCompare(b, c) < 0 ==> LexCompare(a, c) < 0
    decreases |a|
  {
    if |a| > 0 && |b| > 0 && |c| > 0 && a[0] == b[0] && b[0] == c[0] {
      LexTransitive(a[1..], b[1..], c[1..]);
    }
  }

  lemma {:induction false} LexZeroIsEquality(a: seq<int>, b: seq<int>)
    ensures LexCompare(a, b) == 0 <==> a == b
    decreases |a|
  {
    if a == b {
      LexReflexive(a);
    } else if |a| > 0 && |b| > 0 && a[0] == b[0] {
      LexZeroIsEquality(a[1..], b[1..]);
      assert a == [a[0]] + a[1..] && b == [b[0]] + b[1..];
    }
  }

  lemma CompareReflexive(a: Scalar)
    ensures Compare(a, a) == 0
  {
    if !a.Decimal? {
      LexReflexive(Key(a));
    }
  }

  lemma CompareAntisymmetric(a: Scalar, b: Scalar)
    ensures Compare(a, b) == -Compare(b, a)
  {
    if Rank(a) == Rank(b) && !a.Decimal? {
      LexAntisymmetric(Key(a), Key(b));
    }
  }

  /** The natural ordering is a total preorder: `<=` chains and a strict
      link makes the chain strict. */
  lemma CompareTransitive(a: Scalar, b: Scalar, c: Scalar)
    requires Compare(a, b) <= 0 && Compare(b, c) <= 0
    ensures Compare(a, c) <= 0
    ensures Compare(a, b) < 0 || Compare(b, c) < 0 ==> Compare(a, c) < 0
  {
    if Rank(a) == Rank(b) == Rank(c) && !a.Decimal? {
      LexTransitive(Key(a), Key(b), Key(c));
    }
  }

  /** Two values of a kind other than BigDecimal compare equal only when they
      are equal; BigDecimal alone has equal-comparing distinct values. */
  lemma CompareZeroIsEqualityExceptDecimal(a: Scalar, b: Scalar)
    requires !a.Decimal?
    ensures Compare(a, b) == 0 <==> a == b
  {
    if Rank(a) == Rank(b) {
      LexZeroIsEquality(Key(a), Key(b));
      if Key(a) == Key(b) {
        KeyDeterminesValue(a, b);
      }
    }
  }

  /** Apart from BigDecimal, the comparison key loses no information. */
  lemma KeyDeterminesValue(a: Scalar, b: Scalar)
    requires Rank(a) == Rank(b) && !a.Decimal? && Key(a) == Key(b)
    ensures a == b
  {
    if a.Str? {
      Text.Utf16Injective(a.s, b.s);
    }
  }

  /** Strings are ordered by UTF-16 code unit, not by code point: a
      character outside the Basic Multilingual Plane starts with a surrogate,
      which sorts below U+FFFF. */
  lemma StringsCompareByCodeUnits()
    ensures Compare(Str("\U{10000}"), Str("\U{FFFF}")) == -1
    ensures "\U{10000}"[0] as int > "\U{FFFF}"[0] as int
  {
    assert Text.Utf16("\U{10000}") == [0xD800, 0xDC00];
    assert Text.Utf16("\U{FFFF}") == [0xFFFF];
  }

  lemma DecimalScaleIsNotIdentity()
    ensures Compare(Decimal(80, 1), Decimal(800, 2)) == 0
    ensures Decimal(80, 1) != Decimal(800, 2)
  {
    assert Pow10(1) == 10;
    assert Pow10(2) == 100;
    assert DecimalValue(80, 1) == 8.0;
    assert DecimalValue(800, 2) == 8.0;
  }

  // ---------------------------------------------------------------------
  // Natural string form (toString)
  // ---------------------------------------------------------------------

  function DigitChar(d: nat): (c: char)
    requires d < 10
    ensures '0' <= c <= '9'
  {
    ['0', '1', '2', '3', '4', '5', '6', '7', '8', '9'][d]
  }

  predicate IsDigit(c: char)
  {
    '0' <= c <= '9'
  }

  predicate AllDigits(s: string)
  {
    forall i :: 0 <= i < |s| ==> IsDigit(s[i])
  }

  /** The value of a string of decimal digits, read most significant first. */
  function DigitsValue(s: string): nat
    requires AllDigits(s)
    decreases |s|
  {
    if |s| == 0 then 0 else 10 * DigitsValue(s[..|s| - 1]) + (s[|s| - 1] as int - '0' as int)
  }

  lemma DigitCharValue(d: nat)
    requires d < 10
    ensures DigitChar(d) as int - '0' as int == d
  {
    assert ['0', '1', '2', '3', '4', '5', '6', '7', '8', '9'][d] as int == '0' as int + d;
  }

  /** Decimal digits of a natural number, without leading zeros. */
  function NatToString(n: nat): (r: string)
    ensures |r| > 0 && AllDigits(r)
    ensures n < 10 <==> |r| == 1
  {
    if n < 10 then [DigitChar(n)] else NatToString(n / 10) + [DigitChar(n % 10)]
  }

  /** Reading the digits back gives the number, and only zero itself starts
      with a zero. */
  lemma {:induction false} NatToStringRoundTrip(n: nat)
    ensures DigitsValue(NatToString(n)) == n
    ensures NatToString(n)[0] == '0' <==> n == 0
    decreases n
  {
    var r := NatToString(n);
    if n < 10 {
      DigitCharValue(n);
      assert r[..0] == "";
    } else {
      NatToStringRoundTrip(n / 10);
      DigitCharValue(n % 10);
      assert r[..|r| - 1] == NatToString(n / 10);
    }
  }

  /** `Integer.parseInt` / `Long.parseLong` without the range check: an
      optional sign and at least one decimal digit. */
  function ParseInt(s: string): (r: Option<int>)
  {
    if |s| > 0 && (s[0] == '-' || s[0] == '+') then
      var digits := s[1..];
      if |digits| > 0 && AllDigits(digits) then
        var magnitude: int := DigitsValue(digits);
        Some(if s[0] == '-' then -magnitude else magnitude)
      else None
    else if |s| > 0 && AllDigits(s) then Some(DigitsValue(s))
    else None
  }

  /** `Integer.toString` / `Long.toString`. */
  function IntToString(n: int): (r: string)
    ensures |r| > 0 && NumberText(r)
    ensures n >= 0 ==> AllDigits(r)
    ensures n < 0 ==> r[0] == '-' && AllDigits(r[1..])
  {
    if n < 0 then
      NumberTextConcat("-", NatToString(-n));
      "-" + NatToString(-n)
    else NatToString(n)
  }

  /** Parsing the text of an integer gives the integer back. */
  lemma IntToStringRoundTrip(n: int)
    ensures ParseInt(IntToString(n)) == Some(n)
  {
    var digits := NatToString(Abs(n));
    NatToStringRoundTrip(Abs(n));
    ParseDigits(digits);
    if n < 0 {
      assert IntToString(n) == "-" + digits;
    } else {
      assert IntToString(n) == digits;
    }
  }

  /** Digits read as a number, with or without a minus sign before them. */
  lemma ParseDigits(digits: string)
    requires |digits| > 0 && AllDigits(digits)
    ensures ParseInt(digits) == Some(DigitsValue(digits) as int)
    ensures ParseInt("-" + digits) == Some(-(DigitsValue(digits) as int))
  {
    assert ("-" + digits)[1..] == digits;
    assert IsDigit(digits[0]);
  }


  /** Text made only of digits, signs, decimal points and the exponent
      marker 'E'. */
  predicate NumberText(s: string)
  {
    forall i :: 0 <= i < |s| ==> IsDigit(s[i]) || s[i] == '-' || s[i] == '+' || s[i] == '.' || s[i] == 'E'
  }

  lemma NumberTextConcat(a: string, b: string)
    requires NumberText(a) && NumberText(b)
    ensures NumberText(a + b)
  {
    assert forall i :: |a| <= i < |a + b| ==> (a + b)[i] == b[i - |a|];
  }

  /** Digits of `n`, left-padded with zeros to at least `width` characters. */
  function ZeroPad(n: nat, width: nat): (r: string)
    ensures |r| >= width && AllDigits(r)
  {
    var digits := NatToString(n);
    if |digits| >= width then digits else Zeros(width - |digits|) + digits
  }

  function Zeros(k: nat): (r: string)
    ensures |r| == k && AllDigits(r)
  {
    if k == 0 then "" else "0" + Zeros(k - 1)
  }

  /** Appending digits shifts the value of the leading ones. */
  lemma {:induction false} DigitsValueConcat(a: string, b: string)
    requires AllDigits(a) && AllDigits(b)
    ensures AllDigits(a + b)
    ensures DigitsValue(a + b) == DigitsValue(a) * Pow10(|b|) + DigitsValue(b)
    decreases |b|
  {
    assert forall i :: |a| <= i < |a + b| ==> (a + b)[i] == b[i - |a|];
    if |b| == 0 {
      assert a + b == a;
    } else {
      var front, last := b[..|b| - 1], b[|b| - 1] as int - '0' as int;
      DigitsValueConcat(a, front);
      assert (a + b)[..|a + b| - 1] == a + front;
      assert (a + b)[|a + b| - 1] == b[|b| - 1];
      calc {
        DigitsValue(a + b);
        10 * DigitsValue(a + front) + last;
        10 * (DigitsValue(a) * Pow10(|front|) + DigitsValue(front)) + last;
        { ShiftByDigit(DigitsValue(a), Pow10(|front|), DigitsValue(front), last); }
        DigitsValue(a) * (10 * Pow10(|front|)) + (10 * DigitsValue(front) + last);
        DigitsValue(a) * Pow10(|b|) + DigitsValue(b);
      }
    }
  }

  lemma ShiftByDigit(x: int, p: int, f: int, d: int)
    ensures 10 * (x * p + f) + d == x * (10 * p) + (10 * f + d)
  {
  }

  lemma {:induction false} ZerosValue(k: nat)
    ensures DigitsValue(Zeros(k)) == 0
    decreases k
  {
    if k > 0 {
      ZerosValue(k - 1);
      DigitsValueConcat("0", Zeros(k - 1));
    }
  }

  /** Leading zeros do not change the value; padding happens only when the
      digits are shorter than the width. */
  lemma ZeroPadValue(n: nat, width: nat)
    ensures DigitsValue(ZeroPad(n, width)) == n
    ensures |NatToString(n)| >= width ==> ZeroPad(n, width) == NatToString(n)
    ensures |NatToString(n)| < width ==> |ZeroPad(n, width)| == width
  {
    NatToStringRoundTrip(n);
    var digits := NatToString(n);
    if |digits| < width {
      var zeros := Zeros(width - |digits|);
      assert ZeroPad(n, width) == zeros + digits;
      ZerosValue(width - |digits|);
      DigitsValueConcat(zeros, digits);
      assert DigitsValue(zeros + digits) == 0 * Pow10(|digits|) + n;
    } else {
      assert ZeroPad(n, width) == digits;
    }
  }

  /** `s` without its trailing '0' characters, keeping at least one character. */
  function TrimTrailingZeros(s: string): (r: string)
    requires |s| > 0
    ensures 0 < |r| <= |s| && r == s[..|r|]
  {
    if |s| > 1 && s[|s| - 1] == '0' then TrimTrailingZeros(s[..|s| - 1]) else s
  }

  function Abs(n: int): nat
  {
    if n < 0 then -n else n
  }

  /** The exponent the leading digit of a BigDecimal has in scientific
      notation. */
  function AdjustedExponent(unscaled: int, scale: int): int
  {
    |NatToString(Abs(unscaled))| - 1 - scale
  }

  /** `BigDecimal.toString` writes no exponent exactly when the scale is not
      negative and the adjusted exponent is at least -6. */
  predicate PlainNotation(unscaled: int, scale: int)
  {
    scale >= 0 && AdjustedExponent(unscaled, scale) >= -6
  }

  /** The unsigned plain form: the digits, padded with zeros so that one
      stands before the point, with a point before the last `scale` of them. */
  function PlainBody(magnitude: nat, scale: nat): (r: string)
    ensures |r| > 0 && IsDigit(r[0])
    ensures forall i :: 0 <= i < |r| ==> IsDigit(r[i]) || r[i] == '.'
  {
    var digits := ZeroPad(magnitude, scale + 1);
    if scale == 0 then digits
    else
      var whole, fraction := digits[..|digits| - scale], digits[|digits| - scale..];
      var r := whole + "." + fraction;
      assert forall i :: |whole| < i < |r| ==> r[i] == fraction[i - |whole| - 1];
      r
  }

  /** The unsigned scientific form: the first digit, a point before the
      others if there are any, and the exponent with an explicit sign. */
  function ScientificBody(coefficient: string, adjusted: int): (r: string)
    requires |coefficient| > 0 && AllDigits(coefficient)
    ensures |r| > 0 && IsDigit(r[0])
    ensures NumberText(r) && 'E' in r
  {
    var mantissa := if |coefficient| == 1 then coefficient else coefficient[..1] + "." + coefficient[1..];
    assert NumberText(coefficient[..1]) && NumberText(coefficient[1..]);
    NumberTextConcat(coefficient[..1], ".");
    NumberTextConcat(coefficient[..1] + ".", coefficient[1..]);
    var exponent := (if adjusted > 0 then "+" else "") + IntToString(adjusted);
    NumberTextConcat(if adjusted > 0 then "+" else "", IntToString(adjusted));
    NumberTextConcat(mantissa, "E");
    NumberTextConcat(mantissa + "E", exponent);
    var r := mantissa + "E" + exponent;
    assert r[|mantissa|] == 'E';
    r
  }

  /** `BigDecimal.toString`: the minus sign of a negative value, then the
      plain form or, for a negative scale or a very small value, the
      scientific one. */
  function DecimalToString(unscaled: int, scale: int): (r: string)
    ensures |r| > 0 && NumberText(r)
    ensures 'E' in r <==> !PlainNotation(unscaled, scale)
    ensures r[0] == '-' <==> unscaled < 0
  {
    var body := UnsignedDecimalToString(Abs(unscaled), scale);
    if unscaled < 0 then
      NumberTextConcat("-", body);
      assert 'E' in body <==> 'E' in "-" + body;
      "-" + body
    else body
  }

  /** The text of a BigDecimal's magnitude. */
  function UnsignedDecimalToString(magnitude: nat, scale: int): (r: string)
    ensures |r| > 0 && IsDigit(r[0]) && NumberText(r)
    ensures 'E' in r <==> !PlainNotation(magnitude, scale)
  {
    if PlainNotation(magnitude, scale) then PlainBody(magnitude, scale)
    else ScientificBody(NatToString(magnitude), AdjustedExponent(magnitude, scale))
  }

  /** Index of the first `c` in `s`, or `|s|` when there is none. */
  function FirstIndex(s: string, c: char): (i: nat)
    ensures i <= |s| && (i < |s| ==> s[i] == c)
    ensures forall j :: 0 <= j < i ==> s[j] != c
  {
    if |s| == 0 then 0 else if s[0] == c then 0 else 1 + FirstIndex(s[1..], c)
  }

  /** Digits with at most one point, read as the value of the digits and
      the number of them after the point. */
  function ParseMantissa(m: string): Option<(int, int)>
  {
    var point := FirstIndex(m, '.');
    var digits := m[..point] + (if point < |m| then m[point + 1..] else "");
    if |digits| == 0 || !AllDigits(digits) then None
    else Some((DigitsValue(digits), if point < |m| then |m| - point - 1 else 0))
  }

  /** `new BigDecimal(String)` on unsigned text: a mantissa, then optionally
      'E' and a signed exponent.  The scale is the number of digits after the
      point less the exponent. */
  function ParseUnsignedDecimal(s: string): Option<(int, int)>
  {
    var e := FirstIndex(s, 'E');
    var exponent := if e < |s| then ParseInt(s[e + 1..]) else Some(0);
    match (ParseMantissa(s[..e]), exponent)
    case (Some((m, fractionDigits)), Some(x)) => Some((m, fractionDigits - x))
    case _ => None
  }

  /** `new BigDecimal(String)`, answering the unscaled value and the scale. */
  function ParseDecimal(s: string): Option<(int, int)>
  {
    if |s| > 0 && s[0] == '-' then
      match ParseUnsignedDecimal(s[1..])
      case None => None
      case Some((m, scale)) => Some((-m, scale))
    else ParseUnsignedDecimal(s)
  }

  lemma MantissaOfDigits(d: string)
    requires |d| > 0 && AllDigits(d)
    ensures 'E' !in d
    ensures ParseMantissa(d) == Some((DigitsValue(d) as int, 0))
  {
    assert FirstIndex(d, '.') == |d|;
    assert d[..|d|] + "" == d;
  }

  lemma MantissaWithPoint(whole: string, fraction: string)
    requires |whole| > 0 && AllDigits(whole) && AllDigits(fraction)
    ensures AllDigits(whole + fraction)
    ensures 'E' !in whole + "." + fraction
    ensures ParseMantissa(whole + "." + fraction) == Some((DigitsValue(whole + fraction) as int, |fraction|))
  {
    var m := whole + "." + fraction;
    DigitsConcat(whole, fraction);
    PointSplits(whole, fraction);
    assert m[..FirstIndex(m, '.')] + m[FirstIndex(m, '.') + 1..] == whole + fraction;
  }

  /** Digits joined stay digits. */
  lemma DigitsConcat(a: string, b: string)
    requires AllDigits(a) && AllDigits(b)
    ensures AllDigits(a + b)
  {
    assert forall i :: |a| <= i < |a + b| ==> (a + b)[i] == b[i - |a|];
  }

  /** The first point of digits, a point and digits is the one between them. */
  lemma PointSplits(whole: string, fraction: string)
    requires AllDigits(whole) && AllDigits(fraction)
    ensures var m := whole + "." + fraction;
            && 'E' !in m && FirstIndex(m, '.') == |whole|
            && m[..|whole|] == whole && m[|whole| + 1..] == fraction
  {
    var m := whole + "." + fraction;
    assert forall i :: |whole| < i < |m| ==> m[i] == fraction[i - |whole| - 1];
    assert m[|whole|] == '.';
  }

  lemma WithoutExponent(m: string)
    requires 'E' !in m
    ensures ParseUnsignedDecimal(m) == ParseMantissa(m)
  {
    assert FirstIndex(m, 'E') == |m|;
    assert m[..|m|] == m;
  }

  lemma WithExponent(m: string, x: string)
    requires 'E' !in m
    requires ParseMantissa(m).Some? && ParseInt(x).Some?
    ensures ParseUnsignedDecimal(m + "E" + x)
            == Some((ParseMantissa(m).value.0, ParseMantissa(m).value.1 - ParseInt(x).value))
  {
    var s := m + "E" + x;
    assert s[|m|] == 'E';
    assert FirstIndex(s, 'E') == |m|;
    assert s[..|m|] == m && s[|m| + 1..] == x;
  }

  lemma SplitJoin(s: string, k: nat)
    requires k <= |s|
    ensures s[..k] + s[k..] == s
  {
  }

  /** Digits with a point before the last `scale` of them read back as
      the digits' value and that scale. */
  lemma PointedDigitsParse(digits: string, scale: nat)
    requires AllDigits(digits) && 0 < scale < |digits|
    ensures ParseUnsignedDecimal(digits[..|digits| - scale] + "." + digits[|digits| - scale..])
            == Some((DigitsValue(digits) as int, scale as int))
  {
    var k := |digits| - scale;
    var whole, fraction := digits[..k], digits[k..];
    SplitJoin(digits, k);
    MantissaWithPoint(whole, fraction);
    WithoutExponent(whole + "." + fraction);
  }

  lemma PlainBodyParses(magnitude: nat, scale: nat)
    ensures ParseUnsignedDecimal(PlainBody(magnitude, scale)) == Some((magnitude as int, scale as int))
  {
    var b := PlainBody(magnitude, scale);
    var digits := ZeroPad(magnitude, scale + 1);
    ZeroPadValue(magnitude, scale + 1);
    if scale > 0 {
      assert b == digits[..|digits| - scale] + "." + digits[|digits| - scale..];
      PointedDigitsParse(digits, scale);
    } else {
      assert b == digits;
      MantissaOfDigits(digits);
      WithoutExponent(digits);
    }
  }

  /** The exponent of the scientific form, with its explicit sign, reads
      back as the adjusted exponent. */
  lemma ExponentParses(adjusted: int)
    ensures ParseInt((if adjusted > 0 then "+" else "") + IntToString(adjusted)) == Some(adjusted)
  {
    IntToStringRoundTrip(adjusted);
    if adjusted > 0 {
      var text := IntToString(adjusted);
      assert ("+" + text)[1..] == text;
      assert AllDigits(text);
    } else {
      assert "" + IntToString(adjusted) == IntToString(adjusted);
    }
  }

  /** The mantissa of the scientific form reads back as the coefficient's
      value with all but its first digit after the point. */
  lemma MantissaParses(c: string)
    requires |c| > 0 && AllDigits(c)
    ensures var m := if |c| == 1 then c else c[..1] + "." + c[1..];
            && 'E' !in m
            && ParseMantissa(m) == Some((DigitsValue(c) as int, |c| - 1))
  {
    if |c| > 1 {
      SplitJoin(c, 1);
      MantissaWithPoint(c[..1], c[1..]);
    } else {
      MantissaOfDigits(c);
    }
  }

  lemma ScientificBodyParses(magnitude: nat, scale: int)
    requires scale < 0 || AdjustedExponent(magnitude, scale) < -6
    ensures ParseUnsignedDecimal(ScientificBody(NatToString(magnitude), AdjustedExponent(magnitude, scale)))
            == Some((magnitude as int, scale))
  {
    var c := NatToString(magnitude);
    var adjusted := AdjustedExponent(magnitude, scale);
    var mantissa := if |c| == 1 then c else c[..1] + "." + c[1..];
    var exponent := (if adjusted > 0 then "+" else "") + IntToString(adjusted);
    assert ScientificBody(c, adjusted) == mantissa + "E" + exponent;
    NatToStringRoundTrip(magnitude);
    MantissaParses(c);
    ExponentParses(adjusted);
    WithExponent(mantissa, exponent);
  }

  /** Reading the text back with `new BigDecimal(String)` recovers both the
      unscaled value and the scale: the text loses nothing. */
  lemma DecimalToStringRoundTrip(unscaled: int, scale: int)
    ensures ParseDecimal(DecimalToString(unscaled, scale)) == Some((unscaled, scale))
  {
    var magnitude := Abs(unscaled);
    var body := UnsignedDecimalToString(magnitude, scale);
    UnsignedDecimalRoundTrip(magnitude, scale);
    if unscaled < 0 {
      NegativeParse(body, magnitude, scale);
    } else {
      NonNegativeParse(body, magnitude, scale);
    }
  }

  lemma UnsignedDecimalRoundTrip(magnitude: nat, scale: int)
    ensures ParseUnsignedDecimal(UnsignedDecimalToString(magnitude, scale)) == Some((magnitude as int, scale))
  {
    if PlainNotation(magnitude, scale) {
      PlainBodyParses(magnitude, scale);
    } else {
      ScientificBodyParses(magnitude, scale);
    }
  }

  lemma NegativeParse(body: string, magnitude: int, scale: int)
    requires ParseUnsignedDecimal(body) == Some((magnitude, scale))
    ensures ParseDecimal("-" + body) == Some((-magnitude, scale))
  {
    assert ("-" + body)[1..] == body;
  }

  lemma NonNegativeParse(body: string, magnitude: int, scale: int)
    requires |body| > 0 && IsDigit(body[0])
    requires ParseUnsignedDecimal(body) == Some((magnitude, scale))
    ensures ParseDecimal(body) == Some((magnitude, scale))
  {
  }



  /** A value of 10^-6 prints plainly; one below it switches to scientific
      notation, and so does a negative scale. */
  lemma PlainDecimalExample()
    ensures DecimalToString(1, 6) == "0.000001"
  {
    assert NatToString(1) == "1";
    assert AdjustedExponent(1, 6) == -6;
    assert Zeros(2) == "00";
    assert Zeros(4) == "0000";
    assert Zeros(6) == "000000";
    var digits := ZeroPad(1, 7);
    assert digits == "0000001";
    assert digits[..1] == "0" && digits[1..] == "000001";
    assert PlainBody(1, 6) == "0" + "." + "000001";
  }

  lemma SmallDecimalExample()
    ensures DecimalToString(1, 7) == "1E-7"
  {
    assert NatToString(1) == "1";
    assert AdjustedExponent(1, 7) == -7;
    assert IntToString(-7) == "-7";
    assert ScientificBody("1", -7) == "1" + "E" + "" + "-7";
  }

  lemma NegativeScaleExample()
    ensures DecimalToString(-123, -2) == "-1.23E+4"
  {
    assert NatToString(123) == "123" by {
      assert NatToString(1) == "1" && DigitChar(2) == '2' && DigitChar(3) == '3';
      assert NatToString(12) == "12";
    }
    assert ScientificBody("123", 4) == "1.23E+4" by {
      var mantissa := "123"[..1] + "." + "123"[1..];
      assert mantissa == "1.23";
      assert IntToString(4) == "4";
      assert ScientificBody("123", 4) == mantissa + "E" + ("+" + IntToString(4));
    }
    assert AdjustedExponent(123, -2) == 4;
    assert DecimalToString(-123, -2) == "-" + UnsignedDecimalToString(123, -2);
  }




  /** `java.sql.Date.toString`: yyyy-mm-dd. */
  function DateToString(year: nat, month: nat, day: nat): string
  {
    ZeroPad(year, 4) + "-" + ZeroPad(month, 2) + "-" + ZeroPad(day, 2)
  }

  /** `java.sql.Timestamp.toString`: yyyy-mm-dd hh:mm:ss.f with the nanoseconds
      written to nine places and stripped of trailing zeros. */
  function TimestampToString(x: Scalar): string
    requires x.Timestamp?
  {
    var fraction := if x.nanos == 0 then "0" else TrimTrailingZeros(ZeroPad(x.nanos, 9));
    DateToString(x.tyear, x.tmonth, x.tday) + " "
      + ZeroPad(x.hour, 2) + ":" + ZeroPad(x.minute, 2) + ":" + ZeroPad(x.second, 2)
      + "." + fraction
  }

  /** `String.valueOf` of a non-null value, that is its `toString`. */
  function ScalarToString(x: Scalar): string
  {
    match x
    case Str(s) => s
    case Decimal(u, sc) => DecimalToString(u, sc)
    case Int32(i) => IntToString(i as int)
    case Int64(l) => IntToString(l as int)
    case Date(y, m, d) => DateToString(y, m, d)
    case Timestamp(_, _, _, _, _, _, _) => TimestampToString(x)
    case Chr(c) => [c]
    case Bool(b) => if b then "true" else "false"
  }

  /** `String.valueOf` of a possibly-null value. */
  function ValueToString(v: Value): string
  {
    match v
    case Null => "null"
    case Of(x) => ScalarToString(x)
  }

  predicate IsNumeric(x: Scalar)
  {
    x.Decimal? || x.Int32? || x.Int64?
  }

  /** Numbers and booleans print without quote characters. */
  lemma NumbersAndBooleansHaveNoQuote(x: Scalar)
    requires IsNumeric(x) || x.Bool?
    ensures '\'' !in ScalarToString(x)
  {
    var r := ScalarToString(x);
    if x.Decimal? || x.Int32? || x.Int64? {
      assert NumberText(r);
    }
  }
}
