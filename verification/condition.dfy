/** `Condition`: one where-clause fragment `<column><operator><value>`.

    The value is rendered by a heuristic: a string is quoted unless it
    "looks like a function or subselect" (contains both parentheses), in
    which case it is emitted verbatim.  Quotes inside a quoted string are not
    escaped, and a literal string containing both parentheses cannot be told
    from a function call; both are how the source behaves. */
module Conditions {
  import opened Base
  import opened Values
  import opened Operators
  import Text

  /** The operand of a condition: one value (possibly null) or a collection. */
  datatype Operand = Single(v: Value) | Many(items: seq<Value>)

  datatype Condition = Condition(column: string, op: Operator, value: Operand)

  /** The constructor: a null column or a null operator raises
      NullPointerException; a null value is allowed. */
  function New(column: Option<string>, op: Option<Operator>, value: Operand): (r: Result<Condition>)
    ensures r.Ok? <==> column.Some? && op.Some?
    ensures r.Err? ==> r.error == NullPointer
    ensures r.Ok? ==> r.value.column == column.value && r.value.op == op.value && r.value.value == value
  {
    if column.None? || op.None? then Err(NullPointer)
    else Ok(Condition(column.value, op.value, value))
  }

  /** `isFunctionOrSubselect`: both an opening and a closing parenthesis occur. */
  predicate IsFunctionOrSubselect(s: string)
  {
    '(' in s && ')' in s
  }

  /** `formatValue`: quote plain strings, print everything else in its
      natural form (a null element of a collection prints as `null`). */
  function FormatValue(v: Value): (r: string)
    ensures v.Of? && v.scalar.Str? && !IsFunctionOrSubselect(v.scalar.s) ==> r == "'" + v.scalar.s + "'"
    ensures v.Of? && v.scalar.Str? && IsFunctionOrSubselect(v.scalar.s) ==> r == v.scalar.s
    ensures !(v.Of? && v.scalar.Str?) ==> r == ValueToString(v)
  {
    match v
    case Of(Str(s)) => if IsFunctionOrSubselect(s) then s else "'" + s + "'"
    case _ => ValueToString(v)
  }

  /** The rendering of the operand: `NULL` for a null value, a parenthesised
      comma-separated list for a collection, otherwise `formatValue`. */
  function OperandText(value: Operand): string
  {
    match value
    case Single(Null) => "NULL"
    case Single(v) => FormatValue(v)
    case Many(items) => "(" + Text.Join(",", FormatAll(items)) + ")"
  }

  function FormatAll(items: seq<Value>): (r: seq<string>)
    ensures |r| == |items|
    ensures forall i :: 0 <= i < |items| ==> r[i] == FormatValue(items[i])
  {
    seq(|items|, i requires 0 <= i < |items| => FormatValue(items[i]))
  }

  /** `toString()`: column, then the operator's SQL string, then the operand. */
  function ToString(c: Condition): (r: string)
    ensures |r| > |c.column| + |SqlString(c.op)|
    ensures r[..|c.column|] == c.column
    ensures r[|c.column|..|c.column| + |SqlString(c.op)|] == SqlString(c.op)
    ensures c.value == Single(Null) ==> r[|c.column| + |SqlString(c.op)|..] == "NULL"
    ensures c.value.Many? ==> var tail := r[|c.column| + |SqlString(c.op)|..];
                              |tail| >= 2 && tail[0] == '(' && tail[|tail| - 1] == ')'
  {
    c.column + SqlString(c.op) + OperandText(c.value)
  }

  /** A string without both parentheses is wrapped in single quotes, with no
      escaping, right after the operator. */
  lemma PlainStringIsQuoted(column: string, op: Operator, s: string)
    requires !IsFunctionOrSubselect(s)
    ensures ToString(Condition(column, op, Single(Of(Str(s))))) == column + SqlString(op) + "'" + s + "'"
    ensures Text.Contains(ToString(Condition(column, op, Single(Of(Str(s))))), "'" + s + "'")
  {
    Text.ContainsWitness(column + SqlString(op) + "'" + s + "'", "'" + s + "'", column + SqlString(op), "");
  }

  /** A string with both parentheses is emitted verbatim, so nothing after
      the operator is a quote that the rendering added. */
  lemma FunctionCallIsVerbatim(column: string, op: Operator, s: string)
    requires IsFunctionOrSubselect(s)
    ensures ToString(Condition(column, op, Single(Of(Str(s))))) == column + SqlString(op) + s
  {
  }

  /** Numbers and booleans are written without any quote character, given a
      column without quotes. */
  lemma NumbersAndBooleansAreUnquoted(column: string, op: Operator, x: Scalar)
    requires IsNumeric(x) || x.Bool?
    requires '\'' !in column
    ensures '\'' !in ToString(Condition(column, op, Single(Of(x))))
  {
    NumbersAndBooleansHaveNoQuote(x);
    OperatorHasNoQuote(op);
    var text := ScalarToString(x);
    assert OperandText(Single(Of(x))) == text;
    var r := ToString(Condition(column, op, Single(Of(x))));
    assert r == column + SqlString(op) + text;
  }

  lemma OperatorHasNoQuote(op: Operator)
    ensures '\'' !in SqlString(op)
  {
  }

  /** A collection is rendered element by element: a one-element list is that
      element's formatting in parentheses, and appending an element appends a
      comma and its formatting just before the closing parenthesis. */
  lemma CollectionIsRenderedElementwise(items: seq<Value>, v: Value)
    ensures OperandText(Many([v])) == "(" + FormatValue(v) + ")"
    ensures |items| > 0 ==>
      OperandText(Many(items + [v])) == "(" + (Text.Join(",", FormatAll(items)) + "," + FormatValue(v)) + ")"
  {
    assert FormatAll([v]) == [FormatValue(v)];
    assert FormatAll(items + [v]) == FormatAll(items) + [FormatValue(v)];
    Text.JoinSnoc(",", FormatAll(items), FormatValue(v));
  }

  /** Structurally equal conditions render identically: the rendering
      depends on nothing but column, operator and value. */
  lemma EqualConditionsRenderAlike(a: Condition, b: Condition)
    requires a.column == b.column && a.op == b.op && a.value == b.value
    ensures a == b && ToString(a) == ToString(b)
  {
  }

  /** The rendering keeps the operator recoverable: cutting the column off the
      front and reading the operator's length worth of characters gives back
      the operator. */
  lemma OperatorIsRecoverable(c: Condition)
    ensures FromSqlString(ToString(c)[|c.column|..|c.column| + |SqlString(c.op)|]) == Some(c.op)
  {
    SqlStringRoundTrip(c.op);
  }
}
