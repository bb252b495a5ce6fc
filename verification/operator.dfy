/** `Operator`: the SQL where-clause operators and their SQL spelling. */
module Operators {
  import opened Base

  datatype Operator =
    | Equals
    | NotEquals
    | GreaterThan
    | LessThan
    | GreaterThanEquals
    | LessThanEquals
    | Like
    | Is
    | IsNot
    | In
    | NotIn

  /** The eleven operators in declaration order. */
  const AllOperators: seq<Operator> :=
    [Equals, NotEquals, GreaterThan, LessThan, GreaterThanEquals, LessThanEquals,
     Like, Is, IsNot, In, NotIn]

  /** The comparison operators, spelled with symbols. */
  predicate IsSymbolic(op: Operator)
  {
    op.Equals? || op.NotEquals? || op.GreaterThan? || op.LessThan?
    || op.GreaterThanEquals? || op.LessThanEquals?
  }

  /** `getSqlString()`: symbols are written bare, keywords get one space on
      each side so that they can sit between a column and a value. */
  function SqlString(op: Operator): (r: string)
    ensures 0 < |r|
    ensures IsSymbolic(op) ==> ' ' !in r && |r| <= 2
    ensures !IsSymbolic(op) ==> |r| >= 4 && r[0] == ' ' && r[|r| - 1] == ' '
                                && r[1] != ' ' && r[|r| - 2] != ' '
  {
    match op
    case Equals => "="
    case NotEquals => "!="
    case GreaterThan => ">"
    case LessThan => "<"
    case GreaterThanEquals => ">="
    case LessThanEquals => "<="
    case Like => " LIKE "
    case Is => " IS "
    case IsNot => " IS NOT "
    case In => " IN "
    case NotIn => " NOT IN "
  }

  /** Reads an operator back from its SQL spelling. */
  function FromSqlString(s: string): (r: Option<Operator>)
    ensures r.Some? ==> SqlString(r.value) == s
  {
    if s == "=" then Some(Equals)
    else if s == "!=" then Some(NotEquals)
    else if s == ">" then Some(GreaterThan)
    else if s == "<" then Some(LessThan)
    else if s == ">=" then Some(GreaterThanEquals)
    else if s == "<=" then Some(LessThanEquals)
    else if s == " LIKE " then Some(Like)
    else if s == " IS " then Some(Is)
    else if s == " IS NOT " then Some(IsNot)
    else if s == " IN " then Some(In)
    else if s == " NOT IN " then Some(NotIn)
    else None
  }

  /** Each operator's spelling identifies it: the spellings are pairwise
      distinct, so `FromSqlString` inverts `SqlString`. */
  lemma SqlStringRoundTrip(op: Operator)
    ensures FromSqlString(SqlString(op)) == Some(op)
  {
  }

  lemma SqlStringsDistinct(a: Operator, b: Operator)
    requires a != b
    ensures SqlString(a) != SqlString(b)
  {
    SqlStringRoundTrip(a);
    SqlStringRoundTrip(b);
  }
}
