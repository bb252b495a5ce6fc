/** `ParamSpec`: what one column of one table must supply, and its builder.

    The static conditions of a spec are an ordered list of `Condition`s,
    which is how the chain's SQL generation reads them. */
module Specs {
  import opened Base
  import opened Values
  import opened JdbcTypes
  import opened Matchers
  import opened Conditions
  import Preconditions

  datatype ParamSpec = ParamSpec(
    catalog: Option<string>,
    schema: Option<string>,
    table: string,
    column: string,
    where: seq<Condition>,
    sqlType: SqlType,
    javaType: JavaType,
    matcher: Matcher)

  datatype Builder = Builder(
    catalog: Option<string>,
    schema: Option<string>,
    table: Option<string>,
    column: Option<string>,
    where: seq<Condition>,
    sqlType: SqlType,
    javaType: JavaType,
    matcher: Matcher)

  /** `builder(javaType)`: a null class raises NullPointerException and an
      unsupported one IllegalArgumentException; otherwise it picks the JDBC
      type for the class and starts with no table, no column, no conditions
      and the accept-all matcher. */
  function NewBuilder(javaClass: Option<JavaType>): (r: Result<Builder>)
    ensures javaClass.None? <==> r == Err(NullPointer)
    ensures r.Err? <==> javaClass.None? || javaClass.value.OtherClass?
    ensures javaClass.Some? && r.Err? ==> r.error == IllegalArgument
    ensures r.Ok? ==> var javaType := javaClass.value;
                      r.value.javaType == javaType && Ok(r.value.sqlType) == SqlTypeFor(javaType)
                      && r.value.table.None? && r.value.column.None? && r.value.where == []
                      && r.value.matcher == AcceptAll
  {
    var javaType :- Preconditions.CheckNotNull(javaClass);
    var sqlType :- SqlTypeFor(javaType);
    Ok(Builder(None, None, None, None, [], sqlType, javaType, NewAllAcceptor()))
  }

  /** `setCatalog`: "" is stored as absent. */
  function SetCatalog(b: Builder, catalog: Option<string>): (r: Builder)
    ensures r.catalog.None? <==> Preconditions.IsNullOrEmpty(catalog)
    ensures r.catalog.Some? ==> r.catalog == catalog
    ensures r == b.(catalog := r.catalog)
  {
    b.(catalog := Preconditions.EmptyToNull(catalog))
  }

  /** `setSchema`: "" is stored as absent. */
  function SetSchema(b: Builder, schema: Option<string>): (r: Builder)
    ensures r.schema.None? <==> Preconditions.IsNullOrEmpty(schema)
    ensures r.schema.Some? ==> r.schema == schema
    ensures r == b.(schema := r.schema)
  {
    b.(schema := Preconditions.EmptyToNull(schema))
  }

  /** `setTable`: null or "" raises IllegalArgumentException. */
  function SetTable(b: Builder, table: Option<string>): (r: Result<Builder>)
    ensures r.Ok? <==> !Preconditions.IsNullOrEmpty(table)
    ensures r.Err? ==> r.error == IllegalArgument
    ensures r.Ok? ==> r.value == b.(table := table)
  {
    var hasTable := !Preconditions.IsNullOrEmpty(table);
    :- Preconditions.CheckArgument(hasTable);
    Ok(b.(table := table))
  }

  /** `setColumn`: null or "" raises IllegalArgumentException. */
  function SetColumn(b: Builder, column: Option<string>): (r: Result<Builder>)
    ensures r.Ok? <==> !Preconditions.IsNullOrEmpty(column)
    ensures r.Err? ==> r.error == IllegalArgument
    ensures r.Ok? ==> r.value == b.(column := column)
  {
    var hasColumn := !Preconditions.IsNullOrEmpty(column);
    :- Preconditions.CheckArgument(hasColumn);
    Ok(b.(column := column))
  }

  /** Adds one static condition after those already given. */
  function AddWhere(b: Builder, c: Condition): (r: Builder)
    ensures r.where == b.where + [c]
    ensures r == b.(where := r.where)
  {
    b.(where := b.where + [c])
  }

  /** `setMatcher`: null raises NullPointerException. */
  function SetMatcher(b: Builder, matcher: Option<Matcher>): (r: Result<Builder>)
    ensures r.Ok? <==> matcher.Some?
    ensures r.Err? ==> r.error == NullPointer
    ensures r.Ok? ==> r.value == b.(matcher := matcher.value)
  {
    var m :- Preconditions.CheckNotNull(matcher);
    Ok(b.(matcher := m))
  }

  /** `build()`: the constructor re-checks that table and column are set and
      non-empty, raising IllegalArgumentException otherwise. */
  function Build(b: Builder): (r: Result<ParamSpec>)
    ensures r.Ok? <==> !Preconditions.IsNullOrEmpty(b.table) && !Preconditions.IsNullOrEmpty(b.column)
    ensures r.Err? ==> r.error == IllegalArgument
    ensures r.Ok? ==> && r.value.catalog == b.catalog && r.value.schema == b.schema
                      && Some(r.value.table) == b.table && Some(r.value.column) == b.column
                      && r.value.where == b.where && r.value.sqlType == b.sqlType
                      && r.value.javaType == b.javaType && r.value.matcher == b.matcher
  {
    var hasTable := !Preconditions.IsNullOrEmpty(b.table);
    var hasColumn := !Preconditions.IsNullOrEmpty(b.column);
    :- Preconditions.CheckArgument(hasTable);
    :- Preconditions.CheckArgument(hasColumn);
    Ok(ParamSpec(b.catalog, b.schema, b.table.value, b.column.value, b.where, b.sqlType, b.javaType, b.matcher))
  }

  /** `isAcceptableValue`: null raises NullPointerException, anything else
      gets the matcher's verdict, which a min/max matcher meeting a value of
      another class replaces with ClassCastException. */
  function IsAcceptableValue(spec: ParamSpec, value: Value): (r: Result<bool>)
    ensures value.Null? <==> r == Err(NullPointer)
    ensures value.Of? && Clashes(spec.matcher, value.scalar) ==> r == Err(ClassCast)
    ensures value.Of? && !Clashes(spec.matcher, value.scalar) ==> r == Ok(Accepts(spec.matcher, value.scalar))
    ensures value.Of? && spec.matcher.AcceptAll? ==> r == Ok(true)
  {
    var v :- Preconditions.CheckNotNull(if value.Null? then None else Some(value.scalar));
    Verdict(spec.matcher, v)
  }

  /** `equals`: every field but the matcher. */
  predicate Equal(a: ParamSpec, b: ParamSpec)
  {
    && a.catalog == b.catalog
    && a.schema == b.schema
    && a.table == b.table
    && a.column == b.column
    && a.where == b.where
    && a.sqlType == b.sqlType
    && a.javaType == b.javaType
  }

  /** `equals` is an equivalence that cannot see the matcher. */
  lemma EqualityIgnoresMatcher(a: ParamSpec, b: ParamSpec, c: ParamSpec, m: Matcher)
    ensures Equal(a, a)
    ensures Equal(a, b) ==> Equal(b, a)
    ensures Equal(a, b) && Equal(b, c) ==> Equal(a, c)
    ensures Equal(a, a.(matcher := m))
  {
  }

  /** A spec built from a builder that was given a table and a column. */
  lemma BuildAfterSetters(javaType: JavaType, table: string, column: string)
    requires !javaType.OtherClass? && table != "" && column != ""
    ensures var b := NewBuilder(Some(javaType)).value;
            var b1 := SetTable(b, Some(table)).value;
            var b2 := SetColumn(b1, Some(column)).value;
            var r := Build(b2);
            r.Ok? && r.value.table == table && r.value.column == column
            && IsAcceptableValue(r.value, Null) == Err(NullPointer)
            && forall x :: IsAcceptableValue(r.value, Of(x)) == Ok(true)
  {
  }
}
