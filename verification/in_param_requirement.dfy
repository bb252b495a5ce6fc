/** `InParamRequirement`: a requirement on one input parameter, decided by
    an explicit list of acceptable values, else an inclusive range, and
    finally a caller-supplied acceptor. */
module InRequirements {
  import opened Base
  import opened Values
  import opened JdbcTypes
  import Matchers
  import Preconditions

  /** `ValueAcceptor`: a verdict on a non-null value.  The default acceptor
      `v -> v != null` is only ever asked about non-null values, so it
      accepts everything it is asked about. */
  type ValueAcceptor = Scalar -> bool

  const NonNull: ValueAcceptor := (v: Scalar) => true

  datatype InParamRequirement = InParamRequirement(
    catalog: Option<string>,
    schema: Option<string>,
    table: string,
    column: string,
    sqlType: SqlType,
    javaType: JavaType,
    minValue: Value,
    maxValue: Value,
    acceptableValues: seq<Scalar>,
    acceptor: ValueAcceptor)

  datatype Builder = Builder(
    catalog: Option<string>,
    schema: Option<string>,
    table: Option<string>,
    column: Option<string>,
    sqlType: SqlType,
    javaType: JavaType,
    minValue: Value,
    maxValue: Value,
    acceptableValues: seq<Scalar>,
    acceptor: ValueAcceptor)

  /** `builder(javaType)`: a null class raises NullPointerException, then
      the shared class-to-JDBC-type selection; no bounds, no listed values,
      and the non-null acceptor. */
  function NewBuilder(javaClass: Option<JavaType>): (r: Result<Builder>)
    ensures javaClass.None? <==> r == Err(NullPointer)
    ensures r.Err? <==> javaClass.None? || javaClass.value.OtherClass?
    ensures javaClass.Some? && r.Err? ==> r.error == IllegalArgument
    ensures r.Ok? ==> var javaType := javaClass.value;
                      && r.value.javaType == javaType && Ok(r.value.sqlType) == SqlTypeFor(javaType)
                      && r.value.table.None? && r.value.column.None?
                      && r.value.minValue.Null? && r.value.maxValue.Null?
                      && r.value.acceptableValues == []
                      && forall v :: r.value.acceptor(v)
  {
    var javaType :- Preconditions.CheckNotNull(javaClass);
    var sqlType :- SqlTypeFor(javaType);
    Ok(Builder(None, None, None, None, sqlType, javaType, Null, Null, [], NonNull))
  }

  /** `setCatalog`: "" is stored as absent. */
  function SetCatalog(b: Builder, catalog: Option<string>): (r: Builder)
    ensures r.catalog.None? <==> Preconditions.IsNullOrEmpty(catalog)
    ensures r.catalog.Some? ==> r.catalog == catalog
    ensures r == b.(catalog := r.catalog)
  {
    b.(catalog := Preconditions.EmptyToNull(catalog))
  }

  /** `setSchema`: "" is stored as absent. */
  function SetSchema(b: Builder, schema: Option<string>): (r: Builder)
    ensures r.schema.None? <==> Preconditions.IsNullOrEmpty(schema)
    ensures r.schema.Some? ==> r.schema == schema
    ensures r == b.(schema := r.schema)
  {
    b.(schema := Preconditions.EmptyToNull(schema))
  }

  /** `setTable`: null or "" raises IllegalArgumentException. */
  function SetTable(b: Builder, table: Option<string>): (r: Result<Builder>)
    ensures r.Ok? <==> !Preconditions.IsNullOrEmpty(table)
    ensures r.Err? ==> r.error == IllegalArgument
    ensures r.Ok? ==> r.value == b.(table := table)
  {
    var hasTable := !Preconditions.IsNullOrEmpty(table);
    :- Preconditions.CheckArgument(hasTable);
    Ok(b.(table := table))
  }

  /** `setColumn`: null or "" raises IllegalArgumentException. */
  function SetColumn(b: Builder, column: Option<string>): (r: Result<Builder>)
    ensures r.Ok? <==> !Preconditions.IsNullOrEmpty(column)
    ensures r.Err? ==> r.error == IllegalArgument
    ensures r.Ok? ==> r.value == b.(column := column)
  {
    var hasColumn := !Preconditions.IsNullOrEmpty(column);
    :- Preconditions.CheckArgument(hasColumn);
    Ok(b.(column := column))
  }

  /** `setMinValue` and `setMaxValue`: any value, null included. */
  function SetRange(b: Builder, minValue: Value, maxValue: Value): (r: Builder)
    ensures r.minValue == minValue && r.maxValue == maxValue
    ensures r == b.(minValue := minValue, maxValue := maxValue)
  {
    b.(minValue := minValue, maxValue := maxValue)
  }

  /** `addAcceptableValue`: null raises NullPointerException; otherwise the
      value joins the end of the list, duplicates kept. */
  function AddAcceptableValue(b: Builder, value: Value): (r: Result<Builder>)
    ensures r.Err? <==> value.Null?
    ensures r.Err? ==> r.error == NullPointer
    ensures r.Ok? ==> && r.value.acceptableValues == b.acceptableValues + [value.scalar]
                      && r.value == b.(acceptableValues := r.value.acceptableValues)
  {
    var v :- Preconditions.CheckNotNull(if value.Null? then None else Some(value.scalar));
    Ok(b.(acceptableValues := b.acceptableValues + [v]))
  }

  /** `setAcceptor`: null raises NullPointerException. */
  function SetAcceptor(b: Builder, acceptor: Option<ValueAcceptor>): (r: Result<Builder>)
    ensures r.Ok? <==> acceptor.Some?
    ensures r.Err? ==> r.error == NullPointer
    ensures r.Ok? ==> r.value == b.(acceptor := acceptor.value)
  {
    var a :- Preconditions.CheckNotNull(acceptor);
    Ok(b.(acceptor := a))
  }

  /** `build()`: the constructor re-checks table and column. */
  function Build(b: Builder): (r: Result<InParamRequirement>)
    ensures r.Ok? <==> !Preconditions.IsNullOrEmpty(b.table) && !Preconditions.IsNullOrEmpty(b.column)
    ensures r.Err? ==> r.error == IllegalArgument
    ensures r.Ok? ==> && r.value.catalog == b.catalog && r.value.schema == b.schema
                      && Some(r.value.table) == b.table && Some(r.value.column) == b.column
                      && r.value.sqlType == b.sqlType && r.value.javaType == b.javaType
                      && r.value.minValue == b.minValue && r.value.maxValue == b.maxValue
                      && r.value.acceptableValues == b.acceptableValues
                      && r.value.acceptor == b.acceptor
  {
    var hasTable := !Preconditions.IsNullOrEmpty(b.table);
    var hasColumn := !Preconditions.IsNullOrEmpty(b.column);
    :- Preconditions.CheckArgument(hasTable);
    :- Preconditions.CheckArgument(hasColumn);
    Ok(InParamRequirement(b.catalog, b.schema, b.table.value, b.column.value, b.sqlType, b.javaType,
                          b.minValue, b.maxValue, b.acceptableValues, b.acceptor))
  }

  /** The verdict before the acceptor is consulted: list membership when the
      list is non-empty, else the inclusive range when a bound is set, else
      true. */
  predicate PreVerdict(req: InParamRequirement, v: Scalar)
  {
    if |req.acceptableValues| > 0 then v in req.acceptableValues
    else if req.minValue.Of? || req.maxValue.Of? then
      (req.minValue.Null? || Compare(req.minValue.scalar, v) <= 0)
      && (req.maxValue.Null? || Compare(req.maxValue.scalar, v) >= 0)
    else true
  }

  /** `isAcceptableValue`, following the branches of the source: null raises
      NullPointerException; the acceptor is asked only when the first verdict
      is true. */
  method IsAcceptableValue(req: InParamRequirement, value: Value) returns (r: Result<bool>, askedAcceptor: bool)
    ensures value.Null? <==> r == Err(NullPointer)
    ensures value.Null? ==> !askedAcceptor
    ensures value.Of? ==> r == Ok(PreVerdict(req, value.scalar) && req.acceptor(value.scalar))
    ensures value.Of? ==> (askedAcceptor <==> PreVerdict(req, value.scalar))
  {
    askedAcceptor := false;
    if value.Null? {
      return Err(NullPointer), false;
    }
    var v := value.scalar;
    var result: bool;
    if |req.acceptableValues| > 0 {
      result := v in req.acceptableValues;
    } else if req.minValue.Of? || req.maxValue.Of? {
      result := true;
      if req.minValue.Of? {
        result := Compare(req.minValue.scalar, v) <= 0;
      }
      if result && req.maxValue.Of? {
        result := Compare(req.maxValue.scalar, v) >= 0;
      }
    } else {
      result := true;
    }
    if result {
      askedAcceptor := true;
      result := req.acceptor(v);
    }
    return Ok(result), askedAcceptor;
  }

  /** A non-empty list overrides the bounds: membership alone decides the
      first verdict, whatever the range says. */
  lemma ListOverridesRange(req: InParamRequirement, v: Scalar)
    requires |req.acceptableValues| > 0
    ensures PreVerdict(req, v) <==> v in req.acceptableValues
    ensures PreVerdict(req, v) <==> PreVerdict(req.(minValue := Null, maxValue := Null), v)
  {
  }

  /** Unlike `Matchers.NewMinMaxAcceptor`, whose maximum is exclusive, the
      range here includes both ends: with both bounds set and no list, the
      maximum itself passes the first verdict but not the matcher. */
  lemma RangeIsInclusiveUnlikeMatcher(req: InParamRequirement, lo: Scalar, hi: Scalar)
    requires req.acceptableValues == [] && req.minValue == Of(lo) && req.maxValue == Of(hi)
    requires Compare(lo, hi) <= 0
    ensures PreVerdict(req, lo) && PreVerdict(req, hi)
    ensures !Matchers.Accepts(Matchers.NewMinMaxAcceptor(Of(lo), Of(hi)), hi)
  {
    CompareReflexive(lo);
    CompareReflexive(hi);
    CompareAntisymmetric(lo, hi);
    Matchers.MinMaxIsHalfOpen(lo, hi);
  }

  /** The first verdict of a range is exactly `min <= v <= max`, each side
      open when its bound is null. */
  lemma RangeVerdict(req: InParamRequirement, v: Scalar)
    requires req.acceptableValues == [] && (req.minValue.Of? || req.maxValue.Of?)
    ensures PreVerdict(req, v) <==>
      && (req.minValue.Of? ==> Compare(req.minValue.scalar, v) <= 0)
      && (req.maxValue.Of? ==> Compare(v, req.maxValue.scalar) <= 0)
  {
    if req.maxValue.Of? {
      CompareAntisymmetric(req.maxValue.scalar, v);
    }
  }

  /** `equals`: every field but the acceptor, the bounds and the list
      included. */
  predicate Equal(a: InParamRequirement, b: InParamRequirement)
  {
    && a.catalog == b.catalog
    && a.schema == b.schema
    && a.table == b.table
    && a.column == b.column
    && a.sqlType == b.sqlType
    && a.javaType == b.javaType
    && a.minValue == b.minValue
    && a.maxValue == b.maxValue
    && a.acceptableValues == b.acceptableValues
  }

  /** Requirements that `equals` cannot tell apart give the same first
      verdict on every value; only their acceptors may differ. */
  lemma EqualRequirementsAgreeBeforeAcceptor(a: InParamRequirement, b: InParamRequirement, v: Scalar)
    requires Equal(a, b)
    ensures PreVerdict(a, v) == PreVerdict(b, v)
    ensures Equal(a, a.(acceptor := b.acceptor))
  {
  }
}
