/** `ParamRequirement`: the older single-column requirement, whose extra
    condition is one free-text where clause and whose acceptance test is a
    caller-supplied acceptor. */
module Requirements {
  import opened Base
  import opened Values
  import opened JdbcTypes
  import Preconditions

  /** An acceptor is a verdict on a non-null value.  The default acceptor is
      taken to accept everything (`Acceptors` is not part of this model). */
  type Acceptor = Scalar -> bool

  const AcceptAll: Acceptor := (v: Scalar) => true

  datatype ParamRequirement = ParamRequirement(
    catalog: Option<string>,
    schema: Option<string>,
    table: string,
    column: string,
    where: Option<string>,
    sqlType: SqlType,
    javaType: JavaType,
    acceptor: Acceptor)

  datatype Builder = Builder(
    catalog: Option<string>,
    schema: Option<string>,
    table: Option<string>,
    column: Option<string>,
    where: Option<string>,
    sqlType: SqlType,
    javaType: JavaType,
    acceptor: Acceptor)

  /** `builder(javaType)`: a null class raises NullPointerException, then
      the shared class-to-JDBC-type selection; nothing else is set yet and
      the acceptor accepts everything. */
  function NewBuilder(javaClass: Option<JavaType>): (r: Result<Builder>)
    ensures javaClass.None? <==> r == Err(NullPointer)
    ensures r.Err? <==> javaClass.None? || javaClass.value.OtherClass?
    ensures javaClass.Some? && r.Err? ==> r.error == IllegalArgument
    ensures r.Ok? ==> var javaType := javaClass.value;
                      r.value.javaType == javaType && Ok(r.value.sqlType) == SqlTypeFor(javaType)
                      && r.value.table.None? && r.value.column.None? && r.value.where.None?
                      && forall v :: r.value.acceptor(v)
  {
    var javaType :- Preconditions.CheckNotNull(javaClass);
    var sqlType :- SqlTypeFor(javaType);
    Ok(Builder(None, None, None, None, None, sqlType, javaType, AcceptAll))
  }

  /** `setCatalog`: "" is stored as absent. */
  function SetCatalog(b: Builder, catalog: Option<string>): (r: Builder)
    ensures r.catalog.None? <==> Preconditions.IsNullOrEmpty(catalog)
    ensures r.catalog.Some? ==> r.catalog == catalog
    ensures r == b.(catalog := r.catalog)
  {
    b.(catalog := Preconditions.EmptyToNull(catalog))
  }

  /** `setSchema`: "" is stored as absent. */
  function SetSchema(b: Builder, schema: Option<string>): (r: Builder)
    ensures r.schema.None? <==> Preconditions.IsNullOrEmpty(schema)
    ensures r.schema.Some? ==> r.schema == schema
    ensures r == b.(schema := r.schema)
  {
    b.(schema := Preconditions.EmptyToNull(schema))
  }

  /** `setTable`: null or "" raises IllegalArgumentException. */
  function SetTable(b: Builder, table: Option<string>): (r: Result<Builder>)
    ensures r.Ok? <==> !Preconditions.IsNullOrEmpty(table)
    ensures r.Err? ==> r.error == IllegalArgument
    ensures r.Ok? ==> r.value == b.(table := table)
  {
    var hasTable := !Preconditions.IsNullOrEmpty(table);
    :- Preconditions.CheckArgument(hasTable);
    Ok(b.(table := table))
  }

  /** `setColumn`: null or "" raises IllegalArgumentException. */
  function SetColumn(b: Builder, column: Option<string>): (r: Result<Builder>)
    ensures r.Ok? <==> !Preconditions.IsNullOrEmpty(column)
    ensures r.Err? ==> r.error == IllegalArgument
    ensures r.Ok? ==> r.value == b.(column := column)
  {
    var hasColumn := !Preconditions.IsNullOrEmpty(column);
    :- Preconditions.CheckArgument(hasColumn);
    Ok(b.(column := column))
  }

  /** `setWhere`: "" is stored as absent, like the catalog and schema. */
  function SetWhere(b: Builder, where: Option<string>): (r: Builder)
    ensures r.where.None? <==> Preconditions.IsNullOrEmpty(where)
    ensures r.where.Some? ==> r.where == where
    ensures r == b.(where := r.where)
  {
    b.(where := Preconditions.EmptyToNull(where))
  }

  /** `setAcceptor`: null raises NullPointerException. */
  function SetAcceptor(b: Builder, acceptor: Option<Acceptor>): (r: Result<Builder>)
    ensures r.Ok? <==> acceptor.Some?
    ensures r.Err? ==> r.error == NullPointer
    ensures r.Ok? ==> r.value == b.(acceptor := acceptor.value)
  {
    var a :- Preconditions.CheckNotNull(acceptor);
    Ok(b.(acceptor := a))
  }

  /** `build()`: the constructor re-checks table and column. */
  function Build(b: Builder): (r: Result<ParamRequirement>)
    ensures r.Ok? <==> !Preconditions.IsNullOrEmpty(b.table) && !Preconditions.IsNullOrEmpty(b.column)
    ensures r.Err? ==> r.error == IllegalArgument
    ensures r.Ok? ==> && r.value.catalog == b.catalog && r.value.schema == b.schema
                      && Some(r.value.table) == b.table && Some(r.value.column) == b.column
                      && r.value.where == b.where && r.value.sqlType == b.sqlType
                      && r.value.javaType == b.javaType && r.value.acceptor == b.acceptor
  {
    var hasTable := !Preconditions.IsNullOrEmpty(b.table);
    var hasColumn := !Preconditions.IsNullOrEmpty(b.column);
    :- Preconditions.CheckArgument(hasTable);
    :- Preconditions.CheckArgument(hasColumn);
    Ok(ParamRequirement(b.catalog, b.schema, b.table.value, b.column.value, b.where, b.sqlType, b.javaType, b.acceptor))
  }

  /** `isAcceptableValue`: null raises NullPointerException, anything else
      gets the acceptor's verdict. */
  function IsAcceptableValue(req: ParamRequirement, value: Value): (r: Result<bool>)
    ensures value.Null? <==> r == Err(NullPointer)
    ensures value.Of? ==> r == Ok(req.acceptor(value.scalar))
  {
    var v :- Preconditions.CheckNotNull(if value.Null? then None else Some(value.scalar));
    Ok(req.acceptor(v))
  }

  /** `equals`: every field but the acceptor; the where clause takes part. */
  predicate Equal(a: ParamRequirement, b: ParamRequirement)
  {
    && a.catalog == b.catalog
    && a.schema == b.schema
    && a.table == b.table
    && a.column == b.column
    && a.where == b.where
    && a.sqlType == b.sqlType
    && a.javaType == b.javaType
  }

  /** `equals` is an equivalence; it ignores the acceptor but tells apart two
      requirements that differ only in the where clause. */
  lemma EqualitySeesWhereNotAcceptor(a: ParamRequirement, b: ParamRequirement, c: ParamRequirement,
                                     acceptor: Acceptor, where: Option<string>)
    ensures Equal(a, a)
    ensures Equal(a, b) ==> Equal(b, a)
    ensures Equal(a, b) && Equal(b, c) ==> Equal(a, c)
    ensures Equal(a, a.(acceptor := acceptor))
    ensures Equal(a, a.(where := where)) <==> where == a.where
  {
  }

  /** Setting the where clause to "" after setting it to something else
      clears it again, and the built requirement has no where clause. */
  lemma EmptyWhereClears(b: Builder, w: string)
    requires !Preconditions.IsNullOrEmpty(b.table) && !Preconditions.IsNullOrEmpty(b.column)
    ensures SetWhere(b, Some(w)).where == (if w == "" then None else Some(w))
    ensures Build(SetWhere(SetWhere(b, Some(w)), Some(""))).Ok?
    ensures Build(SetWhere(SetWhere(b, Some(w)), Some(""))).value.where.None?
  {
  }
}
