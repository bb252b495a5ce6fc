/** The supported Java parameter classes and the JDBC type each one is read
    as.  The three requirement builders (`ParamSpec`, `ParamRequirement`,
    `InParamRequirement`) share this mapping word for word. */
module JdbcTypes {
  import opened Base
  import Values

  /** The class token handed to a builder; anything outside the eight
      supported classes is `OtherClass`. */
  datatype JavaType =
    | StringClass
    | BigDecimalClass
    | IntegerClass
    | LongClass
    | SqlDateClass
    | TimestampClass
    | CharacterClass
    | BooleanClass
    | OtherClass(name: string)

  /** `java.sql.JDBCType`, reduced to the constants the core distinguishes;
      every other constant is `OTHER`. */
  datatype SqlType =
    | VARCHAR
    | DECIMAL
    | INTEGER
    | BIGINT
    | DATE
    | TIMESTAMP
    | CHAR
    | BOOLEAN
    | OTHER(name: string)

  /** The builder's type selection: one JDBC type per supported class,
      IllegalArgumentException for any other class. */
  function SqlTypeFor(javaType: JavaType): (r: Result<SqlType>)
    ensures r.Err? <==> javaType.OtherClass?
    ensures r.Err? ==> r.error == IllegalArgument
    ensures r.Ok? ==> !r.value.OTHER? && JavaTypeFor(r.value) == Some(javaType)
  {
    match javaType
    case StringClass => Ok(VARCHAR)
    case BigDecimalClass => Ok(DECIMAL)
    case IntegerClass => Ok(INTEGER)
    case LongClass => Ok(BIGINT)
    case SqlDateClass => Ok(DATE)
    case TimestampClass => Ok(TIMESTAMP)
    case CharacterClass => Ok(CHAR)
    case BooleanClass => Ok(BOOLEAN)
    case OtherClass(_) => Err(IllegalArgument)
  }

  /** The reverse reading: which supported class a JDBC type stands for. */
  function JavaTypeFor(sqlType: SqlType): Option<JavaType>
  {
    match sqlType
    case VARCHAR => Some(StringClass)
    case DECIMAL => Some(BigDecimalClass)
    case INTEGER => Some(IntegerClass)
    case BIGINT => Some(LongClass)
    case DATE => Some(SqlDateClass)
    case TIMESTAMP => Some(TimestampClass)
    case CHAR => Some(CharacterClass)
    case BOOLEAN => Some(BooleanClass)
    case OTHER(_) => None
  }

  /** The mapping is one-to-one on the supported classes. */
  lemma SqlTypeForIsInjective(a: JavaType, b: JavaType)
    requires SqlTypeFor(a).Ok? && SqlTypeFor(b).Ok?
    requires SqlTypeFor(a).value == SqlTypeFor(b).value
    ensures a == b
  {
  }

  /** Whether a value is an instance of a supported class. */
  predicate IsInstance(x: Values.Scalar, javaType: JavaType)
  {
    match javaType
    case StringClass => x.Str?
    case BigDecimalClass => x.Decimal?
    case IntegerClass => x.Int32?
    case LongClass => x.Int64?
    case SqlDateClass => x.Date?
    case TimestampClass => x.Timestamp?
    case CharacterClass => x.Chr?
    case BooleanClass => x.Bool?
    case OtherClass(_) => false
  }
}
