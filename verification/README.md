# param-in-finder in Dafny

A Dafny model of the core of param-in-finder. The library samples existing database rows to build sets of distinct parameter tuples for tests. A chain of parameter specifications (`ParamSpecs`) describes which tables and columns to sample and how they join. Each spec becomes one query stage (`SqlQueryProcessor`). Stage *i* runs the statement the chain generates for spec *i*, binding the values gathered so far, and extends each incoming tuple with the first acceptable value its query returns. A subscriber at the end of the chain collects distinct tuples into an insertion-ordered set until it has enough, and then cancels. There are three such subscribers: `DefaultFindParametersTask` (called "the finder" below), `DefaultTupleSetRetriever` and `TupleListRetriever`.

The model has one module per core source file, plus a few supporting modules:

- **Values**: the tagged scalar union (strings, numbers, decimals, dates, timestamps, characters, booleans) with a total order and Java's `toString`.
- **Base**: `Option`, `Result` and the Java exceptions as a datatype.
- **Text**: joining, ASCII lower-casing and the UTF-16 code units of a string.
- **Seqs**: sequence lemmas.
- **Tuples**, **Operators**, **Conditions** and **JoinPairs**: immutable values and their SQL rendering.
- **Matchers**, **JdbcTypes**, **Specs**, **Requirements** and **InRequirements**: the Java-type to SQL-type table, builder validation and value acceptance.
- **Chains**: `ParamSpecs` and its `getSqlStatement`. The generated statement is stated piece by piece: aliases `a`, `b`, … in chain order, the INNER JOIN clauses, one `= ?` per earlier node, the alias-prefixed static conditions and the single selected column.
- **Preconditions** and **Databases**: argument checks, the product-name lookup and the row-limit templates.
- **QueryProcessors**: a stage's `onNext` step over a result set given as a sequence of cells, plus its request, cancel and broadcast forwarding.
- **Pipelines**: `configureProcessingFlow`, which wires one stage per spec.
- **OrderedSets**: a `LinkedHashSet` as a duplicate-free sequence.
- **FindTasks**, **SetRetrievers** and **ListRetrievers**: the three subscribers.

The reactive-streams protocol is modelled without threads:

- **Flow.Step**: each subscriber callback is a pure function from the old state to a `Step`. The step holds the new state, the signals sent upstream (`Request(n)`, `Cancel`) and how the call ended: it returned, it threw an exception, or it blocked on the semaphore.
- **Semaphore**: modelled as a permit count.
- **Flow.Feed**: delivers tuples one at a time until a callback throws or cancels. This is what the lemmas about whole runs quantify over.
- **Inputs as parameters**: JDBC connections, prepared statements and query results are parameters. So are the failures the database may raise and the interrupts a waiting thread may receive.

Where the source files disagree with each other, the model follows the code that runs:

- A spec's static conditions are a sequence of `Condition`s. `ParamSpec.java:59` declares a `Map`, but `ParamSpecs.java:138` iterates it as conditions.
- `Preconditions.isBlank` is called at `ParamSpecs.java:164` but is not defined in `Preconditions.java`. It is modelled as "null, empty or only whitespace".
- `DefaultFindParametersTask.java:188-189` calls a three-argument `SqlQueryProcessor` constructor. Only the two-argument constructor at `SqlQueryProcessor.java:45` exists, and that is the one modelled.
- `ParamRequirement` and `InParamRequirement` import Guava's `checkArgument` and `checkNotNull`. Their behaviour is the same as the project's own `Preconditions`, which the model uses.

## Model

| member | source | states |
|---|---|---|
| Preconditions.CheckArgument | src/main/java/org/codekaizen/test/db/paramin/Preconditions.java:32-50 | the check passes exactly when the expression holds, and otherwise raises IllegalArgumentException |
| Preconditions.CheckNotNull | src/main/java/org/codekaizen/test/db/paramin/Preconditions.java:59-80 | null, and only null, raises NullPointerException; otherwise the reference itself is returned |
| Preconditions.CheckNotEmpty | src/main/java/org/codekaizen/test/db/paramin/Preconditions.java:90-99 | a string is accepted exactly when it is non-null and non-empty; null raises NullPointerException, "" raises IllegalArgumentException |
| Preconditions.CheckNotEmptyItems | src/main/java/org/codekaizen/test/db/paramin/Preconditions.java:90-99 | the same rule for a collection: null raises NullPointerException, an empty one IllegalArgumentException |
| Preconditions.NullToEmpty | src/main/java/org/codekaizen/test/db/paramin/Preconditions.java:128-130 | null becomes "", any other string is returned unchanged |
| Preconditions.EmptyToNull | src/main/java/org/codekaizen/test/db/paramin/Preconditions.java:138-140 | the result is null exactly when the input is null or empty, and otherwise is the input |
| Preconditions.NormalisationRoundTrips | src/main/java/org/codekaizen/test/db/paramin/Preconditions.java:128-155 | emptyToNull is idempotent, and nullToEmpty and emptyToNull undo each other up to the null/empty distinction |
| Preconditions.BlankCoversNullOrEmpty | src/main/java/org/codekaizen/test/db/paramin/ParamSpecs.java:164 | every null or empty schema counts as blank, and a string holding a non-whitespace character does not |
| Operators.SqlString | src/main/java/org/codekaizen/test/db/paramin/Operator.java:25-51 | comparison operators are spelled with one or two symbols and no space; keyword operators are padded with one space on each side |
| Operators.FromSqlString | src/main/java/org/codekaizen/test/db/paramin/Operator.java:25-35 | whatever operator is read back from a spelling has exactly that spelling |
| Operators.SqlStringRoundTrip | src/main/java/org/codekaizen/test/db/paramin/Operator.java:25-35 | reading an operator's spelling gives back that operator |
| Operators.SqlStringsDistinct | src/main/java/org/codekaizen/test/db/paramin/Operator.java:25-35 | no two operators share a spelling |
| Matchers.NewAllAcceptor | src/main/java/org/codekaizen/test/db/paramin/Matchers.java:34-36 | every value is accepted |
| Matchers.NewValidListAcceptor | src/main/java/org/codekaizen/test/db/paramin/Matchers.java:45-47 | a value is accepted exactly when it is in the list; an empty list accepts nothing |
| Matchers.NewMinMaxAcceptor | src/main/java/org/codekaizen/test/db/paramin/Matchers.java:57-61 | a value is accepted exactly when it is at least the minimum and below the maximum, a null bound not restricting |
| Matchers.NewRegexStringAcceptor | src/main/java/org/codekaizen/test/db/paramin/Matchers.java:69-71 | a string is accepted exactly when the pattern is found in it |
| Matchers.MinMaxIsHalfOpen | src/main/java/org/codekaizen/test/db/paramin/Matchers.java:57-61 | the minimum itself is accepted when below the maximum; the maximum never is |
| Matchers.EmptyRangeAcceptsNothing | src/main/java/org/codekaizen/test/db/paramin/Matchers.java:57-61 | a range whose minimum is not below its maximum accepts no value |
| Matchers.Verdict | src/main/java/org/codekaizen/test/db/paramin/Matchers.java:57-61 | a min/max matcher raises ClassCastException exactly when it compares a bound with a value of another class, the maximum only when the minimum did not already reject; any other matcher answers without raising |
| Matchers.SameKindBoundsNeverClash | src/main/java/org/codekaizen/test/db/paramin/Matchers.java:57-61 | bounds of the value's own class never raise, and the answer is the half-open range test |
| Matchers.CharRangeRejectsString | src/main/java/org/codekaizen/test/db/paramin/Matchers.java:59 | a character minimum asked about a string raises ClassCastException, whatever the maximum |
| Matchers.CharMaxRejectsString | src/main/java/org/codekaizen/test/db/paramin/Matchers.java:60 | with no minimum, a character maximum asked about a string raises ClassCastException |
| JoinPairs.New | src/main/java/org/codekaizen/test/db/paramin/JoinPair.java:32-37 | a pair is built exactly when both names are non-null and non-empty; the first name is checked first, null raising NullPointerException and "" IllegalArgumentException |
| JoinPairs.HashCode | src/main/java/org/codekaizen/test/db/paramin/JoinPair.java:57-59 | `Objects.hash(first, second)`: 961 + 31 * h1 + h2 over the names' `String.hashCode`, reduced once to a 32-bit int |
| JoinPairs.StringHash | src/main/java/org/codekaizen/test/db/paramin/JoinPair.java:57-59 | a name's `String.hashCode` is the documented polynomial s[0]*31^(n-1) + ... + s[n-1] over its UTF-16 code units, reduced to a 32-bit int |
| JoinPairs.UnitsHash | src/main/java/org/codekaizen/test/db/paramin/JoinPair.java:57-59 | the hash loop h = 31 * h + u over the code units, wrapping at every step, ends at the polynomial reduced once |
| JoinPairs.HashCodeIsPolynomial | src/main/java/org/codekaizen/test/db/paramin/JoinPair.java:57-59 | the pair hash is 961 + 31 * poly(first) + poly(second) over the exact name polynomials, reduced once to 32 bits |
| JoinPairs.ConstructionRoundTrip | src/main/java/org/codekaizen/test/db/paramin/JoinPair.java:32-45 | the getters give back the names the pair was built from, in order, and two pairs built from non-empty names are equal exactly when their names are equal in order |
| JoinPairs.EqualityIsStructural | src/main/java/org/codekaizen/test/db/paramin/JoinPair.java:48-59 | equals holds exactly for pairs with the same two names, and equal pairs hash alike |
| JoinPairs.HashOfShortNames | src/main/java/org/codekaizen/test/db/paramin/JoinPair.java:57-59 | `String.hashCode` of "a", "b" and "ab" is 97, 98 and 97 * 31 + 98 |
| JoinPairs.HashOfShortPair | src/main/java/org/codekaizen/test/db/paramin/JoinPair.java:57-59 | the hash of ("a", "b") is 31 * (31 + 97) + 98, as `Objects.hash` over `String.hashCode` gives |
| Databases.Ordinal | src/main/java/org/codekaizen/test/db/paramin/Database.java:30-39 | each constant has one position in the declaration order that values() returns |
| Databases.LookupFrom | src/main/java/org/codekaizen/test/db/paramin/Database.java:67-73 | trying the candidates in order yields the first whose pattern is found in the name, or DEFAULT when none is |
| Databases.Lookup | src/main/java/org/codekaizen/test/db/paramin/Database.java:66-74 | the product chosen is the first constant whose pattern is found in the name, or DEFAULT when none is |
| Databases.GetDatabaseForProductName | src/main/java/org/codekaizen/test/db/paramin/Database.java:64-75 | a null name, and only a null name, raises NullPointerException; otherwise the loop returns the first matching constant, or DEFAULT |
| Databases.LookupIsUnique | src/main/java/org/codekaizen/test/db/paramin/Database.java:64-75 | exactly one constant answers a name, so the loop and the specification agree |
| Databases.PrefixSelectsProduct | src/main/java/org/codekaizen/test/db/paramin/Database.java:30-39 | a name starting with one of a product's prefixes is that product when no earlier constant matches it |
| Databases.NoCapitalNMeansNoDefaultMatch | src/main/java/org/codekaizen/test/db/paramin/Database.java:31 | DEFAULT's unanchored pattern cannot match a name without a capital N |
| Databases.AnchoredMisses | src/main/java/org/codekaizen/test/db/paramin/Database.java:30-39 | an anchored product does not match a name that differs from each of its prefixes at some position |
| Databases.RecognisedByPrefix | src/main/java/org/codekaizen/test/db/paramin/Database.java:64-75 | a name without a capital N that starts with a product's prefix, and differs from every earlier product's prefixes, is that product |
| Databases.KnownDb2AndDerbyNames | src/test/java/org/codekaizen/test/db/paramin/DatabaseTest.java:40-43 | "DB2 UDB for AS/400" and "DB2/Linux" are DB2 and "Apache Derby" is DERBY |
| Databases.KnownH2Name | src/test/java/org/codekaizen/test/db/paramin/DatabaseTest.java:47 | "H2" is H2 |
| Databases.KnownHsqlName | src/test/java/org/codekaizen/test/db/paramin/DatabaseTest.java:46 | "HSQL Database Engine" is HSQL, not the earlier H2 |
| Databases.KnownMySqlNames | src/test/java/org/codekaizen/test/db/paramin/DatabaseTest.java:48-49 | "MariaDB" and "MySQL" are MYSQL |
| Databases.KnownOracleName | src/test/java/org/codekaizen/test/db/paramin/DatabaseTest.java:50 | "Oracle" is ORACLE |
| Databases.KnownPostgresNames | src/test/java/org/codekaizen/test/db/paramin/DatabaseTest.java:44-51 | "PostgreSQL" and "EnterpriseDB" are POSTGRESQL |
| Databases.KnownSqlServerName | src/test/java/org/codekaizen/test/db/paramin/DatabaseTest.java:52 | "Microsoft SQL Server" is SQL_SERVER |
| Databases.KnownSybaseName | src/test/java/org/codekaizen/test/db/paramin/DatabaseTest.java:53 | "Sybase SQL Server" is SYBASE |
| Databases.AdaptiveServerIsSybase | src/main/java/org/codekaizen/test/db/paramin/Database.java:39 | every name starting "Adaptive Server" is SYBASE |
| Databases.KnownAdaptiveServerNames | src/test/java/org/codekaizen/test/db/paramin/DatabaseTest.java:54-55 | both Adaptive Server editions are SYBASE |
| Databases.UnknownInitialMeansDefault | src/main/java/org/codekaizen/test/db/paramin/Database.java:64-75 | a name whose first character begins no prefix, and which has no capital N, falls back to DEFAULT |
| Databases.UnknownProductNames | src/test/java/org/codekaizen/test/db/paramin/DatabaseTest.java:42-56 | "CUBRID", "HDB" and "Informix Dynamic Server" fall back to DEFAULT |
| Databases.DefaultShadowsLaterProducts | src/main/java/org/codekaizen/test/db/paramin/Database.java:31-32 | DEFAULT is tried before DERBY and its pattern is unanchored, so a Derby name containing "Not Available" is DEFAULT |
| Databases.PlainTextIsCopied | src/main/java/org/codekaizen/test/db/paramin/Database.java:30-39 | formatting copies text without a format specifier unchanged |
| Databases.CountSlotIsReplaced | src/main/java/org/codekaizen/test/db/paramin/Database.java:30-38 | the %1$d slot is replaced by the decimal text of the count |
| Databases.KeywordSlotIsReplaced | src/main/java/org/codekaizen/test/db/paramin/Database.java:36 | the %2$s slot is replaced by the keyword, verbatim |
| Databases.CountOnlyTemplate | src/main/java/org/codekaizen/test/db/paramin/Database.java:30-38 | a template whose only slot is the count formats to its text with the count's digits in the slot |
| Databases.RowLimitText | src/main/java/org/codekaizen/test/db/paramin/Database.java:30-39 | the row-limit text of each product for a given count and keyword |
| Databases.RowLimitHoldsCount | src/test/java/org/codekaizen/test/db/paramin/DatabaseTest.java:64-77 | every product's limit clause contains the count, except SYBASE's, which is the only empty one |
| Databases.OracleRowLimit | src/main/java/org/codekaizen/test/db/paramin/Database.java:36 | ORACLE's clause puts the keyword before ROWNUM<= and the count |
| Tuples.New | src/main/java/org/codekaizen/test/db/paramin/Tuple.java:66-72 | a tuple is built exactly when both lists are non-null and equally long, holding both as given, null names included; a null list raises NullPointerException, the names checked first, and unequal lengths IllegalArgumentException |
| Tuples.SingleOf | src/main/java/org/codekaizen/test/db/paramin/Tuple.java:48-55 | a non-null, non-empty name gives a one-element tuple whose value under that name is the given value; null raises NullPointerException and "" IllegalArgumentException |
| Tuples.AddElement | src/main/java/org/codekaizen/test/db/paramin/Tuple.java:81-88 | the result is the tuple with the name and value appended and everything before unchanged; a null or empty name fails as in singleOf |
| Tuples.ContainsNullValue | src/main/java/org/codekaizen/test/db/paramin/Tuple.java:130-138 | the scan answers true exactly when some value is null |
| Tuples.IndexOf | src/main/java/org/codekaizen/test/db/paramin/Tuple.java:252-254 | the position of the first occurrence of the name, or -1 exactly when it is absent |
| Tuples.GetValueAt | src/main/java/org/codekaizen/test/db/paramin/Tuple.java:188-190 | the value at a position inside the tuple; any other index raises IndexOutOfBoundsException |
| Tuples.GetValue | src/main/java/org/codekaizen/test/db/paramin/Tuple.java:175-179 | a value is found exactly when the name, null included, is one of the tuple's names, and it is a value stored under that name; otherwise IllegalArgumentException |
| Tuples.ToMap | src/main/java/org/codekaizen/test/db/paramin/Tuple.java:211-217 | the map's keys are exactly the tuple's names |
| Tuples.ToMapKeepsLastValue | src/main/java/org/codekaizen/test/db/paramin/Tuple.java:211-217 | when a name repeats, the map keeps the value at its last position |
| Tuples.MapKeys | src/main/java/org/codekaizen/test/db/paramin/Tuple.java:212-216 | putting each name in turn gives a map whose keys are exactly the names |
| Tuples.MapLastWins | src/main/java/org/codekaizen/test/db/paramin/Tuple.java:212-216 | a later put of the same name overwrites an earlier one |
| Tuples.ToMapAgreesWithGetValue | src/main/java/org/codekaizen/test/db/paramin/Tuple.java:175-217 | with distinct names, lookup through toMap and through getValue agree |
| Tuples.AddAllBuildsConcatenation | src/main/java/org/codekaizen/test/db/paramin/Tuple.java:81-88 | repeated addElement with non-empty names succeeds and appends exactly the given names and values, in order |
| Tuples.TupleEqualityIsFieldwise | src/main/java/org/codekaizen/test/db/paramin/Tuple.java:230-241 | two tuples are equal exactly when their names and values are |
| Conditions.New | src/main/java/org/codekaizen/test/db/paramin/Condition.java:42-48 | a condition is built exactly when column and operator are non-null, holding all three parts as given; otherwise NullPointerException |
| Conditions.FormatValue | src/main/java/org/codekaizen/test/db/paramin/Condition.java:108-116 | a string without both parentheses is single-quoted; one with both is written verbatim; anything else is its string form |
| Conditions.FormatAll | src/main/java/org/codekaizen/test/db/paramin/Condition.java:99-100 | each collection element is formatted on its own, in order |
| Conditions.ToString | src/main/java/org/codekaizen/test/db/paramin/Condition.java:93-106 | the text starts with the column, then the operator's SQL string, then NULL for a null value or a parenthesised comma-separated list for a collection |
| Conditions.PlainStringIsQuoted | src/main/java/org/codekaizen/test/db/paramin/Condition.java:108-116 | a plain string value appears in single quotes right after the operator |
| Conditions.FunctionCallIsVerbatim | src/main/java/org/codekaizen/test/db/paramin/Condition.java:110-119 | a value containing both parentheses is written as is, unquoted |
| Conditions.NumbersAndBooleansAreUnquoted | src/main/java/org/codekaizen/test/db/paramin/Condition.java:112-114 | numeric and boolean values add no quote character |
| Conditions.OperatorHasNoQuote | src/main/java/org/codekaizen/test/db/paramin/Operator.java:25-35 | no operator spelling contains a quote |
| Conditions.CollectionIsRenderedElementwise | src/main/java/org/codekaizen/test/db/paramin/Condition.java:98-101 | a collection is rendered as "(" then its formatted elements joined by "," then ")" |
| Conditions.EqualConditionsRenderAlike | src/main/java/org/codekaizen/test/db/paramin/Condition.java:78-106 | conditions equal field by field are equal and render to the same text |
| Conditions.OperatorIsRecoverable | src/main/java/org/codekaizen/test/db/paramin/Condition.java:93-95 | the operator can be read back from the text between the column and the operand |
| JdbcTypes.SqlTypeFor | src/main/java/org/codekaizen/test/db/paramin/ParamSpec.java:67-85 | each of the eight supported classes gets its own JDBC type, read back by the reverse mapping; any other class raises IllegalArgumentException |
| JdbcTypes.SqlTypeForIsInjective | src/main/java/org/codekaizen/test/db/paramin/ParamSpec.java:67-85 | no two supported classes share a JDBC type |
| Specs.NewBuilder | src/main/java/org/codekaizen/test/db/paramin/ParamSpec.java:44-86 | a null class raises NullPointerException; a supported class starts a builder with its JDBC type, no table, no column, no conditions and the accept-all matcher; any other class raises IllegalArgumentException |
| Specs.SetCatalog | src/main/java/org/codekaizen/test/db/paramin/ParamSpec.java:88-91 | the catalog is absent exactly when null or "" was given, and nothing else changes |
| Specs.SetSchema | src/main/java/org/codekaizen/test/db/paramin/ParamSpec.java:93-96 | the schema is absent exactly when null or "" was given, and nothing else changes |
| Specs.SetTable | src/main/java/org/codekaizen/test/db/paramin/ParamSpec.java:98-102 | the table is set exactly when it is non-null and non-empty, and nothing else changes; otherwise IllegalArgumentException |
| Specs.SetColumn | src/main/java/org/codekaizen/test/db/paramin/ParamSpec.java:104-108 | the column is set exactly when it is non-null and non-empty, and nothing else changes; otherwise IllegalArgumentException |
| Specs.AddWhere | src/main/java/org/codekaizen/test/db/paramin/ParamSpec.java:110-113 | one static condition is added after the earlier ones, and nothing else changes |
| Specs.SetMatcher | src/main/java/org/codekaizen/test/db/paramin/ParamSpec.java:115-119 | a non-null matcher replaces the current one and nothing else changes; null raises NullPointerException |
| Specs.Build | src/main/java/org/codekaizen/test/db/paramin/ParamSpec.java:128-155 | a spec is built exactly when table and column are set and non-empty, carrying every builder field over; otherwise IllegalArgumentException |
| Specs.IsAcceptableValue | src/main/java/org/codekaizen/test/db/paramin/ParamSpec.java:185-188 | null raises NullPointerException; a value the matcher compares across classes raises ClassCastException; any other value gets the matcher's verdict, always true for the default matcher |
| Specs.EqualityIgnoresMatcher | src/main/java/org/codekaizen/test/db/paramin/ParamSpec.java:191-202 | equals is reflexive, symmetric and transitive, and two specs differing only in the matcher are equal |
| Specs.BuildAfterSetters | src/main/java/org/codekaizen/test/db/paramin/ParamSpec.java:44-155 | builder, setTable, setColumn and build give a spec with that table and column which accepts every non-null value and rejects null with NullPointerException |
| Requirements.NewBuilder | src/main/java/org/codekaizen/test/db/paramin/ParamRequirement.java:44-86 | a null class raises NullPointerException; a supported class starts a builder with its JDBC type and nothing else set; any other class raises IllegalArgumentException |
| Requirements.SetCatalog | src/main/java/org/codekaizen/test/db/paramin/ParamRequirement.java:88-91 | the catalog is absent exactly when null or "" was given, and nothing else changes |
| Requirements.SetSchema | src/main/java/org/codekaizen/test/db/paramin/ParamRequirement.java:93-96 | the schema is absent exactly when null or "" was given, and nothing else changes |
| Requirements.SetTable | src/main/java/org/codekaizen/test/db/paramin/ParamRequirement.java:98-102 | the table is set exactly when it is non-null and non-empty, and nothing else changes; otherwise IllegalArgumentException |
| Requirements.SetColumn | src/main/java/org/codekaizen/test/db/paramin/ParamRequirement.java:104-108 | the column is set exactly when it is non-null and non-empty, and nothing else changes; otherwise IllegalArgumentException |
| Requirements.SetWhere | src/main/java/org/codekaizen/test/db/paramin/ParamRequirement.java:110-113 | the where clause is absent exactly when null or "" was given, and nothing else changes |
| Requirements.SetAcceptor | src/main/java/org/codekaizen/test/db/paramin/ParamRequirement.java:115-119 | a non-null acceptor replaces the current one and nothing else changes; null raises NullPointerException |
| Requirements.Build | src/main/java/org/codekaizen/test/db/paramin/ParamRequirement.java:128-155 | a requirement is built exactly when table and column are set and non-empty, carrying every builder field over; otherwise IllegalArgumentException |
| Requirements.IsAcceptableValue | src/main/java/org/codekaizen/test/db/paramin/ParamRequirement.java:185-188 | null raises NullPointerException; any other value gets the acceptor's verdict |
| Requirements.EqualitySeesWhereNotAcceptor | src/main/java/org/codekaizen/test/db/paramin/ParamRequirement.java:191-202 | equals is an equivalence that ignores the acceptor but tells apart different where clauses |
| Requirements.EmptyWhereClears | src/main/java/org/codekaizen/test/db/paramin/ParamRequirement.java:110-113 | setting the where clause to "" clears whatever was set before, and the built requirement has none |
| InRequirements.NewBuilder | src/main/java/org/codekaizen/test/db/paramin/InParamRequirement.java:47-91 | a null class raises NullPointerException; a supported class starts a builder with its JDBC type, no bounds, no listed values and the accept-non-null acceptor; any other class raises IllegalArgumentException |
| InRequirements.SetCatalog | src/main/java/org/codekaizen/test/db/paramin/InParamRequirement.java:93-96 | the catalog is absent exactly when null or "" was given, and nothing else changes |
| InRequirements.SetSchema | src/main/java/org/codekaizen/test/db/paramin/InParamRequirement.java:98-101 | the schema is absent exactly when null or "" was given, and nothing else changes |
| InRequirements.SetTable | src/main/java/org/codekaizen/test/db/paramin/InParamRequirement.java:103-107 | the table is set exactly when it is non-null and non-empty, and nothing else changes; otherwise IllegalArgumentException |
| InRequirements.SetColumn | src/main/java/org/codekaizen/test/db/paramin/InParamRequirement.java:109-113 | the column is set exactly when it is non-null and non-empty, and nothing else changes; otherwise IllegalArgumentException |
| InRequirements.SetRange | src/main/java/org/codekaizen/test/db/paramin/InParamRequirement.java:115-123 | both bounds are stored as given, null included, and nothing else changes |
| InRequirements.AddAcceptableValue | src/main/java/org/codekaizen/test/db/paramin/InParamRequirement.java:125-129 | a non-null value is appended to the list and nothing else changes; null raises NullPointerException |
| InRequirements.SetAcceptor | src/main/java/org/codekaizen/test/db/paramin/InParamRequirement.java:131-135 | a non-null acceptor replaces the current one and nothing else changes; null raises NullPointerException |
| InRequirements.Build | src/main/java/org/codekaizen/test/db/paramin/InParamRequirement.java:137-170 | a requirement is built exactly when table and column are set and non-empty, carrying every builder field over; otherwise IllegalArgumentException |
| InRequirements.IsAcceptableValue | src/main/java/org/codekaizen/test/db/paramin/InParamRequirement.java:208-228 | null raises NullPointerException; otherwise the answer is the list-or-range verdict and the acceptor's, and the acceptor is consulted exactly when the first verdict is true |
| InRequirements.ListOverridesRange | src/main/java/org/codekaizen/test/db/paramin/InParamRequirement.java:211-213 | a non-empty list decides by membership alone and the bounds play no part |
| InRequirements.RangeIsInclusiveUnlikeMatcher | src/main/java/org/codekaizen/test/db/paramin/InParamRequirement.java:215-219 | both bounds of a requirement's range are accepted, while the matcher's maximum is not |
| InRequirements.RangeVerdict | src/main/java/org/codekaizen/test/db/paramin/InParamRequirement.java:213-220 | without a list, a value passes the range exactly when it is at least the minimum and at most the maximum, a null bound not restricting |
| InRequirements.EqualRequirementsAgreeBeforeAcceptor | src/main/java/org/codekaizen/test/db/paramin/InParamRequirement.java:231-244 | requirements that equals cannot tell apart reach the same verdict before the acceptor, and equals ignores the acceptor |
| Chains.Create | src/main/java/org/codekaizen/test/db/paramin/ParamSpecs.java:41-55 | a non-null spec starts a well-formed chain of that one spec with no schema; null raises NullPointerException |
| Chains.Join | src/main/java/org/codekaizen/test/db/paramin/ParamSpecs.java:65-72 | a non-null spec with at least one join pair is appended after the others, keeping the chain well-formed; a null spec raises NullPointerException, no pairs IllegalArgumentException |
| Chains.SetSchema | src/main/java/org/codekaizen/test/db/paramin/ParamSpecs.java:88-90 | the chain's schema is absent exactly when null or "" was given, and the nodes are unchanged |
| Chains.GetParamSpecs | src/main/java/org/codekaizen/test/db/paramin/ParamSpecs.java:97-105 | the walk from the first node returns every spec of the chain, in chain order |
| Chains.JoinsGrowTheChain | src/main/java/org/codekaizen/test/db/paramin/ParamSpecs.java:41-72 | create and a series of joins with pairs give a well-formed chain of the first spec followed by the joined specs, in order |
| Chains.Alias | src/main/java/org/codekaizen/test/db/paramin/ParamSpecs.java:120-146 | node i is aliased by the single character 'a' + i |
| Chains.TableName | src/main/java/org/codekaizen/test/db/paramin/ParamSpecs.java:158-169 | the name is the lower-cased table, preceded by the lower-cased schema (the spec's own, else the chain's) and a dot exactly when that schema is not blank |
| Chains.Target | src/main/java/org/codekaizen/test/db/paramin/ParamSpecs.java:139-141 | the index of the first node whose spec equals the target, or the chain length when none does |
| Chains.TargetFrom | src/main/java/org/codekaizen/test/db/paramin/ParamSpecs.java:139-141 | the first index from a given one on whose spec equals the target |
| Chains.Visited | src/main/java/org/codekaizen/test/db/paramin/ParamSpecs.java:121-147 | the walk visits no more nodes than the chain has |
| Chains.OnTerms | src/main/java/org/codekaizen/test/db/paramin/ParamSpecs.java:130-136 | one ON term per join pair, in the pairs' order |
| Chains.FromClause | src/main/java/org/codekaizen/test/db/paramin/ParamSpecs.java:123-137 | the FROM text is empty exactly before the first node is visited |
| Chains.StaticParts | src/main/java/org/codekaizen/test/db/paramin/ParamSpecs.java:138 | one WHERE fragment per static condition of the node, in order |
| Chains.NodePartsShape | src/main/java/org/codekaizen/test/db/paramin/ParamSpecs.java:138-144 | a node adds one fragment per static condition, plus one placeholder unless it is the target, all tagged with that node |
| Chains.PartTexts | src/main/java/org/codekaizen/test/db/paramin/ParamSpecs.java:138-143 | one text per fragment |
| Chains.Columns | src/main/java/org/codekaizen/test/db/paramin/ParamSpecs.java:116-140 | the select list holds at most one column |
| Chains.GetSqlStatement | src/main/java/org/codekaizen/test/db/paramin/ParamSpecs.java:114-156 | a null spec raises NullPointerException; otherwise the loop builds exactly the statement that the chain and the target define |
| Chains.Walk | src/main/java/org/codekaizen/test/db/paramin/ParamSpecs.java:119-147 | the loop's select list, FROM text and WHERE fragments are those of the nodes up to and including the target |
| Chains.VisitNode | src/main/java/org/codekaizen/test/db/paramin/ParamSpecs.java:122-146 | one turn adds node i's table and fragments, and yields the select column exactly when node i is the target |
| Chains.AppendTable | src/main/java/org/codekaizen/test/db/paramin/ParamSpecs.java:123-137 | the first node adds its bare table and alias; every later node adds an INNER JOIN with its ON terms |
| Chains.AppendOnTerms | src/main/java/org/codekaizen/test/db/paramin/ParamSpecs.java:130-136 | the inner loop writes the ON terms separated by " AND " |
| Chains.AppendStatics | src/main/java/org/codekaizen/test/db/paramin/ParamSpecs.java:138 | each static condition is added after the earlier fragments, prefixed by the node's alias |
| Chains.TargetFound | src/main/java/org/codekaizen/test/db/paramin/ParamSpecs.java:139-141 | a node equal to the target ends the walk there and becomes the select column |
| Chains.TargetAbsent | src/main/java/org/codekaizen/test/db/paramin/ParamSpecs.java:121 | without a target the walk visits every node and selects nothing |
| Chains.TargetNotYet | src/main/java/org/codekaizen/test/db/paramin/ParamSpecs.java:142-144 | a node not equal to the target lies before it |
| Chains.NodePartsText | src/main/java/org/codekaizen/test/db/paramin/ParamSpecs.java:138-144 | visiting node i appends the texts of its fragments to the earlier ones |
| Chains.PlaceholdersConcat | src/main/java/org/codekaizen/test/db/paramin/ParamSpecs.java:143 | the placeholders of a concatenation are those of each part, in order |
| Chains.StaticsHaveNoPlaceholder | src/main/java/org/codekaizen/test/db/paramin/ParamSpecs.java:138 | static conditions add no placeholder |
| Chains.PlaceholdersOf | src/main/java/org/codekaizen/test/db/paramin/ParamSpecs.java:143 | one placeholder for each of the first k nodes |
| Chains.PlaceholdersBeforeTarget | src/main/java/org/codekaizen/test/db/paramin/ParamSpecs.java:138-144 | before the target, the walk has added one placeholder per node, in chain order |
| Chains.PlaceholdersAreEarlierNodes | src/main/java/org/codekaizen/test/db/paramin/ParamSpecs.java:138-144 | the placeholders of the statement are exactly one per node before the target, in chain order |
| Chains.PlaceholderCountIsTarget | src/main/java/org/codekaizen/test/db/paramin/ParamSpecs.java:138-144 | the statement has as many "= ?" placeholders as there are nodes before the target |
| Chains.TargetAddsNoPlaceholder | src/main/java/org/codekaizen/test/db/paramin/ParamSpecs.java:139-141 | the target adds its static conditions but no placeholder |
| Chains.StaticConditionsOfVisitedNodes | src/main/java/org/codekaizen/test/db/paramin/ParamSpecs.java:138 | every static condition of every visited node is among the WHERE fragments |
| Chains.PartsComeFromVisitedNodes | src/main/java/org/codekaizen/test/db/paramin/ParamSpecs.java:121-147 | every fragment comes from a visited node |
| Chains.PartsEmpty | src/main/java/org/codekaizen/test/db/paramin/ParamSpecs.java:138-144 | there is no fragment exactly when every visited node is the target and has no static condition |
| Chains.WhereIffFragments | src/main/java/org/codekaizen/test/db/paramin/ParamSpecs.java:150-152 | WHERE is written exactly when the target is not the first node or some visited node has a static condition |
| Chains.SelectListIsTargetColumn | src/main/java/org/codekaizen/test/db/paramin/ParamSpecs.java:139-149 | when a node equals the target, the statement starts "SELECT " with that node's alias and lower-cased column, then " FROM " |
| Chains.StatementPrefix | src/main/java/org/codekaizen/test/db/paramin/ParamSpecs.java:148-149 | the statement begins with SELECT, the select list and FROM |
| Chains.NoTargetSelectsNothing | src/main/java/org/codekaizen/test/db/paramin/ParamSpecs.java:116-149 | when no node equals the target, the walk visits every node and the statement starts "SELECT  FROM " |
| Values.CompareReflexive | src/main/java/org/codekaizen/test/db/paramin/Matchers.java:59-60 | every value compares equal to itself under compareTo |
| Values.CompareAntisymmetric | src/main/java/org/codekaizen/test/db/paramin/Matchers.java:59-60 | swapping the operands of compareTo flips the sign |
| Values.CompareTransitive | src/main/java/org/codekaizen/test/db/paramin/InParamRequirement.java:215-219 | compareTo is a total preorder: "at most" chains, and one strict link makes the whole chain strict |
| Values.CompareZeroIsEqualityExceptDecimal | src/main/java/org/codekaizen/test/db/paramin/InParamRequirement.java:211-219 | outside BigDecimal, compareTo answers 0 exactly for equal values, so list membership and range bounds agree |
| Values.DecimalScaleIsNotIdentity | src/main/java/org/codekaizen/test/db/paramin/InParamRequirement.java:211-219 | 8.0 and 8.00 compare equal but are not equal, so a listed BigDecimal and a range bound can disagree |
| Values.StringsCompareByCodeUnits | src/main/java/org/codekaizen/test/db/paramin/InParamRequirement.java:211-219 | strings compare by UTF-16 code unit: U+10000 sorts before U+FFFF though its code point is larger |
| Values.IntToString | src/main/java/org/codekaizen/test/db/paramin/Condition.java:113 | the decimal text of an integer: digits, with a leading minus sign exactly for negative numbers |
| Values.NatToStringRoundTrip | src/main/java/org/codekaizen/test/db/paramin/Condition.java:113 | the digits of a natural number read back as that number, and only zero starts with 0 |
| Values.IntToStringRoundTrip | src/main/java/org/codekaizen/test/db/paramin/Condition.java:113 | the text of an `int` or `long` parses back to it |
| Values.DecimalToString | src/main/java/org/codekaizen/test/db/paramin/Condition.java:113 | `BigDecimal.toString`: a minus sign exactly for negative values, and an exponent exactly when the scale is negative or the adjusted exponent is below -6 |
| Values.DecimalToStringRoundTrip | src/main/java/org/codekaizen/test/db/paramin/Condition.java:113 | reading the text back as `new BigDecimal(String)` gives the same unscaled value and the same scale |
| Values.PlainDecimalExample | src/main/java/org/codekaizen/test/db/paramin/Condition.java:113 | 1 at scale 6 prints as 0.000001 |
| Values.SmallDecimalExample | src/main/java/org/codekaizen/test/db/paramin/Condition.java:113 | 1 at scale 7 prints as 1E-7 |
| Values.NegativeScaleExample | src/main/java/org/codekaizen/test/db/paramin/Condition.java:113 | -123 at scale -2 prints as -1.23E+4 |
| Values.NumbersAndBooleansHaveNoQuote | src/main/java/org/codekaizen/test/db/paramin/Condition.java:112-114 | numbers and booleans print without a quote character |
| Text.JoinSnoc | src/main/java/org/codekaizen/test/db/paramin/ParamSpecs.java:116-118 | adding a part to a non-empty joiner puts the separator before it; the first part goes in alone |
| Text.JoinEmpty | src/main/java/org/codekaizen/test/db/paramin/ParamSpecs.java:150 | the joined text is empty exactly when nothing or one empty part was added |
| Text.ToLower | src/main/java/org/codekaizen/test/db/paramin/ParamSpecs.java:140-168 | lower-casing keeps the length |
| Text.ToLowerConcat | src/main/java/org/codekaizen/test/db/paramin/ParamSpecs.java:162-168 | lower-casing the schema, the dot and the table together equals lower-casing each part |
| Text.ToLowerIsLower | src/main/java/org/codekaizen/test/db/paramin/ParamSpecs.java:168 | the result has no upper-case letter, keeps every other character, and lower-casing it again changes nothing |
| Text.CharUnits | src/main/java/org/codekaizen/test/db/paramin/JoinPair.java:57-59 | a character is one code unit below 0x10000, otherwise a high then a low surrogate that decode back to it |
| Text.Utf16Injective | src/main/java/org/codekaizen/test/db/paramin/InParamRequirement.java:211-219 | distinct strings have distinct code-unit sequences, so comparing code units loses nothing |
| Flow.Broadcast | src/main/java/org/codekaizen/test/db/paramin/SqlQueryProcessor.java:116 | every subscriber, and no one else, receives the signal |
| Flow.Acquire | src/main/java/org/codekaizen/test/db/paramin/DefaultFindParametersTask.java:102-103 | an interrupted caller gets InterruptedException; otherwise the caller waits exactly when no permit is free, and takes one when it is |
| Flow.RequestsConcat | src/main/java/org/codekaizen/test/db/paramin/DefaultFindParametersTask.java:125 | the requests sent over two runs add up |
| QueryProcessors.New | src/main/java/org/codekaizen/test/db/paramin/SqlQueryProcessor.java:45-50 | a stage is built exactly when both spec and statement are non-null, with no subscription and no subscribers; otherwise NullPointerException |
| QueryProcessors.RetrieveValue | src/main/java/org/codekaizen/test/db/paramin/SqlQueryProcessor.java:86-112 | SQL NULL reads as null except for INTEGER, BIGINT and BOOLEAN, which read 0, 0 and false; the typed getters pass the cell through; every other type reads the cell's string form |
| QueryProcessors.FirstDecisiveFrom | src/main/java/org/codekaizen/test/db/paramin/SqlQueryProcessor.java:71-78 | the first row from a given one on whose value is null, makes the matcher compare across classes, or is acceptable, or the end |
| QueryProcessors.FirstDecisive | src/main/java/org/codekaizen/test/db/paramin/SqlQueryProcessor.java:71-78 | the first row whose value is null, makes the matcher compare across classes, or is acceptable, or the end |
| QueryProcessors.OnNext | src/main/java/org/codekaizen/test/db/paramin/SqlQueryProcessor.java:64-84 | the loop produces the signals the loop-free description gives, in order: nothing for an input holding a null; otherwise at most a forwarded tuple followed by an error, and an error follows a tuple only when closing the result set failed |
| QueryProcessors.ForwardedTupleExtendsInput | src/main/java/org/codekaizen/test/db/paramin/SqlQueryProcessor.java:71-77 | a forwarded tuple is the null-free input plus the stage's column and the first acceptable value read, every earlier row being a non-null, unacceptable value of the matcher's class |
| QueryProcessors.ErrorMeansNoRowStopped | src/main/java/org/codekaizen/test/db/paramin/SqlQueryProcessor.java:70-83 | an error as the only signal comes only when no row was null, of the wrong class or acceptable, and carries the reading SQLException, else the one from closing the result set |
| QueryProcessors.CloseFailureFollowsTuple | src/main/java/org/codekaizen/test/db/paramin/SqlQueryProcessor.java:70-82 | after a forwarded tuple, an error signal follows exactly when closing the result set raises SQLException, carrying that exception |
| QueryProcessors.SilentOnlyWhenNothingFound | src/main/java/org/codekaizen/test/db/paramin/SqlQueryProcessor.java:64-84 | nothing is broadcast exactly when the input holds a null, or no row was null, of the wrong class or acceptable and neither reading nor closing failed |
| QueryProcessors.NullCellRaises | src/main/java/org/codekaizen/test/db/paramin/SqlQueryProcessor.java:72-73 | NullPointerException escapes exactly when a null is read before any acceptable value; INTEGER, BIGINT and BOOLEAN columns never raise it |
| QueryProcessors.ClashRaises | src/main/java/org/codekaizen/test/db/paramin/SqlQueryProcessor.java:72-73 | ClassCastException escapes exactly when the first row that stops the scan is a value the matcher compares across classes |
| QueryProcessors.CharacterRangeRaisesOnFirstRow | src/main/java/org/codekaizen/test/db/paramin/SqlQueryProcessor.java:72-108 | a Character spec, whose cells are read with getString, with a character minimum raises ClassCastException on the first non-null row |
| QueryProcessors.Subscribe | src/main/java/org/codekaizen/test/db/paramin/SqlQueryProcessor.java:53-56 | the subscriber joins the set, nothing else changes, and it is handed this stage as its subscription |
| QueryProcessors.OnSubscribe | src/main/java/org/codekaizen/test/db/paramin/SqlQueryProcessor.java:59-61 | the subscription is remembered and nothing else changes |
| QueryProcessors.Request | src/main/java/org/codekaizen/test/db/paramin/SqlQueryProcessor.java:125-129 | demand is forwarded unchanged to the subscription exactly when there is one |
| QueryProcessors.Cancel | src/main/java/org/codekaizen/test/db/paramin/SqlQueryProcessor.java:132-136 | cancellation is forwarded to the subscription exactly when there is one |
| QueryProcessors.OnError | src/main/java/org/codekaizen/test/db/paramin/SqlQueryProcessor.java:115-117 | every subscriber, and no one else, receives the error |
| QueryProcessors.OnComplete | src/main/java/org/codekaizen/test/db/paramin/SqlQueryProcessor.java:120-122 | every subscriber, and no one else, receives completion |
| QueryProcessors.SubscribersReceiveBroadcasts | src/main/java/org/codekaizen/test/db/paramin/SqlQueryProcessor.java:43-56 | a subscriber receives every later broadcast, and subscribing twice changes nothing more |
| QueryProcessors.UpstreamFollowsOnSubscribe | src/main/java/org/codekaizen/test/db/paramin/SqlQueryProcessor.java:59-136 | after onSubscribe, request and cancel reach the subscription handed over; without one they are no-ops |
| Pipelines.ConfigureProcessingFlow | src/main/java/org/codekaizen/test/db/paramin/DefaultTupleSetRetriever.java:147-166 | no connection raises NullPointerException, a failing prepare raises IllegalStateException wrapping the SQLException, and otherwise stage i holds spec i with the statement the chain generates for it, is subscribed to stage i - 1 and has stage i + 1 as its only subscriber |
| Pipelines.SubscribeRetriever | src/main/java/org/codekaizen/test/db/paramin/DefaultTupleSetRetriever.java:81 | the last stage gains the retriever as subscriber and hands itself over as the subscription; earlier stages are untouched |
| Pipelines.WiredChainLinksNeighbours | src/main/java/org/codekaizen/test/db/paramin/DefaultFindParametersTask.java:182-201 | in a wired chain a stage's request and cancel go to the stage before it, completion goes to the stage after it, and the first stage has nobody upstream |
| FindTasks.New | src/main/java/org/codekaizen/test/db/paramin/DefaultFindParametersTask.java:67-78 | a null chain raises NullPointerException, a size of zero or less IllegalArgumentException; otherwise the finder starts empty, with no requests counted and its invariant holding |
| FindTasks.Close | src/main/java/org/codekaizen/test/db/paramin/DefaultFindParametersTask.java:167-172 | closing only clears the initialized flag: results, permits, counters and subscription survive |
| FindTasks.Initialize | src/main/java/org/codekaizen/test/db/paramin/DefaultFindParametersTask.java:91-96 | a missing connection raises NullPointerException; otherwise the finder is closed and holds the new connection |
| FindTasks.CleanupFlow | src/main/java/org/codekaizen/test/db/paramin/DefaultFindParametersTask.java:207-210 | exactly one permit comes back and the finder is closed; nothing else changes |
| FindTasks.OnSubscribeRaising | src/main/java/org/codekaizen/test/db/paramin/DefaultFindParametersTask.java:99-110 | the subscription is always stored; with a permit one is taken, one request is counted and sent (NullPointerException for a null subscription); without one the call waits; an interrupt raises the given exception |
| FindTasks.OnSubscribeAsWritten | src/main/java/org/codekaizen/test/db/paramin/DefaultFindParametersTask.java:104-107 | as written, an interrupted acquire ends in the exception `notify()` raises outside the monitor; otherwise it behaves as the corrected handler |
| FindTasks.OnSubscribe | src/main/java/org/codekaizen/test/db/paramin/DefaultFindParametersTask.java:99-110 | as intended, an interrupted acquire raises IllegalStateException wrapping the interrupt and sends nothing |
| FindTasks.OnError | src/main/java/org/codekaizen/test/db/paramin/DefaultFindParametersTask.java:133-144 | the flow is cleaned up; an Error or unchecked exception is rethrown as is, anything else is wrapped in IllegalStateException |
| FindTasks.OnComplete | src/main/java/org/codekaizen/test/db/paramin/DefaultFindParametersTask.java:147-150 | completion gives one permit back and closes the finder, keeping the results and sending nothing |
| FindTasks.OnNext | src/main/java/org/codekaizen/test/db/paramin/DefaultFindParametersTask.java:113-130 | the delivered tuple joins the ordered result set, which keeps its first-arrival order; size and chain are unchanged |
| Values.Wrap32 | src/main/java/org/codekaizen/test/db/paramin/DefaultFindParametersTask.java:120 | a Java int product is the mathematical one reduced into the 32-bit range, congruent modulo 2^32 |
| FindTasks.OnNextAsWritten | src/main/java/org/codekaizen/test/db/paramin/DefaultFindParametersTask.java:120 | the handler as written, with a wrapping budget, agrees with the corrected one whenever the budget fits in an int |
| FindTasks.OnNextReactions | src/main/java/org/codekaizen/test/db/paramin/DefaultFindParametersTask.java:117-129 | a full set cancels and cleans up; a short set past the budget cancels, gives the permit back and raises IllegalStateException; otherwise one more request is counted and sent |
| FindTasks.DuplicateDoesNotGrow | src/main/java/org/codekaizen/test/db/paramin/DefaultFindParametersTask.java:115 | a tuple already collected leaves the result set as it was but still spends a request |
| FindTasks.OnSubscribeKeepsInv | src/main/java/org/codekaizen/test/db/paramin/DefaultFindParametersTask.java:99-110 | the first subscription keeps the finder invariant and the request counter matches the requests sent |
| FindTasks.OnNextKeepsInv | src/main/java/org/codekaizen/test/db/paramin/DefaultFindParametersTask.java:113-130 | while the set is short, a delivery keeps the result set distinct and bounded and counts every request it sends |
| FindTasks.FeedCountsRequests | src/main/java/org/codekaizen/test/db/paramin/DefaultFindParametersTask.java:108-129 | across any run of deliveries the counter equals the requests actually sent, which never exceed the budget plus the first one |
| FindTasks.FeedEndsWithinBudget | src/main/java/org/codekaizen/test/db/paramin/DefaultFindParametersTask.java:117-125 | whatever the upstream delivers, enough deliveries always end in a cancel: the finder cannot request forever |
| FindTasks.FeedEnds | src/main/java/org/codekaizen/test/db/paramin/DefaultFindParametersTask.java:113-130 | a run without cancel keeps the permit and holds exactly the tuples delivered, first arrival first; a cancel gives the permit back and either returns a full set or raises IllegalStateException for a short one |
| FindTasks.EndOfFlowWakesCall | src/main/java/org/codekaizen/test/db/paramin/DefaultFindParametersTask.java:153-164 | a call waiting for the permit is woken by a cancelling delivery, by completion and by an error |
| FindTasks.GivesUpOnlyPastBudget | src/main/java/org/codekaizen/test/db/paramin/DefaultFindParametersTask.java:120-125 | the finder gives up exactly when the set is still short and more than desiredSize * 4 requests were made |
| FindTasks.OverflowGivesUpAtOnce | src/main/java/org/codekaizen/test/db/paramin/DefaultFindParametersTask.java:120 | with desiredSize 2^29 the product as written wraps to Integer.MIN_VALUE and the first delivery gives up, where the intended budget asks for another tuple |
| FindTasks.InterruptRaisesMonitorState | src/main/java/org/codekaizen/test/db/paramin/DefaultFindParametersTask.java:104-107 | as written an interrupted subscription raises IllegalMonitorStateException, not the IllegalStateException the code builds |
| FindTasks.Collect | src/main/java/org/codekaizen/test/db/paramin/DefaultFindParametersTask.java:157-163 | the result set is returned exactly when a permit is free and the wait is not interrupted; without a permit the call waits; an interrupt raises InterruptedException; nothing changes |
| FindTasks.Call | src/main/java/org/codekaizen/test/db/paramin/DefaultFindParametersTask.java:153-180 | a first call without a connection raises NullPointerException and a failing prepare IllegalStateException; an interrupted wait for the permit raises IllegalStateException wrapping InterruptedException; otherwise the chain is wired, the finder subscribes, takes the permit, sends the first request and waits; later calls only collect |
| SetRetrievers.New | src/main/java/org/codekaizen/test/db/paramin/DefaultTupleSetRetriever.java:56-63 | a null chain raises NullPointerException, a size of zero or less IllegalArgumentException; otherwise the retriever starts empty with one permit |
| SetRetrievers.Close | src/main/java/org/codekaizen/test/db/paramin/DefaultTupleSetRetriever.java:140-145 | closing only clears the initialized flag: results, permits and subscription survive |
| SetRetrievers.OnSubscribeRaising | src/main/java/org/codekaizen/test/db/paramin/DefaultTupleSetRetriever.java:86-96 | the subscription is always stored; with a permit one is taken and one request sent (NullPointerException for a null subscription); without one the call waits; an interrupt raises the given exception |
| SetRetrievers.OnSubscribeAsWritten | src/main/java/org/codekaizen/test/db/paramin/DefaultTupleSetRetriever.java:91-94 | as written, an interrupted acquire ends in the exception `notify()` raises outside the monitor; otherwise it behaves as the corrected handler |
| SetRetrievers.OnSubscribe | src/main/java/org/codekaizen/test/db/paramin/DefaultTupleSetRetriever.java:86-96 | as intended, an interrupted acquire raises IllegalStateException wrapping the interrupt and sends nothing |
| SetRetrievers.OnNext | src/main/java/org/codekaizen/test/db/paramin/DefaultTupleSetRetriever.java:99-109 | the delivered tuple joins the ordered result set; size and initialization are unchanged |
| SetRetrievers.OnError | src/main/java/org/codekaizen/test/db/paramin/DefaultTupleSetRetriever.java:111-118 | an error gives one permit back, closes the retriever, keeps the results and is always wrapped in IllegalStateException |
| SetRetrievers.OnComplete | src/main/java/org/codekaizen/test/db/paramin/DefaultTupleSetRetriever.java:120-125 | completion gives one permit back and closes the retriever, keeping the results |
| SetRetrievers.Call | src/main/java/org/codekaizen/test/db/paramin/DefaultTupleSetRetriever.java:127-138 | an uninitialized retriever raises IllegalArgumentException; otherwise the results are returned exactly when a permit is free, the call waits without one and an interrupt raises InterruptedException; nothing changes |
| SetRetrievers.Initialize | src/main/java/org/codekaizen/test/db/paramin/DefaultTupleSetRetriever.java:76-83 | a missing connection raises NullPointerException; a failing prepare leaves the retriever closed with the new connection and raises IllegalStateException; an interrupted wait for the permit raises IllegalStateException wrapping InterruptedException; otherwise it is initialized with a stage per spec, subscribed to the last, holding the permit and having sent one request |
| SetRetrievers.OnNextReactions | src/main/java/org/codekaizen/test/db/paramin/DefaultTupleSetRetriever.java:103-108 | a subscribed retriever never raises on a delivery: it cancels exactly when the set is full, giving the permit back, and otherwise requests exactly one more |
| SetRetrievers.OnNextKeepsInv | src/main/java/org/codekaizen/test/db/paramin/DefaultTupleSetRetriever.java:99-109 | while the set is short, a delivery keeps it distinct and no larger than asked for |
| SetRetrievers.FeedNeverGivesUp | src/main/java/org/codekaizen/test/db/paramin/DefaultTupleSetRetriever.java:99-109 | a run of deliveries never raises; without cancel every tuple was requested and collected in first-arrival order and the permit is kept; with a cancel the set is full and the permit back |
| SetRetrievers.FullSetWakesCall | src/main/java/org/codekaizen/test/db/paramin/DefaultTupleSetRetriever.java:127-138 | a call made while onSubscribe holds the permit waits, and is woken with a full set once a delivery cancels |
| SetRetrievers.ErrorThenCallFails | src/main/java/org/codekaizen/test/db/paramin/DefaultTupleSetRetriever.java:111-138 | every error surfaces as IllegalStateException, and a call after an error or a close raises IllegalArgumentException |
| SetRetrievers.InterruptRaisesMonitorState | src/main/java/org/codekaizen/test/db/paramin/DefaultTupleSetRetriever.java:91-94 | as written an interrupted subscription raises IllegalMonitorStateException, not the IllegalStateException the code builds |
| ListRetrievers.New | src/main/java/org/codekaizen/test/db/paramin/TupleListRetriever.java:42-46 | a size of zero or less raises IllegalArgumentException; otherwise the retriever starts empty, neither done nor cancelled |
| ListRetrievers.OnSubscribe | src/main/java/org/codekaizen/test/db/paramin/TupleListRetriever.java:49-52 | the subscription is stored and one tuple requested exactly when it is not null; a null one raises NullPointerException |
| ListRetrievers.OnNext | src/main/java/org/codekaizen/test/db/paramin/TupleListRetriever.java:55-63 | the delivered tuple joins the ordered result set and nothing else in the state changes |
| ListRetrievers.OnError | src/main/java/org/codekaizen/test/db/paramin/TupleListRetriever.java:66-69 | the future becomes done and the cause is wrapped in IllegalStateException |
| ListRetrievers.OnComplete | src/main/java/org/codekaizen/test/db/paramin/TupleListRetriever.java:72-74 | the future becomes done, sending nothing |
| ListRetrievers.CancelFuture | src/main/java/org/codekaizen/test/db/paramin/TupleListRetriever.java:77-81 | without a subscription NullPointerException leaves everything as it was; otherwise the upstream is cancelled and the future reports cancelled; results and done are kept |
| ListRetrievers.OnlyTerminalSignalsFinish | src/main/java/org/codekaizen/test/db/paramin/TupleListRetriever.java:55-91 | only onError and onComplete make the future done; deliveries, subscriptions and cancel do not, and the terminal signals keep the results |
| ListRetrievers.OnNextReactions | src/main/java/org/codekaizen/test/db/paramin/TupleListRetriever.java:55-63 | a subscribed retriever cancels exactly when the set is full and otherwise requests exactly one more |
| ListRetrievers.OnNextStep | src/main/java/org/codekaizen/test/db/paramin/TupleListRetriever.java:55-63 | a delivery to a short set keeps it distinct and bounded, and a cancel comes exactly with a full set |
| ListRetrievers.FeedCollects | src/main/java/org/codekaizen/test/db/paramin/TupleListRetriever.java:55-63 | a run of deliveries never makes the future done; without cancel it holds exactly the tuples delivered, first arrival first, one request each; a cancel comes with a set of exactly the asked size |
| ListRetrievers.FeedGathersEveryTuple | src/main/java/org/codekaizen/test/db/paramin/TupleListRetriever.java:45-56 | without cancel the result set holds each tuple it started with and each tuple delivered exactly once |
| OrderedSets.Add | src/main/java/org/codekaizen/test/db/paramin/TupleListRetriever.java:56 | a LinkedHashSet add appends a new element at the end and leaves the set unchanged for one already present; earlier elements keep their order |
| OrderedSets.AddKeepsDistinct | src/main/java/org/codekaizen/test/db/paramin/TupleListRetriever.java:45 | adding never creates a duplicate |
| OrderedSets.SizeIsCardinality | src/main/java/org/codekaizen/test/db/paramin/TupleListRetriever.java:57 | the size the retrievers compare against is the number of distinct elements held |
| OrderedSets.AddAllElements | src/main/java/org/codekaizen/test/db/paramin/DefaultTupleSetRetriever.java:101 | adding a run of elements one by one yields exactly the union of old and new elements, without duplicates |

## Left out

- Threads, the executor pool, the thread factory and blocking: a wait is the `Blocked` outcome of a step, and a later step that returns a permit stands for the wake-up.
- Running SQL: binding parameters (`populateStatementParameters`), iterating a `ResultSet` and JDBC type conversion. The cells a query returns and the failure it raises are parameters.
- Closing prepared statements and connections, and failures while closing them: `closeQuietly` and the stage's `close()` log and drop them, so only the `initialized` flag is modelled. The result set that `onNext` closes is modelled, failure included (`QueryResult.closeFailure`).
- `ObserveOnSubscriber`, `EventBusImpl`, `SubscriptionImpl`, `OnSubscribeEvent`, `FindParametersExecutor` and `InParameterFinder`: these files are not part of this model.
- The `FindParametersTask`, `TupleSetRetriever` and `SpecBuilder` interfaces, which hold no logic.
- `Acceptors` is not part of this model. `ParamRequirement`'s default acceptor is taken to accept every value.
- Regular expressions:
  - the regex acceptor is an arbitrary predicate on strings;
  - the product-name patterns of `Database` are reduced to the prefix and substring tests they express.
- `String.format`: only the two slots `%1$d` and `%2$s` that the limit templates use are substituted.
- Logging, and the `toString` of `ParamSpec` and `Tuple`.
- `hashCode` of `Tuple`, `Condition`, `ParamSpec` and the requirements; only `JoinPair`'s hash is modelled.
- Chains.GetSqlStatement: requires at most 0xD800 - 97 nodes, because a Dafny `char` cannot hold the surrogate code points that Java aliases would reach beyond that.
- Text.ToLower: lower-cases ASCII letters only. Java's `toLowerCase` also folds other scripts.
- The order in which a stage's `HashSet` of subscribers receives a broadcast: subscribers are a set, and each receives every broadcast once.
- Values.Chr: holds any Unicode scalar value. A Java `char` is one UTF-16 code unit, so it cannot hold a supplementary character but can hold a lone surrogate, which a Dafny `char` cannot.
- Strings: a Dafny string cannot hold a lone surrogate, which a Java `String` can. Ordering and hashing work on the UTF-16 code units of the characters it does hold.
- Values.Decimal: the scale is an unbounded integer. Java's is an `int`.
- FindTasks.Call: composes the corrected `onSubscribe` from the findings below. An interrupted first call raises IllegalStateException, where the code as written raises IllegalMonitorStateException.
- SetRetrievers.Initialize: composes the corrected `onSubscribe` in the same way, with the same difference for an interrupted wait.
- Values.Compare: values of different kinds are ordered by kind, where Java's `compareTo` raises ClassCastException. The min/max matcher, the one place where the pipeline lets different kinds meet, checks the classes first (`Matchers.Verdict`). The range of `InParamRequirement` compares its bounds with the value it is given without that check; its callers are not part of this model.
- Matchers.Verdict: a custom matcher's answer for a value of another class is whatever its predicate says; a Java lambda that casts would raise ClassCastException instead.
- Pipelines.ConfigureProcessingFlow: a failure to prepare is all or nothing; which stage's prepare failed is not tracked.
- FindTasks.OnSubscribeKeepsInv: requires the request count to be within the budget beforehand, as it is for the first subscription. A repeated `onSubscribe` at the edge of the budget counts one more request, which the source does not guard against.
- FindTasks.OnNext: the request counter `totalRequests` is an unbounded integer. In the source it is an `int` that would wrap after 2^31 requests, which the budget keeps far out of reach for any size below 2^29.
- The first stage of a chain never receives a subscription or a tuple from the code shown: nothing in these sources drives it.
- The semaphore's permit count can exceed one when both a cancelling delivery and a later completion return a permit, as in the source.

## Findings

| source | as written | input that shows it | evidently intended | confidence | as-written member | corrected member |
|---|---|---|---|---|---|---|
| src/main/java/org/codekaizen/test/db/paramin/DefaultFindParametersTask.java:104-107 | an interrupted `semaphore.acquire()` calls `notify()` without holding the monitor, which raises IllegalMonitorStateException before the IllegalStateException is built | any `onSubscribe` whose wait for the permit is interrupted | raise IllegalStateException wrapping the InterruptedException | not executed | FindTasks.OnSubscribeAsWritten | FindTasks.OnSubscribe |
| src/main/java/org/codekaizen/test/db/paramin/DefaultTupleSetRetriever.java:91-94 | the same `notify()` outside the monitor in the set retriever's `onSubscribe` | any `onSubscribe` whose wait for the permit is interrupted | raise IllegalStateException wrapping the InterruptedException | not executed | SetRetrievers.OnSubscribeAsWritten | SetRetrievers.OnSubscribe |
| src/main/java/org/codekaizen/test/db/paramin/DefaultFindParametersTask.java:120 | the budget `desiredSize * TRYS_MULTIPLE` is an `int` product and wraps for sizes from 2^29 on | desiredSize 2^29 after the first request: the product wraps to -2^31, so the first delivery already gives up with IllegalStateException | allow four requests per wanted tuple | not executed | FindTasks.OnNextAsWritten | FindTasks.OnNext |

`FindTasks.InterruptRaisesMonitorState` and `SetRetrievers.InterruptRaisesMonitorState` show the first two. `FindTasks.OverflowGivesUpAtOnce` shows the third. The corrected handlers are the ones the rest of the model uses. `FindTasks.GivesUpOnlyPastBudget` and `FindTasks.FeedEndsWithinBudget` state the budget the corrected handler keeps.
