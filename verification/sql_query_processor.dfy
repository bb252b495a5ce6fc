/** `SqlQueryProcessor`: one stage of the retrieval pipeline.

    A stage receives a tuple of the values found so far, binds them to its
    prepared statement, runs the query and forwards the input extended with
    the first acceptable value of its own column.  JDBC is abstracted away:
    the query's answer is the sequence of first-column cells the cursor
    delivers, followed by the message of the SQLException raised after them,
    if any (an exception from binding or from `executeQuery` is a failure
    after no rows), and the message of the SQLException that closing the
    result set raises, if it does. */
module QueryProcessors {
  import opened Base
  import opened Values
  import opened JdbcTypes
  import opened Matchers
  import opened Tuples
  import opened Flow
  import Specs
  import Chains

  /** A prepared statement, known by the chain and the spec whose statement
      `getSqlStatement` generated for it. */
  datatype Statement = Prepared(chain: Chains.ParamSpecs, target: Specs.ParamSpec)

  /** The SQL text of a prepared statement. */
  function Sql(statement: Statement): string
  {
    Chains.Statement(statement.chain, statement.target)
  }

  datatype Processor = Processor(
    spec: Specs.ParamSpec,
    statement: Statement,
    subscription: Option<Endpoint>,
    subscribers: set<Endpoint>)

  /** What the cursor delivered: the cells of the first column in order, then
      the message of the SQLException that ended the reading, if one did;
      and the message of the SQLException that `close()` of the result set
      raises at the end of the try-with-resources, if it does. */
  datatype QueryResult = QueryResult(rows: seq<Value>, failure: Option<string>, closeFailure: Option<string>)

  /** The constructor: both arguments are required (NullPointerException);
      the stage starts with no subscription and no subscribers. */
  function New(spec: Option<Specs.ParamSpec>, statement: Option<Statement>): (r: Result<Processor>)
    ensures r.Ok? <==> spec.Some? && statement.Some?
    ensures r.Err? ==> r.error == NullPointer
    ensures r.Ok? ==> && r.value.spec == spec.value && r.value.statement == statement.value
                      && r.value.subscription.None? && r.value.subscribers == {}
  {
    if spec.None? || statement.None? then Err(NullPointer)
    else Ok(Processor(spec.value, statement.value, None, {}))
  }

  // ---------------------------------------------------------------------
  // Reading a cell
  // ---------------------------------------------------------------------

  /** The types `retrieveValue` reads with a getter of their own; the rest
      are read with `getString`. */
  predicate HasTypedGetter(sqlType: SqlType)
  {
    sqlType.DECIMAL? || sqlType.INTEGER? || sqlType.BIGINT? || sqlType.DATE? || sqlType.TIMESTAMP? || sqlType.BOOLEAN?
  }

  /** `retrieveValue`: the getter chosen by the spec's JDBC type.  The
      primitive getters of INTEGER, BIGINT and BOOLEAN turn SQL NULL into 0,
      0 and false; the object getters keep it as null; every other type is
      read as a string. */
  function RetrieveValue(sqlType: SqlType, cell: Value): (v: Value)
    ensures v.Null? <==> cell.Null? && !(sqlType.INTEGER? || sqlType.BIGINT? || sqlType.BOOLEAN?)
    ensures cell.Null? && sqlType.INTEGER? ==> v == Of(Int32(0))
    ensures cell.Null? && sqlType.BIGINT? ==> v == Of(Int64(0))
    ensures cell.Null? && sqlType.BOOLEAN? ==> v == Of(Bool(false))
    ensures cell.Of? && HasTypedGetter(sqlType) ==> v == cell
    ensures cell.Of? && !HasTypedGetter(sqlType) ==> v == Of(Str(ScalarToString(cell.scalar)))
  {
    match sqlType
    case DECIMAL => cell
    case INTEGER => if cell.Null? then Of(Int32(0)) else cell
    case BIGINT => if cell.Null? then Of(Int64(0)) else cell
    case DATE => cell
    case TIMESTAMP => cell
    case BOOLEAN => if cell.Null? then Of(Bool(false)) else cell
    case _ => if cell.Null? then Null else Of(Str(ScalarToString(cell.scalar)))
  }

  /** The value read from a cell stops the scan: it is null (and
      `isAcceptableValue` will throw NullPointerException), it makes the
      matcher compare across classes (ClassCastException), or it is
      acceptable (and is forwarded). */
  predicate Decisive(spec: Specs.ParamSpec, cell: Value)
  {
    var v := RetrieveValue(spec.sqlType, cell);
    v.Null? || Clashes(spec.matcher, v.scalar) || Accepts(spec.matcher, v.scalar)
  }

  /** The first row at or after `i` that stops the scan, or `|rows|`. */
  function FirstDecisiveFrom(spec: Specs.ParamSpec, rows: seq<Value>, i: nat): (h: nat)
    requires i <= |rows|
    requires forall j :: 0 <= j < i ==> !Decisive(spec, rows[j])
    ensures i <= h <= |rows|
    ensures forall j :: 0 <= j < h ==> !Decisive(spec, rows[j])
    ensures h < |rows| ==> Decisive(spec, rows[h])
    decreases |rows| - i
  {
    if i == |rows| || Decisive(spec, rows[i]) then i else FirstDecisiveFrom(spec, rows, i + 1)
  }

  function FirstDecisive(spec: Specs.ParamSpec, rows: seq<Value>): (h: nat)
    ensures h <= |rows|
    ensures forall j :: 0 <= j < h ==> !Decisive(spec, rows[j])
    ensures h < |rows| ==> Decisive(spec, rows[h])
  {
    FirstDecisiveFrom(spec, rows, 0)
  }

  // ---------------------------------------------------------------------
  // onNext
  // ---------------------------------------------------------------------

  /** The error signal of a failed `close()` of the result set, if it failed. */
  function CloseSignal(q: QueryResult): seq<Downstream>
  {
    if q.closeFailure.Some? then [Error(SqlFailure(q.closeFailure.value))] else []
  }

  /** What one `onNext` broadcasts, in order, stated without the loop:
      nothing for an input holding a null; otherwise the first row that
      stops the scan decides (a null read raises NullPointerException, a
      cross-class comparison ClassCastException, an acceptable value is
      appended to the input and forwarded); when no row stops it, the
      reading failure, if any, is forwarded as an error.  When the body of
      the try-with-resources ended normally, a failure to close the result
      set is caught by the same handler and forwarded as an error too, after
      the tuple if one was forwarded; otherwise it is suppressed. */
  function Emission(spec: Specs.ParamSpec, input: Tuple, q: QueryResult): Result<seq<Downstream>>
  {
    if HasNull(input) then Ok([])
    else
      var h := FirstDecisive(spec, q.rows);
      if h == |q.rows| then
        if q.failure.Some? then Ok([Error(SqlFailure(q.failure.value))]) else Ok(CloseSignal(q))
      else
        var v := RetrieveValue(spec.sqlType, q.rows[h]);
        if v.Null? then Err(NullPointer)
        else if Clashes(spec.matcher, v.scalar) then Err(ClassCast)
        else
          var t :- AddElement(input, Some(spec.column), v);
          Ok([Next(t)] + CloseSignal(q))
  }

  /** `onNext(objects)`: skip an input with a null; otherwise walk the rows in
      order, stop at the first acceptable value and broadcast the extended
      tuple; a query failure, or a failure to close the result set, is
      broadcast as an error.  The result is the sequence of signals every
      subscriber receives, or the exception that escapes. */
  method OnNext(p: Processor, input: Tuple, q: QueryResult) returns (r: Result<seq<Downstream>>)
    ensures r == Emission(p.spec, input, q)
    ensures HasNull(input) ==> r == Ok([])
    ensures r.Ok? ==> |r.value| <= 2 && forall i :: 0 <= i < |r.value| ==> r.value[i].Next? || r.value[i].Error?
    ensures r.Ok? && |r.value| == 2 ==>
              r.value[0].Next? && q.closeFailure.Some? && r.value[1] == Error(SqlFailure(q.closeFailure.value))
  {
    var hasNull := ContainsNullValue(input);
    if hasNull {
      return Ok([]);
    }
    var i := 0;
    var decided := false;
    r := Ok([]);
    while i < |q.rows| && !decided
      invariant 0 <= i <= |q.rows|
      invariant !decided ==> r == Ok([]) && forall j :: 0 <= j < i ==> !Decisive(p.spec, q.rows[j])
      invariant decided ==> 0 < i && FirstDecisive(p.spec, q.rows) == i - 1 && r == Emission(p.spec, input, q)
    {
      var value := RetrieveValue(p.spec.sqlType, q.rows[i]);
      var acceptable := Specs.IsAcceptableValue(p.spec, value);
      if acceptable.Err? {
        r := Err(acceptable.error);
        decided := true;
      } else if acceptable.value {
        var result := AddElement(input, Some(p.spec.column), value);
        r := if result.Ok? then Ok([Next(result.value)] + CloseSignal(q)) else Err(result.error);
        decided := true;
      }
      i := i + 1;
    }
    if !decided {
      if q.failure.Some? {
        r := Ok([Error(SqlFailure(q.failure.value))]);
      } else {
        r := Ok(CloseSignal(q));
      }
    }
  }

  /** A forwarded tuple is the input with one more element at the end: the
      stage's column and the first acceptable value the cursor delivered,
      every earlier row having been read as a non-null, unacceptable value
      of the matcher's class. */
  lemma ForwardedTupleExtendsInput(spec: Specs.ParamSpec, input: Tuple, q: QueryResult, t: Tuple)
    requires Emission(spec, input, q).Ok? && Next(t) in Emission(spec, input, q).value
    ensures !HasNull(input)
    ensures Size(t) == Size(input) + 1
    ensures t.names[..Size(input)] == input.names && t.values[..Size(input)] == input.values
    ensures t.names[Size(input)] == Some(spec.column)
    ensures exists k :: && 0 <= k < |q.rows|
                        && t.values[Size(input)] == RetrieveValue(spec.sqlType, q.rows[k])
                        && t.values[Size(input)].Of?
                        && !Clashes(spec.matcher, t.values[Size(input)].scalar)
                        && Accepts(spec.matcher, t.values[Size(input)].scalar)
                        && forall j :: 0 <= j < k ==> !Decisive(spec, q.rows[j])
  {
    var k := FirstDecisive(spec, q.rows);
    assert !HasNull(input);
    assert k < |q.rows|;
    assert Emission(spec, input, q).value[0] == Next(t);
    assert t.values[Size(input)] == RetrieveValue(spec.sqlType, q.rows[k]);
  }

  /** An error that is the only signal comes only when no row was
      acceptable, null or of the wrong class: it carries the reading
      failure, or, when reading succeeded, the failure to close. */
  lemma ErrorMeansNoRowStopped(spec: Specs.ParamSpec, input: Tuple, q: QueryResult, e: Throwable)
    requires Emission(spec, input, q) == Ok([Error(e)])
    ensures q.failure.Some? ==> e == SqlFailure(q.failure.value)
    ensures q.failure.None? ==> q.closeFailure.Some? && e == SqlFailure(q.closeFailure.value)
    ensures forall j :: 0 <= j < |q.rows| ==> !Decisive(spec, q.rows[j])
  {
    ScanStopLeadsWithNext(spec, input, q);
  }

  /** When a row stops the scan and nothing escapes, the first signal is the
      forwarded tuple. */
  lemma ScanStopLeadsWithNext(spec: Specs.ParamSpec, input: Tuple, q: QueryResult)
    ensures && !HasNull(input) && FirstDecisive(spec, q.rows) < |q.rows| && Emission(spec, input, q).Ok?
            ==> |Emission(spec, input, q).value| > 0 && Emission(spec, input, q).value[0].Next?
  {
  }

  /** After a forwarded tuple, subscribers receive an error exactly when
      closing the result set fails, so `onNext` then signals a tuple and an
      error in the same call. */
  lemma CloseFailureFollowsTuple(spec: Specs.ParamSpec, input: Tuple, q: QueryResult, t: Tuple)
    requires Emission(spec, input, q).Ok? && Next(t) in Emission(spec, input, q).value
    ensures Emission(spec, input, q).value[0] == Next(t)
    ensures |Emission(spec, input, q).value| == 2 <==> q.closeFailure.Some?
    ensures q.closeFailure.Some? ==> Emission(spec, input, q).value[1] == Error(SqlFailure(q.closeFailure.value))
  {
    var h := FirstDecisive(spec, q.rows);
    assert !HasNull(input);
    assert h < |q.rows|;
  }

  /** Nothing is broadcast exactly when the input holds a null, or when the
      cursor delivered no acceptable, null or wrong-class value and neither
      reading nor closing failed. */
  lemma SilentOnlyWhenNothingFound(spec: Specs.ParamSpec, input: Tuple, q: QueryResult)
    requires spec.column != ""
    ensures Emission(spec, input, q) == Ok([]) <==>
              HasNull(input)
              || (&& q.failure.None? && q.closeFailure.None?
                  && forall j :: 0 <= j < |q.rows| ==> !Decisive(spec, q.rows[j]))
  {
    if !HasNull(input) {
      var h := FirstDecisive(spec, q.rows);
      if h < |q.rows| {
        assert Decisive(spec, q.rows[h]);
      }
    }
  }

  /** Reading SQL NULL from a column of an object type raises
      NullPointerException when no earlier row was acceptable; the primitive
      types never do. */
  lemma NullCellRaises(spec: Specs.ParamSpec, input: Tuple, q: QueryResult)
    requires !HasNull(input)
    ensures Emission(spec, input, q) == Err(NullPointer) <==>
              exists k :: && 0 <= k < |q.rows| && RetrieveValue(spec.sqlType, q.rows[k]).Null?
                          && forall j :: 0 <= j < k ==> !Decisive(spec, q.rows[j])
    ensures spec.sqlType.INTEGER? || spec.sqlType.BIGINT? || spec.sqlType.BOOLEAN? ==>
              Emission(spec, input, q) != Err(NullPointer)
  {
    var h := FirstDecisive(spec, q.rows);
    if Emission(spec, input, q) == Err(NullPointer) {
      assert h < |q.rows|;
    }
    if exists k :: && 0 <= k < |q.rows| && RetrieveValue(spec.sqlType, q.rows[k]).Null?
                   && forall j :: 0 <= j < k ==> !Decisive(spec, q.rows[j]) {
      var k :| && 0 <= k < |q.rows| && RetrieveValue(spec.sqlType, q.rows[k]).Null?
               && forall j :: 0 <= j < k ==> !Decisive(spec, q.rows[j]);
      assert Decisive(spec, q.rows[k]);
      assert h == k;
    }
  }

  /** ClassCastException escapes exactly when the first row that stops the
      scan is a non-null value the matcher compares across classes. */
  lemma ClashRaises(spec: Specs.ParamSpec, input: Tuple, q: QueryResult)
    requires !HasNull(input)
    ensures Emission(spec, input, q) == Err(ClassCast) <==>
              exists k :: && 0 <= k < |q.rows| && RetrieveValue(spec.sqlType, q.rows[k]).Of?
                          && Clashes(spec.matcher, RetrieveValue(spec.sqlType, q.rows[k]).scalar)
                          && forall j :: 0 <= j < k ==> !Decisive(spec, q.rows[j])
  {
    var h := FirstDecisive(spec, q.rows);
    if Emission(spec, input, q) == Err(ClassCast) {
      assert h < |q.rows|;
    }
    if exists k :: && 0 <= k < |q.rows| && RetrieveValue(spec.sqlType, q.rows[k]).Of?
                   && Clashes(spec.matcher, RetrieveValue(spec.sqlType, q.rows[k]).scalar)
                   && forall j :: 0 <= j < k ==> !Decisive(spec, q.rows[j]) {
      var k :| && 0 <= k < |q.rows| && RetrieveValue(spec.sqlType, q.rows[k]).Of?
               && Clashes(spec.matcher, RetrieveValue(spec.sqlType, q.rows[k]).scalar)
               && forall j :: 0 <= j < k ==> !Decisive(spec, q.rows[j]);
      assert Decisive(spec, q.rows[k]);
      assert h == k;
    }
  }

  /** A `Character` spec (JDBC type CHAR, read with `getString`) with a
      range of characters raises ClassCastException on the first non-null
      row, instead of scanning on. */
  lemma CharacterRangeRaisesOnFirstRow(spec: Specs.ParamSpec, input: Tuple, q: QueryResult, lo: char, max: Value)
    requires !HasNull(input)
    requires spec.sqlType == CHAR && spec.matcher == NewMinMaxAcceptor(Of(Chr(lo)), max)
    requires |q.rows| > 0 && q.rows[0].Of?
    ensures Emission(spec, input, q) == Err(ClassCast)
  {
    assert Decisive(spec, q.rows[0]);
    assert FirstDecisive(spec, q.rows) == 0;
  }

  // ---------------------------------------------------------------------
  // Subscription plumbing
  // ---------------------------------------------------------------------

  /** `subscribe(s)`: `s` joins the subscriber set and is handed this stage
      as its subscription.  Returns the new stage and the one delivery. */
  function Subscribe(p: Processor, s: Endpoint): (r: (Processor, (Endpoint, Downstream)))
    ensures r.0.subscribers == p.subscribers + {s}
    ensures r.0 == p.(subscribers := r.0.subscribers)
    ensures r.1 == (s, Subscribed)
  {
    (p.(subscribers := p.subscribers + {s}), (s, Subscribed))
  }

  /** `onSubscribe(subscription)`: remembers the upstream subscription. */
  function OnSubscribe(p: Processor, subscription: Option<Endpoint>): (r: Processor)
    ensures r.subscription == subscription
    ensures r == p.(subscription := subscription)
  {
    p.(subscription := subscription)
  }

  /** `request(n)`: forwarded upstream when there is a subscription, a no-op
      otherwise. */
  function Request(p: Processor, n: int): (r: Option<(Endpoint, Upstream)>)
    ensures r.Some? <==> p.subscription.Some?
    ensures r.Some? ==> r.value.0 == p.subscription.value && r.value.1 == Upstream.Request(n)
  {
    if p.subscription.Some? then Some((p.subscription.value, Upstream.Request(n))) else None
  }

  /** `cancel()`: forwarded upstream when there is a subscription, a no-op
      otherwise. */
  function Cancel(p: Processor): (r: Option<(Endpoint, Upstream)>)
    ensures r.Some? <==> p.subscription.Some?
    ensures r.Some? ==> r.value == (p.subscription.value, Upstream.Cancel)
  {
    if p.subscription.Some? then Some((p.subscription.value, Upstream.Cancel)) else None
  }

  /** `onError(t)`: relayed to every subscriber. */
  function OnError(p: Processor, error: Throwable): (r: set<(Endpoint, Downstream)>)
    ensures forall s :: s in p.subscribers <==> (s, Error(error)) in r
    ensures forall d :: d in r ==> d.1 == Error(error)
  {
    Broadcast(p.subscribers, Error(error))
  }

  /** `onComplete()`: relayed to every subscriber. */
  function OnComplete(p: Processor): (r: set<(Endpoint, Downstream)>)
    ensures forall s :: s in p.subscribers <==> (s, Complete) in r
    ensures forall d :: d in r ==> d.1 == Complete
  {
    Broadcast(p.subscribers, Complete)
  }

  /** A subscriber that subscribed receives every later broadcast, and
      subscribing twice changes nothing more than subscribing once. */
  lemma SubscribersReceiveBroadcasts(p: Processor, s: Endpoint, signal: Downstream)
    ensures (s, signal) in Broadcast(Subscribe(p, s).0.subscribers, signal)
    ensures Subscribe(Subscribe(p, s).0, s).0 == Subscribe(p, s).0
  {
    assert Subscribe(p, s).0.subscribers + {s} == Subscribe(p, s).0.subscribers;
  }

  /** Demand and cancellation reach the subscription the stage was handed
      last, and go nowhere before it was handed one. */
  lemma UpstreamFollowsOnSubscribe(p: Processor, id: Endpoint, n: int)
    ensures Request(OnSubscribe(p, Some(id)), n) == Some((id, Upstream.Request(n)))
    ensures Cancel(OnSubscribe(p, Some(id))) == Some((id, Upstream.Cancel))
    ensures Request(OnSubscribe(p, None), n).None? && Cancel(OnSubscribe(p, None)).None?
  {
  }
}
