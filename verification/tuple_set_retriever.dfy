/** `DefaultTupleSetRetriever`: the older retriever, which sets the stage
    chain up in `initialize` and collects distinct tuples until it has
    `desiredSize` of them, with no limit on how many it requests.

    Each handler is one step (see `Flow.Step`); the semaphore is the permit
    count. */
module SetRetrievers {
  import opened Base
  import opened Flow
  import opened Tuples
  import Values
  import OrderedSets
  import Preconditions
  import Chains
  import Pipelines
  import QueryProcessors

  datatype Retriever = Retriever(
    specs: Chains.ParamSpecs,
    desiredSize: Values.int32,
    results: seq<Tuple>,
    permits: int,
    connection: Option<Pipelines.Connection>,
    stages: seq<QueryProcessors.Processor>,
    initialized: bool,
    subscription: Option<Endpoint>)

  /** A positive size and a result set without repeats, no larger than
      asked for. */
  ghost predicate Inv(r: Retriever)
  {
    && r.desiredSize > 0
    && |r.results| <= r.desiredSize as int
    && OrderedSets.Distinct(r.results)
  }

  /** The constructor: the chain is required (NullPointerException) and the
      size must be positive (IllegalArgumentException). */
  function New(specs: Option<Chains.ParamSpecs>, desiredSize: Values.int32): (r: Result<Retriever>)
    ensures specs.None? ==> r == Err(NullPointer)
    ensures specs.Some? && desiredSize <= 0 ==> r == Err(IllegalArgument)
    ensures r.Ok? <==> specs.Some? && desiredSize > 0
    ensures r.Ok? ==> Inv(r.value) && r.value.results == [] && r.value.permits == 1
                      && !r.value.initialized && r.value.subscription.None?
  {
    var chain :- Preconditions.CheckNotNull(specs);
    :- Preconditions.CheckArgument(desiredSize > 0);
    Ok(Retriever(chain, desiredSize, [], 1, None, [], false, None))
  }

  /** `close()`: statements and connection are closed quietly and the
      retriever must be initialized again. */
  function Close(r: Retriever): (r': Retriever)
    ensures !r'.initialized && r' == r.(initialized := false)
  {
    r.(initialized := false)
  }

  /** `onSubscribe(subscription)` with the exception its interrupted branch
      raises: the subscription is stored, a permit is taken and one tuple is
      requested.  A null subscription raises NullPointerException at
      `request`. */
  function OnSubscribeRaising(r: Retriever, subscription: Option<Endpoint>, interrupted: bool, onInterrupt: Throwable): (s: Step<Retriever>)
    ensures s.state.subscription == subscription
    ensures interrupted ==> s == Step(r.(subscription := subscription), [], Threw(onInterrupt))
    ensures !interrupted && r.permits <= 0 ==> s.completion.Blocked? && s.sent == []
    ensures !interrupted && r.permits > 0 ==>
              && s.state == r.(subscription := subscription, permits := r.permits - 1)
              && (subscription.None? ==> s.sent == [] && s.completion == Threw(NullPointer))
              && (subscription.Some? ==> s.sent == [Request(1)] && s.completion.Returned?)
  {
    var r1 := r.(subscription := subscription);
    match Acquire(r.permits, interrupted)
    case InterruptedAcquire => Step(r1, [], Threw(onInterrupt))
    case Waits => Step(r1, [], Blocked)
    case Acquired(permits) =>
      var r2 := r1.(permits := permits);
      if subscription.None? then Step(r2, [], Threw(NullPointer))
      else Step(r2, [Request(1)], Returned)
  }

  /** `onSubscribe` as written: the interrupted branch's `notify()` raises
      IllegalMonitorStateException. */
  function OnSubscribeAsWritten(r: Retriever, subscription: Option<Endpoint>, interrupted: bool): (s: Step<Retriever>)
    ensures interrupted ==> s.completion == Threw(InterruptedAsWritten)
    ensures !interrupted ==> s == OnSubscribe(r, subscription, interrupted)
  {
    OnSubscribeRaising(r, subscription, interrupted, InterruptedAsWritten)
  }

  /** `onSubscribe` as intended: an interrupted wait surfaces as
      IllegalStateException caused by the interruption. */
  function OnSubscribe(r: Retriever, subscription: Option<Endpoint>, interrupted: bool): (s: Step<Retriever>)
    ensures interrupted ==> s.completion == Threw(IllegalState(Some(Interrupted))) && s.sent == []
  {
    OnSubscribeRaising(r, subscription, interrupted, InterruptedIntended)
  }

  /** `onNext(tuple)`: the tuple joins the result set; a full set cancels
      the subscription and gives the permit back (the retriever stays
      initialized), anything less requests one more.  A null subscription
      raises NullPointerException. */
  function OnNext(r: Retriever, tuple: Tuple): (s: Step<Retriever>)
    ensures s.state.results == OrderedSets.Add(r.results, tuple)
    ensures s.state.desiredSize == r.desiredSize && s.state.initialized == r.initialized
  {
    var r1 := r.(results := OrderedSets.Add(r.results, tuple));
    if r.subscription.None? then Step(r1, [], Threw(NullPointer))
    else if |r1.results| >= r.desiredSize as int then Step(r1.(permits := Release(r.permits)), [Cancel], Returned)
    else Step(r1, [Request(1)], Returned)
  }

  /** `onError(throwable)`: the permit is given back, the retriever closed,
      and the cause always wrapped in IllegalStateException. */
  function OnError(r: Retriever, error: Throwable): (s: Step<Retriever>)
    ensures s.state.permits == r.permits + 1 && !s.state.initialized && s.state.results == r.results
    ensures s.sent == [] && s.completion == Threw(IllegalState(Some(error)))
  {
    Step(Close(r.(permits := Release(r.permits))), [], Threw(IllegalState(Some(error))))
  }

  /** `onComplete()`: the permit is given back and the retriever closed. */
  function OnComplete(r: Retriever): (s: Step<Retriever>)
    ensures s.state.permits == r.permits + 1 && !s.state.initialized && s.state.results == r.results
    ensures s.sent == [] && s.completion.Returned?
  {
    Step(Close(r.(permits := Release(r.permits))), [], Returned)
  }

  /** `call()`: an uninitialized retriever raises IllegalArgumentException;
      otherwise the permit is taken, the result set returned (the new
      state's `results`) and the permit given back.  With no permit the
      call waits; an interrupted wait raises InterruptedException. */
  function Call(r: Retriever, interrupted: bool): (s: Step<Retriever>)
    ensures s.state == r && s.sent == []
    ensures !r.initialized ==> s.completion == Threw(IllegalArgument)
    ensures r.initialized ==>
              && (s.completion.Returned? <==> !interrupted && r.permits > 0)
              && (s.completion.Blocked? <==> !interrupted && r.permits <= 0)
              && (interrupted ==> s.completion == Threw(Interrupted))
  {
    if Preconditions.CheckArgument(r.initialized).Fail? then Step(r, [], Threw(IllegalArgument))
    else
      match Acquire(r.permits, interrupted)
      case InterruptedAcquire => Step(r, [], Threw(Interrupted))
      case Waits => Step(r, [], Blocked)
      case Acquired(_) => Step(r, [], Returned)
  }

  /** `initialize(connection)`: a connection is required
      (NullPointerException); the retriever is closed, takes the connection,
      builds the stage chain (an SQLException while preparing closes it
      again and raises IllegalStateException), subscribes to the last stage
      (whose `onSubscribe` takes the permit and requests the first tuple)
      and is then initialized.  `prepareFailure` is the SQLException
      message preparing a statement raises, if it raises one.  This composes
      the corrected `OnSubscribe`: an interrupted wait raises
      IllegalStateException wrapping the InterruptedException, where the code
      as written raises IllegalMonitorStateException (`OnSubscribeAsWritten`). */
  method Initialize(r: Retriever, connection: Option<Pipelines.Connection>, prepareFailure: Option<string>, interrupted: bool)
    returns (s: Step<Retriever>)
    requires Chains.Valid(r.specs)
    ensures connection.None? ==> s == Step(r, [], Threw(NullPointer))
    ensures connection.Some? && prepareFailure.Some? ==>
              && s.completion == Threw(IllegalState(Some(SqlFailure(prepareFailure.value))))
              && s.state == r.(initialized := false, connection := connection) && s.sent == []
    ensures connection.Some? && prepareFailure.None? && !interrupted && r.permits == 1 ==>
              && s.completion.Returned? && s.sent == [Request(1)]
              && s.state.initialized && s.state.permits == 0 && s.state.connection == connection
              && s.state.subscription == Some(|r.specs.nodes| - 1) && |s.state.stages| == |r.specs.nodes|
    ensures connection.Some? && s.state.initialized ==> s.completion.Returned?
    ensures connection.Some? && prepareFailure.None? && interrupted ==>
              s.completion == Threw(IllegalState(Some(Interrupted))) && s.sent == []
  {
    if Preconditions.CheckNotNull(connection).Err? {
      return Step(r, [], Threw(NullPointer));
    }
    var r1 := Close(r).(connection := connection);
    var configured := Pipelines.ConfigureProcessingFlow(r1.specs, connection, prepareFailure);
    if configured.Err? {
      return Step(Close(r1), [], Threw(configured.error));
    }
    var (stages, last) := Pipelines.SubscribeRetriever(r1.specs, configured.value);
    var subscribed := OnSubscribe(r1.(stages := stages), Some(last), interrupted);
    if !subscribed.completion.Returned? {
      return subscribed;
    }
    return Step(subscribed.state.(initialized := true), subscribed.sent, Returned);
  }

  /** `onNext` never gives up: with a subscription it either cancels,
      exactly when the set is full, or requests exactly one more tuple. */
  lemma OnNextReactions(r: Retriever, tuple: Tuple)
    requires r.subscription.Some?
    ensures var s := OnNext(r, tuple);
            && s.completion.Returned?
            && (|s.state.results| >= r.desiredSize as int <==> s.sent == [Cancel])
            && (|s.state.results| < r.desiredSize as int <==> s.sent == [Request(1)])
            && (s.sent == [Cancel] ==> s.state.permits == r.permits + 1)
  {
  }

  /** While the set is not full, `onNext` keeps the invariant. */
  lemma OnNextKeepsInv(r: Retriever, tuple: Tuple)
    requires Inv(r) && |r.results| < r.desiredSize as int
    ensures Inv(OnNext(r, tuple).state)
  {
    OrderedSets.AddKeepsDistinct(r.results, tuple);
  }

  /** Delivering tuples one by one never raises anything: either every
      delivery is answered with one request, every tuple is collected and
      the set stays short, or the run ends with a cancel, a full set and the
      permit back. */
  lemma {:induction false} FeedNeverGivesUp(r: Retriever, tuples: seq<Tuple>)
    requires Inv(r) && |r.results| < r.desiredSize as int && r.subscription.Some?
    ensures var s := Feed(OnNext, r, tuples);
            && s.completion.Returned?
            && Inv(s.state)
            && s.state.initialized == r.initialized
            && (Cancel !in s.sent ==> Requests(s.sent) == |tuples| && |s.state.results| < r.desiredSize as int
                                      && s.state.permits == r.permits
                                      && s.state.results == OrderedSets.AddAll(r.results, tuples))
            && (Cancel in s.sent ==> |s.state.results| == r.desiredSize as int && s.state.permits == r.permits + 1)
    decreases |tuples|
  {
    if |tuples| > 0 {
      var first := OnNext(r, tuples[0]);
      OnNextReactions(r, tuples[0]);
      OnNextKeepsInv(r, tuples[0]);
      if Cancel !in first.sent {
        FeedNeverGivesUp(first.state, tuples[1..]);
        var rest := Feed(OnNext, first.state, tuples[1..]);
        assert Feed(OnNext, r, tuples) == Step(rest.state, first.sent + rest.sent, rest.completion);
        assert OrderedSets.AddAll(r.results, tuples) == OrderedSets.AddAll(first.state.results, tuples[1..]);
        RequestsConcat(first.sent, rest.sent);
        assert Cancel in first.sent + rest.sent <==> Cancel in rest.sent;
      } else {
        assert Feed(OnNext, r, tuples) == first;
      }
    } else {
      assert Feed(OnNext, r, tuples) == Step(r, [], Returned);
    }
  }

  /** A `call()` waiting for the permit `onSubscribe` took is woken once
      the set is full, and returns it. */
  lemma FullSetWakesCall(r: Retriever, tuples: seq<Tuple>)
    requires Inv(r) && |r.results| < r.desiredSize as int && r.subscription.Some?
    requires r.initialized && r.permits == 0
    ensures Call(r, false).completion.Blocked?
    ensures var s := Feed(OnNext, r, tuples);
            Cancel in s.sent ==> Call(s.state, false).completion.Returned? && |s.state.results| == r.desiredSize as int
  {
    FeedNeverGivesUp(r, tuples);
  }

  /** `onError` always wraps, even an unchecked exception, unlike the
      newer task; and the retriever is no longer initialized, so a later
      `call()` raises IllegalArgumentException. */
  lemma ErrorThenCallFails(r: Retriever, error: Throwable, interrupted: bool)
    ensures OnError(r, error).completion.error.IllegalState?
    ensures Call(OnError(r, error).state, interrupted).completion == Threw(IllegalArgument)
    ensures Call(Close(r), interrupted).completion == Threw(IllegalArgument)
  {
  }

  /** The interrupt as written: `notify()` outside the monitor raises
      IllegalMonitorStateException, never the IllegalStateException the
      handler builds. */
  lemma InterruptRaisesMonitorState(r: Retriever, subscription: Option<Endpoint>)
    ensures OnSubscribeAsWritten(r, subscription, true).completion == Threw(IllegalMonitorState)
    ensures OnSubscribeAsWritten(r, subscription, true).completion != OnSubscribe(r, subscription, true).completion
  {
  }
}
