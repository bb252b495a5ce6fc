/** `DefaultFindParametersTask`: the subscriber at the end of the stage chain
    that collects distinct tuples until it has `desiredSize` of them, giving
    up once it has requested more than `TRYS_MULTIPLE` times that many.

    Each handler is one step (see `Flow.Step`).  The semaphore is its permit
    count; closing statements and the connection has no observable effect in
    the model beyond `initialized`. */
module FindTasks {
  import opened Base
  import opened Flow
  import opened Tuples
  import Values
  import OrderedSets
  import Preconditions
  import Chains
  import Pipelines
  import QueryProcessors

  /** `TRYS_MULTIPLE`. */
  const TrysMultiple: int := 4

  datatype Task = Task(
    specs: Chains.ParamSpecs,
    desiredSize: Values.int32,
    results: seq<Tuple>,
    permits: int,
    connection: Option<Pipelines.Connection>,
    stages: seq<QueryProcessors.Processor>,
    initialized: bool,
    totalRequests: int,
    subscription: Option<Endpoint>)

  /** How many requests the finder may make before giving up. */
  function Budget(t: Task): int
  {
    t.desiredSize as int * TrysMultiple
  }

  /** What every task keeps true while it is collecting: a positive size, a
      result set without repeats and no larger than asked for, and a request
      count within one of the budget. */
  ghost predicate Inv(t: Task)
  {
    && t.desiredSize > 0
    && |t.results| <= t.desiredSize as int
    && OrderedSets.Distinct(t.results)
    && 0 <= t.totalRequests <= Budget(t) + 1
  }

  /** The constructor: the chain is required (NullPointerException) and the
      size must be positive (IllegalArgumentException).  A new task has no
      results, one semaphore permit, no connection and no subscription. */
  function New(specs: Option<Chains.ParamSpecs>, desiredSize: Values.int32): (r: Result<Task>)
    ensures specs.None? ==> r == Err(NullPointer)
    ensures specs.Some? && desiredSize <= 0 ==> r == Err(IllegalArgument)
    ensures r.Ok? <==> specs.Some? && desiredSize > 0
    ensures r.Ok? ==> Inv(r.value) && r.value.results == [] && r.value.totalRequests == 0
                      && r.value.permits == 1 && !r.value.initialized && r.value.subscription.None?
  {
    var chain :- Preconditions.CheckNotNull(specs);
    :- Preconditions.CheckArgument(desiredSize > 0);
    Ok(Task(chain, desiredSize, [], 1, None, [], false, 0, None))
  }

  /** `close()`: statements and connection are closed quietly and the finder
      must be initialized again. */
  function Close(t: Task): (r: Task)
    ensures !r.initialized && r == t.(initialized := false)
  {
    t.(initialized := false)
  }

  /** `initialize(connection)`: a connection is required
      (NullPointerException); the finder is closed and then holds it. */
  function Initialize(t: Task, connection: Option<Pipelines.Connection>): (r: Result<Task>)
    ensures connection.None? <==> r == Err(NullPointer)
    ensures r.Ok? ==> r.value == t.(initialized := false, connection := connection)
  {
    var c :- Preconditions.CheckNotNull(connection);
    Ok(Close(t).(connection := Some(c)))
  }

  /** `cleanupFlow()`: one permit back, then `close()`. */
  function CleanupFlow(t: Task): (r: Task)
    ensures r.permits == t.permits + 1 && !r.initialized
    ensures r == t.(permits := r.permits, initialized := false)
  {
    Close(t.(permits := Release(t.permits)))
  }

  /** `onSubscribe(subscription)` with the exception its interrupted branch
      raises: the subscription is stored, a permit is taken, and the first
      request is counted and sent.  A null subscription raises
      NullPointerException at `request`, after the count. */
  function OnSubscribeRaising(t: Task, subscription: Option<Endpoint>, interrupted: bool, onInterrupt: Throwable): (r: Step<Task>)
    ensures r.state.subscription == subscription
    ensures interrupted ==> r == Step(t.(subscription := subscription), [], Threw(onInterrupt))
    ensures !interrupted && t.permits <= 0 ==> r.completion.Blocked? && r.sent == []
    ensures !interrupted && t.permits > 0 ==>
              && r.state == t.(subscription := subscription, permits := t.permits - 1, totalRequests := t.totalRequests + 1)
              && (subscription.None? ==> r.sent == [] && r.completion == Threw(NullPointer))
              && (subscription.Some? ==> r.sent == [Request(1)] && r.completion.Returned?)
  {
    var t1 := t.(subscription := subscription);
    match Acquire(t.permits, interrupted)
    case InterruptedAcquire => Step(t1, [], Threw(onInterrupt))
    case Waits => Step(t1, [], Blocked)
    case Acquired(permits) =>
      var t2 := t1.(permits := permits, totalRequests := t.totalRequests + 1);
      if subscription.None? then Step(t2, [], Threw(NullPointer))
      else Step(t2, [Request(1)], Returned)
  }

  /** `onSubscribe` as written: the interrupted branch's `notify()` raises
      IllegalMonitorStateException. */
  function OnSubscribeAsWritten(t: Task, subscription: Option<Endpoint>, interrupted: bool): (r: Step<Task>)
    ensures interrupted ==> r.completion == Threw(InterruptedAsWritten)
    ensures !interrupted ==> r == OnSubscribe(t, subscription, interrupted)
  {
    OnSubscribeRaising(t, subscription, interrupted, InterruptedAsWritten)
  }

  /** `onSubscribe` as intended: an interrupted wait surfaces as
      IllegalStateException caused by the interruption. */
  function OnSubscribe(t: Task, subscription: Option<Endpoint>, interrupted: bool): (r: Step<Task>)
    ensures interrupted ==> r.completion == Threw(IllegalState(Some(Interrupted))) && r.sent == []
  {
    OnSubscribeRaising(t, subscription, interrupted, InterruptedIntended)
  }

  /** `onError(throwable)`: the flow is cleaned up; an Error or a
      RuntimeException is rethrown as it is, anything else is wrapped in
      IllegalStateException. */
  function OnError(t: Task, error: Throwable): (r: Step<Task>)
    ensures r.state == CleanupFlow(t) && r.sent == []
    ensures error.VmError? || error.IsRuntime() ==> r.completion == Threw(error)
    ensures !(error.VmError? || error.IsRuntime()) ==> r.completion == Threw(IllegalState(Some(error)))
  {
    Step(CleanupFlow(t), [], Threw(if error.VmError? || error.IsRuntime() then error else IllegalState(Some(error))))
  }

  /** `onComplete()`: the flow is cleaned up. */
  function OnComplete(t: Task): (r: Step<Task>)
    ensures r.state.permits == t.permits + 1 && !r.state.initialized
    ensures r.state.results == t.results && r.sent == [] && r.completion.Returned?
  {
    Step(CleanupFlow(t), [], Returned)
  }

  /** `onNext(tuple)` against a given request limit: the tuple joins the
      result set; a full set cancels the subscription and cleans up; past
      the limit the subscription is cancelled and `onError` raises
      IllegalStateException; otherwise one more request is counted and
      sent.  A null subscription raises NullPointerException at `cancel` or
      `request`. */
  function OnNextLimited(t: Task, tuple: Tuple, limit: int): (r: Step<Task>)
  {
    var t1 := t.(results := OrderedSets.Add(t.results, tuple));
    if |t1.results| >= t.desiredSize as int then
      if t.subscription.None? then Step(t1, [], Threw(NullPointer))
      else Step(CleanupFlow(t1), [Cancel], Returned)
    else if t.totalRequests > limit then
      if t.subscription.None? then Step(t1, [], Threw(NullPointer))
      else
        var failed := OnError(t1, IllegalState(None));
        Step(failed.state, [Cancel] + failed.sent, failed.completion)
    else
      var t2 := t1.(totalRequests := t.totalRequests + 1);
      if t.subscription.None? then Step(t2, [], Threw(NullPointer))
      else Step(t2, [Request(1)], Returned)
  }

  /** `onNext` with the limit `desiredSize * TRYS_MULTIPLE` computed without
      overflow. */
  function OnNext(t: Task, tuple: Tuple): (r: Step<Task>)
    ensures r.state.results == OrderedSets.Add(t.results, tuple)
    ensures r.state.desiredSize == t.desiredSize && r.state.specs == t.specs
  {
    OnNextLimited(t, tuple, Budget(t))
  }

  /** `onNext` as written: `desiredSize * TRYS_MULTIPLE` is an `int`
      product and wraps around for sizes from 2^29 on. */
  function OnNextAsWritten(t: Task, tuple: Tuple): (r: Step<Task>)
    ensures Budget(t) < 0x8000_0000 ==> r == OnNext(t, tuple)
  {
    OnNextLimited(t, tuple, Values.Wrap32(Budget(t)))
  }

  /** The three reactions of `onNext` to a subscribed task. */
  lemma OnNextReactions(t: Task, tuple: Tuple)
    requires t.subscription.Some?
    ensures var r := OnNext(t, tuple);
            && (|r.state.results| >= t.desiredSize as int ==>
                  r.sent == [Cancel] && r.completion.Returned? && r.state.permits == t.permits + 1 && !r.state.initialized)
            && (|r.state.results| < t.desiredSize as int && t.totalRequests > Budget(t) ==>
                  r.sent == [Cancel] && r.completion == Threw(IllegalState(None))
                  && r.state.permits == t.permits + 1 && !r.state.initialized)
            && (|r.state.results| < t.desiredSize as int && t.totalRequests <= Budget(t) ==>
                  r.sent == [Request(1)] && r.completion.Returned? && r.state.totalRequests == t.totalRequests + 1)
  {
  }

  /** A tuple already collected leaves the result set as it was, yet costs
      one request of the budget. */
  lemma DuplicateDoesNotGrow(t: Task, tuple: Tuple)
    requires tuple in t.results && t.subscription.Some?
    ensures OnNext(t, tuple).state.results == t.results
    ensures |t.results| < t.desiredSize as int && t.totalRequests <= Budget(t) ==>
              OnNext(t, tuple).sent == [Request(1)] && OnNext(t, tuple).state.totalRequests == t.totalRequests + 1
  {
  }

  /** The first `onSubscribe` of a new task keeps the invariant; it counts
      its request. */
  lemma OnSubscribeKeepsInv(t: Task, subscription: Option<Endpoint>, interrupted: bool)
    requires Inv(t) && t.totalRequests <= Budget(t)
    ensures Inv(OnSubscribe(t, subscription, interrupted).state)
    ensures subscription.Some? ==>
              OnSubscribe(t, subscription, interrupted).state.totalRequests
                == t.totalRequests + Requests(OnSubscribe(t, subscription, interrupted).sent)
  {
  }

  /** While the set is not full, `onNext` keeps the invariant, and every
      request it sends is counted. */
  lemma OnNextKeepsInv(t: Task, tuple: Tuple)
    requires Inv(t) && |t.results| < t.desiredSize as int
    ensures Inv(OnNext(t, tuple).state)
    ensures t.subscription.Some? ==> OnNext(t, tuple).state.totalRequests == t.totalRequests + Requests(OnNext(t, tuple).sent)
  {
    OrderedSets.AddKeepsDistinct(t.results, tuple);
  }

  /** Delivering tuples one by one: the invariant holds throughout, the
      task's count is exactly the requests it sent, and it never sends more
      than the budget allows in all. */
  lemma {:induction false} FeedCountsRequests(t: Task, tuples: seq<Tuple>)
    requires Inv(t) && |t.results| < t.desiredSize as int && t.subscription.Some?
    ensures var r := Feed(OnNext, t, tuples);
            && Inv(r.state)
            && r.state.totalRequests == t.totalRequests + Requests(r.sent)
            && t.totalRequests + Requests(r.sent) <= Budget(t) + 1
    decreases |tuples|
  {
    if |tuples| > 0 {
      var first := OnNext(t, tuples[0]);
      OnNextKeepsInv(t, tuples[0]);
      if first.completion.Returned? && Cancel !in first.sent {
        OnNextReactions(t, tuples[0]);
        assert first.sent == [Request(1)];
        FeedCountsRequests(first.state, tuples[1..]);
        var rest := Feed(OnNext, first.state, tuples[1..]);
        RequestsConcat(first.sent, rest.sent);
        assert Feed(OnNext, t, tuples) == Step(rest.state, first.sent + rest.sent, rest.completion);
      } else {
        assert Feed(OnNext, t, tuples) == first;
      }
    } else {
      assert Feed(OnNext, t, tuples).sent == [];
    }
  }

  /** Whatever the upstream delivers, the finder cancels its subscription
      within `Budget + 2 - totalRequests` deliveries: either the set fills up
      or the budget runs out. */
  lemma {:induction false} FeedEndsWithinBudget(t: Task, tuples: seq<Tuple>)
    requires Inv(t) && |t.results| < t.desiredSize as int && t.subscription.Some?
    requires |tuples| >= Budget(t) + 2 - t.totalRequests
    ensures Cancel in Feed(OnNext, t, tuples).sent
    decreases |tuples|
  {
    var first := OnNext(t, tuples[0]);
    OnNextReactions(t, tuples[0]);
    OnNextKeepsInv(t, tuples[0]);
    if first.completion.Returned? && Cancel !in first.sent {
      FeedEndsWithinBudget(first.state, tuples[1..]);
    }
  }

  /** How a run of deliveries ends: with no cancel the finder is still
      collecting, has gathered every tuple and holds its permit; a cancel comes with the permit back,
      and either a full set returned normally or IllegalStateException for a
      set that stayed short. */
  lemma {:induction false} FeedEnds(t: Task, tuples: seq<Tuple>)
    requires Inv(t) && |t.results| < t.desiredSize as int && t.subscription.Some?
    ensures var r := Feed(OnNext, t, tuples);
            && (Cancel !in r.sent ==> r.completion.Returned? && r.state.permits == t.permits && |r.state.results| < t.desiredSize as int
                                      && r.state.results == OrderedSets.AddAll(t.results, tuples))
            && (Cancel in r.sent ==> r.state.permits == t.permits + 1 && !r.state.initialized)
            && (Cancel in r.sent && r.completion.Returned? ==> |r.state.results| == t.desiredSize as int)
            && (Cancel in r.sent && !r.completion.Returned? ==>
                  r.completion == Threw(IllegalState(None)) && |r.state.results| < t.desiredSize as int)
    decreases |tuples|
  {
    if |tuples| > 0 {
      var first := OnNext(t, tuples[0]);
      OnNextReactions(t, tuples[0]);
      OnNextKeepsInv(t, tuples[0]);
      if first.completion.Returned? && Cancel !in first.sent {
        FeedEnds(first.state, tuples[1..]);
        var rest := Feed(OnNext, first.state, tuples[1..]);
        assert Feed(OnNext, t, tuples) == Step(rest.state, first.sent + rest.sent, rest.completion);
        assert OrderedSets.AddAll(t.results, tuples) == OrderedSets.AddAll(first.state.results, tuples[1..]);
        assert Cancel in first.sent + rest.sent <==> Cancel in rest.sent;
      } else {
        assert Feed(OnNext, t, tuples) == first;
      }
    } else {
      assert Feed(OnNext, t, tuples) == Step(t, [], Returned);
    }
  }

  /** A `call()` waiting for the permit its own `onSubscribe` took is woken
      by the end of the flow, however it ends. */
  lemma EndOfFlowWakesCall(t: Task, tuples: seq<Tuple>, error: Throwable)
    requires Inv(t) && |t.results| < t.desiredSize as int && t.subscription.Some? && t.permits == 0
    ensures Collect(t, false).completion.Blocked?
    ensures Cancel in Feed(OnNext, t, tuples).sent ==> Collect(Feed(OnNext, t, tuples).state, false).completion.Returned?
    ensures Collect(OnComplete(t).state, false).completion.Returned?
    ensures Collect(OnError(t, error).state, false).completion.Returned?
  {
    FeedEnds(t, tuples);
  }

  /** With the budget computed without overflow, the finder gives up exactly
      when it has already made more than `Budget` requests and the set is
      still short. */
  lemma GivesUpOnlyPastBudget(t: Task, tuple: Tuple)
    requires t.subscription.Some?
    ensures OnNext(t, tuple).completion == Threw(IllegalState(None)) <==>
              |OrderedSets.Add(t.results, tuple)| < t.desiredSize as int && t.totalRequests > Budget(t)
  {
  }

  /** The overflow as written: with `desiredSize` 2^29 the product is
      `Integer.MIN_VALUE`, so the first delivery already counts as past the
      limit and the finder gives up, where the intended budget asks for more. */
  lemma OverflowGivesUpAtOnce(t: Task, tuple: Tuple)
    requires t.desiredSize == 0x2000_0000 && t.totalRequests == 1 && t.results == [] && t.subscription.Some?
    ensures Values.Wrap32(Budget(t)) == -0x8000_0000
    ensures OnNextAsWritten(t, tuple).completion == Threw(IllegalState(None))
    ensures OnNext(t, tuple).sent == [Request(1)] && OnNext(t, tuple).completion.Returned?
  {
  }

  /** The interrupt as written: `notify()` outside the monitor raises
      IllegalMonitorStateException, never the IllegalStateException the
      handler builds. */
  lemma InterruptRaisesMonitorState(t: Task, subscription: Option<Endpoint>)
    ensures OnSubscribeAsWritten(t, subscription, true).completion == Threw(IllegalMonitorState)
    ensures OnSubscribeAsWritten(t, subscription, true).completion != OnSubscribe(t, subscription, true).completion
  {
  }

  /** The rest of `call()` once the flow is set up, which is also what a
      waiting `call()` does when a permit comes back: take the permit,
      return the result set (the new state's `results`) and release the
      permit again.  An interrupted wait raises InterruptedException. */
  function Collect(t: Task, interrupted: bool): (r: Step<Task>)
    ensures r.state == t && r.sent == []
    ensures r.completion.Returned? <==> !interrupted && t.permits > 0
    ensures r.completion.Blocked? <==> !interrupted && t.permits <= 0
    ensures interrupted ==> r.completion == Threw(Interrupted)
  {
    match Acquire(t.permits, interrupted)
    case InterruptedAcquire => Step(t, [], Threw(Interrupted))
    case Waits => Step(t, [], Blocked)
    case Acquired(_) => Step(t, [], Returned)
  }

  /** `call()`: an uninitialized task builds the stage chain from its
      connection and subscribes to the last stage (whose `onSubscribe`
      takes the permit and sends the first request), then collects.
      `prepareFailure` is the SQLException message preparing a statement
      raises, if it raises one.  This composes the corrected `OnSubscribe`:
      an interrupted first call raises IllegalStateException wrapping the
      InterruptedException, where the code as written raises
      IllegalMonitorStateException (`OnSubscribeAsWritten`). */
  method Call(t: Task, prepareFailure: Option<string>, interrupted: bool) returns (r: Step<Task>)
    requires Chains.Valid(t.specs)
    ensures !t.initialized && t.connection.None? ==> r == Step(t, [], Threw(NullPointer))
    ensures !t.initialized && t.connection.Some? && prepareFailure.Some? ==>
              r == Step(t, [], Threw(IllegalState(Some(SqlFailure(prepareFailure.value)))))
    ensures t.initialized ==> r == Collect(t, interrupted)
    ensures !t.initialized && t.connection.Some? && prepareFailure.None? && !interrupted && t.permits == 1 ==>
              && r.completion.Blocked? && r.sent == [Request(1)]
              && r.state.initialized && r.state.subscription == Some(|t.specs.nodes| - 1)
              && r.state.totalRequests == t.totalRequests + 1
    ensures !t.initialized && t.connection.Some? && prepareFailure.None? && interrupted ==>
              r.completion == Threw(IllegalState(Some(Interrupted))) && r.sent == []
  {
    if t.initialized {
      return Collect(t, interrupted);
    }
    var configured := Pipelines.ConfigureProcessingFlow(t.specs, t.connection, prepareFailure);
    if configured.Err? {
      return Step(t, [], Threw(configured.error));
    }
    var (stages, last) := Pipelines.SubscribeRetriever(t.specs, configured.value);
    var subscribed := OnSubscribe(t.(stages := stages), Some(last), interrupted);
    if !subscribed.completion.Returned? {
      return subscribed;
    }
    var ready := subscribed.state.(initialized := true);
    var collected := Collect(ready, interrupted);
    return Step(collected.state, subscribed.sent + collected.sent, collected.completion);
  }
}
