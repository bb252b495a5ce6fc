/** `TupleListRetriever`: a subscriber that is also the `Future` of its own
    result set.  It collects distinct tuples until it has `size` of them and
    then cancels; it is done only once the publisher signals an error or
    completion. */
module ListRetrievers {
  import opened Base
  import opened Flow
  import opened Tuples
  import Values
  import OrderedSets
  import Preconditions

  datatype ListRetriever = ListRetriever(
    size: Values.int32,
    results: seq<Tuple>,
    subscription: Option<Endpoint>,
    done: bool,
    cancelled: bool)

  /** A positive size and a result set without repeats, no larger than
      asked for. */
  ghost predicate Inv(l: ListRetriever)
  {
    && l.size > 0
    && |l.results| <= l.size as int
    && OrderedSets.Distinct(l.results)
  }

  /** The constructor: the size must be positive (IllegalArgumentException). */
  function New(size: Values.int32): (r: Result<ListRetriever>)
    ensures r.Ok? <==> size > 0
    ensures r.Err? ==> r.error == IllegalArgument
    ensures r.Ok? ==> Inv(r.value) && r.value.results == [] && !r.value.done && !r.value.cancelled
  {
    var positive := size > 0;
    :- Preconditions.CheckArgument(positive);
    Ok(ListRetriever(size, [], None, false, false))
  }

  /** `onSubscribe(subscription)`: stored, and one tuple requested; a null
      subscription raises NullPointerException. */
  function OnSubscribe(l: ListRetriever, subscription: Option<Endpoint>): (s: Step<ListRetriever>)
    ensures s.state == l.(subscription := subscription)
    ensures subscription.Some? <==> s.sent == [Request(1)] && s.completion.Returned?
    ensures subscription.None? ==> s.completion == Threw(NullPointer) && s.sent == []
  {
    var l1 := l.(subscription := subscription);
    if subscription.None? then Step(l1, [], Threw(NullPointer)) else Step(l1, [Request(1)], Returned)
  }

  /** `onNext(tuple)`: the tuple joins the result set; a full set cancels
      the subscription, anything less requests one more.  A null
      subscription raises NullPointerException. */
  function OnNext(l: ListRetriever, tuple: Tuple): (s: Step<ListRetriever>)
    ensures s.state == l.(results := OrderedSets.Add(l.results, tuple))
  {
    var l1 := l.(results := OrderedSets.Add(l.results, tuple));
    if l.subscription.None? then Step(l1, [], Threw(NullPointer))
    else if |l1.results| >= l.size as int then Step(l1, [Cancel], Returned)
    else Step(l1, [Request(1)], Returned)
  }

  /** `onError(throwable)`: done, and the cause wrapped in
      IllegalStateException. */
  function OnError(l: ListRetriever, error: Throwable): (s: Step<ListRetriever>)
    ensures s.state == l.(done := true) && s.sent == []
    ensures s.completion == Threw(IllegalState(Some(error)))
  {
    Step(l.(done := true), [], Threw(IllegalState(Some(error))))
  }

  /** `onComplete()`: done. */
  function OnComplete(l: ListRetriever): (s: Step<ListRetriever>)
    ensures s.state == l.(done := true) && s.sent == [] && s.completion.Returned?
  {
    Step(l.(done := true), [], Returned)
  }

  /** `cancel(mayInterruptIfRunning)`: the subscription is cancelled and the
      future marked cancelled; the call returns `isCancelled()` of the new
      state, which is true.  Without a subscription it raises
      NullPointerException before anything changes. */
  function CancelFuture(l: ListRetriever, mayInterruptIfRunning: bool): (s: Step<ListRetriever>)
    ensures l.subscription.None? ==> s == Step(l, [], Threw(NullPointer))
    ensures l.subscription.Some? ==> s.sent == [Cancel] && s.completion.Returned? && IsCancelled(s.state)
    ensures s.state.results == l.results && s.state.done == l.done
  {
    if l.subscription.None? then Step(l, [], Threw(NullPointer))
    else Step(l.(cancelled := true), [Cancel], Returned)
  }

  /** `isCancelled()`. */
  predicate IsCancelled(l: ListRetriever)
  {
    l.cancelled
  }

  /** `isDone()`. */
  predicate IsDone(l: ListRetriever)
  {
    l.done
  }

  /** `get()` and `get(timeout, unit)`: the results so far, without
      waiting. */
  function Get(l: ListRetriever): seq<Tuple>
  {
    l.results
  }

  /** Only the publisher's terminal signals make the future done; a full
      set, a cancel or a subscription do not. */
  lemma OnlyTerminalSignalsFinish(l: ListRetriever, tuple: Tuple, subscription: Option<Endpoint>, error: Throwable, b: bool)
    ensures IsDone(OnNext(l, tuple).state) == IsDone(l)
    ensures IsDone(OnSubscribe(l, subscription).state) == IsDone(l)
    ensures IsDone(CancelFuture(l, b).state) == IsDone(l)
    ensures IsDone(OnError(l, error).state) && IsDone(OnComplete(l).state)
    ensures IsCancelled(OnNext(l, tuple).state) == IsCancelled(l)
    ensures Get(OnComplete(l).state) == Get(l) && Get(OnError(l, error).state) == Get(l)
  {
  }

  /** The three reactions of `onNext` to a subscribed retriever. */
  lemma OnNextReactions(l: ListRetriever, tuple: Tuple)
    requires l.subscription.Some?
    ensures var s := OnNext(l, tuple);
            && s.completion.Returned?
            && (|Get(s.state)| >= l.size as int <==> s.sent == [Cancel])
            && (|Get(s.state)| < l.size as int <==> s.sent == [Request(1)])
  {
  }

  /** One delivery to a subscribed retriever that is not yet full. */
  lemma OnNextStep(l: ListRetriever, tuple: Tuple)
    requires Inv(l) && |l.results| < l.size as int && l.subscription.Some?
    ensures var s := OnNext(l, tuple);
            && s.completion.Returned?
            && Inv(s.state)
            && s.state.subscription == l.subscription && s.state.done == l.done
            && (Cancel !in s.sent ==> s.sent == [Request(1)] && |s.state.results| < l.size as int)
            && (Cancel in s.sent ==> |s.state.results| == l.size as int)
  {
    OrderedSets.AddKeepsDistinct(l.results, tuple);
  }

  /** Delivering tuples one by one: the future never becomes done, and
      either every tuple was requested and collected, in order of first
      arrival, or the run ended with a cancel and a full set. */
  lemma {:induction false} FeedCollects(l: ListRetriever, tuples: seq<Tuple>)
    requires Inv(l) && |l.results| < l.size as int && l.subscription.Some?
    ensures var s := Feed(OnNext, l, tuples);
            && s.completion.Returned?
            && Inv(s.state)
            && IsDone(s.state) == IsDone(l)
            && (Cancel !in s.sent ==> Get(s.state) == OrderedSets.AddAll(l.results, tuples) && Requests(s.sent) == |tuples|)
            && (Cancel in s.sent ==> |Get(s.state)| == l.size as int)
    decreases |tuples|
  {
    if |tuples| > 0 {
      var first := OnNext(l, tuples[0]);
      OnNextStep(l, tuples[0]);
      if Cancel !in first.sent {
        FeedCollects(first.state, tuples[1..]);
        var rest := Feed(OnNext, first.state, tuples[1..]);
        assert Feed(OnNext, l, tuples) == Step(rest.state, first.sent + rest.sent, rest.completion);
        assert OrderedSets.AddAll(l.results, tuples) == OrderedSets.AddAll(first.state.results, tuples[1..]);
        RequestsConcat(first.sent, rest.sent);
        assert Cancel in first.sent + rest.sent <==> Cancel in rest.sent;
      } else {
        assert Feed(OnNext, l, tuples) == first;
      }
    } else {
      assert Feed(OnNext, l, tuples) == Step(l, [], Returned);
    }
  }

  /** A run that never cancelled holds exactly the tuples it started with
      and the ones delivered, each once. */
  lemma FeedGathersEveryTuple(l: ListRetriever, tuples: seq<Tuple>)
    requires Inv(l) && |l.results| < l.size as int && l.subscription.Some?
    requires Cancel !in Feed(OnNext, l, tuples).sent
    ensures var got := Get(Feed(OnNext, l, tuples).state);
            && OrderedSets.Distinct(got)
            && OrderedSets.Elements(got) == OrderedSets.Elements(l.results) + OrderedSets.Elements(tuples)
  {
    FeedCollects(l, tuples);
    OrderedSets.AddAllElements(l.results, tuples);
  }
}
