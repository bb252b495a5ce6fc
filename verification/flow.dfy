/** The reactive-streams signals the stages and retrievers exchange, and the
    counting semaphore the retrievers wait on.

    A publisher talks to its subscribers with `onSubscribe`, `onNext`,
    `onError` and `onComplete`; a subscriber talks back through its
    subscription with `request(n)` and `cancel()`.  Threads are not
    modelled: every handler is one step that returns the new state, the
    signals it sent and how it finished. */
module Flow {
  import opened Base
  import Tuples

  /** Identity of a subscriber, or of the subscription a stage was handed. */
  type Endpoint = nat

  /** Signals towards subscribers. */
  datatype Downstream =
    | Subscribed
    | Next(tuple: Tuples.Tuple)
    | Error(error: Throwable)
    | Complete

  /** Signals towards the publisher, through a subscription. */
  datatype Upstream = Request(n: int) | Cancel

  /** How a handler finished: it returned, it threw, or it is still waiting
      for a semaphore permit. */
  datatype Completion = Returned | Threw(error: Throwable) | Blocked

  /** One handler invocation: the state afterwards, the upstream signals it
      sent, in order, and how it finished. */
  datatype Step<S> = Step(state: S, sent: seq<Upstream>, completion: Completion)

  /** `subscribers.forEach(s -> s.signal(...))`: every subscriber receives the
      signal once.  The set is a `HashSet`, whose iteration order the model
      leaves open. */
  function Broadcast(subscribers: set<Endpoint>, signal: Downstream): (r: set<(Endpoint, Downstream)>)
    ensures forall s :: s in subscribers <==> (s, signal) in r
    ensures forall d :: d in r ==> d.1 == signal && d.0 in subscribers
  {
    set s | s in subscribers :: (s, signal)
  }

  /** `Semaphore.acquire()` as one event: an interrupted caller gets
      InterruptedException at once; with no permit left the caller waits;
      otherwise it takes one permit. */
  datatype Acquisition = Acquired(permits: int) | Waits | InterruptedAcquire

  function Acquire(permits: int, interrupted: bool): (r: Acquisition)
    ensures interrupted <==> r.InterruptedAcquire?
    ensures r.Waits? <==> !interrupted && permits <= 0
    ensures r.Acquired? ==> r.permits == permits - 1 && r.permits >= 0
  {
    if interrupted then InterruptedAcquire
    else if permits <= 0 then Waits
    else Acquired(permits - 1)
  }

  /** `Semaphore.release()`: one permit more, whether or not one was taken. */
  function Release(permits: int): int
  {
    permits + 1
  }

  /** The number of `request` signals among `sent`. */
  function Requests(sent: seq<Upstream>): nat
  {
    if |sent| == 0 then 0 else (if sent[0].Request? then 1 else 0) + Requests(sent[1..])
  }

  lemma {:induction false} RequestsConcat(a: seq<Upstream>, b: seq<Upstream>)
    ensures Requests(a + b) == Requests(a) + Requests(b)
  {
    if |a| > 0 {
      assert (a + b)[1..] == a[1..] + b;
      RequestsConcat(a[1..], b);
    } else {
      assert a + b == b;
    }
  }

  /** A publisher delivering `items` one `onNext` at a time to a subscriber
      whose handler is `onNext`, stopping after a delivery the handler did
      not return from normally or answered with `cancel`.  The result
      gathers every upstream signal sent on the way. */
  function Feed<S>(onNext: (S, Tuples.Tuple) -> Step<S>, s: S, items: seq<Tuples.Tuple>): (r: Step<S>)
    decreases |items|
  {
    if |items| == 0 then Step(s, [], Returned)
    else
      var first := onNext(s, items[0]);
      if !first.completion.Returned? || Cancel in first.sent then first
      else
        var rest := Feed(onNext, first.state, items[1..]);
        Step(rest.state, first.sent + rest.sent, rest.completion)
  }

  /** Both retrievers' `onSubscribe` answer an interrupted `acquire()` with
      `notify()` and then `throw new IllegalStateException(interrupted)`.
      `notify()` requires the caller to hold the object's monitor, which a
      plain method does not, so it throws IllegalMonitorStateException and
      the intended exception is never raised. */
  const InterruptedAsWritten: Throwable := IllegalMonitorState

  /** What the interrupted handler evidently means to raise. */
  const InterruptedIntended: Throwable := IllegalState(Some(Interrupted))
}
