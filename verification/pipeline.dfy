/** `configureProcessingFlow`, shared by both retrievers: one query stage per
    spec of the chain, in chain order, each prepared from the statement the
    chain generates for its spec, and each subscribed to the one before it.

    Endpoints are numbered by position: stage `i` is endpoint `i`, and the
    retriever that subscribes to the last stage is endpoint `|nodes|`. */
module Pipelines {
  import opened Base
  import opened QueryProcessors
  import Chains

  /** A JDBC connection, known by identity. */
  type Connection = nat

  /** Where the retriever sits: just after the last stage. */
  function RetrieverEndpoint(specs: Chains.ParamSpecs): Flow.Endpoint
  {
    |specs.nodes|
  }

  /** The chain as `configureProcessingFlow` leaves it: stage `i` holds spec
      `i` and that spec's statement, has stage `i - 1` as its subscription
      (the first stage has none), and has stage `i + 1` as its only
      subscriber (the last stage has none yet). */
  ghost predicate Wired(specs: Chains.ParamSpecs, stages: seq<Processor>)
  {
    && |stages| == |specs.nodes|
    && (forall i :: 0 <= i < |stages| ==> StageOf(specs, i, stages[i]))
    && (forall i :: 0 <= i < |stages| - 1 ==> stages[i].subscribers == {i + 1})
    && (|stages| > 0 ==> stages[|stages| - 1].subscribers == {})
  }

  /** Stage `i` holds spec `i`, that spec's statement, and stage `i - 1` as
      its subscription. */
  ghost predicate StageOf(specs: Chains.ParamSpecs, i: nat, stage: Processor)
  {
    && i < |specs.nodes|
    && stage.spec == specs.nodes[i].item
    && stage.statement == Prepared(specs, specs.nodes[i].item)
    && stage.subscription == (if i == 0 then None else Some(i - 1))
  }

  /** `configureProcessingFlow(specs)`: without a connection the first
      `prepareStatement` raises NullPointerException; an SQLException while
      preparing is wrapped in IllegalStateException (the caller's resources
      are closed by the caller's `close()`, which the retrievers model);
      otherwise each spec gets a stage and `previous.subscribe(stage)` links
      it to the one before.  `prepareFailure` is the message of the
      SQLException the connection raises, if it raises one. */
  method ConfigureProcessingFlow(specs: Chains.ParamSpecs, connection: Option<Connection>, prepareFailure: Option<string>)
    returns (r: Result<seq<Processor>>)
    requires Chains.Valid(specs)
    ensures connection.None? <==> r == Err(NullPointer)
    ensures connection.Some? && prepareFailure.Some? ==> r == Err(IllegalState(Some(SqlFailure(prepareFailure.value))))
    ensures r.Ok? <==> connection.Some? && prepareFailure.None?
    ensures r.Ok? ==> Wired(specs, r.value)
  {
    if connection.None? {
      return Err(NullPointer);
    }
    if prepareFailure.Some? {
      return Err(IllegalState(Some(SqlFailure(prepareFailure.value))));
    }
    var stages: seq<Processor> := [];
    var i := 0;
    while i < |specs.nodes|
      invariant 0 <= i <= |specs.nodes| && |stages| == i
      invariant forall j :: 0 <= j < i ==> StageOf(specs, j, stages[j])
      invariant forall j :: 0 <= j < i - 1 ==> stages[j].subscribers == {j + 1}
      invariant i > 0 ==> stages[i - 1].subscribers == {}
    {
      var spec := specs.nodes[i].item;
      var created := New(Some(spec), Some(Prepared(specs, spec)));
      var stage := created.value;
      if i > 0 {
        var (previous, _) := Subscribe(stages[i - 1], i);
        stage := OnSubscribe(stage, Some(i - 1));
        stages := stages[i - 1 := previous];
      }
      stages := stages + [stage];
      i := i + 1;
    }
    return Ok(stages);
  }

  /** `processors.getLast().subscribe(retriever)`: the last stage gains the
      retriever as its subscriber, which is then handed the last stage as
      its subscription. */
  function SubscribeRetriever(specs: Chains.ParamSpecs, stages: seq<Processor>): (r: (seq<Processor>, Flow.Endpoint))
    requires |stages| > 0
    ensures |r.0| == |stages| && r.0[..|stages| - 1] == stages[..|stages| - 1]
    ensures RetrieverEndpoint(specs) in r.0[|stages| - 1].subscribers
    ensures r.1 == |stages| - 1
  {
    var last := |stages| - 1;
    (stages[last := Subscribe(stages[last], RetrieverEndpoint(specs)).0], last)
  }

  /** In a wired chain, a request a stage makes reaches the stage before
      it, and every stage but the last relays its signals to the next. */
  lemma WiredChainLinksNeighbours(specs: Chains.ParamSpecs, stages: seq<Processor>, i: nat, n: int)
    requires Wired(specs, stages) && 0 < i < |stages|
    ensures Request(stages[i], n) == Some((i - 1, Flow.Request(n)))
    ensures Cancel(stages[i]) == Some((i - 1, Flow.Cancel))
    ensures OnComplete(stages[i - 1]) == {(i, Flow.Complete)}
    ensures Request(stages[0], n).None?
  {
    assert StageOf(specs, i, stages[i]) && StageOf(specs, 0, stages[0]);
  }
}
