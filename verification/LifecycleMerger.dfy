/** Merging one accepted HTTP lifecycle message into the exchange it belongs to. */
module LifecycleMerger {
  import opened Wrappers
  import opened CaptureModel

  datatype MergeResult = Applied(exchange: HttpExchange) | IgnoredStale(key: ExchangeKey, revision: nat) | NoExchange

  datatype Context = Context(source: Source, sessionId: string, arrivalSequence: nat, receivedAt: string)

  function MissingStart(context: Context, exchangeId: string, revision: nat, sentAt: string): HttpExchange {
    HttpExchange(
      1, exchangeId, context.sessionId, revision, context.arrivalSequence, context.source, None,
      Lifecycle(InFlight, sentAt, context.receivedAt, context.receivedAt),
      HttpRequest("UNKNOWN", "capture://missing-request/" + exchangeId, Some("capture"), Some("missing-request"),
                  None, Some("/" + exchangeId), ""),
      None, Timing(None, "unavailable"), Sizes(None, "unavailable"), None, None, "unavailable",
      ["missing-start"], map["capture.missingStart" := Flag(true)])
  }

  function BeginOrCurrent(current: Option<HttpExchange>, context: Context, exchangeId: string, revision: nat,
                          sentAt: string)
    : Option<HttpExchange>
  {
    match current
    case Some(exchange) => if revision <= exchange.revision then None else Some(exchange)
    case None => Some(MissingStart(context, exchangeId, revision, sentAt))
  }

  function Patched(metadata: Metadata, patch: Option<Metadata>): Metadata {
    if patch.Some? then metadata + patch.value else metadata
  }

  /** The field assignments of each lifecycle branch, on an exchange that is newer than what is stored. */
  function WithEvent(exchange: HttpExchange, event: HttpEvent): HttpExchange
    requires !event.Snapshot?
  {
    match event
    case Started(request, timing, tags, correlation, metadata) =>
      var started := exchange.(request := request, timing := timing, tags := tags, correlation := correlation,
                               metadata := metadata);
      if IsTerminal(exchange.lifecycle.state) then started
      else started.(lifecycle := exchange.lifecycle.(state := InFlight))
    case CompletedWith(response, timing, sizes, capture, patch) =>
      exchange.(response := Some(response), timing := timing, sizes := sizes, capture := capture, failure := None,
                lifecycle := exchange.lifecycle.(state := Completed), metadata := Patched(exchange.metadata, patch))
    case FailedWith(failure, partial, timing, sizes, capture, patch) =>
      exchange.(response := partial, timing := timing, sizes := sizes, capture := capture, failure := Some(failure),
                lifecycle := exchange.lifecycle.(state := Failed), metadata := Patched(exchange.metadata, patch))
    case CancelledBy(origin, timing, sizes, capture) =>
      exchange.(timing := timing, sizes := sizes, capture := capture, failure := None,
                lifecycle := exchange.lifecycle.(state := Cancelled),
                metadata := exchange.metadata["capture.cancellationOrigin" := Text(origin)])
  }

  function Finish(rules: Rules, exchange: HttpExchange): Result<MergeResult, string> {
    var error := ExchangeError(rules, exchange);
    if error.Some? then Failure(error.value) else Success(Applied(exchange))
  }

  /** The snapshot's own exchange, with the fields the hub owns filled in. */
  function Adopted(context: Context, revision: nat, exchange: HttpExchange): HttpExchange {
    exchange.(sessionId := context.sessionId, source := context.source, revision := revision,
              arrivalSequence := context.arrivalSequence,
              lifecycle := exchange.lifecycle.(receivedAt := context.receivedAt, lastUpdatedAt := context.receivedAt))
  }

  function Merge(rules: Rules, current: Option<HttpExchange>, context: Context, payload: Payload): Result<MergeResult,
    string> {
    match payload
    case Heartbeat => Success(NoExchange)
    case Database(_, _, _, _) => Failure("database message was sent to the HTTP lifecycle merger")
    case Http(exchangeId, revision, sentAt, event) =>
      if event.Snapshot? then
        if current.Some? && revision <= current.value.revision then
          Success(IgnoredStale(ExchangeKey(context.source.instanceId, exchangeId), revision))
        else if event.exchange.id != exchangeId then
          Failure("snapshot exchange ID must match message exchange ID")
        else
          Finish(rules, Adopted(context, revision, event.exchange))
      else
        match BeginOrCurrent(current, context, exchangeId, revision, sentAt)
        case None => Success(IgnoredStale(ExchangeKey(context.source.instanceId, exchangeId), revision))
        case Some(exchange) =>
          var updated := WithEvent(exchange, event);
          Finish(rules, updated.(revision := revision,
                                 lifecycle := updated.lifecycle.(lastUpdatedAt := context.receivedAt)))
  }

  /** `current`, when there is one, is the exchange stored under the message's own key. */
  predicate OwnEntry(current: Option<HttpExchange>, context: Context, exchangeId: string) {
    current.Some? ==>
      && KeyOf(current.value) == ExchangeKey(context.source.instanceId, exchangeId)
      && current.value.arrivalSequence == context.arrivalSequence
  }

  /**
   What an applied message does to identity and progress: the entry keeps its key and arrival
   sequence, takes the message's revision, which is strictly newer, passes validation, and leaves a
   terminal state only through a snapshot.
   */
  lemma AppliedKeepsIdentity(rules: Rules, current: Option<HttpExchange>, context: Context, payload: Payload)
    requires payload.Http? && OwnEntry(current, context, payload.exchangeId)
    ensures var r := Merge(rules, current, context, payload);
      r.Success? && r.value.Applied? ==>
        && KeyOf(r.value.exchange) == ExchangeKey(context.source.instanceId, payload.exchangeId)
        && r.value.exchange.arrivalSequence == context.arrivalSequence
        && r.value.exchange.revision == payload.revision
        && ExchangeError(rules, r.value.exchange).None?
        && (current.Some? ==> current.value.revision < payload.revision)
        && ((current.Some? && IsTerminal(current.value.lifecycle.state) && !payload.event.Snapshot?) ==>
             IsTerminal(r.value.exchange.lifecycle.state))
  {
  }

  /** A message is ignored exactly when the entry it would change has already reached its revision. */
  lemma StaleExactlyWhenNotNewer(rules: Rules, current: Option<HttpExchange>, context: Context, payload: Payload)
    requires payload.Http?
    ensures var r := Merge(rules, current, context, payload);
      (r.Success? && r.value.IgnoredStale?) <==> (current.Some? && payload.revision <= current.value.revision)
  {
  }

  function OutcomeState(event: HttpEvent): LifecycleState {
    match event
    case Started(_, _, _, _, _) => InFlight
    case CompletedWith(_, _, _, _, _) => Completed
    case FailedWith(_, _, _, _, _, _) => Failed
    case CancelledBy(_, _, _, _) => Cancelled
    case Snapshot(exchange) => exchange.lifecycle.state
  }

  /**
   A start and then an outcome, merged one after the other: the exchange keeps what the start said about
   the request, and ends in the outcome's state with its failure, or without one.
   */
  lemma OutcomeOverStart(rules: Rules, context: Context, start: Payload, outcome: Payload)
    requires start.Http? && start.event.Started? && outcome.Http? && !outcome.event.Started? && !outcome.event.Snapshot?
    requires start.exchangeId == outcome.exchangeId
    requires var first := Merge(rules, None, context, start);
      && first.Success?
      && var second := Merge(rules, Some(first.value.exchange), context, outcome);
         second.Success? && second.value.Applied?
    ensures var started := Merge(rules, None, context, start).value.exchange;
      var ended := Merge(rules, Some(started), context, outcome).value.exchange;
      && started.lifecycle.state == InFlight && ended.lifecycle.state == OutcomeState(outcome.event)
      && ended.request == start.event.request && ended.tags == start.event.tags
         && ended.correlation == start.event.correlation
      && (ended.failure.Some? <==> outcome.event.FailedWith?)
      && (forall name :: name in start.event.metadata ==> name in ended.metadata)
      && ended.timing == outcome.event.timing && ended.sizes == outcome.event.sizes
         && ended.capture == outcome.event.capture
      && ended.response == (match outcome.event
                            case CompletedWith(response, _, _, _, _) => Some(response)
                            case FailedWith(_, partial, _, _, _, _) => partial
                            case _ => None)
      && start.revision < outcome.revision == ended.revision
  {
    AppliedKeepsIdentity(rules, None, context, start);
    var started := Merge(rules, None, context, start).value.exchange;
    StaleExactlyWhenNotNewer(rules, Some(started), context, outcome);
  }

  /** A start that comes after the outcome changes nothing: the placeholder request stays until a snapshot. */
  lemma LateStartIsIgnored(rules: Rules, context: Context, start: Payload, outcome: Payload)
    requires start.Http? && start.event.Started? && outcome.Http? && !outcome.event.Snapshot?
    requires start.exchangeId == outcome.exchangeId && start.revision <= outcome.revision
    requires Merge(rules, None, context, outcome).Success?
    ensures var ended := Merge(rules, None, context, outcome).value.exchange;
      && Merge(rules, Some(ended), context, start)
         == Success(IgnoredStale(ExchangeKey(context.source.instanceId, start.exchangeId), start.revision))
      && (!outcome.event.Started? ==> ended.request.httpMethod == "UNKNOWN" && "missing-start" in ended.tags
                                      && "capture.missingStart" in ended.metadata)
  {
    AppliedKeepsIdentity(rules, None, context, outcome);
  }

  // ---- what a message makes of an entry, field by field

  /** `result` is `under` with every name of `over` set to its value there. */
  ghost predicate Overlays(result: Metadata, under: Metadata, over: Metadata) {
    && result.Keys == under.Keys + over.Keys
    && (forall name :: name in over ==> result[name] == over[name])
    && (forall name :: name in under && name !in over ==> result[name] == under[name])
  }

  /** What no lifecycle message but a snapshot touches. */
  ghost predicate KeepsOrigin(was: HttpExchange, e: HttpExchange) {
    && e.schemaMajor == was.schemaMajor && e.id == was.id && e.sessionId == was.sessionId && e.source == was.source
    && e.arrivalSequence == was.arrivalSequence && e.transport == was.transport
    && e.lifecycle.startedAt == was.lifecycle.startedAt && e.lifecycle.receivedAt == was.lifecycle.receivedAt
  }

  ghost predicate KeepsStart(was: HttpExchange, e: HttpExchange) {
    e.request == was.request && e.tags == was.tags && e.correlation == was.correlation
  }

  ghost predicate KeepsOutcome(was: HttpExchange, e: HttpExchange) {
    e.response == was.response && e.sizes == was.sizes && e.capture == was.capture && e.failure == was.failure
  }

  ghost predicate Measured(e: HttpExchange, timing: Timing, sizes: Sizes, capture: string) {
    e.timing == timing && e.sizes == sizes && e.capture == capture
  }

  /** The exchange as a snapshot describes it, under the hub's own session, source, numbers and times. */
  ghost predicate Restores(context: Context, snapshot: HttpExchange, e: HttpExchange) {
    && e.schemaMajor == snapshot.schemaMajor && e.id == snapshot.id && e.transport == snapshot.transport
    && KeepsStart(snapshot, e) && KeepsOutcome(snapshot, e)
    && e.timing == snapshot.timing && e.metadata == snapshot.metadata
    && e.lifecycle.state == snapshot.lifecycle.state && e.lifecycle.startedAt == snapshot.lifecycle.startedAt
    && e.sessionId == context.sessionId && e.source == context.source && e.arrivalSequence == context.arrivalSequence
    && e.lifecycle.receivedAt == context.receivedAt
  }

  /** What a message makes of the entry it meets. */
  ghost predicate Becomes(was: HttpExchange, context: Context, payload: Payload, e: HttpExchange)
    requires payload.Http?
  {
    && e.revision == payload.revision && e.lifecycle.lastUpdatedAt == context.receivedAt
    && match payload.event
       case Started(request, timing, tags, correlation, metadata) =>
         && KeepsOrigin(was, e) && KeepsOutcome(was, e)
         && e.request == request && e.timing == timing && e.tags == tags && e.correlation == correlation
         && e.metadata == metadata && e.lifecycle.state == was.lifecycle.state
       case CompletedWith(response, timing, sizes, capture, patch) =>
         && KeepsOrigin(was, e) && KeepsStart(was, e) && Measured(e, timing, sizes, capture)
         && e.lifecycle.state == Completed && e.response == Some(response) && e.failure == None
         && (if patch.Some? then Overlays(e.metadata, was.metadata, patch.value) else e.metadata == was.metadata)
       case FailedWith(failure, partial, timing, sizes, capture, patch) =>
         && KeepsOrigin(was, e) && KeepsStart(was, e) && Measured(e, timing, sizes, capture)
         && e.lifecycle.state == Failed && e.response == partial && e.failure == Some(failure)
         && (if patch.Some? then Overlays(e.metadata, was.metadata, patch.value) else e.metadata == was.metadata)
       case CancelledBy(origin, timing, sizes, capture) =>
         && KeepsOrigin(was, e) && KeepsStart(was, e) && Measured(e, timing, sizes, capture)
         && e.lifecycle.state == Cancelled && e.response == was.response && e.failure == None
         && Overlays(e.metadata, was.metadata, map["capture.cancellationOrigin" := Text(origin)])
       case Snapshot(snapshot) => snapshot.id == payload.exchangeId && Restores(context, snapshot, e)
  }

  /** The entry that stands in for a start that never came. */
  ghost predicate StandsIn(context: Context, payload: Payload, was: HttpExchange)
    requires payload.Http?
  {
    && was.schemaMajor == 1 && was.id == payload.exchangeId && was.sessionId == context.sessionId
    && was.source == context.source && was.arrivalSequence == context.arrivalSequence && was.transport == None
    && was.lifecycle == Lifecycle(InFlight, payload.sentAt, context.receivedAt, context.receivedAt)
    && was.request.httpMethod == "UNKNOWN" && was.request.url == "capture://missing-request/" + payload.exchangeId
    && was.request.scheme == Some("capture") && was.request.host == Some("missing-request") && was.request.port == None
    && was.request.path == Some("/" + payload.exchangeId) && was.request.detail == ""
    && was.response == None && was.failure == None && was.correlation == None
    && Measured(was, Timing(None, "unavailable"), Sizes(None, "unavailable"), "unavailable")
    && was.tags == ["missing-start"] && was.metadata == map["capture.missingStart" := Flag(true)]
  }

  lemma OverlayIs(result: Metadata, under: Metadata, over: Metadata)
    ensures Overlays(result, under, over) <==> result == under + over
  {
  }

  lemma OverlaysOf(was: HttpExchange, payload: Payload, e: HttpExchange)
    requires payload.Http?
    ensures match payload.event
            case CompletedWith(_, _, _, _, Some(p)) => Overlays(e.metadata, was.metadata, p) <==>
              e.metadata == was.metadata + p
            case FailedWith(_, _, _, _, _, Some(p)) => Overlays(e.metadata, was.metadata, p) <==>
              e.metadata == was.metadata + p
            case CancelledBy(origin, _, _, _) =>
              Overlays(e.metadata, was.metadata, map["capture.cancellationOrigin" := Text(origin)])
              <==> e.metadata == was.metadata["capture.cancellationOrigin" := Text(origin)]
            case _ => true
  {
    match payload.event
    case CompletedWith(_, _, _, _, Some(p)) => OverlayIs(e.metadata, was.metadata, p);
    case FailedWith(_, _, _, _, _, Some(p)) => OverlayIs(e.metadata, was.metadata, p);
    case CancelledBy(origin, _, _, _) =>
      OverlayIs(e.metadata, was.metadata, map["capture.cancellationOrigin" := Text(origin)]);
    case _ =>
  }

  /**
   Merging over a stored entry, exactly: the result is what the message makes of the entry, if the message
   is newer and the result is valid; a newer message whose result is not valid is an error.
   */
  lemma MergesExactly(rules: Rules, was: HttpExchange, context: Context, payload: Payload, e: HttpExchange)
    requires payload.Http?
    ensures Merge(rules, Some(was), context, payload) == Success(Applied(e)) <==>
      was.revision < payload.revision && Becomes(was, context, payload, e) && ExchangeError(rules, e).None?
  {
    hide ExchangeError, Overlays;
    OverlaysOf(was, payload, e);
  }

  /** A message about an exchange that is not stored is merged over a stand-in, and starts the entry. */
  lemma StartsExactly(rules: Rules, context: Context, payload: Payload, was: HttpExchange, e: HttpExchange)
    requires payload.Http? && StandsIn(context, payload, was)
    ensures Merge(rules, None, context, payload) == Success(Applied(e)) <==>
      Becomes(was, context, payload, e) && ExchangeError(rules, e).None?
  {
    hide ExchangeError, Overlays;
    OverlaysOf(was, payload, e);
    var base := MissingStart(context, payload.exchangeId, payload.revision, payload.sentAt);
    assert was.(revision := payload.revision) == base;
    OverlaysOf(base, payload, e);
  }

  /** A newer message is refused exactly when nothing valid can come of it. */
  lemma RefusesExactly(rules: Rules, was: HttpExchange, context: Context, payload: Payload)
    requires payload.Http?
    ensures Merge(rules, Some(was), context, payload).Failure? <==>
      was.revision < payload.revision && forall e :: Becomes(was, context, payload, e) ==> ExchangeError(rules, e).Some?
  {
    hide Becomes, Merge;
    StaleExactlyWhenNotNewer(rules, Some(was), context, payload);
    var r := Merge(rules, Some(was), context, payload);
    HttpMerges(rules, Some(was), context, payload);
    if r.Success? && r.value.Applied? {
      MergesExactly(rules, was, context, payload, r.value.exchange);
    } else if r.Failure? {
      forall e | Becomes(was, context, payload, e) ensures ExchangeError(rules, e).Some? {
        MergesExactly(rules, was, context, payload, e);
      }
    }
  }

  lemma HttpMerges(rules: Rules, current: Option<HttpExchange>, context: Context, payload: Payload)
    requires payload.Http?
    ensures var r := Merge(rules, current, context, payload);
      r.Success? ==> r.value.Applied? || r.value.IgnoredStale?
  {
    hide ExchangeError, WithEvent;
  }
}
