/**
 The values that travel from an adapter through the hub to the user interface.

 Revisions and sequence numbers are unbounded naturals. The parts of a record that no
 modelled code looks into are carried as opaque text (`detail`).
 */
module CaptureModel {
  import opened Wrappers

  datatype LifecycleState = InFlight | Completed | Failed | Cancelled | Incomplete

  predicate IsTerminal(state: LifecycleState) {
    state.Completed? || state.Failed? || state.Cancelled? || state.Incomplete?
  }

  datatype Json = Flag(flag: bool) | Text(text: string) | Structured(encoded: string)

  type Metadata = map<string, Json>

  datatype Source = Source(instanceId: string, applicationName: string, protocolMajor: nat, detail: string)

  datatype ExchangeKey = ExchangeKey(sourceInstanceId: string, exchangeId: string)

  datatype Lifecycle = Lifecycle(state: LifecycleState, startedAt: string, receivedAt: string, lastUpdatedAt: string)

  datatype HttpRequest = HttpRequest(
    httpMethod: string, url: string, scheme: Option<string>, host: Option<string>,
    port: Option<nat>, path: Option<string>, detail: string)

  datatype HttpResponse = HttpResponse(statusCode: nat, detail: string)

  datatype ExchangeFailure = ExchangeFailure(message: string, detail: string)

  datatype Timing = Timing(totalMs: Option<nat>, detail: string)

  datatype Sizes = Sizes(totalBytes: Option<nat>, detail: string)

  datatype HttpExchange = HttpExchange(
    schemaMajor: nat,
    id: string,
    sessionId: string,
    revision: nat,
    arrivalSequence: nat,
    source: Source,
    correlation: Option<string>,
    lifecycle: Lifecycle,
    request: HttpRequest,
    response: Option<HttpResponse>,
    timing: Timing,
    sizes: Sizes,
    transport: Option<string>,
    failure: Option<ExchangeFailure>,
    capture: string,
    tags: seq<string>,
    metadata: Metadata)

  datatype HttpExchangeSummary = HttpExchangeSummary(
    key: ExchangeKey,
    revision: nat,
    arrivalSequence: nat,
    lifecycle: Lifecycle,
    httpMethod: string,
    url: string,
    scheme: Option<string>,
    host: Option<string>,
    port: Option<nat>,
    path: Option<string>,
    statusCode: Option<nat>,
    sourceName: string,
    durationMs: Option<nat>,
    totalBytes: Option<nat>,
    tags: seq<string>,
    info: Option<string>)

  function KeyOf(exchange: HttpExchange): ExchangeKey {
    ExchangeKey(exchange.source.instanceId, exchange.id)
  }

  /** The projection the hub publishes; the user interface rebuilds the same one from a full exchange. */
  function SummaryOf(exchange: HttpExchange): HttpExchangeSummary {
    HttpExchangeSummary(
      KeyOf(exchange), exchange.revision, exchange.arrivalSequence, exchange.lifecycle,
      exchange.request.httpMethod, exchange.request.url, exchange.request.scheme, exchange.request.host,
      exchange.request.port, exchange.request.path,
      if exchange.response.Some? then Some(exchange.response.value.statusCode) else None,
      exchange.source.applicationName, exchange.timing.totalMs, exchange.sizes.totalBytes, exchange.tags,
      if exchange.failure.Some? then Some(exchange.failure.value.message) else None)
  }

  datatype HttpEvent =
    | Started(request: HttpRequest, timing: Timing, tags: seq<string>, correlation: Option<string>, metadata: Metadata)
    | CompletedWith(response: HttpResponse, timing: Timing, sizes: Sizes, capture: string, patch: Option<Metadata>)
    | FailedWith(failure: ExchangeFailure, partial: Option<HttpResponse>, timing: Timing, sizes: Sizes,
                 capture: string, patch: Option<Metadata>)
    | CancelledBy(origin: string, timing: Timing, sizes: Sizes, capture: string)
    | Snapshot(exchange: HttpExchange)

  datatype CommandKey = CommandKey(sourceInstanceId: string, commandId: string)

  datatype CommandFailure = CommandFailure(message: string, detail: string)

  datatype CommandResult = CommandResult(reason: Option<string>, detail: string)

  /** What the started message says about a command: provider, database, target, query and parameters. */
  datatype CommandProfile = CommandProfile(
    provider: string, databaseName: string, dataSource: Option<string>, commandType: string,
    operation: string, primaryTarget: string, query: string, parameters: string)

  datatype DatabaseCommand = DatabaseCommand(
    schemaMajor: nat,
    id: string,
    sessionId: string,
    revision: nat,
    arrivalSequence: nat,
    source: Source,
    correlation: Option<string>,
    lifecycle: Lifecycle,
    profile: CommandProfile,
    totalDuration: Option<nat>,
    failure: Option<CommandFailure>,
    result: CommandResult)

  datatype DatabaseCommandSummary = DatabaseCommandSummary(
    key: CommandKey,
    revision: nat,
    arrivalSequence: nat,
    lifecycle: Lifecycle,
    provider: string,
    databaseName: string,
    dataSource: Option<string>,
    commandType: string,
    operation: string,
    primaryTarget: string,
    durationMs: Option<nat>,
    sourceName: string,
    info: Option<string>)

  function CommandKeyOf(command: DatabaseCommand): CommandKey {
    CommandKey(command.source.instanceId, command.id)
  }

  function CommandSummaryOf(command: DatabaseCommand): DatabaseCommandSummary {
    DatabaseCommandSummary(
      CommandKeyOf(command), command.revision, command.arrivalSequence, command.lifecycle,
      command.profile.provider, command.profile.databaseName, command.profile.dataSource,
      command.profile.commandType, command.profile.operation, command.profile.primaryTarget,
      command.totalDuration, command.source.applicationName,
      if command.failure.Some? then Some(command.failure.value.message) else None)
  }

  datatype CommandEvent =
    | CommandStarted(profile: CommandProfile, correlation: Option<string>)
    | CommandCompleted(totalDuration: Option<nat>, result: CommandResult)
    | CommandFailed(failure: CommandFailure, totalDuration: Option<nat>, result: CommandResult)
    | CommandCancelled(origin: string, totalDuration: Option<nat>, result: CommandResult)
    | CommandSnapshot(command: DatabaseCommand)

  datatype Payload =
    | Heartbeat
    | Http(exchangeId: string, revision: nat, sentAt: string, event: HttpEvent)
    | Database(commandId: string, revision: nat, sentAt: string, commandEvent: CommandEvent)

  datatype CaptureMessage = CaptureMessage(schemaMajor: nat, messageId: string, sourceInstanceId: string,
                                           payload: Payload)

  /**
   The outside functions that validation and retention call: the UUID parser, the checks on parts
   this model keeps opaque (each may name an error), and the serialized length of a command.
   */
  datatype Rules = Rules(
    isUuid: string -> bool,
    exchangeError: HttpExchange -> Option<string>,
    commandError: DatabaseCommand -> Option<string>,
    retainedLength: DatabaseCommand -> nat)

  /** A UUID in any accepted spelling has no two colons side by side and does not end in one. */
  ghost predicate UuidLaw(rules: Rules) {
    forall s: string :: rules.isUuid(s) ==> NoColonPair(s)
  }

  predicate NoColonPair(s: string) {
    && (forall i :: 0 <= i < |s| - 1 ==> !(s[i] == ':' && s[i + 1] == ':'))
    && (s != "" ==> s[|s| - 1] != ':')
  }

  function StateError(exchange: HttpExchange): Option<string> {
    if exchange.lifecycle.state.Completed? && exchange.response.None? then
      Some("completed exchange requires a response")
    else if exchange.lifecycle.state.Failed? then
      if exchange.failure.None? then Some("failed exchange requires a failure") else None
    else if exchange.failure.Some? then
      Some("only a failed exchange may contain failure details")
    else None
  }

  function ExchangeError(rules: Rules, exchange: HttpExchange): Option<string> {
    if !rules.isUuid(exchange.id) then Some("exchange id must be a UUID")
    else if !rules.isUuid(exchange.sessionId) then Some("session id must be a UUID")
    else if !rules.isUuid(exchange.source.instanceId) then Some("source instance id must be a UUID")
    else if exchange.schemaMajor != 1 then Some("schema version major must be 1")
    else if exchange.source.protocolMajor != 1 then Some("source protocol version major must be 1")
    else if exchange.revision == 0 || exchange.arrivalSequence == 0 then
      Some("revision and arrival sequence must be positive")
    else if StateError(exchange).Some? then StateError(exchange)
    else rules.exchangeError(exchange)
  }

  function CommandError(rules: Rules, command: DatabaseCommand): Option<string> {
    if command.schemaMajor != 1 then Some("database command schema version major must be 1")
    else if command.revision == 0 || command.arrivalSequence == 0 then
      Some("database command revision and arrival sequence must be positive")
    else if rules.commandError(command).Some? then rules.commandError(command)
    else if command.lifecycle.state.Failed? && command.failure.None? then
      Some("failed database command requires failure details")
    else if !command.lifecycle.state.Failed? && command.failure.Some? then
      Some("only a failed database command may include failure details")
    else None
  }
}
