/**
 The hub's state as a value, and what each hub operation does to it.

 These functions say which state and which published deltas an operation ends with, in closed
 form: retention as a prefix of the terminal keys, a disconnect as one update of all its hits.
 The class in CaptureHub.dfy works in place, with loops, and is proved against them.
 */
module HubState {
  import opened Wrappers
  import opened Sequences
  import opened CaptureModel
  import opened Retention
  import opened ArrivalIndex
  import LifecycleMerger
  import DatabaseMerger

  datatype HubConfig = HubConfig(maxSummaries: nat, commandLimits: Load, rules: Rules)

  datatype HubDelta =
    | Upsert(summary: HttpExchangeSummary)
    | Remove(key: ExchangeKey, reason: string)
    | Reset(sessionId: string, summaries: seq<HttpExchangeSummary>)

  datatype DatabaseDelta =
    | CommandUpsert(summary: DatabaseCommandSummary)
    | CommandRemove(key: CommandKey, reason: string)

  datatype HubMutation = HubMutation(deltas: seq<HubDelta>, databaseDeltas: seq<DatabaseDelta>, changed: bool)

  const UNCHANGED := HubMutation([], [], false)

  datatype Hub = Hub(
    sessionId: string,
    recording: bool,
    nextArrivalSequence: nat,
    exchanges: map<ExchangeKey, HttpExchange>,
    arrivalOrder: seq<ExchangeKey>,
    retentionBlockedByInFlight: bool,
    commands: map<CommandKey, DatabaseCommand>,
    commandOrder: seq<CommandKey>,
    retainedBytes: nat,
    commandRetentionBlockedByInFlight: bool)

  function Fresh(sessionId: string): Hub {
    Hub(sessionId, true, 1, map[], [], false, map[], [], 0, false)
  }

  // ---- invariant

  function ExchangeRanks(exchanges: map<ExchangeKey, HttpExchange>): map<ExchangeKey, nat> {
    map k | k in exchanges :: exchanges[k].arrivalSequence
  }

  function CommandRanks(commands: map<CommandKey, DatabaseCommand>): map<CommandKey, nat> {
    map k | k in commands :: commands[k].arrivalSequence
  }

  /** Each entry is stored under its own source and id. */
  ghost predicate ExchangesKeyed(exchanges: map<ExchangeKey, HttpExchange>) {
    forall k :: k in exchanges ==> KeyOf(exchanges[k]) == k
  }

  ghost predicate CommandsKeyed(commands: map<CommandKey, DatabaseCommand>) {
    forall k :: k in commands ==> CommandKeyOf(commands[k]) == k
  }

  /** One counter numbers both stores, so no exchange and command share a sequence. */
  ghost predicate RanksDisjoint(exchangeRanks: map<ExchangeKey, nat>, commandRanks: map<CommandKey, nat>) {
    forall e, c :: e in exchangeRanks && c in commandRanks ==> exchangeRanks[e] != commandRanks[c]
  }

  ghost predicate Consistent(hub: Hub) {
    && 1 <= hub.nextArrivalSequence
    && Indexed(hub.arrivalOrder, ExchangeRanks(hub.exchanges), hub.nextArrivalSequence)
    && Indexed(hub.commandOrder, CommandRanks(hub.commands), hub.nextArrivalSequence)
    && ExchangesKeyed(hub.exchanges)
    && CommandsKeyed(hub.commands)
    && RanksDisjoint(ExchangeRanks(hub.exchanges), CommandRanks(hub.commands))
  }

  // ---- ingestion

  function SourceError(source: Source, message: CaptureMessage): Option<string> {
    if message.schemaMajor != 1 then Some("message schema version major must be 1")
    else if source.instanceId != message.sourceInstanceId then
      Some("message source instance ID must match registered source")
    else None
  }

  function TerminalExchanges(exchanges: map<ExchangeKey, HttpExchange>): set<ExchangeKey> {
    set k | k in exchanges && IsTerminal(exchanges[k].lifecycle.state)
  }

  function TerminalCommands(commands: map<CommandKey, DatabaseCommand>): set<CommandKey> {
    set k | k in commands && IsTerminal(commands[k].lifecycle.state)
  }

  function Removals(victims: seq<ExchangeKey>): seq<HubDelta> {
    seq(|victims|, i requires 0 <= i < |victims| => Remove(victims[i], "retention limit"))
  }

  function CommandRemovals(victims: seq<CommandKey>): seq<DatabaseDelta> {
    seq(|victims|, i requires 0 <= i < |victims| => CommandRemove(victims[i], "database retention limit"))
  }

  function ExchangeVictims(limit: nat, hub: Hub): seq<ExchangeKey> {
    Victims(hub.arrivalOrder, TerminalExchanges(hub.exchanges), |hub.exchanges|, limit)
  }

  function EvictExchanges(limit: nat, hub: Hub): Hub {
    var gone := Elems(ExchangeVictims(limit, hub));
    hub.(exchanges := hub.exchanges - gone,
         arrivalOrder := Without(hub.arrivalOrder, gone),
         retentionBlockedByInFlight := |hub.exchanges| - |ExchangeVictims(limit, hub)| > limit)
  }

  function Lengths(rules: Rules, commands: map<CommandKey, DatabaseCommand>): map<CommandKey, nat> {
    map k | k in commands :: rules.retainedLength(commands[k])
  }

  function CommandLoad(hub: Hub): Load {
    Load(|hub.commands|, hub.retainedBytes)
  }

  function CommandVictims(config: HubConfig, hub: Hub): seq<CommandKey> {
    var candidates := Only(hub.commandOrder, TerminalCommands(hub.commands));
    candidates[..Relief(CommandLoad(hub), candidates, Lengths(config.rules, hub.commands), config.commandLimits, 0)]
  }

  function EvictCommands(config: HubConfig, hub: Hub): Hub {
    var candidates := Only(hub.commandOrder, TerminalCommands(hub.commands));
    var victims := CommandVictims(config, hub);
    var left := LoadAfter(CommandLoad(hub), candidates, Lengths(config.rules, hub.commands), |victims|);
    hub.(commands := hub.commands - Elems(victims),
         commandOrder := Without(hub.commandOrder, Elems(victims)),
         retainedBytes := left.bytes,
         commandRetentionBlockedByInFlight := !Fits(left, config.commandLimits))
  }

  function CurrentExchange(hub: Hub, key: ExchangeKey): Option<HttpExchange> {
    if key in hub.exchanges then Some(hub.exchanges[key]) else None
  }

  function CurrentCommand(hub: Hub, key: CommandKey): Option<DatabaseCommand> {
    if key in hub.commands then Some(hub.commands[key]) else None
  }

  function ExchangeContext(hub: Hub, source: Source, receivedAt: string,
                           current: Option<HttpExchange>): LifecycleMerger.Context {
    LifecycleMerger.Context(source, hub.sessionId,
      if current.Some? then current.value.arrivalSequence else hub.nextArrivalSequence, receivedAt)
  }

  function CommandContext(hub: Hub, source: Source, receivedAt: string,
                          current: Option<DatabaseCommand>): DatabaseMerger.Context {
    LifecycleMerger.Context(source, hub.sessionId,
      if current.Some? then current.value.arrivalSequence else hub.nextArrivalSequence, receivedAt)
  }

  /** Stores an exchange; only a new key takes a sequence number and a place in the order. */
  function StoreExchange(hub: Hub, exchange: HttpExchange): Hub {
    var key := KeyOf(exchange);
    var stored := hub.(exchanges := hub.exchanges[key := exchange]);
    if key in hub.exchanges then stored
    else stored.(nextArrivalSequence := hub.nextArrivalSequence + 1, arrivalOrder := hub.arrivalOrder + [key])
  }

  function StoreCommand(rules: Rules, hub: Hub, command: DatabaseCommand): Hub {
    var key := CommandKeyOf(command);
    var previous := if key in hub.commands then rules.retainedLength(hub.commands[key]) else 0;
    var stored := hub.(commands := hub.commands[key := command],
                       retainedBytes := SaturatingAdd(SaturatingSub(hub.retainedBytes, previous),
                                                      rules.retainedLength(command)));
    if key in hub.commands then stored
    else stored.(nextArrivalSequence := hub.nextArrivalSequence + 1, commandOrder := hub.commandOrder + [key])
  }

  datatype Outcome = Outcome(hub: Hub, result: Result<HubMutation, string>)

  function MergedExchange(config: HubConfig, hub: Hub, source: Source, receivedAt: string, payload: Payload)
    : Result<LifecycleMerger.MergeResult, string>
  {
    var current := if payload.Http? then CurrentExchange(hub, ExchangeKey(source.instanceId, payload.exchangeId))
      else None;
    LifecycleMerger.Merge(config.rules, current, ExchangeContext(hub, source, receivedAt, current), payload)
  }

  function IngestExchange(config: HubConfig, hub: Hub, source: Source, receivedAt: string, payload: Payload): Outcome {
    match MergedExchange(config, hub, source, receivedAt, payload)
    case Failure(error) => Outcome(hub, Failure(error))
    case Success(merged) =>
      if merged.Applied? then
        var stored := StoreExchange(hub, merged.exchange);
        Outcome(EvictExchanges(config.maxSummaries, stored),
                Success(HubMutation([Upsert(SummaryOf(merged.exchange))]
                                    + Removals(ExchangeVictims(config.maxSummaries, stored)), [], true)))
      else
        Outcome(hub, Success(UNCHANGED))
  }

  function MergedCommand(config: HubConfig, hub: Hub, source: Source, receivedAt: string, payload: Payload)
    : Result<DatabaseMerger.DatabaseMergeResult, string>
    requires payload.Database?
  {
    var current := CurrentCommand(hub, CommandKey(source.instanceId, payload.commandId));
    DatabaseMerger.Merge(config.rules, current, CommandContext(hub, source, receivedAt, current), payload)
  }

  function IngestCommand(config: HubConfig, hub: Hub, source: Source, receivedAt: string, payload: Payload): Outcome
    requires payload.Database?
  {
    match MergedCommand(config, hub, source, receivedAt, payload)
    case Failure(error) => Outcome(hub, Failure(error))
    case Success(merged) =>
      if merged.Applied? then
        var stored := StoreCommand(config.rules, hub, merged.command);
        Outcome(EvictCommands(config, stored),
                Success(HubMutation([], [CommandUpsert(CommandSummaryOf(merged.command))]
                                    + CommandRemovals(CommandVictims(config, stored)), true)))
      else
        Outcome(hub, Success(UNCHANGED))
  }

  function Ingest(config: HubConfig, hub: Hub, source: Source, receivedAt: string, message: CaptureMessage,
                  requireRecording: bool): Outcome {
    if SourceError(source, message).Some? then Outcome(hub, Failure(SourceError(source, message).value))
    else if requireRecording && !hub.recording then Outcome(hub, Success(UNCHANGED))
    else if message.payload.Database? then IngestCommand(config, hub, source, receivedAt, message.payload)
    else IngestExchange(config, hub, source, receivedAt, message.payload)
  }

  // ---- disconnect

  function Interrupted(exchange: HttpExchange, receivedAt: string): HttpExchange {
    exchange.(revision := exchange.revision + 1,
              lifecycle := exchange.lifecycle.(state := Incomplete, lastUpdatedAt := receivedAt),
              metadata := exchange.metadata["capture.incompleteReason" := Text("source disconnected")])
  }

  function InterruptedCommand(command: DatabaseCommand, receivedAt: string): DatabaseCommand {
    command.(revision := command.revision + 1,
             lifecycle := command.lifecycle.(state := Incomplete, lastUpdatedAt := receivedAt),
             result := command.result.(reason := Some("source disconnected before database command completed")))
  }

  function InFlightExchanges(exchanges: map<ExchangeKey, HttpExchange>, sourceInstanceId: string): set<ExchangeKey> {
    set k | k in exchanges && k.sourceInstanceId == sourceInstanceId && exchanges[k].lifecycle.state.InFlight?
  }

  function InFlightCommands(commands: map<CommandKey, DatabaseCommand>, sourceInstanceId: string): set<CommandKey> {
    set k | k in commands && k.sourceInstanceId == sourceInstanceId && commands[k].lifecycle.state.InFlight?
  }

  /** The source's keys in arrival order, whatever the state of their entries. */
  function SourceKeys(hub: Hub, sourceInstanceId: string): seq<ExchangeKey> {
    Only(hub.arrivalOrder, set k | k in hub.arrivalOrder && k.sourceInstanceId == sourceInstanceId)
  }

  function SourceCommandKeys(hub: Hub, sourceInstanceId: string): seq<CommandKey> {
    Only(hub.commandOrder, set k | k in hub.commandOrder && k.sourceInstanceId == sourceInstanceId)
  }

  /** The exchanges a disconnect touches: those of the source still in flight, in arrival order. */
  function ExchangeHits(hub: Hub, sourceInstanceId: string): seq<ExchangeKey> {
    Only(hub.arrivalOrder, InFlightExchanges(hub.exchanges, sourceInstanceId))
  }

  function CommandHits(hub: Hub, sourceInstanceId: string): seq<CommandKey> {
    Only(hub.commandOrder, InFlightCommands(hub.commands, sourceInstanceId))
  }

  function InterruptExchanges(exchanges: map<ExchangeKey, HttpExchange>, hits: set<ExchangeKey>,
                              receivedAt: string): map<ExchangeKey, HttpExchange> {
    map k | k in exchanges :: if k in hits then Interrupted(exchanges[k], receivedAt) else exchanges[k]
  }

  function InterruptCommands(commands: map<CommandKey, DatabaseCommand>, hits: set<CommandKey>,
                             receivedAt: string): map<CommandKey, DatabaseCommand> {
    map k | k in commands :: if k in hits then InterruptedCommand(commands[k], receivedAt) else commands[k]
  }

  /** How many leading hits stay valid after the edit: all of them, or those before the first that does not. */
  function ValidExchangePrefix(rules: Rules, exchanges: map<ExchangeKey, HttpExchange>, hits: seq<ExchangeKey>,
                               receivedAt: string): (n: nat)
    ensures n <= |hits|
    ensures n < |hits| ==> hits[n] in exchanges
                           && ExchangeError(rules, Interrupted(exchanges[hits[n]], receivedAt)).Some?
  {
    if hits == [] || (hits[0] in exchanges && ExchangeError(rules, Interrupted(exchanges[hits[0]], receivedAt)).Some?)
      then 0
    else 1 + ValidExchangePrefix(rules, exchanges, hits[1..], receivedAt)
  }

  function ValidCommandPrefix(rules: Rules, commands: map<CommandKey, DatabaseCommand>, hits: seq<CommandKey>,
                              receivedAt: string): (n: nat)
    ensures n <= |hits|
    ensures n < |hits| ==> hits[n] in commands
                           && CommandError(rules, InterruptedCommand(commands[hits[n]], receivedAt)).Some?
  {
    if hits == [] || (hits[0] in commands
                      && CommandError(rules, InterruptedCommand(commands[hits[0]], receivedAt)).Some?) then 0
    else 1 + ValidCommandPrefix(rules, commands, hits[1..], receivedAt)
  }

  function InterruptionUpserts(exchanges: map<ExchangeKey, HttpExchange>, hits: seq<ExchangeKey>,
                               receivedAt: string): seq<HubDelta> {
    if hits == [] then []
    else
      var last := hits[|hits| - 1];
      InterruptionUpserts(exchanges, hits[..|hits| - 1], receivedAt) +
      (if last in exchanges then [Upsert(SummaryOf(Interrupted(exchanges[last], receivedAt)))] else [])
  }

  function CommandInterruptionUpserts(commands: map<CommandKey, DatabaseCommand>, hits: seq<CommandKey>,
                                      receivedAt: string): seq<DatabaseDelta> {
    if hits == [] then []
    else
      var last := hits[|hits| - 1];
      CommandInterruptionUpserts(commands, hits[..|hits| - 1], receivedAt) +
      (if last in commands then [CommandUpsert(CommandSummaryOf(InterruptedCommand(commands[last], receivedAt)))]
       else [])
  }

  /** The hits edited before the loop ends: all, or those up to and including the first left invalid. */
  function TouchedExchanges(rules: Rules, hub: Hub, sourceInstanceId: string, receivedAt: string): seq<ExchangeKey> {
    var hits := ExchangeHits(hub, sourceInstanceId);
    var valid := ValidExchangePrefix(rules, hub.exchanges, hits, receivedAt);
    if valid < |hits| then hits[..valid + 1] else hits
  }

  function TouchedCommands(rules: Rules, hub: Hub, sourceInstanceId: string, receivedAt: string): seq<CommandKey> {
    var hits := CommandHits(hub, sourceInstanceId);
    var valid := ValidCommandPrefix(rules, hub.commands, hits, receivedAt);
    if valid < |hits| then hits[..valid + 1] else hits
  }

  function AfterExchanges(rules: Rules, hub: Hub, sourceInstanceId: string, receivedAt: string): Hub {
    hub.(exchanges := InterruptExchanges(hub.exchanges,
                                         Elems(TouchedExchanges(rules, hub, sourceInstanceId, receivedAt)), receivedAt))
  }

  function AfterCommands(rules: Rules, hub: Hub, sourceInstanceId: string, receivedAt: string): Hub {
    hub.(commands := InterruptCommands(hub.commands, Elems(TouchedCommands(rules, hub, sourceInstanceId, receivedAt)),
                                       receivedAt))
  }

  function FirstExchangeError(rules: Rules, hub: Hub, sourceInstanceId: string, receivedAt: string): Option<string> {
    var hits := ExchangeHits(hub, sourceInstanceId);
    var valid := ValidExchangePrefix(rules, hub.exchanges, hits, receivedAt);
    if valid < |hits| then ExchangeError(rules, Interrupted(hub.exchanges[hits[valid]], receivedAt)) else None
  }

  function FirstCommandError(rules: Rules, hub: Hub, sourceInstanceId: string, receivedAt: string): Option<string> {
    var hits := CommandHits(hub, sourceInstanceId);
    var valid := ValidCommandPrefix(rules, hub.commands, hits, receivedAt);
    if valid < |hits| then CommandError(rules, InterruptedCommand(hub.commands[hits[valid]], receivedAt)) else None
  }

  /**
   A disconnect edits each hit before validating it. When one is no longer valid the call stops
   there with an error: the edits made so far, that one included, stay, and no delta is published.
   */
  function Disconnect(config: HubConfig, hub: Hub, sourceInstanceId: string, receivedAt: string): Outcome {
    var interrupted := AfterExchanges(config.rules, hub, sourceInstanceId, receivedAt);
    var exchangeError := FirstExchangeError(config.rules, hub, sourceInstanceId, receivedAt);
    var commandError := FirstCommandError(config.rules, hub, sourceInstanceId, receivedAt);
    if exchangeError.Some? then Outcome(interrupted, Failure(exchangeError.value))
    else if commandError.Some? then
      Outcome(AfterCommands(config.rules, interrupted, sourceInstanceId, receivedAt), Failure(commandError.value))
    else
      var hits, commandHits := ExchangeHits(hub, sourceInstanceId), CommandHits(hub, sourceInstanceId);
      Outcome(AfterCommands(config.rules, interrupted, sourceInstanceId, receivedAt),
              Success(HubMutation(InterruptionUpserts(hub.exchanges, hits, receivedAt),
                                  CommandInterruptionUpserts(hub.commands, commandHits, receivedAt),
                                  hits != [] || commandHits != [])))
  }

  // ---- session

  function Cleared(hub: Hub, sessionId: string): Hub {
    Fresh(sessionId).(recording := hub.recording)
  }
}
