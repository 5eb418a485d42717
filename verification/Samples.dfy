/**
 A hub as it is configured by default, with the checks of its validation that a disconnect can run into,
 and the messages of one source: what the runs that show a shortcoming are made of.
 */
module Samples {
  import opened Wrappers
  import opened Sequences
  import opened CaptureModel
  import opened MapSums
  import opened Decimals
  import opened Retention
  import opened HubState
  import LifecycleMerger
  import DatabaseMerger
  import opened HubRuns

  // ---- identifiers

  predicate IsHexDigit(c: char) {
    '0' <= c <= '9' || 'a' <= c <= 'f' || 'A' <= c <= 'F'
  }

  predicate IsHyphen(i: int) {
    i == 8 || i == 13 || i == 18 || i == 23
  }

  /** A UUID in its hyphenated spelling. */
  predicate IsUuid(s: string) {
    |s| == 36 && forall i :: 0 <= i < 36 ==> if IsHyphen(i) then s[i] == '-' else IsHexDigit(s[i])
  }

  /** The UUID with one digit throughout. */
  function Uuid(digit: char): (id: string)
    requires IsHexDigit(digit)
    ensures IsUuid(id) && id[0] == digit
  {
    seq(36, i requires 0 <= i < 36 => if IsHyphen(i) then '-' else digit)
  }

  // ---- what validation measures

  function TextBytes(s: string): nat {
    |s| + 2
  }

  function OptionBytes(s: Option<string>): nat {
    match s
    case None => |"null"|
    case Some(text) => TextBytes(text)
  }

  function JsonBytes(value: Json): nat {
    match value
    case Flag(flag) => if flag then |"true"| else |"false"|
    case Text(text) => TextBytes(text)
    case Structured(encoded) => |encoded|
  }

  /** One member of a JSON object, with the comma or brace after it. */
  function EntryBytes(name: string, value: Json): nat {
    TextBytes(name) + 1 + JsonBytes(value) + 1
  }

  /** The length of metadata as a JSON object of texts that need no escapes. */
  ghost function MetadataBytes(metadata: Metadata): nat {
    if metadata == map[] then 2 else 1 + Sum(metadata, (name, value) => EntryBytes(name, value))
  }

  lemma NoMetadata()
    ensures MetadataBytes(map[]) == 2
  {
  }

  const METADATA_LIMIT := 64 * 1024

  /** The limits on status, tags and metadata. */
  ghost function ExchangeChecks(e: HttpExchange): Option<string> {
    if e.response.Some? && !(100 <= e.response.value.statusCode <= 599)
      then Some("response status must be between 100 and 599")
    else if |e.tags| > 64 then Some("tags must be non-empty and within the configured limit")
    else if MetadataBytes(e.metadata) > METADATA_LIMIT then Some("metadata exceeds serialized size limit")
    else None
  }

  function CommandChecks(c: DatabaseCommand): Option<string> {
    if c.id == "" || c.sessionId == "" || c.source.instanceId == "" then Some("database command IDs must not be empty")
    else if c.profile.provider == "" || c.profile.databaseName == "" || c.profile.primaryTarget == "" then
      Some("database command provider, database name, and primary target must not be empty")
    else None
  }

  function StateText(state: LifecycleState): string {
    match state
    case InFlight => "inFlight"
    case Completed => "completed"
    case Failed => "failed"
    case Cancelled => "cancelled"
    case Incomplete => "incomplete"
  }

  function LifecycleBytes(lifecycle: Lifecycle): nat {
    TextBytes(StateText(lifecycle.state)) + TextBytes(lifecycle.startedAt) + TextBytes(lifecycle.receivedAt)
      + TextBytes(lifecycle.lastUpdatedAt)
  }

  function ProfileBytes(profile: CommandProfile): nat {
    TextBytes(profile.provider) + TextBytes(profile.databaseName) + OptionBytes(profile.dataSource)
      + TextBytes(profile.commandType)
    + TextBytes(profile.operation) + TextBytes(profile.primaryTarget) + |profile.query| + |profile.parameters|
  }

  /** The values of a command as JSON; its field names and punctuation are the same for every command. */
  function CommandBytes(c: DatabaseCommand): nat {
    |Decimal(c.schemaMajor)| + TextBytes(c.id) + TextBytes(c.sessionId) + |Decimal(c.revision)|
      + |Decimal(c.arrivalSequence)|
    + TextBytes(c.source.instanceId) + TextBytes(c.source.applicationName) + |c.source.detail|
      + OptionBytes(c.correlation)
    + LifecycleBytes(c.lifecycle) + ProfileBytes(c.profile)
    + (if c.totalDuration.None? then |"null"| else |Decimal(c.totalDuration.value)|)
    + (if c.failure.None? then |"null"| else TextBytes(c.failure.value.message) + |c.failure.value.detail|)
    + OptionBytes(c.result.reason) + |c.result.detail|
  }

  /** The default hub; `frame` is what names and punctuation take in a serialized command. */
  ghost function Defaults(frame: nat): HubConfig {
    HubConfig(25_000, Load(25_000, 32 * 1024 * 1024),
              Rules(s => IsUuid(s), e => ExchangeChecks(e), c => CommandChecks(c), c => frame + CommandBytes(c)))
  }

  lemma DefaultsUuidLaw(frame: nat)
    ensures UuidLaw(Defaults(frame).rules)
  {
    forall s | IsUuid(s) ensures NoColonPair(s) {
      forall i | 0 <= i < |s| ensures s[i] != ':' {
        assert 0 <= i < 36;
      }
    }
  }

  // ---- one source and its messages

  const SESSION := Uuid('5')
  const SOURCE := Source(Uuid('a'), "application", 1, "")
  const EXCHANGE := Uuid('e')
  const COMMAND := Uuid('d')
  const KEY := ExchangeKey(SOURCE.instanceId, EXCHANGE)
  const COMMAND_KEY := CommandKey(SOURCE.instanceId, COMMAND)
  const EARLY := "2024-01-01T00:00:00.000Z"
  const LATE := "2024-01-01T00:00:01.000Z"

  const REQUEST := HttpRequest("GET", "https://example.test/orders", Some("https"), Some("example.test"), None,
                               Some("/orders"), "")

  function HttpMessage(revision: nat, event: HttpEvent): CaptureMessage {
    CaptureMessage(1, Uuid('0'), SOURCE.instanceId, Http(EXCHANGE, revision, EARLY, event))
  }

  function StartEvent(metadata: Metadata): HttpEvent {
    Started(REQUEST, Timing(None, ""), [], None, metadata)
  }

  /** The exchange the hub makes of its first start. */
  function StartedExchange(metadata: Metadata): HttpExchange {
    HttpExchange(1, EXCHANGE, SESSION, 1, 1, SOURCE, None, Lifecycle(InFlight, EARLY, EARLY, EARLY), REQUEST, None,
                 Timing(None, ""),
                 Sizes(None, "unavailable"), None, None, "unavailable", [], metadata)
  }

  function HttpStep(receivedAt: string, revision: nat, event: HttpEvent): Step {
    IngestMessage(SOURCE, receivedAt, HttpMessage(revision, event), true)
  }

  const GONE := SourceDisconnected(SOURCE.instanceId, LATE)

  // ---- a hub with the one exchange

  ghost predicate Bare(hub: Hub) {
    hub.sessionId == SESSION && hub.recording && hub.commands == map[] && hub.commandOrder == []
  }

  /** The hub holds the exchange and nothing else. */
  ghost predicate Holds(hub: Hub, e: HttpExchange) {
    && Bare(hub) && hub.nextArrivalSequence == 2
    && hub.exchanges == map[KEY := e] && hub.arrivalOrder == [KEY]
    && KeyOf(e) == KEY && e.arrivalSequence == 1
  }

  lemma RoomEnough(limit: nat, hub: Hub)
    requires |hub.exchanges| <= limit
    ensures ExchangeVictims(limit, hub) == []
    ensures EvictExchanges(limit, hub) == hub.(retentionBlockedByInFlight := false)
  {
    var terminal := TerminalExchanges(hub.exchanges);
    assert ExchangeVictims(limit, hub) == Only(hub.arrivalOrder, terminal)[..0];
    assert Elems<ExchangeKey>([]) == {};
    WithoutNothing(hub.arrivalOrder, {});
    assert hub.exchanges - {} == hub.exchanges;
  }

  /** A message that is merged leaves the hub with what it was merged to. */
  lemma MessageTaken(frame: nat, hub: Hub, receivedAt: string, revision: nat, event: HttpEvent, e: HttpExchange)
    requires hub == Fresh(SESSION) || exists was :: Holds(hub, was)
    requires MergedExchange(Defaults(frame), hub, SOURCE, receivedAt, HttpMessage(revision, event).payload)
      == Success(LifecycleMerger.Applied(e))
    requires KeyOf(e) == KEY && e.arrivalSequence == 1
    ensures Holds(After(Defaults(frame), hub, HttpStep(receivedAt, revision, event)), e)
  {
    hide MergedExchange, KeyOf, EvictExchanges, ExchangeVictims, SummaryOf, Removals, ExchangeChecks;
    var stored := StoreExchange(hub, e);
    assert stored.exchanges == map[KEY := e];
    RoomEnough(25_000, stored);
  }

  lemma StartMerged(frame: nat, metadata: Metadata)
    requires MetadataBytes(metadata) <= METADATA_LIMIT
    ensures MergedExchange(Defaults(frame), Fresh(SESSION), SOURCE, EARLY, HttpMessage(1, StartEvent(metadata)).payload)
         == Success(LifecycleMerger.Applied(StartedExchange(metadata)))
  {
    hide MetadataBytes, IsUuid;
  }

  /** The hub after its first start. */
  lemma StartTaken(frame: nat, metadata: Metadata)
    requires MetadataBytes(metadata) <= METADATA_LIMIT
    ensures Holds(After(Defaults(frame), Fresh(SESSION), HttpStep(EARLY, 1, StartEvent(metadata))),
                  StartedExchange(metadata))
  {
    hide MetadataBytes, After, MergedExchange;
    StartMerged(frame, metadata);
    MessageTaken(frame, Fresh(SESSION), EARLY, 1, StartEvent(metadata), StartedExchange(metadata));
  }

  lemma MessageStale(frame: nat, hub: Hub, was: HttpExchange, receivedAt: string, revision: nat, event: HttpEvent)
    requires Holds(hub, was) && revision <= was.revision
    ensures After(Defaults(frame), hub, HttpStep(receivedAt, revision, event)) == hub
  {
    hide StepOutcome, KeyOf;
    NotNewerChangesNothing(Defaults(frame), hub, HttpStep(receivedAt, revision, event), KEY);
  }

  lemma HoldsConsistent(hub: Hub, e: HttpExchange)
    requires Holds(hub, e)
    ensures Consistent(hub)
  {
    hide KeyOf;
    assert ExchangeRanks(hub.exchanges) == map[KEY := 1];
    assert CommandRanks(hub.commands) == map[];
  }

  /** The source goes away while its exchange is in flight. */
  lemma SourceGone(frame: nat, hub: Hub, e: HttpExchange, at: string)
    requires Holds(hub, e) && e.lifecycle.state.InFlight?
    requires ExchangeError(Defaults(frame).rules, Interrupted(e, at)).None?
    ensures Disconnect(Defaults(frame), hub, SOURCE.instanceId, at).result.Success?
    ensures Holds(After(Defaults(frame), hub, SourceDisconnected(SOURCE.instanceId, at)), Interrupted(e, at))
  {
    hide KeyOf, Consistent, Disconnect, ExchangeError, Interrupted;
    HoldsConsistent(hub, e);
    DisconnectSucceedsIff(Defaults(frame), hub, SOURCE.instanceId, at);
    InterruptedSame(e, at);
    SourceGoneHub(frame, hub, e, at);
  }

  lemma InterruptedSame(e: HttpExchange, at: string)
    ensures var i := Interrupted(e, at);
      && KeyOf(i) == KeyOf(e) && i.arrivalSequence == e.arrivalSequence && i.revision == e.revision + 1
      && i.lifecycle.state == Incomplete
  {
  }

  lemma SourceGoneHub(frame: nat, hub: Hub, e: HttpExchange, at: string)
    requires Holds(hub, e) && e.lifecycle.state.InFlight? && Consistent(hub)
    requires Disconnect(Defaults(frame), hub, SOURCE.instanceId, at).result.Success?
    ensures Disconnect(Defaults(frame), hub, SOURCE.instanceId, at).hub
      == hub.(exchanges := map[KEY := Interrupted(e, at)])
  {
    hide KeyOf, Consistent, ExchangeError, CommandError, Interrupted, InterruptionUpserts, CommandInterruptionUpserts,
         CommandHits, TouchedCommands;
    HitsAreInFlight(hub, SOURCE.instanceId);
    assert KEY in ExchangeHits(hub, SOURCE.instanceId);
    assert hub.exchanges[KEY] == e;
  }

  // ---- a hub with the one command

  const PROFILE := CommandProfile("sqlserver", "Orders", None, "text", "select", "orders", "select 1", "[]")

  /** The command the hub makes of its first start. */
  function StartedCommand(): DatabaseCommand {
    DatabaseCommand(1, COMMAND, SESSION, 1, 1, SOURCE, None, Lifecycle(InFlight, EARLY, EARLY, EARLY), PROFILE, None,
                    None,
                    CommandResult(Some("result rows are not captured"), "unavailable"))
  }

  const COMMAND_STEP := IngestMessage(SOURCE, EARLY,
                                      CaptureMessage(1, Uuid('0'), SOURCE.instanceId,
                                                     Database(COMMAND, 1, EARLY, CommandStarted(PROFILE, None))), true)

  lemma CommandMerged(frame: nat)
    ensures MergedCommand(Defaults(frame), Fresh(SESSION), SOURCE, EARLY, COMMAND_STEP.message.payload)
         == Success(DatabaseMerger.Applied(StartedCommand()))
  {
    StartedCommandValid();
    hide IsUuid, CommandBytes, CommandChecks, ExchangeChecks, CommandSummaryOf;
  }

  lemma StartedCommandValid()
    ensures CommandChecks(StartedCommand()) == None
  {
  }

  /** The hub with the one command in flight, counted at its length. */
  function HoldsCommand(bytes: nat): Hub {
    Fresh(SESSION).(nextArrivalSequence := 2, commands := map[COMMAND_KEY := StartedCommand()],
                    commandOrder := [COMMAND_KEY], retainedBytes := bytes)
  }

  lemma CommandTaken(frame: nat)
    requires frame + CommandBytes(StartedCommand()) <= 32 * 1024 * 1024
    ensures After(Defaults(frame), Fresh(SESSION), COMMAND_STEP) == HoldsCommand(frame + CommandBytes(StartedCommand()))
  {
    hide MergedCommand, CommandBytes, CommandSummaryOf, CommandRemovals, CommandChecks;
    CommandMerged(frame);
    var rules := Defaults(frame).rules;
    var stored := StoreCommand(rules, Fresh(SESSION), StartedCommand());
    assert stored == HoldsCommand(frame + CommandBytes(StartedCommand()));
    NoCandidate(Defaults(frame), stored);
  }

  /** A store whose one command is in flight gives up nothing. */
  lemma NoCandidate(config: HubConfig, hub: Hub)
    requires hub.commands == map[COMMAND_KEY := StartedCommand()] && hub.commandOrder == [COMMAND_KEY]
    ensures EvictCommands(config, hub)
      == hub.(commandRetentionBlockedByInFlight := !Fits(CommandLoad(hub), config.commandLimits))
  {
    hide Relief, Lengths, Fits;
    assert TerminalCommands(hub.commands) == {};
    assert Only(hub.commandOrder, {}) == [];
    assert CommandVictims(config, hub) == [];
    assert Elems<CommandKey>([]) == {};
    WithoutNothing(hub.commandOrder, {});
    assert hub.commands - {} == hub.commands;
  }

  lemma HoldsCommandConsistent(bytes: nat)
    ensures Consistent(HoldsCommand(bytes))
  {
    hide IsUuid;
    assert ExchangeRanks(HoldsCommand(bytes).exchanges) == map[];
    assert CommandRanks(HoldsCommand(bytes).commands) == map[COMMAND_KEY := 1];
  }
}
