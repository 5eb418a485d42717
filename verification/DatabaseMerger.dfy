/** Merging one accepted database message into the command it belongs to. */
module DatabaseMerger {
  import opened Wrappers
  import opened CaptureModel
  import LifecycleMerger

  datatype DatabaseMergeResult =
    | Applied(command: DatabaseCommand)
    | IgnoredStale(key: CommandKey, revision: nat)
    | NotDatabaseMessage

  type Context = LifecycleMerger.Context

  function MissingStart(context: Context, commandId: string, revision: nat, sentAt: string): DatabaseCommand {
    DatabaseCommand(
      1, commandId, context.sessionId, revision, context.arrivalSequence, context.source, None,
      Lifecycle(InFlight, sentAt, context.receivedAt, context.receivedAt),
      CommandProfile("unknown", "Unknown database", None, "unknown", "unknown", "Unknown target",
                     "database command started message was not received",
                     "database command started message was not received"),
      None, None, CommandResult(Some("result rows are not captured"), "unavailable"))
  }

  function WithEvent(command: DatabaseCommand, event: CommandEvent): DatabaseCommand
    requires !event.CommandSnapshot?
  {
    match event
    case CommandStarted(profile, correlation) =>
      var started := command.(profile := profile, correlation := correlation);
      if IsTerminal(command.lifecycle.state) then started
      else started.(lifecycle := command.lifecycle.(state := InFlight))
    case CommandCompleted(totalDuration, result) =>
      command.(totalDuration := totalDuration, result := result, failure := None,
               lifecycle := command.lifecycle.(state := Completed))
    case CommandFailed(failure, totalDuration, result) =>
      command.(totalDuration := totalDuration, result := result, failure := Some(failure),
               lifecycle := command.lifecycle.(state := Failed))
    case CommandCancelled(origin, totalDuration, result) =>
      command.(totalDuration := totalDuration, result := result.(reason := Some(origin)), failure := None,
               lifecycle := command.lifecycle.(state := Cancelled))
  }

  function Finish(rules: Rules, command: DatabaseCommand): Result<DatabaseMergeResult, string> {
    var error := CommandError(rules, command);
    if error.Some? then Failure(error.value) else Success(Applied(command))
  }

  function Adopted(context: Context, revision: nat, command: DatabaseCommand): DatabaseCommand {
    command.(sessionId := context.sessionId, source := context.source, revision := revision,
             arrivalSequence := context.arrivalSequence,
             lifecycle := command.lifecycle.(receivedAt := context.receivedAt, lastUpdatedAt := context.receivedAt))
  }

  function Merge(rules: Rules, current: Option<DatabaseCommand>, context: Context, payload: Payload)
    : Result<DatabaseMergeResult, string>
  {
    match payload
    case Heartbeat => Success(NotDatabaseMessage)
    case Http(_, _, _, _) => Success(NotDatabaseMessage)
    case Database(commandId, revision, sentAt, event) =>
      if current.Some? && revision <= current.value.revision then
        Success(IgnoredStale(CommandKey(context.source.instanceId, commandId), revision))
      else if event.CommandSnapshot? then
        if event.command.id != commandId then
          Failure("snapshot database command ID must match message command ID")
        else
          Finish(rules, Adopted(context, revision, event.command))
      else
        var base := if current.Some? then current.value else MissingStart(context, commandId, revision, sentAt);
        var updated := WithEvent(base, event);
        Finish(rules, updated.(revision := revision,
                               lifecycle := updated.lifecycle.(lastUpdatedAt := context.receivedAt)))
  }

  predicate OwnEntry(current: Option<DatabaseCommand>, context: Context, commandId: string) {
    current.Some? ==>
      && CommandKeyOf(current.value) == CommandKey(context.source.instanceId, commandId)
      && current.value.arrivalSequence == context.arrivalSequence
  }

  /** The database counterpart of the identity and progress facts of the HTTP merger. */
  lemma AppliedKeepsIdentity(rules: Rules, current: Option<DatabaseCommand>, context: Context, payload: Payload)
    requires payload.Database? && OwnEntry(current, context, payload.commandId)
    ensures var r := Merge(rules, current, context, payload);
      r.Success? && r.value.Applied? ==>
        && CommandKeyOf(r.value.command) == CommandKey(context.source.instanceId, payload.commandId)
        && r.value.command.arrivalSequence == context.arrivalSequence
        && r.value.command.revision == payload.revision
        && CommandError(rules, r.value.command).None?
        && (current.Some? ==> current.value.revision < payload.revision)
        && ((current.Some? && IsTerminal(current.value.lifecycle.state) && !payload.commandEvent.CommandSnapshot?) ==>
             IsTerminal(r.value.command.lifecycle.state))
  {
  }

  function OutcomeState(event: CommandEvent): LifecycleState {
    match event
    case CommandStarted(_, _) => InFlight
    case CommandCompleted(_, _) => Completed
    case CommandFailed(_, _, _) => Failed
    case CommandCancelled(_, _, _) => Cancelled
    case CommandSnapshot(command) => command.lifecycle.state
  }

  /**
   A start and then an outcome, merged one after the other: the start's profile with the outcome's state,
   duration and result.
   */
  lemma OutcomeOverStart(rules: Rules, context: Context, start: Payload, outcome: Payload)
    requires start.Database? && start.commandEvent.CommandStarted? && outcome.Database?
    requires !outcome.commandEvent.CommandStarted? && !outcome.commandEvent.CommandSnapshot?
      && start.commandId == outcome.commandId
    requires var first := Merge(rules, None, context, start);
      && first.Success?
      && var second := Merge(rules, Some(first.value.command), context, outcome);
         second.Success? && second.value.Applied?
    ensures var started := Merge(rules, None, context, start).value.command;
      var ended := Merge(rules, Some(started), context, outcome).value.command;
      && started.lifecycle.state == InFlight && ended.lifecycle.state == OutcomeState(outcome.commandEvent)
      && ended.profile == start.commandEvent.profile && ended.correlation == start.commandEvent.correlation
      && (ended.failure.Some? <==> outcome.commandEvent.CommandFailed?)
      && ended.totalDuration == outcome.commandEvent.totalDuration
      && (outcome.commandEvent.CommandCancelled? ==> ended.result.reason == Some(outcome.commandEvent.origin))
      && start.revision < outcome.revision == ended.revision
  {
  }

  /** A message is ignored exactly when the command it would change has already reached its revision. */
  lemma StaleExactlyWhenNotNewer(rules: Rules, current: Option<DatabaseCommand>, context: Context, payload: Payload)
    requires payload.Database?
    ensures var r := Merge(rules, current, context, payload);
      && ((r.Success? && r.value.IgnoredStale?) <==> (current.Some? && payload.revision <= current.value.revision))
      && (r.Success? ==> r.value.Applied? || r.value.IgnoredStale?)
  {
  }

  // ---- what a message makes of a command, field by field

  /** What no lifecycle message but a snapshot touches. */
  ghost predicate KeepsOrigin(was: DatabaseCommand, c: DatabaseCommand) {
    && c.schemaMajor == was.schemaMajor && c.id == was.id && c.sessionId == was.sessionId && c.source == was.source
    && c.arrivalSequence == was.arrivalSequence
    && c.lifecycle.startedAt == was.lifecycle.startedAt && c.lifecycle.receivedAt == was.lifecycle.receivedAt
  }

  ghost predicate KeepsStart(was: DatabaseCommand, c: DatabaseCommand) {
    c.profile == was.profile && c.correlation == was.correlation
  }

  ghost predicate KeepsOutcome(was: DatabaseCommand, c: DatabaseCommand) {
    c.totalDuration == was.totalDuration && c.failure == was.failure && c.result == was.result
  }

  /** The command as a snapshot describes it, under the hub's own session, source, numbers and times. */
  ghost predicate Restores(context: Context, snapshot: DatabaseCommand, c: DatabaseCommand) {
    && c.schemaMajor == snapshot.schemaMajor && c.id == snapshot.id
    && KeepsStart(snapshot, c) && KeepsOutcome(snapshot, c)
    && c.lifecycle.state == snapshot.lifecycle.state && c.lifecycle.startedAt == snapshot.lifecycle.startedAt
    && c.sessionId == context.sessionId && c.source == context.source && c.arrivalSequence == context.arrivalSequence
    && c.lifecycle.receivedAt == context.receivedAt
  }

  /** What a message makes of the command it meets. */
  ghost predicate Becomes(was: DatabaseCommand, context: Context, payload: Payload, c: DatabaseCommand)
    requires payload.Database?
  {
    && c.revision == payload.revision && c.lifecycle.lastUpdatedAt == context.receivedAt
    && match payload.commandEvent
       case CommandStarted(profile, correlation) =>
         && KeepsOrigin(was, c) && KeepsOutcome(was, c)
         && c.profile == profile && c.correlation == correlation && c.lifecycle.state == was.lifecycle.state
       case CommandCompleted(totalDuration, result) =>
         && KeepsOrigin(was, c) && KeepsStart(was, c) && c.lifecycle.state == Completed
         && c.totalDuration == totalDuration && c.result == result && c.failure == None
       case CommandFailed(failure, totalDuration, result) =>
         && KeepsOrigin(was, c) && KeepsStart(was, c) && c.lifecycle.state == Failed
         && c.totalDuration == totalDuration && c.result == result && c.failure == Some(failure)
       case CommandCancelled(origin, totalDuration, result) =>
         && KeepsOrigin(was, c) && KeepsStart(was, c) && c.lifecycle.state == Cancelled
         && c.totalDuration == totalDuration && c.failure == None
         && c.result.reason == Some(origin) && c.result.detail == result.detail
       case CommandSnapshot(snapshot) => snapshot.id == payload.commandId && Restores(context, snapshot, c)
  }

  /** The command that stands in for a start that never came. */
  ghost predicate StandsIn(context: Context, payload: Payload, was: DatabaseCommand)
    requires payload.Database?
  {
    && was.schemaMajor == 1 && was.id == payload.commandId && was.sessionId == context.sessionId
    && was.source == context.source && was.arrivalSequence == context.arrivalSequence && was.correlation == None
    && was.lifecycle == Lifecycle(InFlight, payload.sentAt, context.receivedAt, context.receivedAt)
    && was.profile.provider == "unknown" && was.profile.databaseName == "Unknown database"
    && was.profile.dataSource == None && was.profile.commandType == "unknown" && was.profile.operation == "unknown"
    && was.profile.primaryTarget == "Unknown target"
    && was.profile.query == was.profile.parameters == "database command started message was not received"
    && was.totalDuration == None && was.failure == None
    && was.result == CommandResult(Some("result rows are not captured"), "unavailable")
  }

  /** Merging over a stored command, exactly. */
  lemma MergesExactly(rules: Rules, was: DatabaseCommand, context: Context, payload: Payload, c: DatabaseCommand)
    requires payload.Database?
    ensures Merge(rules, Some(was), context, payload) == Success(Applied(c)) <==>
      was.revision < payload.revision && Becomes(was, context, payload, c) && CommandError(rules, c).None?
  {
    hide CommandError;
  }

  /** A message about a command that is not stored is merged over a stand-in, and starts the entry. */
  lemma StartsExactly(rules: Rules, context: Context, payload: Payload, was: DatabaseCommand, c: DatabaseCommand)
    requires payload.Database? && StandsIn(context, payload, was)
    ensures Merge(rules, None, context, payload) == Success(Applied(c)) <==>
      Becomes(was, context, payload, c) && CommandError(rules, c).None?
  {
    hide CommandError;
    assert was.(revision := payload.revision)
        == MissingStart(context, payload.commandId, payload.revision, payload.sentAt);
  }

  /** A newer message is refused exactly when nothing valid can come of it. */
  lemma RefusesExactly(rules: Rules, was: DatabaseCommand, context: Context, payload: Payload)
    requires payload.Database?
    ensures Merge(rules, Some(was), context, payload).Failure? <==>
      was.revision < payload.revision && forall c :: Becomes(was, context, payload, c) ==> CommandError(rules, c).Some?
  {
    hide Becomes, Merge;
    StaleExactlyWhenNotNewer(rules, Some(was), context, payload);
    var r := Merge(rules, Some(was), context, payload);
    if r.Success? && r.value.Applied? {
      MergesExactly(rules, was, context, payload, r.value.command);
    } else if r.Failure? {
      forall c | Becomes(was, context, payload, c) ensures CommandError(rules, c).Some? {
        MergesExactly(rules, was, context, payload, c);
      }
    }
  }
}
