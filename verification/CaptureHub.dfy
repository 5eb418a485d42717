/** The bounded repository: one object whose maps, deques and counters are updated in place. */
module CaptureHub {
  import opened Wrappers
  import opened Sequences
  import opened CaptureModel
  import opened Retention
  import opened HubState
  import LifecycleMerger
  import DatabaseMerger
  import HubInvariant

  class CaptureHub {
    const config: HubConfig
    var sessionId: string
    var recording: bool
    var nextArrivalSequence: nat
    var exchanges: map<ExchangeKey, HttpExchange>
    var arrivalOrder: seq<ExchangeKey>
    var retentionBlockedByInFlight: bool
    var commands: map<CommandKey, DatabaseCommand>
    var commandOrder: seq<CommandKey>
    var retainedBytes: nat
    var commandRetentionBlockedByInFlight: bool

    function View(): Hub
      reads this
    {
      Hub(sessionId, recording, nextArrivalSequence, exchanges, arrivalOrder, retentionBlockedByInFlight,
          commands, commandOrder, retainedBytes, commandRetentionBlockedByInFlight)
    }

    ghost predicate Valid()
      reads this
    {
      Consistent(View())
    }

    constructor (config: HubConfig, sessionId: string)
      ensures Valid()
      ensures this.config == config && View() == Fresh(sessionId)
    {
      this.config := config;
      this.sessionId := sessionId;
      recording := true;
      nextArrivalSequence := 1;
      exchanges := map[];
      arrivalOrder := [];
      retentionBlockedByInFlight := false;
      commands := map[];
      commandOrder := [];
      retainedBytes := 0;
      commandRetentionBlockedByInFlight := false;
    }

    method Ingest(source: Source, receivedAt: string, message: CaptureMessage) returns (r: Result<HubMutation, string>)
      requires Valid()
      modifies this
      ensures Valid()
      ensures Outcome(View(), r) == HubState.Ingest(config, old(View()), source, receivedAt, message, true)
    {
      r := IngestWithPolicy(source, receivedAt, message, true);
    }

    method IngestExplicit(source: Source, receivedAt: string, message: CaptureMessage)
      returns (r: Result<HubMutation, string>)
      requires Valid()
      modifies this
      ensures Valid()
      ensures Outcome(View(), r) == HubState.Ingest(config, old(View()), source, receivedAt, message, false)
    {
      r := IngestWithPolicy(source, receivedAt, message, false);
    }

    method IngestWithPolicy(source: Source, receivedAt: string, message: CaptureMessage, requireRecording: bool)
      returns (r: Result<HubMutation, string>)
      requires Valid()
      modifies this
      ensures Valid()
      ensures Outcome(View(), r) == HubState.Ingest(config, old(View()), source, receivedAt, message, requireRecording)
    {
      hide Consistent, EvictExchanges, ExchangeVictims, StoreExchange, Removals, SummaryOf, IngestCommand;
      ghost var before := View();
      var sourceError := SourceError(source, message);
      if sourceError.Some? {
        return Failure(sourceError.value);
      }
      if requireRecording && !recording {
        return Success(UNCHANGED);
      }
      if message.payload.Database? {
        r := IngestDatabaseCommand(source, receivedAt, message.payload);
        return;
      }
      var key := if message.payload.Http? then Some(ExchangeKey(source.instanceId, message.payload.exchangeId))
        else None;
      var current := if key.Some? && key.value in exchanges then Some(exchanges[key.value]) else None;
      var sequence := if current.Some? then current.value.arrivalSequence else nextArrivalSequence;
      var merged := LifecycleMerger.Merge(config.rules, current,
                                          LifecycleMerger.Context(source, sessionId, sequence, receivedAt),
                                          message.payload);
      assert merged == MergedExchange(config, before, source, receivedAt, message.payload);
      if merged.Failure? {
        return Failure(merged.error);
      }
      if !merged.value.Applied? {
        return Success(UNCHANGED);
      }
      HubInvariant.AppliedExchange(config, before, source, receivedAt, message.payload);
      HubInvariant.StoreExchangeConsistent(before, merged.value.exchange);
      var exchange := merged.value.exchange;
      PutExchange(exchange);
      var removals := EvictTerminalExchanges();
      r := Success(HubMutation([Upsert(SummaryOf(exchange))] + removals, [], true));
    }

    method IngestDatabaseCommand(source: Source, receivedAt: string, payload: Payload)
      returns (r: Result<HubMutation, string>)
      requires Valid() && payload.Database?
      modifies this
      ensures Valid()
      ensures Outcome(View(), r) == IngestCommand(config, old(View()), source, receivedAt, payload)
    {
      hide Consistent, EvictCommands, CommandVictims, StoreCommand, CommandRemovals, CommandSummaryOf;
      ghost var before := View();
      var key := CommandKey(source.instanceId, payload.commandId);
      var current := if key in commands then Some(commands[key]) else None;
      var sequence := if current.Some? then current.value.arrivalSequence else nextArrivalSequence;
      var merged := DatabaseMerger.Merge(config.rules, current,
                                         LifecycleMerger.Context(source, sessionId, sequence, receivedAt), payload);
      assert merged == MergedCommand(config, before, source, receivedAt, payload);
      if merged.Failure? {
        return Failure(merged.error);
      }
      if !merged.value.Applied? {
        return Success(UNCHANGED);
      }
      HubInvariant.AppliedCommand(config, before, source, receivedAt, payload);
      HubInvariant.StoreCommandConsistent(config.rules, before, merged.value.command);
      var command := merged.value.command;
      PutCommand(command);
      var removals := EvictTerminalDatabaseCommands();
      r := Success(HubMutation([], [CommandUpsert(CommandSummaryOf(command))] + removals, true));
    }

    /** Inserts or replaces one exchange; only a new key takes the next sequence number and joins the order. */
    method PutExchange(exchange: HttpExchange)
      modifies this
      ensures View() == StoreExchange(old(View()), exchange)
    {
      var key := KeyOf(exchange);
      var isNew := key !in exchanges;
      exchanges := exchanges[key := exchange];
      if isNew {
        nextArrivalSequence := nextArrivalSequence + 1;
        arrivalOrder := arrivalOrder + [key];
      }
    }

    method PutCommand(command: DatabaseCommand)
      modifies this
      ensures View() == StoreCommand(config.rules, old(View()), command)
    {
      var key := CommandKeyOf(command);
      var previousBytes := if key in commands then config.rules.retainedLength(commands[key]) else 0;
      var isNew := key !in commands;
      commands := commands[key := command];
      retainedBytes := SaturatingAdd(SaturatingSub(retainedBytes, previousBytes), config.rules.retainedLength(command));
      if isNew {
        nextArrivalSequence := nextArrivalSequence + 1;
        commandOrder := commandOrder + [key];
      }
    }

    method RemoveExchangeAt(index: nat) returns (key: ExchangeKey)
      requires index < |arrivalOrder|
      modifies this
      ensures key == old(arrivalOrder)[index]
      ensures View() == old(View()).(exchanges := old(exchanges) - {key},
                                     arrivalOrder := old(arrivalOrder)[..index] + old(arrivalOrder)[index + 1..])
    {
      key := arrivalOrder[index];
      arrivalOrder := arrivalOrder[..index] + arrivalOrder[index + 1..];
      exchanges := exchanges - {key};
    }

    method RemoveCommandAt(index: nat) returns (key: CommandKey)
      requires index < |commandOrder| && commandOrder[index] in commands
      modifies this
      ensures key == old(commandOrder)[index]
      ensures View() == old(View()).(
        commands := old(commands) - {key},
        commandOrder := old(commandOrder)[..index] + old(commandOrder)[index + 1..],
        retainedBytes := SaturatingSub(old(retainedBytes), config.rules.retainedLength(old(commands)[key])))
    {
      key := commandOrder[index];
      commandOrder := commandOrder[..index] + commandOrder[index + 1..];
      retainedBytes := SaturatingSub(retainedBytes, config.rules.retainedLength(commands[key]));
      commands := commands - {key};
    }

    method EvictTerminalExchanges() returns (deltas: seq<HubDelta>)
      requires Valid()
      modifies this
      ensures Valid()
      ensures View() == EvictExchanges(config.maxSummaries, old(View()))
      ensures deltas == Removals(ExchangeVictims(config.maxSummaries, old(View())))
    {
      hide Consistent, TerminalExchanges, FirstIn, Elems, Removals, EvictExchanges, ExchangeVictims,
           HubInvariant.Evicting, HubInvariant.Candidates, Without, Only, Victims;
      ghost var before := View();
      ghost var n := 0;
      deltas := [];
      retentionBlockedByInFlight := false;
      HubInvariant.NothingEvicted(before);
      while |exchanges| > config.maxSummaries
        invariant n <= |HubInvariant.Candidates(before)|
        invariant View() == HubInvariant.Evicting(before, n)
        invariant |exchanges| == |before.exchanges| - n
        invariant deltas == Removals(HubInvariant.Candidates(before)[..n])
        invariant n == 0 || |exchanges| >= config.maxSummaries
        invariant !retentionBlockedByInFlight
        decreases |exchanges|
      {
        HubInvariant.EvictionTurn(before, n);
        var terminalIndex := FirstIn(arrivalOrder, TerminalExchanges(exchanges));
        if terminalIndex.None? {
          HubInvariant.EvictionEnds(config.maxSummaries, before, n, true);
          retentionBlockedByInFlight := true;
          return;
        }
        var key := RemoveExchangeAt(terminalIndex.value);
        deltas := deltas + [Remove(key, "retention limit")];
        n := n + 1;
      }
      HubInvariant.EvictionEnds(config.maxSummaries, before, n, false);
    }

    /** Takes out the first terminal command in arrival order; with none left, the store is blocked. */
    method EvictNextCommand(ghost before: Hub, ghost n: nat, ghost deltas: seq<DatabaseDelta>)
      returns (key: Option<CommandKey>)
      requires Consistent(before) && HubInvariant.EvictedSoFar(config, before, n, View(), deltas)
      requires !Fits(CommandLoad(View()), config.commandLimits)
      modifies this
      ensures key.Some? ==>
        && HubInvariant.EvictedSoFar(config, before, n + 1, View(),
                                     deltas + [CommandRemove(key.value, "database retention limit")])
        && |commands| < old(|commands|)
      ensures key.None? ==> Valid() && View() == EvictCommands(config, before)
                            && deltas == CommandRemovals(CommandVictims(config, before))
    {
      hide Consistent, TerminalCommands, FirstIn, CommandRemovals, EvictCommands, CommandVictims,
           HubInvariant.EvictedSoFar, SaturatingSub, Fits;
      HubInvariant.CommandEvictionStep(config, before, n, View(), deltas);
      var terminalIndex := FirstIn(commandOrder, TerminalCommands(commands));
      if terminalIndex.None? {
        commandRetentionBlockedByInFlight := true;
        return None;
      }
      var evicted := RemoveCommandAt(terminalIndex.value);
      key := Some(evicted);
    }

    method EvictTerminalDatabaseCommands() returns (deltas: seq<DatabaseDelta>)
      requires Valid()
      modifies this
      ensures Valid()
      ensures View() == EvictCommands(config, old(View()))
      ensures deltas == CommandRemovals(CommandVictims(config, old(View())))
    {
      hide Consistent, TerminalCommands, FirstIn, CommandRemovals, EvictCommands, CommandVictims,
           HubInvariant.EvictedSoFar, SaturatingSub;
      ghost var before := View();
      ghost var n := 0;
      deltas := [];
      commandRetentionBlockedByInFlight := false;
      assert HubInvariant.EvictedSoFar(config, before, 0, View(), [])
        by { HubInvariant.NothingEvictedSoFar(config, before); }
      while |commands| > config.commandLimits.count || retainedBytes > config.commandLimits.bytes
        invariant HubInvariant.EvictedSoFar(config, before, n, View(), deltas)
        decreases |commands|
      {
        var evicted := EvictNextCommand(before, n, deltas);
        if evicted.None? {
          return;
        }
        deltas := deltas + [CommandRemove(evicted.value, "database retention limit")];
        n := n + 1;
      }
      HubInvariant.CommandEvictionDone(config, before, n, View(), deltas);
    }

    /** Marks the source's unfinished entries incomplete; an entry that fails validation stops the call. */
    method MarkSourceDisconnected(sourceInstanceId: string, receivedAt: string) returns (r: Result<HubMutation, string>)
      requires Valid()
      modifies this
      ensures Valid()
      ensures Outcome(View(), r) == HubState.Disconnect(config, old(View()), sourceInstanceId, receivedAt)
    {
      hide Consistent, AfterExchanges, AfterCommands, FirstExchangeError, FirstCommandError, ExchangeHits, CommandHits,
           InterruptionUpserts, CommandInterruptionUpserts;
      ghost var before := View();
      HubInvariant.DisconnectKeepsConsistent(config, before, sourceInstanceId, receivedAt);
      HubInvariant.ExchangesThenCommands(config.rules, before, sourceInstanceId, receivedAt);
      var failure, deltas := InterruptSourceExchanges(sourceInstanceId, receivedAt);
      if failure.Some? {
        return Failure(failure.value);
      }
      var commandFailure, databaseDeltas := InterruptSourceCommands(sourceInstanceId, receivedAt);
      if commandFailure.Some? {
        return Failure(commandFailure.value);
      }
      HubInvariant.UpsertsPerHit(before, sourceInstanceId, receivedAt);
      r := Success(HubMutation(deltas, databaseDeltas, deltas != [] || databaseDeltas != []));
    }

    method InterruptSourceExchanges(sourceInstanceId: string, receivedAt: string)
      returns (failure: Option<string>, deltas: seq<HubDelta>)
      requires Valid()
      modifies this
      ensures View() == AfterExchanges(config.rules, old(View()), sourceInstanceId, receivedAt)
      ensures failure == FirstExchangeError(config.rules, old(View()), sourceInstanceId, receivedAt)
      ensures failure.None? ==>
        deltas == InterruptionUpserts(old(View()).exchanges, ExchangeHits(old(View()), sourceInstanceId), receivedAt)
    {
      hide Consistent, AfterExchanges, FirstExchangeError, InterruptionUpserts, ExchangeHits, SourceKeys,
           HubInvariant.Interrupting, ExchangeError, Interrupted, SummaryOf;
      ghost var before := View();
      var keys := SourceKeys(View(), sourceInstanceId);
      deltas := [];
      HubInvariant.InterruptionStarts(config.rules, before, sourceInstanceId, receivedAt);
      for i := 0 to |keys|
        invariant View() == before.(exchanges := exchanges)
        invariant HubInvariant.Interrupting(config.rules, before, sourceInstanceId, receivedAt, i, exchanges, deltas)
      {
        var key := keys[i];
        HubInvariant.InterruptionTurn(config.rules, before, sourceInstanceId, receivedAt, i, exchanges, deltas);
        if key in exchanges && exchanges[key].lifecycle.state.InFlight? {
          var interrupted := Interrupted(exchanges[key], receivedAt);
          exchanges := exchanges[key := interrupted];
          failure := ExchangeError(config.rules, interrupted);
          if failure.Some? {
            return;
          }
          deltas := deltas + [Upsert(SummaryOf(interrupted))];
        }
      }
      HubInvariant.InterruptionEnds(config.rules, before, sourceInstanceId, receivedAt, exchanges, deltas);
      failure := None;
    }

    method InterruptSourceCommands(sourceInstanceId: string, receivedAt: string)
      returns (failure: Option<string>, deltas: seq<DatabaseDelta>)
      requires Valid()
      modifies this
      ensures View() == AfterCommands(config.rules, old(View()), sourceInstanceId, receivedAt)
      ensures failure == FirstCommandError(config.rules, old(View()), sourceInstanceId, receivedAt)
      ensures failure.None? ==>
        deltas == CommandInterruptionUpserts(old(View()).commands, CommandHits(old(View()), sourceInstanceId),
                                             receivedAt)
    {
      hide Consistent, AfterCommands, FirstCommandError, CommandInterruptionUpserts, CommandHits, SourceCommandKeys,
           HubInvariant.InterruptingCommands, CommandError, InterruptedCommand, CommandSummaryOf;
      ghost var before := View();
      var keys := SourceCommandKeys(View(), sourceInstanceId);
      deltas := [];
      HubInvariant.CommandInterruptionStarts(config.rules, before, sourceInstanceId, receivedAt);
      for i := 0 to |keys|
        invariant View() == before.(commands := commands)
        invariant HubInvariant.InterruptingCommands(config.rules, before, sourceInstanceId, receivedAt, i, commands,
                                                    deltas)
      {
        var key := keys[i];
        HubInvariant.CommandInterruptionTurn(config.rules, before, sourceInstanceId, receivedAt, i, commands, deltas);
        if key in commands && commands[key].lifecycle.state.InFlight? {
          var interrupted := InterruptedCommand(commands[key], receivedAt);
          commands := commands[key := interrupted];
          failure := CommandError(config.rules, interrupted);
          if failure.Some? {
            return;
          }
          deltas := deltas + [CommandUpsert(CommandSummaryOf(interrupted))];
        }
      }
      HubInvariant.CommandInterruptionEnds(config.rules, before, sourceInstanceId, receivedAt, commands, deltas);
      failure := None;
    }

    /** Starts a fresh session; only the recording switch survives. */
    method ClearSession(newSessionId: string) returns (id: string)
      requires Valid()
      modifies this
      ensures Valid()
      ensures View() == Cleared(old(View()), newSessionId) && id == newSessionId
    {
      hide Consistent;
      HubInvariant.ClearedConsistent(View(), newSessionId);
      sessionId := newSessionId;
      nextArrivalSequence := 1;
      exchanges := map[];
      arrivalOrder := [];
      retentionBlockedByInFlight := false;
      commands := map[];
      commandOrder := [];
      retainedBytes := 0;
      commandRetentionBlockedByInFlight := false;
      id := sessionId;
    }

    method SetRecording(value: bool)
      requires Valid()
      modifies this`recording
      ensures Valid()
      ensures View() == old(View()).(recording := value)
    {
      recording := value;
    }
  }
}
