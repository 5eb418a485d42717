/** Runs of the hub: sequences of ingest, disconnect, clear and recording steps from a fresh session. */
module HubRuns {
  import opened Wrappers
  import opened Sequences
  import opened CaptureModel
  import opened Retention
  import opened ArrivalIndex
  import opened HubState
  import HubInvariant
  import LifecycleMerger

  datatype Step =
    | IngestMessage(source: Source, receivedAt: string, message: CaptureMessage, requireRecording: bool)
    | SourceDisconnected(sourceInstanceId: string, disconnectedAt: string)
    | SessionCleared(sessionId: string)
    | RecordingSwitched(value: bool)

  function StepOutcome(config: HubConfig, hub: Hub, step: Step): Outcome {
    match step
    case IngestMessage(source, receivedAt, message, requireRecording) =>
      Ingest(config, hub, source, receivedAt, message, requireRecording)
    case SourceDisconnected(sourceInstanceId, at) => Disconnect(config, hub, sourceInstanceId, at)
    case SessionCleared(sessionId) =>
      Outcome(Cleared(hub, sessionId), Success(HubMutation([Reset(sessionId, [])], [], true)))
    case RecordingSwitched(value) => Outcome(hub.(recording := value), Success(UNCHANGED))
  }

  function After(config: HubConfig, hub: Hub, step: Step): Hub {
    StepOutcome(config, hub, step).hub
  }

  /** The batch of deltas one step publishes; a rejected step publishes nothing. */
  function Published(config: HubConfig, hub: Hub, step: Step): seq<HubDelta> {
    var result := StepOutcome(config, hub, step).result;
    if result.Success? then result.value.deltas else []
  }

  function Run(config: HubConfig, hub: Hub, steps: seq<Step>): Hub {
    if steps == [] then hub else After(config, Run(config, hub, steps[..|steps| - 1]), steps[|steps| - 1])
  }

  lemma StepKeepsConsistent(config: HubConfig, hub: Hub, step: Step)
    requires Consistent(hub)
    ensures Consistent(After(config, hub, step))
  {
    hide Ingest, Disconnect;
    match step
    case IngestMessage(source, receivedAt, message, requireRecording) =>
      HubInvariant.IngestKeepsConsistent(config, hub, source, receivedAt, message, requireRecording);
    case SourceDisconnected(sourceInstanceId, at) =>
      HubInvariant.DisconnectKeepsConsistent(config, hub, sourceInstanceId, at);
    case SessionCleared(sessionId) =>
      HubInvariant.ClearedConsistent(hub, sessionId);
    case RecordingSwitched(value) =>
  }

  lemma {:induction false} RunKeepsConsistent(config: HubConfig, hub: Hub, steps: seq<Step>)
    requires Consistent(hub)
    ensures Consistent(Run(config, hub, steps))
  {
    hide Consistent, After;
    if steps != [] {
      RunKeepsConsistent(config, hub, steps[..|steps| - 1]);
      StepKeepsConsistent(config, Run(config, hub, steps[..|steps| - 1]), steps[|steps| - 1]);
    }
  }

  /** From a fresh session every run keeps the arrival order exact, the keys right and the counter ahead. */
  lemma ReachableConsistent(config: HubConfig, sessionId: string, steps: seq<Step>)
    ensures Consistent(Run(config, Fresh(sessionId), steps))
  {
    HubInvariant.ClearedConsistent(Fresh(sessionId), sessionId);
    RunKeepsConsistent(config, Fresh(sessionId), steps);
  }

  // ---- progress of one entry

  /** A message of the step that the hub would merge into the entry under `key`. */
  ghost predicate Targets(hub: Hub, step: Step, key: ExchangeKey) {
    && step.IngestMessage?
    && SourceError(step.source, step.message).None?
    && (step.requireRecording ==> hub.recording)
    && step.message.payload.Http?
    && key == ExchangeKey(step.source.instanceId, step.message.payload.exchangeId)
  }

  /** What a step may do to an entry that stays: nothing, or a strictly newer revision in the same place. */
  ghost predicate Advances(old': HttpExchange, new': HttpExchange) {
    && KeyOf(new') == KeyOf(old')
    && new'.arrivalSequence == old'.arrivalSequence
    && (new' == old' || old'.revision < new'.revision)
  }

  /** The step's message is for `key` and is merged, not ignored or rejected. */
  ghost predicate Applies(config: HubConfig, hub: Hub, step: Step, key: ExchangeKey) {
    && Targets(hub, step, key)
    && var merged := MergedExchange(config, hub, step.source, step.receivedAt, step.message.payload);
    && merged.Success? && merged.value.Applied?
  }

  function Merged(config: HubConfig, hub: Hub, step: Step): HttpExchange
    requires step.IngestMessage?
    requires var merged := MergedExchange(config, hub, step.source, step.receivedAt, step.message.payload);
      merged.Success? && merged.value.Applied?
  {
    MergedExchange(config, hub, step.source, step.receivedAt, step.message.payload).value.exchange
  }

  /** An ingest leaves an entry alone, replaces it by what its own message merges to, or evicts it. */
  lemma IngestCell(config: HubConfig, hub: Hub, step: Step, key: ExchangeKey)
    requires Consistent(hub) && step.IngestMessage?
    ensures var next := After(config, hub, step);
      key in next.exchanges ==>
        if Applies(config, hub, step, key) then next.exchanges[key] == Merged(config, hub, step)
        else key in hub.exchanges && next.exchanges[key] == hub.exchanges[key]
  {
    hide Consistent, MergedExchange, EvictExchanges, StoreExchange, ExchangeVictims, IngestCommand, SummaryOf, Removals,
         KeyOf, ExchangeError;
    HubInvariant.AppliedExchange(config, hub, step.source, step.receivedAt, step.message.payload);
    var payload := step.message.payload;
    if payload.Database? {
      CommandSideOnly(config, hub, step.source, step.receivedAt, payload);
    } else {
      var merged := MergedExchange(config, hub, step.source, step.receivedAt, payload);
      if merged.Success? && merged.value.Applied? {
        StoreThenEvict(config.maxSummaries, hub, merged.value.exchange, key);
      }
    }
  }

  lemma StoreThenEvict(limit: nat, hub: Hub, e: HttpExchange, key: ExchangeKey)
    ensures var next := EvictExchanges(limit, StoreExchange(hub, e));
      key in next.exchanges ==>
        if key == KeyOf(e) then next.exchanges[key] == e
        else key in hub.exchanges && next.exchanges[key] == hub.exchanges[key]
  {
    hide ExchangeVictims, KeyOf;
  }

  lemma CommandSideOnly(config: HubConfig, hub: Hub, source: Source, receivedAt: string, payload: Payload)
    requires payload.Database?
    ensures var next := IngestCommand(config, hub, source, receivedAt, payload).hub;
      next == hub.(nextArrivalSequence := next.nextArrivalSequence, commands := next.commands,
                   commandOrder := next.commandOrder,
                   retainedBytes := next.retainedBytes,
                   commandRetentionBlockedByInFlight := next.commandRetentionBlockedByInFlight)
      && hub.nextArrivalSequence <= next.nextArrivalSequence
  {
    hide MergedCommand, CommandVictims, Lengths, CommandKeyOf, CommandSummaryOf, CommandRemovals, LoadAfter;
  }

  lemma DisconnectCell(config: HubConfig, hub: Hub, sourceInstanceId: string, receivedAt: string, key: ExchangeKey)
    requires key in hub.exchanges
    ensures var next := Disconnect(config, hub, sourceInstanceId, receivedAt).hub;
      key in next.exchanges &&
      (next.exchanges[key] == hub.exchanges[key] ||
       (hub.exchanges[key].lifecycle.state.InFlight?
        && next.exchanges[key] == Interrupted(hub.exchanges[key], receivedAt)))
  {
    hide Interrupted, InterruptCommands, TouchedCommands, FirstExchangeError, FirstCommandError, InterruptionUpserts,
         CommandInterruptionUpserts,
         CommandHits, TouchedExchanges, ExchangeHits;
    TouchedInFlight(config.rules, hub, sourceInstanceId, receivedAt, key);
  }

  lemma TouchedInFlight(rules: Rules, hub: Hub, sourceInstanceId: string, receivedAt: string, key: ExchangeKey)
    ensures key in Elems(TouchedExchanges(rules, hub, sourceInstanceId, receivedAt)) ==>
      key in hub.exchanges && hub.exchanges[key].lifecycle.state.InFlight?
  {
    hide ValidExchangePrefix;
    var hits := ExchangeHits(hub, sourceInstanceId);
    OnlyMembers(hub.arrivalOrder, InFlightExchanges(hub.exchanges, sourceInstanceId), key);
    assert key in TouchedExchanges(rules, hub, sourceInstanceId, receivedAt) ==> key in hits;
  }

  /** While an entry stays stored its revision never decreases, and any change raises it. */
  lemma EntryAdvances(config: HubConfig, hub: Hub, step: Step, key: ExchangeKey)
    requires Consistent(hub)
    requires !step.SessionCleared?
    requires key in hub.exchanges && key in After(config, hub, step).exchanges
    ensures Advances(hub.exchanges[key], After(config, hub, step).exchanges[key])
  {
    if step.IngestMessage? {
      IngestCell(config, hub, step, key);
      HubInvariant.AppliedExchange(config, hub, step.source, step.receivedAt, step.message.payload);
      assert KeyOf(hub.exchanges[key]) == key;
      hide Consistent, After, MergedExchange, KeyOf;
    } else if step.SourceDisconnected? {
      DisconnectCell(config, hub, step.sourceInstanceId, step.disconnectedAt, key);
      hide Consistent, Disconnect;
    }
  }

  /** Only a snapshot message for the entry takes it out of a terminal state while it stays stored. */
  lemma TerminalOnlyLeftBySnapshot(config: HubConfig, hub: Hub, step: Step, key: ExchangeKey)
    requires Consistent(hub)
    requires !step.SessionCleared?
    requires key in hub.exchanges && key in After(config, hub, step).exchanges
    requires IsTerminal(hub.exchanges[key].lifecycle.state)
    requires !IsTerminal(After(config, hub, step).exchanges[key].lifecycle.state)
    ensures Targets(hub, step, key) && step.message.payload.event.Snapshot?
  {
    if step.IngestMessage? {
      IngestCell(config, hub, step, key);
      assert KeyOf(hub.exchanges[key]) == key;
      hide Consistent, After, Merged;
      assert Applies(config, hub, step, key);
      if !step.message.payload.event.Snapshot? {
        MergeKeepsTerminal(config, hub, step, key);
      }
    } else if step.SourceDisconnected? {
      DisconnectCell(config, hub, step.sourceInstanceId, step.disconnectedAt, key);
      hide Consistent, Disconnect;
    }
  }

  lemma MergeKeepsTerminal(config: HubConfig, hub: Hub, step: Step, key: ExchangeKey)
    requires step.IngestMessage? && Applies(config, hub, step, key)
    requires key in hub.exchanges && KeyOf(hub.exchanges[key]) == key
    requires IsTerminal(hub.exchanges[key].lifecycle.state) && !step.message.payload.event.Snapshot?
    ensures IsTerminal(Merged(config, hub, step).lifecycle.state)
  {
    var current := CurrentExchange(hub, key);
    LifecycleMerger.AppliedKeepsIdentity(config.rules, current,
                                         ExchangeContext(hub, step.source, step.receivedAt, current),
                                         step.message.payload);
  }

  // ---- retention

  /**
   Retention, for any store: the evicted keys are the first of the terminal ones in arrival order,
   as many as are over the limit or as there are; no entry in flight goes; the rest keep their order
   and content; nothing goes that would have fit; and the blocked flag says exactly that the store is still
   over the limit.
   */
  lemma RetentionExact(limit: nat, hub: Hub)
    requires Consistent(hub)
    ensures var next := EvictExchanges(limit, hub);
      var victims := ExchangeVictims(limit, hub);
      var terminal := Only(hub.arrivalOrder, TerminalExchanges(hub.exchanges));
      && victims <= terminal
      && |victims| == VictimCount(|hub.exchanges|, |terminal|, limit)
      && (victims != [] ==> |next.exchanges| >= limit)
      && next.exchanges.Keys == hub.exchanges.Keys - Elems(victims)
      && |next.exchanges| == |hub.exchanges| - |victims|
      && (forall k :: k in hub.exchanges && hub.exchanges[k].lifecycle.state.InFlight? ==>
            k in next.exchanges && next.exchanges[k] == hub.exchanges[k])
      && (forall k :: k in victims ==> k in hub.exchanges)
      && (forall k :: k in next.exchanges ==> k in hub.exchanges && next.exchanges[k] == hub.exchanges[k])
      && next.arrivalOrder == Without(hub.arrivalOrder, Elems(victims))
      && (next.retentionBlockedByInFlight <==> |next.exchanges| > limit)
      && (next.retentionBlockedByInFlight ==> forall k :: k in next.exchanges ==>
          next.exchanges[k].lifecycle.state.InFlight?)
  {
    hide Consistent, Only, TerminalExchanges, NoDup, Without;
    var next, victims := EvictExchanges(limit, hub), ExchangeVictims(limit, hub);
    var terminal := Only(hub.arrivalOrder, TerminalExchanges(hub.exchanges));
    CandidatesAreTerminal(hub);
    assert NoDup(victims) by {
      HubInvariant.OrderNoDup(hub);
      OnlyNoDup(hub.arrivalOrder, TerminalExchanges(hub.exchanges));
      PrefixNoDup(terminal, |victims|);
    }
    assert forall k :: k in victims ==> k in terminal;
    VictimsCounted(hub, victims);
    if next.retentionBlockedByInFlight {
      assert victims == terminal;
    }
  }

  lemma PrefixNoDup(keys: seq<ExchangeKey>, n: nat)
    requires NoDup(keys) && n <= |keys|
    ensures NoDup(keys[..n])
  {
  }

  lemma CandidatesAreTerminal(hub: Hub)
    requires Consistent(hub)
    ensures forall k :: k in Only(hub.arrivalOrder, TerminalExchanges(hub.exchanges)) <==>
      k in hub.exchanges && IsTerminal(hub.exchanges[k].lifecycle.state)
  {
    forall k ensures k in Only(hub.arrivalOrder, TerminalExchanges(hub.exchanges)) <==>
      k in TerminalExchanges(hub.exchanges) {
      OnlyMembers(hub.arrivalOrder, TerminalExchanges(hub.exchanges), k);
      StoredIsOrdered(hub, k);
    }
  }

  lemma StoredIsOrdered(hub: Hub, k: ExchangeKey)
    requires Consistent(hub)
    ensures k in hub.exchanges <==> k in hub.arrivalOrder
  {
    assert k in hub.exchanges <==> k in ExchangeRanks(hub.exchanges);
  }

  lemma VictimsCounted(hub: Hub, victims: seq<ExchangeKey>)
    requires NoDup(victims) && forall k :: k in victims ==> k in hub.exchanges
    ensures |hub.exchanges - Elems(victims)| == |hub.exchanges| - |victims|
  {
    ElemsCard(victims);
    var left := hub.exchanges - Elems(victims);
    assert left.Keys == hub.exchanges.Keys - Elems(victims);
    assert Elems(victims) <= hub.exchanges.Keys;
  }

  // ---- which disconnects succeed

  /** Every entry of the source in flight would still be valid once interrupted. */
  ghost predicate Interruptible(rules: Rules, hub: Hub, sourceInstanceId: string, receivedAt: string) {
    && (forall k :: k in hub.exchanges && k.sourceInstanceId == sourceInstanceId
                    && hub.exchanges[k].lifecycle.state.InFlight? ==>
          ExchangeError(rules, Interrupted(hub.exchanges[k], receivedAt)).None?)
    && (forall k :: k in hub.commands && k.sourceInstanceId == sourceInstanceId
                    && hub.commands[k].lifecycle.state.InFlight? ==>
          CommandError(rules, InterruptedCommand(hub.commands[k], receivedAt)).None?)
  }

  ghost predicate NoExchangeInFlight(hub: Hub, sourceInstanceId: string) {
    forall k :: k in hub.exchanges && k.sourceInstanceId == sourceInstanceId ==>
      !hub.exchanges[k].lifecycle.state.InFlight?
  }

  lemma {:induction false} AllValidIff(rules: Rules, exchanges: map<ExchangeKey, HttpExchange>, hits: seq<ExchangeKey>,
                                       receivedAt: string)
    requires forall k :: k in hits ==> k in exchanges
    ensures ValidExchangePrefix(rules, exchanges, hits, receivedAt) == |hits|
       <==> forall k :: k in hits ==> ExchangeError(rules, Interrupted(exchanges[k], receivedAt)).None?
  {
    hide ExchangeError, Interrupted;
    if hits != [] {
      assert hits[0] in hits && forall k :: k in hits <==> k == hits[0] || k in hits[1..];
      AllValidIff(rules, exchanges, hits[1..], receivedAt);
    }
  }

  lemma {:induction false} AllCommandsValidIff(rules: Rules, commands: map<CommandKey, DatabaseCommand>,
                                               hits: seq<CommandKey>, receivedAt: string)
    requires forall k :: k in hits ==> k in commands
    ensures ValidCommandPrefix(rules, commands, hits, receivedAt) == |hits|
       <==> forall k :: k in hits ==> CommandError(rules, InterruptedCommand(commands[k], receivedAt)).None?
  {
    hide CommandError, InterruptedCommand;
    if hits != [] {
      assert hits[0] in hits && forall k :: k in hits <==> k == hits[0] || k in hits[1..];
      AllCommandsValidIff(rules, commands, hits[1..], receivedAt);
    }
  }

  /** The hits of a disconnect are the source's exchanges in flight. */
  lemma HitsAreInFlight(hub: Hub, sourceInstanceId: string)
    requires Consistent(hub)
    ensures forall k :: k in ExchangeHits(hub, sourceInstanceId) <==>
      k in hub.exchanges && k.sourceInstanceId == sourceInstanceId && hub.exchanges[k].lifecycle.state.InFlight?
    ensures ExchangeHits(hub, sourceInstanceId) == [] <==> NoExchangeInFlight(hub, sourceInstanceId)
  {
    hide Consistent, Only;
    var hits := ExchangeHits(hub, sourceInstanceId);
    forall k ensures k in hits <==> k in InFlightExchanges(hub.exchanges, sourceInstanceId) {
      OnlyMembers(hub.arrivalOrder, InFlightExchanges(hub.exchanges, sourceInstanceId), k);
      StoredIsOrdered(hub, k);
    }
    if hits != [] {
      assert hits[0] in hits;
    }
  }

  lemma CommandIsOrdered(hub: Hub, k: CommandKey)
    requires Consistent(hub)
    ensures k in hub.commands <==> k in hub.commandOrder
  {
    assert k in hub.commands <==> k in CommandRanks(hub.commands);
  }

  lemma CommandHitsAreInFlight(hub: Hub, sourceInstanceId: string)
    requires Consistent(hub)
    ensures forall k :: k in CommandHits(hub, sourceInstanceId) <==>
      k in hub.commands && k.sourceInstanceId == sourceInstanceId && hub.commands[k].lifecycle.state.InFlight?
  {
    hide Consistent, Only;
    forall k ensures k in CommandHits(hub, sourceInstanceId) <==> k in InFlightCommands(hub.commands, sourceInstanceId)
    {
      OnlyMembers(hub.commandOrder, InFlightCommands(hub.commands, sourceInstanceId), k);
      CommandIsOrdered(hub, k);
    }
  }

  lemma NoErrorIff(rules: Rules, hub: Hub, sourceInstanceId: string, receivedAt: string)
    ensures FirstExchangeError(rules, hub, sourceInstanceId, receivedAt).None?
       <==> ValidExchangePrefix(rules, hub.exchanges, ExchangeHits(hub, sourceInstanceId), receivedAt)
            == |ExchangeHits(hub, sourceInstanceId)|
    ensures FirstCommandError(rules, hub, sourceInstanceId, receivedAt).None?
       <==> ValidCommandPrefix(rules, hub.commands, CommandHits(hub, sourceInstanceId), receivedAt)
            == |CommandHits(hub, sourceInstanceId)|
  {
    hide ExchangeError, CommandError, Interrupted, InterruptedCommand, ExchangeHits, CommandHits;
  }

  /** A disconnect succeeds exactly when everything it interrupts stays valid. */
  lemma DisconnectSucceedsIff(config: HubConfig, hub: Hub, sourceInstanceId: string, receivedAt: string)
    requires Consistent(hub)
    ensures Disconnect(config, hub, sourceInstanceId, receivedAt).result.Success? <==>
      Interruptible(config.rules, hub, sourceInstanceId, receivedAt)
  {
    hide Consistent, ExchangeHits, CommandHits, ExchangeError, CommandError, Interrupted, InterruptedCommand,
         FirstExchangeError, FirstCommandError,
         AfterExchanges, AfterCommands, InterruptionUpserts, CommandInterruptionUpserts, ValidExchangePrefix,
           ValidCommandPrefix;
    HitsAreInFlight(hub, sourceInstanceId);
    CommandHitsAreInFlight(hub, sourceInstanceId);
    AllValidIff(config.rules, hub.exchanges, ExchangeHits(hub, sourceInstanceId), receivedAt);
    AllCommandsValidIff(config.rules, hub.commands, CommandHits(hub, sourceInstanceId), receivedAt);
    NoErrorIff(config.rules, hub, sourceInstanceId, receivedAt);
  }

  // ---- snapshots and redelivery

  /** An exchange without the fields the hub owns. */
  function Content(exchange: HttpExchange): HttpExchange {
    exchange.(sessionId := "", source := Source("", "", 0, ""), revision := 0, arrivalSequence := 0,
              lifecycle := exchange.lifecycle.(receivedAt := "", lastUpdatedAt := ""))
  }

  /** Every message for the key is older than `revision`, except copies of one snapshot at it. */
  ghost predicate SnapshotIsNewest(config: HubConfig, hub: Hub, steps: seq<Step>, key: ExchangeKey, revision: nat,
                                   exchange: HttpExchange) {
    forall i :: 0 <= i < |steps| ==>
      && steps[i].IngestMessage?
      && (Targets(Run(config, hub, steps[..i]), steps[i], key) ==>
            var payload := steps[i].message.payload;
            payload.revision < revision || (payload.revision == revision && payload.event == Snapshot(exchange)))
  }

  /** The entry is at most at the snapshot's revision, and at it only with the snapshot's content. */
  ghost predicate Below(hub: Hub, key: ExchangeKey, revision: nat, exchange: HttpExchange) {
    key in hub.exchanges ==>
      && hub.exchanges[key].revision <= revision
      && (hub.exchanges[key].revision == revision ==> Content(hub.exchanges[key]) == Content(exchange))
  }

  /** The hub takes the step's message for `key`, at this revision, without error. */
  ghost predicate Accepts(config: HubConfig, hub: Hub, step: Step, key: ExchangeKey, revision: nat) {
    && Targets(hub, step, key)
    && step.message.payload.revision == revision
    && StepOutcome(config, hub, step).result.Success?
  }

  lemma IngestStaysBelow(config: HubConfig, hub: Hub, step: Step, key: ExchangeKey, revision: nat,
                         exchange: HttpExchange)
    requires Consistent(hub) && step.IngestMessage?
    requires Targets(hub, step, key) ==>
      var payload := step.message.payload;
      payload.revision < revision || (payload.revision == revision && payload.event == Snapshot(exchange))
    requires Below(hub, key, revision, exchange)
    ensures Below(After(config, hub, step), key, revision, exchange)
    ensures Accepts(config, hub, step, key, revision) && key in After(config, hub, step).exchanges ==>
      After(config, hub, step).exchanges[key].revision == revision
  {
    IngestCell(config, hub, step, key);
    if Applies(config, hub, step, key) {
      HubInvariant.AppliedExchange(config, hub, step.source, step.receivedAt, step.message.payload);
      SnapshotContent(config, hub, step, key);
    }
    hide Consistent, StepOutcome, Content, MergedExchange;
    if Targets(hub, step, key) {
      StaleResult(config, hub, step, key);
    }
  }

  lemma SnapshotContent(config: HubConfig, hub: Hub, step: Step, key: ExchangeKey)
    requires Applies(config, hub, step, key)
    ensures step.message.payload.event.Snapshot? ==>
      Content(Merged(config, hub, step)) == Content(step.message.payload.event.exchange)
  {
  }

  /** A message taken without being merged was not newer than the entry. */
  lemma StaleResult(config: HubConfig, hub: Hub, step: Step, key: ExchangeKey)
    requires Targets(hub, step, key)
    ensures StepOutcome(config, hub, step).result.Success? && !Applies(config, hub, step, key) ==>
      key in hub.exchanges && step.message.payload.revision <= hub.exchanges[key].revision
  {
    var current := CurrentExchange(hub, key);
    LifecycleMerger.StaleExactlyWhenNotNewer(config.rules, current,
                                             ExchangeContext(hub, step.source, step.receivedAt, current),
                                             step.message.payload);
    hide LifecycleMerger.Merge, EvictExchanges, StoreExchange, ExchangeVictims;
  }

  lemma {:induction false} RunStaysBelow(config: HubConfig, hub: Hub, steps: seq<Step>, key: ExchangeKey, revision: nat,
                                         exchange: HttpExchange)
    requires Consistent(hub)
    requires SnapshotIsNewest(config, hub, steps, key, revision, exchange)
    requires Below(hub, key, revision, exchange)
    ensures Below(Run(config, hub, steps), key, revision, exchange)
  {
    hide Consistent, Below, Targets, SnapshotIsNewest, After;
    if steps != [] {
      var n := |steps| - 1;
      var front := steps[..n];
      NewestOfPrefix(config, hub, steps, key, revision, exchange);
      RunStaysBelow(config, hub, front, key, revision, exchange);
      RunKeepsConsistent(config, hub, front);
      IngestStaysBelow(config, Run(config, hub, front), steps[n], key, revision, exchange);
    }
  }

  /**
   The step carries a snapshot for the key that names it rightly and is valid once the hub has filled in its
   own fields.
   */
  ghost predicate ValidSnapshot(config: HubConfig, hub: Hub, step: Step, key: ExchangeKey, revision: nat,
                                exchange: HttpExchange) {
    && Targets(hub, step, key)
    && step.message.payload.revision == revision
    && step.message.payload.event == Snapshot(exchange)
    && exchange.id == step.message.payload.exchangeId
    && ExchangeError(config.rules,
         LifecycleMerger.Adopted(ExchangeContext(hub, step.source, step.receivedAt, CurrentExchange(hub, key)),
                                 revision, exchange)).None?
  }

  /** The hub takes a valid snapshot, merged or as one it already has. */
  lemma ValidSnapshotAccepted(config: HubConfig, hub: Hub, step: Step, key: ExchangeKey, revision: nat,
                              exchange: HttpExchange)
    requires ValidSnapshot(config, hub, step, key, revision, exchange)
    ensures Accepts(config, hub, step, key, revision)
  {
    hide ExchangeError, LifecycleMerger.Adopted, EvictExchanges, StoreExchange, ExchangeVictims;
  }

  /**
   Snapshot dominance. Take any run of ingests, in any order and with any duplicates, whose messages
   for a key are all older than one snapshot or copies of it. Once a valid copy of the snapshot has
   reached the hub, and as long as it then keeps the key, the entry has the snapshot's revision and
   content.
   */
  lemma SnapshotDominates(config: HubConfig, hub: Hub, steps: seq<Step>, at: nat, key: ExchangeKey, revision: nat,
                          exchange: HttpExchange)
    requires Consistent(hub) && at < |steps|
    requires SnapshotIsNewest(config, hub, steps, key, revision, exchange)
    requires Below(hub, key, revision, exchange)
    requires ValidSnapshot(config, Run(config, hub, steps[..at]), steps[at], key, revision, exchange)
    requires forall i :: at < i < |steps| ==> key in Run(config, hub, steps[..i]).exchanges
    requires key in Run(config, hub, steps).exchanges
    ensures var entry := Run(config, hub, steps).exchanges[key];
      entry.revision == revision && Content(entry) == Content(exchange)
  {
    hide Consistent, Content, SnapshotIsNewest, Run, Below, ValidSnapshot, Accepts;
    ValidSnapshotAccepted(config, Run(config, hub, steps[..at]), steps[at], key, revision, exchange);
    AcceptedDominates(config, hub, steps, at, key, revision, exchange);
  }

  lemma {:induction false} AcceptedDominates(config: HubConfig, hub: Hub, steps: seq<Step>, at: nat, key: ExchangeKey,
                                             revision: nat, exchange: HttpExchange)
    requires Consistent(hub) && at < |steps|
    requires SnapshotIsNewest(config, hub, steps, key, revision, exchange)
    requires Below(hub, key, revision, exchange)
    requires Accepts(config, Run(config, hub, steps[..at]), steps[at], key, revision)
    requires forall i :: at < i < |steps| ==> key in Run(config, hub, steps[..i]).exchanges
    requires key in Run(config, hub, steps).exchanges
    ensures var entry := Run(config, hub, steps).exchanges[key];
      entry.revision == revision && Content(entry) == Content(exchange)
    decreases |steps|
  {
    hide Consistent, Targets, Content, After, Accepts, SnapshotIsNewest, Run;
    var n := |steps| - 1;
    var front := steps[..n];
    NewestOfPrefix(config, hub, steps, key, revision, exchange);
    RunStaysBelow(config, hub, front, key, revision, exchange);
    RunKeepsConsistent(config, hub, front);
    var before := Run(config, hub, front);
    IngestStaysBelow(config, before, steps[n], key, revision, exchange);
    if at < n {
      assert front[..at] == steps[..at];
      assert forall i :: at < i < n ==> front[..i] == steps[..i];
      AcceptedDominates(config, hub, front, at, key, revision, exchange);
      EntryAdvances(config, before, steps[n], key);
    }
  }

  lemma NewestOfPrefix(config: HubConfig, hub: Hub, steps: seq<Step>, key: ExchangeKey, revision: nat,
                       exchange: HttpExchange)
    requires steps != [] && SnapshotIsNewest(config, hub, steps, key, revision, exchange)
    ensures var n := |steps| - 1;
      && SnapshotIsNewest(config, hub, steps[..n], key, revision, exchange)
      && Run(config, hub, steps) == After(config, Run(config, hub, steps[..n]), steps[n])
      && steps[n].IngestMessage?
      && (Targets(Run(config, hub, steps[..n]), steps[n], key) ==>
            var payload := steps[n].message.payload;
            payload.revision < revision || (payload.revision == revision && payload.event == Snapshot(exchange)))
  {
    hide Targets, After;
    var n := |steps| - 1;
    assert forall i :: 0 <= i < n ==> steps[..n][i] == steps[i] && steps[..n][..i] == steps[..i];
  }

  lemma {:induction false} RunAdvances(config: HubConfig, hub: Hub, steps: seq<Step>, key: ExchangeKey)
    requires Consistent(hub)
    requires forall i :: 0 <= i < |steps| ==> !steps[i].SessionCleared?
    requires forall i :: 0 <= i <= |steps| ==> key in Run(config, hub, steps[..i]).exchanges
    ensures key in hub.exchanges && key in Run(config, hub, steps).exchanges
    ensures hub.exchanges[key].revision <= Run(config, hub, steps).exchanges[key].revision
  {
    hide Consistent, After;
    assert steps[..|steps|] == steps;
    assert steps[..0] == [];
    assert Run(config, hub, []) == hub;
    if steps != [] {
      var n := |steps| - 1;
      var front := steps[..n];
      assert forall i :: 0 <= i <= n ==> front[..i] == steps[..i];
      RunAdvances(config, hub, front, key);
      RunKeepsConsistent(config, hub, front);
      EntryAdvances(config, Run(config, hub, front), steps[n], key);
    }
  }

  /**
   Redelivery. A message the hub once took without error, delivered again after any run that kept its
   key stored, changes nothing and publishes nothing.
   */
  lemma RedeliveryChangesNothing(config: HubConfig, hub: Hub, first: Step, steps: seq<Step>, again: Step,
                                 key: ExchangeKey)
    requires Consistent(hub) && Targets(hub, first, key)
    requires StepOutcome(config, hub, first).result.Success?
    requires forall i :: 0 <= i < |steps| ==> !steps[i].SessionCleared?
    requires forall i :: 0 <= i <= |steps| ==> key in Run(config, After(config, hub, first), steps[..i]).exchanges
    requires again.IngestMessage? && again.source.instanceId == first.source.instanceId
      && again.message == first.message
    ensures var last := Run(config, After(config, hub, first), steps);
      StepOutcome(config, last, again) == Outcome(last, Success(UNCHANGED))
  {
    hide Consistent, After, StepOutcome, MergedExchange, KeyOf, ExchangeError;
    var taken := After(config, hub, first);
    var last := Run(config, taken, steps);
    IngestCell(config, hub, first, key);
    StaleResult(config, hub, first, key);
    HubInvariant.AppliedExchange(config, hub, first.source, first.receivedAt, first.message.payload);
    assert steps[..0] == [] && Run(config, taken, []) == taken;
    StepKeepsConsistent(config, hub, first);
    RunAdvances(config, taken, steps, key);
    NotNewerChangesNothing(config, last, again, key);
  }

  lemma NotNewerChangesNothing(config: HubConfig, hub: Hub, step: Step, key: ExchangeKey)
    requires step.IngestMessage? && SourceError(step.source, step.message).None? && step.message.payload.Http?
    requires key == ExchangeKey(step.source.instanceId, step.message.payload.exchangeId)
    requires key in hub.exchanges && step.message.payload.revision <= hub.exchanges[key].revision
    ensures StepOutcome(config, hub, step) == Outcome(hub, Success(UNCHANGED))
  {
    var current := CurrentExchange(hub, key);
    LifecycleMerger.StaleExactlyWhenNotNewer(config.rules, current,
                                             ExchangeContext(hub, step.source, step.receivedAt, current),
                                             step.message.payload);
    hide LifecycleMerger.Merge, EvictExchanges, StoreExchange, ExchangeVictims;
  }
}
