/** Every hub operation keeps the hub consistent. */
module HubInvariant {
  import opened Wrappers
  import opened Sequences
  import opened CaptureModel
  import opened Retention
  import opened ArrivalIndex
  import opened HubState
  import LifecycleMerger
  import DatabaseMerger

  /** What an applied exchange message stores: its own key, the sequence it had or the next one, a newer revision. */
  lemma AppliedExchange(config: HubConfig, hub: Hub, source: Source, receivedAt: string, payload: Payload)
    requires Consistent(hub)
    ensures var merged := MergedExchange(config, hub, source, receivedAt, payload);
      merged.Success? && merged.value.Applied? ==>
        && payload.Http?
        && var e := merged.value.exchange;
           var key := ExchangeKey(source.instanceId, payload.exchangeId);
        && KeyOf(e) == key
        && e.revision == payload.revision
        && ExchangeError(config.rules, e).None?
        && (if key in hub.exchanges
            then e.arrivalSequence == hub.exchanges[key].arrivalSequence && hub.exchanges[key].revision < e.revision
            else e.arrivalSequence == hub.nextArrivalSequence)
  {
    if payload.Http? {
      var key := ExchangeKey(source.instanceId, payload.exchangeId);
      var current := CurrentExchange(hub, key);
      LifecycleMerger.AppliedKeepsIdentity(config.rules, current, ExchangeContext(hub, source, receivedAt, current),
                                           payload);
    }
  }

  lemma AppliedCommand(config: HubConfig, hub: Hub, source: Source, receivedAt: string, payload: Payload)
    requires Consistent(hub) && payload.Database?
    ensures var merged := MergedCommand(config, hub, source, receivedAt, payload);
      merged.Success? && merged.value.Applied? ==>
        && var c := merged.value.command;
           var key := CommandKey(source.instanceId, payload.commandId);
        && CommandKeyOf(c) == key
        && c.revision == payload.revision
        && (if key in hub.commands
            then c.arrivalSequence == hub.commands[key].arrivalSequence && hub.commands[key].revision < c.revision
            else c.arrivalSequence == hub.nextArrivalSequence)
  {
    var key := CommandKey(source.instanceId, payload.commandId);
    var current := CurrentCommand(hub, key);
    DatabaseMerger.AppliedKeepsIdentity(config.rules, current, CommandContext(hub, source, receivedAt, current),
                                        payload);
  }

  lemma StoreExchangeConsistent(hub: Hub, e: HttpExchange)
    requires Consistent(hub)
    requires e.arrivalSequence ==
      if KeyOf(e) in hub.exchanges then hub.exchanges[KeyOf(e)].arrivalSequence else hub.nextArrivalSequence
    ensures Consistent(StoreExchange(hub, e))
  {
    var key, ranks := KeyOf(e), ExchangeRanks(hub.exchanges);
    assert ExchangeRanks(hub.exchanges[key := e]) == ranks[key := e.arrivalSequence];
    if key in hub.exchanges {
      assert ranks[key := e.arrivalSequence] == ranks;
    } else {
      AppendKey(hub.arrivalOrder, ranks, hub.nextArrivalSequence, key);
    }
  }

  lemma StoreCommandConsistent(rules: Rules, hub: Hub, c: DatabaseCommand)
    requires Consistent(hub)
    requires c.arrivalSequence ==
      if CommandKeyOf(c) in hub.commands then hub.commands[CommandKeyOf(c)].arrivalSequence else hub.nextArrivalSequence
    ensures Consistent(StoreCommand(rules, hub, c))
  {
    var key, ranks := CommandKeyOf(c), CommandRanks(hub.commands);
    assert CommandRanks(hub.commands[key := c]) == ranks[key := c.arrivalSequence];
    if key in hub.commands {
      assert ranks[key := c.arrivalSequence] == ranks;
    } else {
      AppendKey(hub.commandOrder, ranks, hub.nextArrivalSequence, key);
    }
  }

  lemma RemoveExchangesConsistent(hub: Hub, gone: set<ExchangeKey>, blocked: bool)
    requires Consistent(hub)
    ensures Consistent(hub.(exchanges := hub.exchanges - gone, arrivalOrder := Without(hub.arrivalOrder, gone),
                            retentionBlockedByInFlight := blocked))
  {
    RemoveKeys(hub.arrivalOrder, ExchangeRanks(hub.exchanges), hub.nextArrivalSequence, gone);
    assert ExchangeRanks(hub.exchanges - gone) == ExchangeRanks(hub.exchanges) - gone;
  }

  lemma RemoveCommandsConsistent(hub: Hub, gone: set<CommandKey>, bytes: nat, blocked: bool)
    requires Consistent(hub)
    ensures Consistent(hub.(commands := hub.commands - gone, commandOrder := Without(hub.commandOrder, gone),
                            retainedBytes := bytes, commandRetentionBlockedByInFlight := blocked))
  {
    RemoveKeys(hub.commandOrder, CommandRanks(hub.commands), hub.nextArrivalSequence, gone);
    assert CommandRanks(hub.commands - gone) == CommandRanks(hub.commands) - gone;
  }

  /** The hub invariant survives ingesting any message, accepted, stale or rejected. */
  lemma IngestKeepsConsistent(config: HubConfig, hub: Hub, source: Source, receivedAt: string, message: CaptureMessage,
                              requireRecording: bool)
    requires Consistent(hub)
    ensures Consistent(Ingest(config, hub, source, receivedAt, message, requireRecording).hub)
  {
    if message.payload.Database? {
      AppliedCommand(config, hub, source, receivedAt, message.payload);
      var merged := MergedCommand(config, hub, source, receivedAt, message.payload);
      if merged.Success? && merged.value.Applied? {
        StoreCommandConsistent(config.rules, hub, merged.value.command);
        var stored := StoreCommand(config.rules, hub, merged.value.command);
        var next := EvictCommands(config, stored);
        RemoveCommandsConsistent(stored, Elems(CommandVictims(config, stored)), next.retainedBytes,
                                 next.commandRetentionBlockedByInFlight);
      }
    } else {
      AppliedExchange(config, hub, source, receivedAt, message.payload);
      var merged := MergedExchange(config, hub, source, receivedAt, message.payload);
      if merged.Success? && merged.value.Applied? {
        StoreExchangeConsistent(hub, merged.value.exchange);
        var stored := StoreExchange(hub, merged.value.exchange);
        RemoveExchangesConsistent(stored, Elems(ExchangeVictims(config.maxSummaries, stored)),
                                  EvictExchanges(config.maxSummaries, stored).retentionBlockedByInFlight);
      }
    }
  }

  lemma InterruptExchangesConsistent(hub: Hub, hits: set<ExchangeKey>, receivedAt: string)
    requires Consistent(hub)
    ensures Consistent(hub.(exchanges := InterruptExchanges(hub.exchanges, hits, receivedAt)))
  {
    assert ExchangeRanks(InterruptExchanges(hub.exchanges, hits, receivedAt)) == ExchangeRanks(hub.exchanges);
  }

  lemma InterruptCommandsConsistent(hub: Hub, hits: set<CommandKey>, receivedAt: string)
    requires Consistent(hub)
    ensures Consistent(hub.(commands := InterruptCommands(hub.commands, hits, receivedAt)))
  {
    assert CommandRanks(InterruptCommands(hub.commands, hits, receivedAt)) == CommandRanks(hub.commands);
  }

  /** So does a disconnect, even one that stops half way with an error. */
  lemma DisconnectKeepsConsistent(config: HubConfig, hub: Hub, sourceInstanceId: string, receivedAt: string)
    requires Consistent(hub)
    ensures Consistent(Disconnect(config, hub, sourceInstanceId, receivedAt).hub)
  {
    InterruptExchangesConsistent(hub, Elems(TouchedExchanges(config.rules, hub, sourceInstanceId, receivedAt)),
                                 receivedAt);
    var interrupted := AfterExchanges(config.rules, hub, sourceInstanceId, receivedAt);
    InterruptCommandsConsistent(interrupted,
                                Elems(TouchedCommands(config.rules, interrupted, sourceInstanceId, receivedAt)),
                                receivedAt);
  }

  // ---- the eviction loops

  function Candidates(hub: Hub): seq<ExchangeKey> {
    Only(hub.arrivalOrder, TerminalExchanges(hub.exchanges))
  }

  function CommandCandidates(hub: Hub): seq<CommandKey> {
    Only(hub.commandOrder, TerminalCommands(hub.commands))
  }

  /** The state inside the exchange eviction loop, with the first `n` candidates gone. */
  function Evicting(hub: Hub, n: nat): Hub
    requires n <= |Candidates(hub)|
  {
    hub.(exchanges := hub.exchanges - Elems(Candidates(hub)[..n]),
         arrivalOrder := Without(hub.arrivalOrder, Elems(Candidates(hub)[..n])),
         retentionBlockedByInFlight := false)
  }

  function EvictingCommands(config: HubConfig, hub: Hub, n: nat): Hub
    requires n <= |CommandCandidates(hub)|
  {
    hub.(commands := hub.commands - Elems(CommandCandidates(hub)[..n]),
         commandOrder := Without(hub.commandOrder, Elems(CommandCandidates(hub)[..n])),
         retainedBytes := LoadAfter(CommandLoad(hub), CommandCandidates(hub), Lengths(config.rules, hub.commands),
                                    n).bytes,
         commandRetentionBlockedByInFlight := false)
  }

  lemma NothingEvicted(hub: Hub)
    ensures Evicting(hub, 0) == hub.(retentionBlockedByInFlight := false)
    ensures Removals(Candidates(hub)[..0]) == []
  {
    WithoutNothing(hub.arrivalOrder, {});
    assert Elems(Candidates(hub)[..0]) == {};
  }

  /** The loop has reached `load` after `n` evictions, and was right to make each of them. */
  ghost predicate Relieving(config: HubConfig, hub: Hub, n: nat, load: Load)
    requires n <= |CommandCandidates(hub)|
  {
    var lengths := Lengths(config.rules, hub.commands);
    && load == LoadAfter(CommandLoad(hub), CommandCandidates(hub), lengths, n)
    && Relief(CommandLoad(hub), CommandCandidates(hub), lengths, config.commandLimits, 0)
       == Relief(CommandLoad(hub), CommandCandidates(hub), lengths, config.commandLimits, n)
  }

  lemma NoCommandEvicted(config: HubConfig, hub: Hub)
    ensures Relieving(config, hub, 0, CommandLoad(hub))
    ensures EvictingCommands(config, hub, 0) == hub.(commandRetentionBlockedByInFlight := false)
    ensures CommandRemovals(CommandCandidates(hub)[..0]) == []
  {
    hide CommandCandidates, Lengths, Fits;
    WithoutNothing(hub.commandOrder, {});
    assert Elems(CommandCandidates(hub)[..0]) == {};
    assert hub.commands - {} == hub.commands;
  }

  /**
   One turn of the exchange eviction loop: the search finds the next candidate, and cutting it out of
   the order and the store is the state with one more candidate gone; with none left it finds nothing.
   */
  lemma EvictionTurn(hub: Hub, n: nat)
    requires Consistent(hub) && n <= |Candidates(hub)|
    ensures var now := Evicting(hub, n);
      var found := FirstIn(now.arrivalOrder, TerminalExchanges(now.exchanges));
      if n == |Candidates(hub)| then found.None?
      else
        && found.Some?
        && var key := now.arrivalOrder[found.value];
        && key == Candidates(hub)[n]
        && now.(exchanges := now.exchanges - {key},
                arrivalOrder := now.arrivalOrder[..found.value] + now.arrivalOrder[found.value + 1..])
                == Evicting(hub, n + 1)
        && |now.exchanges - {key}| == |now.exchanges| - 1
        && Removals(Candidates(hub)[..n + 1]) == Removals(Candidates(hub)[..n]) + [Remove(key, "retention limit")]
  {
    hide Consistent, FirstIn, Without, Elems, Only, TerminalExchanges, Candidates, Removals;
    var now := Evicting(hub, n);
    var found := FirstIn(now.arrivalOrder, TerminalExchanges(now.exchanges));
    ExchangeTurn(hub, n);
    if n < |Candidates(hub)| {
      RemovalsSnoc(Candidates(hub), n);
      assert Evicting(hub, n + 1) == now.(exchanges := now.exchanges - {Candidates(hub)[n]},
                                         arrivalOrder := now.arrivalOrder[..found.value]
                                         + now.arrivalOrder[found.value + 1..]);
    }
  }

  lemma ExchangeTurn(hub: Hub, n: nat)
    requires Consistent(hub) && n <= |Candidates(hub)|
    ensures var candidates := Candidates(hub);
      var exchanges := hub.exchanges - Elems(candidates[..n]);
      var order := Without(hub.arrivalOrder, Elems(candidates[..n]));
      var found := FirstIn(order, TerminalExchanges(exchanges));
      if n == |candidates| then found.None?
      else
        && found.Some?
        && order[found.value] == candidates[n]
        && order[..found.value] + order[found.value + 1..] == Without(hub.arrivalOrder, Elems(candidates[..n + 1]))
        && exchanges - {candidates[n]} == hub.exchanges - Elems(candidates[..n + 1])
        && |exchanges - {candidates[n]}| == |exchanges| - 1
  {
    hide Consistent;
    var terminal := TerminalExchanges(hub.exchanges);
    var candidates := Candidates(hub);
    var gone := Elems(candidates[..n]);
    assert NoDup(hub.arrivalOrder) by { OrderNoDup(hub); }
    NextVictim(hub.arrivalOrder, terminal, n);
    assert TerminalExchanges(hub.exchanges - gone) == terminal - gone;
    if n < |candidates| {
      OnlyMembers(hub.arrivalOrder, terminal, candidates[n]);
      RemoveOne(hub.exchanges, gone, candidates[n]);
    }
  }

  lemma RemovalsSnoc(victims: seq<ExchangeKey>, n: nat)
    requires n < |victims|
    ensures Removals(victims[..n + 1]) == Removals(victims[..n]) + [Remove(victims[n], "retention limit")]
  {
  }

  lemma CommandRemovalsSnoc(victims: seq<CommandKey>, n: nat)
    requires n < |victims|
    ensures CommandRemovals(victims[..n + 1]) == CommandRemovals(victims[..n])
      + [CommandRemove(victims[n], "database retention limit")]
  {
  }

  lemma CommandEvictionTurn(config: HubConfig, hub: Hub, n: nat)
    requires Consistent(hub) && n <= |CommandCandidates(hub)|
    requires Relieving(config, hub, n, CommandLoad(EvictingCommands(config, hub, n)))
    requires !Fits(CommandLoad(EvictingCommands(config, hub, n)), config.commandLimits)
    ensures var now := EvictingCommands(config, hub, n);
      var found := FirstIn(now.commandOrder, TerminalCommands(now.commands));
      if n == |CommandCandidates(hub)| then found.None?
      else
        && found.Some?
        && var key := now.commandOrder[found.value];
        && key == CommandCandidates(hub)[n]
        && key in now.commands
        && now.(commands := now.commands - {key},
                commandOrder := now.commandOrder[..found.value] + now.commandOrder[found.value + 1..],
                retainedBytes := SaturatingSub(now.retainedBytes, config.rules.retainedLength(now.commands[key])))
           == EvictingCommands(config, hub, n + 1)
        && |now.commands - {key}| == |now.commands| - 1
        && Relieving(config, hub, n + 1, CommandLoad(EvictingCommands(config, hub, n + 1)))
        && CommandRemovals(CommandCandidates(hub)[..n + 1])
           == CommandRemovals(CommandCandidates(hub)[..n]) + [CommandRemove(key, "database retention limit")]
  {
    hide Consistent, FirstIn, Without, Elems, Only, TerminalCommands, CommandCandidates, Lengths, LengthAt;
    CommandTurn(config.rules, hub, n);
    if n < |CommandCandidates(hub)| {
      CommandRemovalsSnoc(CommandCandidates(hub), n);
    }
  }

  lemma CommandTurn(rules: Rules, hub: Hub, n: nat)
    requires Consistent(hub) && n <= |CommandCandidates(hub)|
    ensures var candidates := CommandCandidates(hub);
      var commands := hub.commands - Elems(candidates[..n]);
      var order := Without(hub.commandOrder, Elems(candidates[..n]));
      var found := FirstIn(order, TerminalCommands(commands));
      if n == |candidates| then found.None?
      else
        && found.Some?
        && order[found.value] == candidates[n]
        && order[..found.value] + order[found.value + 1..] == Without(hub.commandOrder, Elems(candidates[..n + 1]))
        && candidates[n] in commands
        && LengthAt(Lengths(rules, hub.commands), candidates[n]) == rules.retainedLength(commands[candidates[n]])
        && commands - {candidates[n]} == hub.commands - Elems(candidates[..n + 1])
        && |commands - {candidates[n]}| == |commands| - 1
  {
    hide Consistent;
    var terminal := TerminalCommands(hub.commands);
    var candidates := CommandCandidates(hub);
    var gone := Elems(candidates[..n]);
    assert NoDup(hub.commandOrder) by { OrderNoDup(hub); }
    NextVictim(hub.commandOrder, terminal, n);
    assert TerminalCommands(hub.commands - gone) == terminal - gone;
    if n < |candidates| {
      OnlyMembers(hub.commandOrder, terminal, candidates[n]);
      RemoveOne(hub.commands, gone, candidates[n]);
    }
  }

  /** Where the exchange loop stops is where the closed form stops. */
  lemma EvictionEnds(limit: nat, hub: Hub, n: nat, blocked: bool)
    requires Consistent(hub) && n <= |Candidates(hub)|
    requires n == 0 || |hub.exchanges| - n >= limit
    requires if blocked then n == |Candidates(hub)| && |hub.exchanges| - n > limit else |hub.exchanges| - n <= limit
    ensures Evicting(hub, n).(retentionBlockedByInFlight := blocked) == EvictExchanges(limit, hub)
    ensures ExchangeVictims(limit, hub) == Candidates(hub)[..n]
    ensures Consistent(EvictExchanges(limit, hub))
  {
    hide Consistent;
    RemoveExchangesConsistent(hub, Elems(ExchangeVictims(limit, hub)), blocked);
  }

  lemma CommandEvictionEnds(config: HubConfig, hub: Hub, n: nat, blocked: bool)
    requires Consistent(hub) && n <= |CommandCandidates(hub)|
    requires Relieving(config, hub, n, CommandLoad(EvictingCommands(config, hub, n)))
    requires blocked == !Fits(CommandLoad(EvictingCommands(config, hub, n)), config.commandLimits)
    requires blocked ==> n == |CommandCandidates(hub)|
    ensures EvictingCommands(config, hub, n).(commandRetentionBlockedByInFlight := blocked)
      == EvictCommands(config, hub)
    ensures CommandVictims(config, hub) == CommandCandidates(hub)[..n]
    ensures Consistent(EvictCommands(config, hub))
  {
    hide Consistent;
    RemoveCommandsConsistent(hub, Elems(CommandVictims(config, hub)), EvictCommands(config, hub).retainedBytes,
                             blocked);
  }

  /** The database eviction loop after `n` turns: where it stands and what it has published. */
  ghost predicate EvictedSoFar(config: HubConfig, hub: Hub, n: nat, now: Hub, deltas: seq<DatabaseDelta>) {
    && n <= |CommandCandidates(hub)|
    && now == EvictingCommands(config, hub, n)
    && Relieving(config, hub, n, CommandLoad(now))
    && deltas == CommandRemovals(CommandCandidates(hub)[..n])
  }

  lemma NothingEvictedSoFar(config: HubConfig, hub: Hub)
    ensures EvictedSoFar(config, hub, 0, hub.(commandRetentionBlockedByInFlight := false), [])
  {
    hide CommandCandidates, CommandRemovals, EvictingCommands, Relieving;
    NoCommandEvicted(config, hub);
  }

  /** One more turn of the database eviction loop, or its end when no terminal command is left. */
  lemma CommandEvictionStep(config: HubConfig, hub: Hub, n: nat, now: Hub, deltas: seq<DatabaseDelta>)
    requires Consistent(hub) && EvictedSoFar(config, hub, n, now, deltas)
      && !Fits(CommandLoad(now), config.commandLimits)
    ensures match FirstIn(now.commandOrder, TerminalCommands(now.commands))
      case None =>
        && Consistent(now.(commandRetentionBlockedByInFlight := true))
        && now.(commandRetentionBlockedByInFlight := true) == EvictCommands(config, hub)
        && deltas == CommandRemovals(CommandVictims(config, hub))
      case Some(i) =>
        var key := now.commandOrder[i];
        && key in now.commands
        && |now.commands - {key}| < |now.commands|
        && EvictedSoFar(config, hub, n + 1,
             now.(commands := now.commands - {key},
                  commandOrder := now.commandOrder[..i] + now.commandOrder[i + 1..],
                  retainedBytes := SaturatingSub(now.retainedBytes, config.rules.retainedLength(now.commands[key]))),
             deltas + [CommandRemove(key, "database retention limit")])
  {
    hide Consistent, TerminalCommands, FirstIn, CommandRemovals, EvictCommands, CommandVictims, EvictingCommands,
         CommandCandidates, Relieving, SaturatingSub;
    CommandEvictionTurn(config, hub, n);
    if FirstIn(now.commandOrder, TerminalCommands(now.commands)).None? {
      CommandEvictionEnds(config, hub, n, true);
    }
  }

  lemma CommandEvictionDone(config: HubConfig, hub: Hub, n: nat, now: Hub, deltas: seq<DatabaseDelta>)
    requires Consistent(hub) && EvictedSoFar(config, hub, n, now, deltas)
      && Fits(CommandLoad(now), config.commandLimits)
    ensures Consistent(now) && now == EvictCommands(config, hub)
      && deltas == CommandRemovals(CommandVictims(config, hub))
  {
    hide Consistent, TerminalCommands, FirstIn, CommandRemovals, EvictCommands, CommandVictims, CommandCandidates,
         Relieving, SaturatingSub;
    CommandEvictionEnds(config, hub, n, false);
  }

  lemma OrderNoDup(hub: Hub)
    requires Consistent(hub)
    ensures NoDup(hub.arrivalOrder) && NoDup(hub.commandOrder)
  {
  }

  lemma RemoveOne<K, V>(m: map<K, V>, gone: set<K>, key: K)
    requires key in m && key !in gone
    ensures (m - gone) - {key} == m - (gone + {key})
    ensures |(m - gone) - {key}| == |m - gone| - 1
  {
    assert ((m - gone) - {key}).Keys == (m - gone).Keys - {key};
  }

  // ---- the disconnect loops

  lemma HitsStored(hub: Hub, sourceInstanceId: string)
    ensures forall k :: k in ExchangeHits(hub, sourceInstanceId) ==> k in hub.exchanges
    ensures forall k :: k in CommandHits(hub, sourceInstanceId) ==> k in hub.commands
  {
    forall k | k in ExchangeHits(hub, sourceInstanceId) ensures k in hub.exchanges {
      OnlyMembers(hub.arrivalOrder, InFlightExchanges(hub.exchanges, sourceInstanceId), k);
    }
    forall k | k in CommandHits(hub, sourceInstanceId) ensures k in hub.commands {
      OnlyMembers(hub.commandOrder, InFlightCommands(hub.commands, sourceInstanceId), k);
    }
  }

  lemma {:induction false} UpsertsMatchHits(exchanges: map<ExchangeKey, HttpExchange>, hits: seq<ExchangeKey>,
                                            receivedAt: string)
    requires forall k :: k in hits ==> k in exchanges
    ensures |InterruptionUpserts(exchanges, hits, receivedAt)| == |hits|
  {
    if hits != [] {
      UpsertsMatchHits(exchanges, hits[..|hits| - 1], receivedAt);
    }
  }

  lemma {:induction false} CommandUpsertsMatchHits(commands: map<CommandKey, DatabaseCommand>, hits: seq<CommandKey>,
                                                   receivedAt: string)
    requires forall k :: k in hits ==> k in commands
    ensures |CommandInterruptionUpserts(commands, hits, receivedAt)| == |hits|
  {
    if hits != [] {
      CommandUpsertsMatchHits(commands, hits[..|hits| - 1], receivedAt);
    }
  }

  /** Of the source's keys, the hits are those whose entry is still in flight. */
  lemma HitsAmongKeys(hub: Hub, sourceInstanceId: string)
    requires Consistent(hub)
    ensures var keys := SourceKeys(hub, sourceInstanceId);
      && NoDup(keys)
      && Only(keys, Elems(ExchangeHits(hub, sourceInstanceId))) == ExchangeHits(hub, sourceInstanceId)
      && (forall k :: k in keys ==>
            (k in Elems(ExchangeHits(hub, sourceInstanceId)) <==>
             k in hub.exchanges && hub.exchanges[k].lifecycle.state.InFlight?))
  {
    var keys := SourceKeys(hub, sourceInstanceId);
    var ofSource := set k: ExchangeKey | k in hub.arrivalOrder && k.sourceInstanceId == sourceInstanceId;
    var inFlight := InFlightExchanges(hub.exchanges, sourceInstanceId);
    OnlyNoDup(hub.arrivalOrder, ofSource);
    forall k ensures k in ExchangeHits(hub, sourceInstanceId) <==> k in inFlight {
      OnlyMembers(hub.arrivalOrder, inFlight, k);
      assert k in hub.exchanges <==> k in ExchangeRanks(hub.exchanges);
    }
    assert Elems(ExchangeHits(hub, sourceInstanceId)) == inFlight;
    forall k | k in inFlight ensures k in ofSource {
      assert k in ExchangeRanks(hub.exchanges);
    }
    OnlyNarrows(hub.arrivalOrder, ofSource, inFlight);
    forall k | k in keys ensures k in ofSource {
      OnlyMembers(hub.arrivalOrder, ofSource, k);
    }
  }

  lemma CommandHitsAmongKeys(hub: Hub, sourceInstanceId: string)
    requires Consistent(hub)
    ensures var keys := SourceCommandKeys(hub, sourceInstanceId);
      && NoDup(keys)
      && Only(keys, Elems(CommandHits(hub, sourceInstanceId))) == CommandHits(hub, sourceInstanceId)
      && (forall k :: k in keys ==>
            (k in Elems(CommandHits(hub, sourceInstanceId)) <==>
             k in hub.commands && hub.commands[k].lifecycle.state.InFlight?))
  {
    var keys := SourceCommandKeys(hub, sourceInstanceId);
    var ofSource := set k | k in hub.commandOrder && k.sourceInstanceId == sourceInstanceId;
    var inFlight := InFlightCommands(hub.commands, sourceInstanceId);
    OnlyNoDup(hub.commandOrder, ofSource);
    forall k ensures k in CommandHits(hub, sourceInstanceId) <==> k in inFlight {
      OnlyMembers(hub.commandOrder, inFlight, k);
      assert k in hub.commands <==> k in CommandRanks(hub.commands);
    }
    assert Elems(CommandHits(hub, sourceInstanceId)) == inFlight;
    forall k | k in inFlight ensures k in ofSource {
      assert k in CommandRanks(hub.commands);
    }
    OnlyNarrows(hub.commandOrder, ofSource, inFlight);
    forall k | k in keys ensures k in ofSource {
      OnlyMembers(hub.commandOrder, ofSource, k);
    }
  }

  lemma NotYetDone<K>(keys: seq<K>, at: nat, hits: set<K>)
    requires NoDup(keys) && at < |keys|
    ensures keys[at] !in Elems(Only(keys[..at], hits))
    ensures keys[at] in hits ==> Only(keys, hits) == Only(keys[..at], hits) + ([keys[at]] + Only(keys[at + 1..], hits))
  {
    OnlyMembers(keys[..at], hits, keys[at]);
    OnlySplit(keys, at, hits);
  }

  lemma {:induction false} ValidPrefixAppends(rules: Rules, exchanges: map<ExchangeKey, HttpExchange>,
                                              done: seq<ExchangeKey>, rest: seq<ExchangeKey>, receivedAt: string)
    requires ValidExchangePrefix(rules, exchanges, done, receivedAt) == |done|
    ensures ValidExchangePrefix(rules, exchanges, done + rest, receivedAt)
         == |done| + ValidExchangePrefix(rules, exchanges, rest, receivedAt)
  {
    if done == [] {
      assert done + rest == rest;
    } else {
      assert (done + rest)[0] == done[0] && (done + rest)[1..] == done[1..] + rest;
      ValidPrefixAppends(rules, exchanges, done[1..], rest, receivedAt);
    }
  }

  lemma {:induction false} ValidCommandPrefixAppends(rules: Rules, commands: map<CommandKey, DatabaseCommand>,
                                                     done: seq<CommandKey>, rest: seq<CommandKey>, receivedAt: string)
    requires ValidCommandPrefix(rules, commands, done, receivedAt) == |done|
    ensures ValidCommandPrefix(rules, commands, done + rest, receivedAt)
         == |done| + ValidCommandPrefix(rules, commands, rest, receivedAt)
  {
    if done == [] {
      assert done + rest == rest;
    } else {
      assert (done + rest)[0] == done[0] && (done + rest)[1..] == done[1..] + rest;
      ValidCommandPrefixAppends(rules, commands, done[1..], rest, receivedAt);
    }
  }

  /** Editing exchanges leaves the command side of a disconnect as it was. */
  lemma ExchangesThenCommands(rules: Rules, hub: Hub, sourceInstanceId: string, receivedAt: string)
    requires Consistent(hub)
    ensures var interrupted := AfterExchanges(rules, hub, sourceInstanceId, receivedAt);
      && Consistent(interrupted)
      && interrupted.commands == hub.commands
      && FirstCommandError(rules, interrupted, sourceInstanceId, receivedAt)
         == FirstCommandError(rules, hub, sourceInstanceId, receivedAt)
      && CommandHits(interrupted, sourceInstanceId) == CommandHits(hub, sourceInstanceId)
  {
    hide Consistent;
    InterruptExchangesConsistent(hub, Elems(TouchedExchanges(rules, hub, sourceInstanceId, receivedAt)), receivedAt);
  }

  lemma UpsertsPerHit(hub: Hub, sourceInstanceId: string, receivedAt: string)
    ensures InterruptionUpserts(hub.exchanges, ExchangeHits(hub, sourceInstanceId), receivedAt) == []
       <==> ExchangeHits(hub, sourceInstanceId) == []
    ensures CommandInterruptionUpserts(hub.commands, CommandHits(hub, sourceInstanceId), receivedAt) == []
       <==> CommandHits(hub, sourceInstanceId) == []
  {
    HitsStored(hub, sourceInstanceId);
    UpsertsMatchHits(hub.exchanges, ExchangeHits(hub, sourceInstanceId), receivedAt);
    CommandUpsertsMatchHits(hub.commands, CommandHits(hub, sourceInstanceId), receivedAt);
  }

  /** The state inside the exchange loop of a disconnect, with the first `i` of the source's keys visited. */
  ghost predicate Interrupting(rules: Rules, hub: Hub, sourceInstanceId: string, receivedAt: string, i: nat,
                               exchanges: map<ExchangeKey, HttpExchange>, deltas: seq<HubDelta>)
    requires i <= |SourceKeys(hub, sourceInstanceId)|
  {
    var done := Only(SourceKeys(hub, sourceInstanceId)[..i], Elems(ExchangeHits(hub, sourceInstanceId)));
    && ValidExchangePrefix(rules, hub.exchanges, done, receivedAt) == |done|
    && exchanges == InterruptExchanges(hub.exchanges, Elems(done), receivedAt)
    && deltas == InterruptionUpserts(hub.exchanges, done, receivedAt)
  }

  lemma InterruptionStarts(rules: Rules, hub: Hub, sourceInstanceId: string, receivedAt: string)
    ensures Interrupting(rules, hub, sourceInstanceId, receivedAt, 0, hub.exchanges, [])
  {
    assert InterruptExchanges(hub.exchanges, {}, receivedAt) == hub.exchanges;
    assert Elems<ExchangeKey>([]) == {};
  }

  lemma InterruptionEnds(rules: Rules, hub: Hub, sourceInstanceId: string, receivedAt: string,
                         exchanges: map<ExchangeKey, HttpExchange>, deltas: seq<HubDelta>)
    requires Consistent(hub)
    requires Interrupting(rules, hub, sourceInstanceId, receivedAt, |SourceKeys(hub, sourceInstanceId)|, exchanges,
                          deltas)
    ensures hub.(exchanges := exchanges) == AfterExchanges(rules, hub, sourceInstanceId, receivedAt)
    ensures FirstExchangeError(rules, hub, sourceInstanceId, receivedAt).None?
    ensures deltas == InterruptionUpserts(hub.exchanges, ExchangeHits(hub, sourceInstanceId), receivedAt)
  {
    hide Consistent, Elems, Only, ValidExchangePrefix, InterruptExchanges, InterruptionUpserts;
    var keys := SourceKeys(hub, sourceInstanceId);
    HitsAmongKeys(hub, sourceInstanceId);
    assert keys[..|keys|] == keys;
  }

  /** One turn: an in-flight entry is edited, and either is the first invalid one or joins the valid prefix. */
  lemma InterruptionTurn(rules: Rules, hub: Hub, sourceInstanceId: string, receivedAt: string, i: nat,
                         exchanges: map<ExchangeKey, HttpExchange>, deltas: seq<HubDelta>)
    requires Consistent(hub)
    requires i < |SourceKeys(hub, sourceInstanceId)|
    requires Interrupting(rules, hub, sourceInstanceId, receivedAt, i, exchanges, deltas)
    ensures var key := SourceKeys(hub, sourceInstanceId)[i];
      if key in exchanges && exchanges[key].lifecycle.state.InFlight? then
        var interrupted := Interrupted(exchanges[key], receivedAt);
        var edited := exchanges[key := interrupted];
        if ExchangeError(rules, interrupted).Some? then
          && hub.(exchanges := edited) == AfterExchanges(rules, hub, sourceInstanceId, receivedAt)
          && FirstExchangeError(rules, hub, sourceInstanceId, receivedAt) == ExchangeError(rules, interrupted)
        else Interrupting(rules, hub, sourceInstanceId, receivedAt, i + 1, edited,
                          deltas + [Upsert(SummaryOf(interrupted))])
      else Interrupting(rules, hub, sourceInstanceId, receivedAt, i + 1, exchanges, deltas)
  {
    hide Consistent, Interrupted, ExchangeError, SummaryOf;
    var keys, hits := SourceKeys(hub, sourceInstanceId), ExchangeHits(hub, sourceInstanceId);
    var key, hitSet := keys[i], Elems(hits);
    var done := Only(keys[..i], hitSet);
    HitsAmongKeys(hub, sourceInstanceId);
    NotYetDone(keys, i, hitSet);
    OnlySplit(keys, i, hitSet);
    if key in hitSet {
      var rest := [key] + Only(keys[i + 1..], hitSet);
      ValidPrefixAppends(rules, hub.exchanges, done, rest, receivedAt);
      ValidPrefixAppends(rules, hub.exchanges, done, [key], receivedAt);
      InterruptOneMore(hub.exchanges, done, key, receivedAt);
      assert hits == done + rest;
      assert hits[..|done| + 1] == done + [key];
    } else {
      assert done + [] == done;
    }
  }

  lemma InterruptOneMore(exchanges: map<ExchangeKey, HttpExchange>, done: seq<ExchangeKey>, key: ExchangeKey,
                         receivedAt: string)
    requires key in exchanges && key !in Elems(done)
    ensures InterruptExchanges(exchanges, Elems(done), receivedAt)[key := Interrupted(exchanges[key], receivedAt)]
         == InterruptExchanges(exchanges, Elems(done + [key]), receivedAt)
    ensures InterruptionUpserts(exchanges, done + [key], receivedAt)
         == InterruptionUpserts(exchanges, done, receivedAt)
           + [Upsert(SummaryOf(Interrupted(exchanges[key], receivedAt)))]
  {
    hide Interrupted, SummaryOf;
    assert (done + [key])[..|done|] == done;
    assert Elems(done + [key]) == Elems(done) + {key};
  }

  ghost predicate InterruptingCommands(rules: Rules, hub: Hub, sourceInstanceId: string, receivedAt: string, i: nat,
                                       commands: map<CommandKey, DatabaseCommand>, deltas: seq<DatabaseDelta>)
    requires i <= |SourceCommandKeys(hub, sourceInstanceId)|
  {
    var done := Only(SourceCommandKeys(hub, sourceInstanceId)[..i], Elems(CommandHits(hub, sourceInstanceId)));
    && ValidCommandPrefix(rules, hub.commands, done, receivedAt) == |done|
    && commands == InterruptCommands(hub.commands, Elems(done), receivedAt)
    && deltas == CommandInterruptionUpserts(hub.commands, done, receivedAt)
  }

  lemma CommandInterruptionStarts(rules: Rules, hub: Hub, sourceInstanceId: string, receivedAt: string)
    ensures InterruptingCommands(rules, hub, sourceInstanceId, receivedAt, 0, hub.commands, [])
  {
    assert InterruptCommands(hub.commands, {}, receivedAt) == hub.commands;
    assert Elems<CommandKey>([]) == {};
  }

  lemma CommandInterruptionEnds(rules: Rules, hub: Hub, sourceInstanceId: string, receivedAt: string,
                                commands: map<CommandKey, DatabaseCommand>, deltas: seq<DatabaseDelta>)
    requires Consistent(hub)
    requires InterruptingCommands(rules, hub, sourceInstanceId, receivedAt, |SourceCommandKeys(hub, sourceInstanceId)|,
                                  commands, deltas)
    ensures hub.(commands := commands) == AfterCommands(rules, hub, sourceInstanceId, receivedAt)
    ensures FirstCommandError(rules, hub, sourceInstanceId, receivedAt).None?
    ensures deltas == CommandInterruptionUpserts(hub.commands, CommandHits(hub, sourceInstanceId), receivedAt)
  {
    hide Consistent, Elems, Only, ValidCommandPrefix, InterruptCommands, CommandInterruptionUpserts;
    var keys := SourceCommandKeys(hub, sourceInstanceId);
    CommandHitsAmongKeys(hub, sourceInstanceId);
    assert keys[..|keys|] == keys;
  }

  lemma CommandInterruptionTurn(rules: Rules, hub: Hub, sourceInstanceId: string, receivedAt: string, i: nat,
                                commands: map<CommandKey, DatabaseCommand>, deltas: seq<DatabaseDelta>)
    requires Consistent(hub)
    requires i < |SourceCommandKeys(hub, sourceInstanceId)|
    requires InterruptingCommands(rules, hub, sourceInstanceId, receivedAt, i, commands, deltas)
    ensures var key := SourceCommandKeys(hub, sourceInstanceId)[i];
      if key in commands && commands[key].lifecycle.state.InFlight? then
        var interrupted := InterruptedCommand(commands[key], receivedAt);
        var edited := commands[key := interrupted];
        if CommandError(rules, interrupted).Some? then
          && hub.(commands := edited) == AfterCommands(rules, hub, sourceInstanceId, receivedAt)
          && FirstCommandError(rules, hub, sourceInstanceId, receivedAt) == CommandError(rules, interrupted)
        else InterruptingCommands(rules, hub, sourceInstanceId, receivedAt, i + 1, edited,
                                  deltas + [CommandUpsert(CommandSummaryOf(interrupted))])
      else InterruptingCommands(rules, hub, sourceInstanceId, receivedAt, i + 1, commands, deltas)
  {
    hide Consistent, InterruptedCommand, CommandError, CommandSummaryOf;
    var keys, hits := SourceCommandKeys(hub, sourceInstanceId), CommandHits(hub, sourceInstanceId);
    var key, hitSet := keys[i], Elems(hits);
    var done := Only(keys[..i], hitSet);
    CommandHitsAmongKeys(hub, sourceInstanceId);
    NotYetDone(keys, i, hitSet);
    OnlySplit(keys, i, hitSet);
    if key in hitSet {
      var rest := [key] + Only(keys[i + 1..], hitSet);
      ValidCommandPrefixAppends(rules, hub.commands, done, rest, receivedAt);
      ValidCommandPrefixAppends(rules, hub.commands, done, [key], receivedAt);
      InterruptOneMoreCommand(hub.commands, done, key, receivedAt);
      assert hits == done + rest;
      assert hits[..|done| + 1] == done + [key];
    } else {
      assert done + [] == done;
    }
  }

  lemma InterruptOneMoreCommand(commands: map<CommandKey, DatabaseCommand>, done: seq<CommandKey>, key: CommandKey,
                                receivedAt: string)
    requires key in commands && key !in Elems(done)
    ensures InterruptCommands(commands, Elems(done), receivedAt)[key := InterruptedCommand(commands[key], receivedAt)]
         == InterruptCommands(commands, Elems(done + [key]), receivedAt)
    ensures CommandInterruptionUpserts(commands, done + [key], receivedAt)
         == CommandInterruptionUpserts(commands, done, receivedAt)
           + [CommandUpsert(CommandSummaryOf(InterruptedCommand(commands[key], receivedAt)))]
  {
    hide InterruptedCommand, CommandSummaryOf;
    assert (done + [key])[..|done|] == done;
    assert Elems(done + [key]) == Elems(done) + {key};
  }

  lemma ClearedConsistent(hub: Hub, sessionId: string)
    ensures Consistent(Cleared(hub, sessionId))
  {
  }
}
