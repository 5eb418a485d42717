/**
 The database byte counter against the commands it is meant to measure: conserved by every ingest
 and clear, drifted away from by exactly the edits of a disconnect.
 */
module ByteConservation {
  import opened Wrappers
  import opened Sequences
  import opened CaptureModel
  import opened Retention
  import opened ArrivalIndex
  import opened HubState
  import opened HubRuns
  import HubInvariant
  import HubLaws

  function Sum<K>(keys: seq<K>, lengths: map<K, nat>): nat {
    if keys == [] then 0 else LengthAt(lengths, keys[0]) + Sum(keys[1..], lengths)
  }

  /** The retained lengths of all stored commands, each counted once through the arrival order. */
  function StoredBytes(rules: Rules, hub: Hub): nat {
    Sum(hub.commandOrder, Lengths(rules, hub.commands))
  }

  predicate Conserved(rules: Rules, hub: Hub) {
    hub.retainedBytes == StoredBytes(rules, hub)
  }

  lemma {:induction false} SumConcat<K>(a: seq<K>, b: seq<K>, lengths: map<K, nat>)
    ensures Sum(a + b, lengths) == Sum(a, lengths) + Sum(b, lengths)
  {
    if a == [] {
      assert a + b == b;
    } else {
      assert (a + b)[0] == a[0] && (a + b)[1..] == a[1..] + b;
      SumConcat(a[1..], b, lengths);
    }
  }

  lemma {:induction false} SumAgrees<K>(keys: seq<K>, lengths: map<K, nat>, other: map<K, nat>)
    requires forall k :: k in keys ==> LengthAt(lengths, k) == LengthAt(other, k)
    ensures Sum(keys, lengths) == Sum(keys, other)
  {
    if keys != [] {
      assert forall k :: k in keys[1..] ==> k in keys;
      SumAgrees(keys[1..], lengths, other);
    }
  }

  /** Replacing one key's length moves the sum by exactly that difference. */
  lemma {:induction false} SumReplace<K>(keys: seq<K>, lengths: map<K, nat>, key: K, length: nat)
    requires NoDup(keys) && key in keys
    ensures Sum(keys, lengths[key := length]) == Sum(keys, lengths) - LengthAt(lengths, key) + length
    ensures LengthAt(lengths, key) <= Sum(keys, lengths)
  {
    assert NoDup(keys[1..]);
    if keys[0] == key {
      SumAgrees(keys[1..], lengths, lengths[key := length]);
    } else {
      assert key in keys[1..];
      SumReplace(keys[1..], lengths, key, length);
    }
  }

  /** Splitting a sum between the keys kept and those dropped. */
  lemma {:induction false} SumSplit<K>(keys: seq<K>, keep: set<K>, lengths: map<K, nat>)
    ensures Sum(keys, lengths) == Sum(Without(keys, keep), lengths) + Sum(Only(keys, keep), lengths)
  {
    if keys != [] {
      SumSplit(keys[1..], keep, lengths);
      if keys[0] in keep {
        assert Only(keys, keep)[1..] == Only(keys[1..], keep);
      } else {
        assert Without(keys, keep)[1..] == Without(keys[1..], keep);
      }
    }
  }

  // ---- storing

  /** The store's addition stays inside 64 bits. */
  predicate NoSaturation(rules: Rules, hub: Hub, command: DatabaseCommand) {
    var previous := LengthAt(Lengths(rules, hub.commands), CommandKeyOf(command));
    SaturatingSub(hub.retainedBytes, previous) + rules.retainedLength(command) <= U64_MAX
  }

  /** Storing a command keeps the counter exact if and only if the addition does not saturate. */
  lemma StoreConserves(rules: Rules, hub: Hub, command: DatabaseCommand)
    requires Consistent(hub) && Conserved(rules, hub)
    ensures Conserved(rules, StoreCommand(rules, hub, command)) <==> NoSaturation(rules, hub, command)
  {
    hide Consistent, CommandKeyOf;
    var key, lengths := CommandKeyOf(command), Lengths(rules, hub.commands);
    var length := rules.retainedLength(command);
    OrderFacts(hub, key);
    assert Lengths(rules, hub.commands[key := command]) == lengths[key := length];
    if key in hub.commands {
      SumReplace(hub.commandOrder, lengths, key, length);
    } else {
      SumConcat(hub.commandOrder, [key], lengths[key := length]);
      SumAgrees(hub.commandOrder, lengths, lengths[key := length]);
      assert Sum([key], lengths[key := length]) == length + Sum([], lengths[key := length]);
    }
  }

  lemma OrderFacts(hub: Hub, key: CommandKey)
    requires Consistent(hub)
    ensures NoDup(hub.commandOrder)
    ensures key in hub.commandOrder <==> key in hub.commands
  {
    assert key in hub.commands <==> key in CommandRanks(hub.commands);
  }

  // ---- evicting

  /** With an exact counter, each eviction subtracts what the evicted command contributed. */
  lemma {:induction false} LoadAfterIsRest<K>(load: Load, candidates: seq<K>, lengths: map<K, nat>, n: nat)
    requires n <= |candidates|
    requires Sum(candidates[..n], lengths) <= load.bytes && n <= load.count
    ensures LoadAfter(load, candidates, lengths, n) == Load(load.count - n, load.bytes - Sum(candidates[..n], lengths))
  {
    if n > 0 {
      assert candidates[..n] == candidates[..n - 1] + [candidates[n - 1]];
      SumConcat(candidates[..n - 1], [candidates[n - 1]], lengths);
      assert Sum([candidates[n - 1]], lengths) == LengthAt(lengths, candidates[n - 1]) + Sum([], lengths);
      LoadAfterIsRest(load, candidates, lengths, n - 1);
    }
  }

  lemma {:induction false} OnlyIsAll<K>(order: seq<K>, keep: set<K>)
    requires forall k :: k in order ==> k in keep
    ensures Only(order, keep) == order
  {
    if order != [] {
      assert forall k :: k in order[1..] ==> k in order;
      OnlyIsAll(order[1..], keep);
      assert order == [order[0]] + order[1..];
    }
  }

  /** The victims, in arrival order, are a filter of that order. */
  lemma PrefixAsFilter<K>(order: seq<K>, keep: set<K>, n: nat)
    requires NoDup(order) && n <= |Only(order, keep)|
    ensures Only(order, Elems(Only(order, keep)[..n])) == Only(order, keep)[..n]
  {
    var all := Only(order, keep);
    var gone := Elems(all[..n]);
    OnlyNoDup(order, keep);
    forall k | k in gone ensures k in keep {
      assert k in all;
      OnlyMembers(order, keep, k);
    }
    OnlyNarrows(order, keep, gone);
    assert all == all[..n] + all[n..];
    OnlyConcat(all[..n], all[n..], gone);
    OnlyIsAll(all[..n], gone);
    OnlyNothing(all[n..], gone);
  }

  lemma {:induction false} OnlyNothing<K>(order: seq<K>, keep: set<K>)
    requires forall k :: k in order ==> k !in keep
    ensures Only(order, keep) == []
  {
    if order != [] {
      assert forall k :: k in order[1..] ==> k in order;
      OnlyNothing(order[1..], keep);
    }
  }

  /**
   Eviction keeps an exact counter exact, takes the fewest terminal commands that bring the store
   within both limits, and stops outside them only when every command left is in flight.
   */
  lemma EvictionConserves(config: HubConfig, hub: Hub)
    requires Consistent(hub) && Conserved(config.rules, hub)
    ensures var next := EvictCommands(config, hub);
      && Conserved(config.rules, next)
      && |next.commands| == |hub.commands| - |CommandVictims(config, hub)|
      && (next.commandRetentionBlockedByInFlight <==> !Fits(CommandLoad(next), config.commandLimits))
      && (next.commandRetentionBlockedByInFlight ==> forall k :: k in next.commands ==>
          next.commands[k].lifecycle.state.InFlight?)
  {
    hide Consistent, Relief, TerminalCommands;
    var terminal := TerminalCommands(hub.commands);
    var candidates := Only(hub.commandOrder, terminal);
    var victims := CommandVictims(config, hub);
    var lengths := Lengths(config.rules, hub.commands);
    var n := |victims|;
    VictimsBytes(config, hub);
    LoadAfterIsRest(CommandLoad(hub), candidates, lengths, n);
    LengthsWithout(config.rules, hub, Elems(victims));
    if n == |candidates| {
      AllTerminalGone(hub, victims);
    }
  }

  /**
   Eviction takes as few as it can, oldest first: whatever is evicted leaves no older finished command behind,
   and with the youngest evicted command put back the store would be over a limit.
   */
  lemma EvictsFewest(config: HubConfig, hub: Hub)
    requires Consistent(hub) && Conserved(config.rules, hub) && EvictCommands(config, hub).commands != hub.commands
    ensures var next := EvictCommands(config, hub);
      exists last ::
        && last in hub.commands && last !in next.commands
        && (forall k :: k in hub.commands && k !in next.commands ==>
              hub.commands[k].arrivalSequence <= hub.commands[last].arrivalSequence)
        && (forall k :: k in hub.commands && IsTerminal(hub.commands[k].lifecycle.state)
                        && hub.commands[k].arrivalSequence <= hub.commands[last].arrivalSequence ==>
              k !in next.commands)
        && !Fits(Load(|next.commands| + 1, next.retainedBytes + config.rules.retainedLength(hub.commands[last])),
                 config.commandLimits)
  {
    hide Consistent, Fits, Conserved, EvictCommands, CommandVictims;
    var victims := CommandVictims(config, hub);
    VictimsGone(config, hub);
    OldestVictims(config, hub);
    LastVictimNeeded(config, hub);
  }

  lemma VictimsGone(config: HubConfig, hub: Hub)
    ensures var next, victims := EvictCommands(config, hub), CommandVictims(config, hub);
      && (forall k :: k in next.commands <==> k in hub.commands && k !in victims)
      && (victims == [] ==> next.commands == hub.commands)
  {
    hide CommandVictims;
    if CommandVictims(config, hub) == [] {
      assert Elems(CommandVictims(config, hub)) == {};
      assert hub.commands - {} == hub.commands;
    }
  }

  /** The victims are the oldest of the finished commands. */
  lemma OldestVictims(config: HubConfig, hub: Hub)
    requires Consistent(hub)
    ensures var victims := CommandVictims(config, hub);
      && (forall k :: k in victims ==> k in hub.commands)
      && (forall k, l :: k in hub.commands && IsTerminal(hub.commands[k].lifecycle.state) && l in victims
                         && hub.commands[k].arrivalSequence <= hub.commands[l].arrivalSequence ==>
            k in victims)
      && (forall k :: k in victims ==>
            hub.commands[k].arrivalSequence <= hub.commands[victims[|victims| - 1]].arrivalSequence)
  {
    hide Consistent, TerminalCommands, Only, Relief;
    var candidates, victims := Only(hub.commandOrder, TerminalCommands(hub.commands)), CommandVictims(config, hub);
    VictimsStored(config, hub);
    CandidatesRise(hub);
    assert forall i :: 0 <= i < |victims| ==> victims[i] == candidates[i];
    forall k, l | k in hub.commands && IsTerminal(hub.commands[k].lifecycle.state) && l in victims
                  && hub.commands[k].arrivalSequence <= hub.commands[l].arrivalSequence
      ensures k in victims
    {
      assert k in candidates;
      var i, j :| 0 <= i < |candidates| && candidates[i] == k && 0 <= j < |victims| && victims[j] == l;
      assert i <= j;
      assert victims[i] == k;
    }
  }

  lemma CandidatesRise(hub: Hub)
    requires Consistent(hub)
    ensures var candidates := Only(hub.commandOrder, TerminalCommands(hub.commands));
      && (forall k :: k in candidates <==> k in hub.commands && IsTerminal(hub.commands[k].lifecycle.state))
      && (forall i, j :: 0 <= i < j < |candidates| ==>
            && candidates[i] in hub.commands && candidates[j] in hub.commands
            && hub.commands[candidates[i]].arrivalSequence < hub.commands[candidates[j]].arrivalSequence)
  {
    var terminal := TerminalCommands(hub.commands);
    HubLaws.OnlyRises(hub.commandOrder, terminal, CommandRanks(hub.commands));
    hide Only;
    forall k ensures k in Only(hub.commandOrder, terminal) <==> k in terminal {
      OnlyMembers(hub.commandOrder, terminal, k);
      OrderFacts(hub, k);
    }
  }

  lemma LastVictimNeeded(config: HubConfig, hub: Hub)
    requires Consistent(hub) && Conserved(config.rules, hub) && CommandVictims(config, hub) != []
    ensures var next, victims := EvictCommands(config, hub), CommandVictims(config, hub);
      var last := victims[|victims| - 1];
      && last in hub.commands
      && !Fits(Load(|next.commands| + 1, next.retainedBytes + config.rules.retainedLength(hub.commands[last])),
               config.commandLimits)
  {
    hide Consistent, TerminalCommands, Fits, Relief, Only, Without, Elems, Sum, LoadAfter;
    var candidates, victims := Only(hub.commandOrder, TerminalCommands(hub.commands)), CommandVictims(config, hub);
    var lengths, n := Lengths(config.rules, hub.commands), |victims|;
    var last := victims[n - 1];
    EvictionConserves(config, hub);
    VictimsStored(config, hub);
    assert last in victims;
    VictimsBytes(config, hub);
    assert candidates[..n] == victims && candidates[..n - 1] == victims[..n - 1];
    SumOfLast(victims, lengths);
    LoadAfterIsRest(CommandLoad(hub), candidates, lengths, n);
    LoadAfterIsRest(CommandLoad(hub), candidates, lengths, n - 1);
    OneLessWouldNotFit(config, hub);
  }

  lemma SumOfLast<K>(keys: seq<K>, lengths: map<K, nat>)
    requires keys != []
    ensures Sum(keys, lengths) == Sum(keys[..|keys| - 1], lengths) + LengthAt(lengths, keys[|keys| - 1])
  {
    var n := |keys| - 1;
    assert keys == keys[..n] + [keys[n]];
    SumConcat(keys[..n], [keys[n]], lengths);
    assert Sum([keys[n]], lengths) == LengthAt(lengths, keys[n]) + Sum([], lengths);
  }

  lemma OneLessWouldNotFit(config: HubConfig, hub: Hub)
    requires CommandVictims(config, hub) != []
    ensures var candidates := Only(hub.commandOrder, TerminalCommands(hub.commands));
      var n := |CommandVictims(config, hub)|;
      && n <= |candidates|
      && !Fits(LoadAfter(CommandLoad(hub), candidates, Lengths(config.rules, hub.commands), n - 1),
               config.commandLimits)
  {
    hide Fits, Only, TerminalCommands, LoadAfter, Lengths;
  }

  /** The evicted commands and their bytes are part of what is stored. */
  lemma VictimsBytes(config: HubConfig, hub: Hub)
    requires Consistent(hub) && Conserved(config.rules, hub)
    ensures var victims, lengths := CommandVictims(config, hub), Lengths(config.rules, hub.commands);
      && |victims| <= |hub.commands|
      && |hub.commands - Elems(victims)| == |hub.commands| - |victims|
      && Sum(hub.commandOrder, lengths) == Sum(Without(hub.commandOrder, Elems(victims)), lengths)
         + Sum(victims, lengths)
  {
    hide Consistent, Relief, TerminalCommands;
    var terminal := TerminalCommands(hub.commands);
    var victims := CommandVictims(config, hub);
    HubInvariant.OrderNoDup(hub);
    PrefixAsFilter(hub.commandOrder, terminal, |victims|);
    SumSplit(hub.commandOrder, Elems(victims), Lengths(config.rules, hub.commands));
    OnlyNoDup(hub.commandOrder, terminal);
    VictimsStored(config, hub);
    CommandVictimsCounted(hub, victims);
  }

  lemma VictimsStored(config: HubConfig, hub: Hub)
    ensures forall k :: k in CommandVictims(config, hub) ==> k in hub.commands
  {
    var candidates := Only(hub.commandOrder, TerminalCommands(hub.commands));
    forall k | k in CommandVictims(config, hub) ensures k in hub.commands {
      assert k in candidates;
      OnlyMembers(hub.commandOrder, TerminalCommands(hub.commands), k);
    }
  }

  lemma CommandVictimsCounted(hub: Hub, victims: seq<CommandKey>)
    requires NoDup(victims) && forall k :: k in victims ==> k in hub.commands
    ensures |hub.commands - Elems(victims)| == |hub.commands| - |victims|
    ensures |victims| <= |hub.commands|
  {
    ElemsCard(victims);
    var left := hub.commands - Elems(victims);
    assert left.Keys == hub.commands.Keys - Elems(victims);
    assert Elems(victims) <= hub.commands.Keys;
  }

  lemma LengthsWithout(rules: Rules, hub: Hub, gone: set<CommandKey>)
    ensures Sum(Without(hub.commandOrder, gone), Lengths(rules, hub.commands - gone))
         == Sum(Without(hub.commandOrder, gone), Lengths(rules, hub.commands))
  {
    var left := Without(hub.commandOrder, gone);
    forall k | k in left ensures k !in gone {
      WithoutMembers(hub.commandOrder, gone, k);
    }
    SumAgrees(left, Lengths(rules, hub.commands - gone), Lengths(rules, hub.commands));
  }

  lemma AllTerminalGone(hub: Hub, victims: seq<CommandKey>)
    requires Consistent(hub) && victims == Only(hub.commandOrder, TerminalCommands(hub.commands))
    ensures forall k :: k in hub.commands && k !in victims ==> hub.commands[k].lifecycle.state.InFlight?
  {
    forall k | k in hub.commands && k !in victims ensures hub.commands[k].lifecycle.state.InFlight? {
      OrderFacts(hub, k);
      OnlyMembers(hub.commandOrder, TerminalCommands(hub.commands), k);
    }
  }

  // ---- runs

  /** The step is an ingest whose store, if any, does not saturate, or it is no ingest and no disconnect. */
  ghost predicate Harmless(config: HubConfig, hub: Hub, step: Step) {
    && !step.SourceDisconnected?
    && (step.IngestMessage? && step.message.payload.Database? ==>
          var merged := MergedCommand(config, hub, step.source, step.receivedAt, step.message.payload);
          merged.Success? && merged.value.Applied? ==> NoSaturation(config.rules, hub, merged.value.command))
  }

  lemma StepConserves(config: HubConfig, hub: Hub, step: Step)
    requires Consistent(hub) && Conserved(config.rules, hub) && Harmless(config, hub, step)
    ensures Conserved(config.rules, After(config, hub, step))
  {
    hide Consistent, MergedCommand, MergedExchange, EvictExchanges, EvictCommands, StoreExchange, StoreCommand,
         NoSaturation;
    if step.IngestMessage? {
      var payload := step.message.payload;
      if payload.Database? {
        HubInvariant.AppliedCommand(config, hub, step.source, step.receivedAt, payload);
        var merged := MergedCommand(config, hub, step.source, step.receivedAt, payload);
        if merged.Success? && merged.value.Applied? {
          StoreConserves(config.rules, hub, merged.value.command);
          HubInvariant.StoreCommandConsistent(config.rules, hub, merged.value.command);
          EvictionConserves(config, StoreCommand(config.rules, hub, merged.value.command));
        }
      } else {
        ExchangeSideOnly(config, hub, step.source, step.receivedAt, payload);
      }
    }
  }

  lemma ExchangeSideOnly(config: HubConfig, hub: Hub, source: Source, receivedAt: string, payload: Payload)
    ensures var next := IngestExchange(config, hub, source, receivedAt, payload).hub;
      next.commands == hub.commands && next.commandOrder == hub.commandOrder && next.retainedBytes == hub.retainedBytes
  {
    hide MergedExchange, ExchangeVictims, KeyOf, SummaryOf, Removals;
  }

  /** Over every run of ingests and clears without saturation, the counter is the sum of the stored lengths. */
  lemma {:induction false} RunConserves(config: HubConfig, sessionId: string, steps: seq<Step>)
    requires forall i :: 0 <= i < |steps| ==> Harmless(config, Run(config, Fresh(sessionId), steps[..i]), steps[i])
    ensures Conserved(config.rules, Run(config, Fresh(sessionId), steps))
  {
    hide Consistent, After, Harmless;
    if steps != [] {
      var n := |steps| - 1;
      var front := steps[..n];
      assert forall i :: 0 <= i < n ==> front[i] == steps[i] && front[..i] == steps[..i];
      RunConserves(config, sessionId, front);
      ReachableConsistent(config, sessionId, front);
      StepConserves(config, Run(config, Fresh(sessionId), front), steps[n]);
    }
  }

  // ---- the drift of a disconnect

  lemma {:induction false} SumInterrupted<K>(keys: seq<K>, hits: set<K>, before: map<K, nat>, after: map<K, nat>)
    requires forall k :: k !in hits ==> LengthAt(before, k) == LengthAt(after, k)
    ensures Sum(keys, after) + Sum(Only(keys, hits), before) == Sum(keys, before) + Sum(Only(keys, hits), after)
  {
    SumSplit(keys, hits, before);
    SumSplit(keys, hits, after);
    var rest := Without(keys, hits);
    forall k | k in rest ensures LengthAt(before, k) == LengthAt(after, k) {
      WithoutMembers(keys, hits, k);
    }
    SumAgrees(rest, before, after);
  }

  /** The commands a disconnect rewrites: none when an exchange fails before them, else up to the first left invalid. */
  function Rewritten(rules: Rules, hub: Hub, sourceInstanceId: string, receivedAt: string): seq<CommandKey> {
    if FirstExchangeError(rules, hub, sourceInstanceId, receivedAt).Some? then []
    else TouchedCommands(rules, hub, sourceInstanceId, receivedAt)
  }

  /** Interrupting exchanges has no bearing on which commands are rewritten. */
  lemma SameTouchedCommands(rules: Rules, hub: Hub, other: Hub, sourceInstanceId: string, receivedAt: string)
    requires other.commands == hub.commands && other.commandOrder == hub.commandOrder
    ensures TouchedCommands(rules, other, sourceInstanceId, receivedAt)
      == TouchedCommands(rules, hub, sourceInstanceId, receivedAt)
    ensures FirstCommandError(rules, other, sourceInstanceId, receivedAt)
      == FirstCommandError(rules, hub, sourceInstanceId, receivedAt)
  {
    hide InFlightCommands, ValidCommandPrefix, InterruptedCommand, CommandError;
  }

  lemma CommandsAfterDisconnect(config: HubConfig, hub: Hub, sourceInstanceId: string, receivedAt: string)
    ensures var next := Disconnect(config, hub, sourceInstanceId, receivedAt).hub;
      && next.commands == InterruptCommands(hub.commands,
                                            Elems(Rewritten(config.rules, hub, sourceInstanceId, receivedAt)),
                                            receivedAt)
      && next.commandOrder == hub.commandOrder && next.retainedBytes == hub.retainedBytes
  {
    hide InterruptExchanges, InterruptCommands, InterruptedCommand, FirstExchangeError, FirstCommandError,
         TouchedExchanges, TouchedCommands, ExchangeHits,
         CommandHits, InterruptionUpserts, CommandInterruptionUpserts;
    SameTouchedCommands(config.rules, hub, AfterExchanges(config.rules, hub, sourceInstanceId, receivedAt),
                        sourceInstanceId, receivedAt);
    assert InterruptCommands(hub.commands, Elems([]), receivedAt) == hub.commands
      by { NoneInterrupted(hub.commands, receivedAt); }
  }

  lemma NoneInterrupted(commands: map<CommandKey, DatabaseCommand>, receivedAt: string)
    ensures InterruptCommands(commands, Elems([]), receivedAt) == commands
  {
    hide InterruptedCommand;
  }

  lemma RewrittenIsFilter(rules: Rules, hub: Hub, sourceInstanceId: string, receivedAt: string)
    requires Consistent(hub)
    ensures var keys := Rewritten(rules, hub, sourceInstanceId, receivedAt); Only(hub.commandOrder, Elems(keys)) == keys
  {
    hide Consistent, InFlightCommands, ValidCommandPrefix, FirstExchangeError;
    var inFlight := InFlightCommands(hub.commands, sourceInstanceId);
    var keys := Rewritten(rules, hub, sourceInstanceId, receivedAt);
    HubInvariant.OrderNoDup(hub);
    assert keys == Only(hub.commandOrder, inFlight)[..|keys|];
    PrefixAsFilter(hub.commandOrder, inFlight, |keys|);
  }

  /**
   A disconnect, whether it succeeds or fails half way, rewrites commands but leaves the counter. An
   exact counter is exact afterwards if and only if the rewritten commands together retain as many bytes
   as they did before.
   */
  lemma DisconnectConservesIff(config: HubConfig, hub: Hub, sourceInstanceId: string, receivedAt: string)
    requires Consistent(hub) && Conserved(config.rules, hub)
    ensures var keys := Rewritten(config.rules, hub, sourceInstanceId, receivedAt);
      var next := Disconnect(config, hub, sourceInstanceId, receivedAt).hub;
      Conserved(config.rules, next) <==>
        Sum(keys, Lengths(config.rules, InterruptCommands(hub.commands, Elems(keys), receivedAt)))
          == Sum(keys, Lengths(config.rules, hub.commands))
  {
    hide Consistent, InterruptedCommand, Rewritten, Disconnect;
    var keys := Rewritten(config.rules, hub, sourceInstanceId, receivedAt);
    CommandsAfterDisconnect(config, hub, sourceInstanceId, receivedAt);
    RewrittenIsFilter(config.rules, hub, sourceInstanceId, receivedAt);
    SumInterrupted(hub.commandOrder, Elems(keys), Lengths(config.rules, hub.commands),
                   Lengths(config.rules, InterruptCommands(hub.commands, Elems(keys), receivedAt)));
  }
}
