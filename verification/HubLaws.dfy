/** What each hub operation does, said of its result alone: which fields change, to what, and what is published. */
module HubLaws {
  import opened Wrappers
  import opened Sequences
  import opened CaptureModel
  import opened Retention
  import opened ArrivalIndex
  import opened HubState
  import opened HubRuns
  import HubInvariant
  import LifecycleMerger
  import DatabaseMerger

  // ---- disconnect

  /**
   The exchange after its source went away: as captured, but incomplete, one revision on, with the reason
   recorded.
   */
  ghost predicate CutShort(was: HttpExchange, e: HttpExchange, at: string) {
    && LifecycleMerger.KeepsOrigin(was, e) && LifecycleMerger.KeepsStart(was, e) && LifecycleMerger.KeepsOutcome(was, e)
    && e.timing == was.timing && e.revision == was.revision + 1
    && e.lifecycle.state == Incomplete && e.lifecycle.lastUpdatedAt == at
    && LifecycleMerger.Overlays(e.metadata, was.metadata,
                                map["capture.incompleteReason" := Text("source disconnected")])
  }

  ghost predicate CommandCutShort(was: DatabaseCommand, c: DatabaseCommand, at: string) {
    && DatabaseMerger.KeepsOrigin(was, c) && DatabaseMerger.KeepsStart(was, c)
    && c.totalDuration == was.totalDuration && c.failure == was.failure && c.revision == was.revision + 1
    && c.lifecycle.state == Incomplete && c.lifecycle.lastUpdatedAt == at
    && c.result.reason == Some("source disconnected before database command completed")
    && c.result.detail == was.result.detail
  }

  ghost predicate OpenExchange(hub: Hub, sourceInstanceId: string, k: ExchangeKey) {
    k in hub.exchanges && k.sourceInstanceId == sourceInstanceId && hub.exchanges[k].lifecycle.state == InFlight
  }

  ghost predicate OpenCommand(hub: Hub, sourceInstanceId: string, k: CommandKey) {
    k in hub.commands && k.sourceInstanceId == sourceInstanceId && hub.commands[k].lifecycle.state == InFlight
  }

  lemma InterruptedIsCutShort(was: HttpExchange, at: string)
    ensures CutShort(was, Interrupted(was, at), at)
  {
    LifecycleMerger.OverlayIs(Interrupted(was, at).metadata, was.metadata,
                              map["capture.incompleteReason" := Text("source disconnected")]);
  }

  lemma InterruptedIsCommandCutShort(was: DatabaseCommand, at: string)
    ensures CommandCutShort(was, InterruptedCommand(was, at), at)
  {
  }

  lemma {:induction false} OnlyRises<K>(order: seq<K>, keep: set<K>, ranks: map<K, nat>)
    requires forall k :: k in order ==> k in ranks
    requires forall i, j :: 0 <= i < j < |order| ==> ranks[order[i]] < ranks[order[j]]
    ensures forall i :: 0 <= i < |Only(order, keep)| ==> Only(order, keep)[i] in ranks
    ensures forall i, j :: 0 <= i < j < |Only(order, keep)| ==>
      ranks[Only(order, keep)[i]] < ranks[Only(order, keep)[j]]
  {
    if order != [] {
      assert forall k :: k in order[1..] ==> k in order;
      OnlyRises(order[1..], keep, ranks);
      var rest := Only(order[1..], keep);
      if order[0] in keep {
        forall i | 0 <= i < |rest| ensures ranks[order[0]] < ranks[rest[i]] {
          OnlyMembers(order[1..], keep, rest[i]);
          assert rest[i] in order[1..];
        }
      }
    }
  }

  /** The hits of a disconnect are its open entries, in the order they arrived. */
  lemma HitsRise(hub: Hub, sourceInstanceId: string)
    requires Consistent(hub)
    ensures var hits := ExchangeHits(hub, sourceInstanceId);
      && (forall k :: k in hits <==> OpenExchange(hub, sourceInstanceId, k))
      && (forall i, j :: 0 <= i < j < |hits| ==>
            && hits[i] in hub.exchanges && hits[j] in hub.exchanges
            && hub.exchanges[hits[i]].arrivalSequence < hub.exchanges[hits[j]].arrivalSequence)
    ensures var hits := CommandHits(hub, sourceInstanceId);
      && (forall k :: k in hits <==> OpenCommand(hub, sourceInstanceId, k))
      && (forall i, j :: 0 <= i < j < |hits| ==>
            && hits[i] in hub.commands && hits[j] in hub.commands
            && hub.commands[hits[i]].arrivalSequence < hub.commands[hits[j]].arrivalSequence)
  {
    OnlyRises(hub.arrivalOrder, InFlightExchanges(hub.exchanges, sourceInstanceId), ExchangeRanks(hub.exchanges));
    OnlyRises(hub.commandOrder, InFlightCommands(hub.commands, sourceInstanceId), CommandRanks(hub.commands));
    hide Consistent, Only;
    HitsAreInFlight(hub, sourceInstanceId);
    CommandHitsAreInFlight(hub, sourceInstanceId);
  }

  /**
   A disconnect, successful or not, changes nothing but entries of the source in flight, and those only by
   cutting them short. When it succeeds it has cut short all of them.
   */
  lemma DisconnectEdits(config: HubConfig, hub: Hub, sourceInstanceId: string, at: string)
    requires Consistent(hub)
    ensures var outcome := Disconnect(config, hub, sourceInstanceId, at);
      var next := outcome.hub;
      && next == hub.(exchanges := next.exchanges, commands := next.commands)
      && next.exchanges.Keys == hub.exchanges.Keys && next.commands.Keys == hub.commands.Keys
      && (forall k :: k in hub.exchanges ==>
            || next.exchanges[k] == hub.exchanges[k]
            || (OpenExchange(hub, sourceInstanceId, k) && CutShort(hub.exchanges[k], next.exchanges[k], at)))
      && (forall k :: k in hub.commands ==>
            || next.commands[k] == hub.commands[k]
            || (OpenCommand(hub, sourceInstanceId, k) && CommandCutShort(hub.commands[k], next.commands[k], at)))
      && (outcome.result.Success? ==>
            && (forall k :: OpenExchange(hub, sourceInstanceId, k) ==>
                CutShort(hub.exchanges[k], next.exchanges[k], at))
            && (forall k :: OpenCommand(hub, sourceInstanceId, k) ==>
                CommandCutShort(hub.commands[k], next.commands[k], at)))
  {
    hide Consistent, CutShort, CommandCutShort, OpenExchange, OpenCommand, InterruptExchanges, InterruptCommands,
         TouchedExchanges, TouchedCommands, Disconnect, ExchangeHits, CommandHits;
    var touched := TouchedExchanges(config.rules, hub, sourceInstanceId, at);
    var touchedCommands := TouchedCommands(config.rules, AfterExchanges(config.rules, hub, sourceInstanceId, at),
                                           sourceInstanceId, at);
    Touched(config.rules, hub, sourceInstanceId, at);
    DisconnectIs(config, hub, sourceInstanceId, at, touched, touchedCommands);
    ExchangeEdits(hub, sourceInstanceId, at, touched);
    CommandEdits(hub, sourceInstanceId, at, touchedCommands);
  }

  lemma DisconnectIs(config: HubConfig, hub: Hub, sourceInstanceId: string, at: string, touched: seq<ExchangeKey>,
                     touchedCommands: seq<CommandKey>)
    requires touched == TouchedExchanges(config.rules, hub, sourceInstanceId, at)
    requires touchedCommands == TouchedCommands(config.rules, AfterExchanges(config.rules, hub, sourceInstanceId, at),
                                                sourceInstanceId, at)
    ensures var outcome := Disconnect(config, hub, sourceInstanceId, at);
      var next := outcome.hub;
      && next == hub.(exchanges := InterruptExchanges(hub.exchanges, Elems(touched), at), commands := next.commands)
      && (next.commands == hub.commands || next.commands == InterruptCommands(hub.commands, Elems(touchedCommands), at))
      && (outcome.result.Success? ==>
            && touched == ExchangeHits(hub, sourceInstanceId) && touchedCommands == CommandHits(hub, sourceInstanceId)
            && next.commands == InterruptCommands(hub.commands, Elems(touchedCommands), at))
  {
    hide InterruptExchanges, InterruptCommands, TouchedExchanges, TouchedCommands, InterruptionUpserts,
         CommandInterruptionUpserts, FirstExchangeError, FirstCommandError, ExchangeHits, CommandHits;
    Touched(config.rules, hub, sourceInstanceId, at);
  }

  lemma ExchangeEdits(hub: Hub, sourceInstanceId: string, at: string, touched: seq<ExchangeKey>)
    requires Consistent(hub) && touched <= ExchangeHits(hub, sourceInstanceId)
    ensures var exchanges := InterruptExchanges(hub.exchanges, Elems(touched), at);
      && exchanges.Keys == hub.exchanges.Keys
      && (forall k :: k in hub.exchanges ==>
            || exchanges[k] == hub.exchanges[k]
            || (OpenExchange(hub, sourceInstanceId, k) && CutShort(hub.exchanges[k], exchanges[k], at)))
      && (touched == ExchangeHits(hub, sourceInstanceId) ==> forall k :: OpenExchange(hub, sourceInstanceId, k) ==>
            k in exchanges && k in hub.exchanges && CutShort(hub.exchanges[k], exchanges[k], at))
  {
    hide Consistent, Interrupted, CutShort, ExchangeHits;
    HitsRise(hub, sourceInstanceId);
    forall k | k in hub.exchanges ensures CutShort(hub.exchanges[k], Interrupted(hub.exchanges[k], at), at) {
      InterruptedIsCutShort(hub.exchanges[k], at);
    }
  }

  lemma CommandEdits(hub: Hub, sourceInstanceId: string, at: string, touched: seq<CommandKey>)
    requires Consistent(hub) && touched <= CommandHits(hub, sourceInstanceId)
    ensures var commands := InterruptCommands(hub.commands, Elems(touched), at);
      && commands.Keys == hub.commands.Keys
      && (forall k :: k in hub.commands ==>
            || commands[k] == hub.commands[k]
            || (OpenCommand(hub, sourceInstanceId, k) && CommandCutShort(hub.commands[k], commands[k], at)))
      && (touched == CommandHits(hub, sourceInstanceId) ==> forall k :: OpenCommand(hub, sourceInstanceId, k) ==>
            k in commands && k in hub.commands && CommandCutShort(hub.commands[k], commands[k], at))
  {
    hide Consistent, InterruptedCommand, CommandCutShort, CommandHits;
    HitsRise(hub, sourceInstanceId);
    forall k | k in hub.commands ensures CommandCutShort(hub.commands[k], InterruptedCommand(hub.commands[k], at), at) {
      InterruptedIsCommandCutShort(hub.commands[k], at);
    }
  }

  /** The hits a disconnect edits: a prefix, and all of them unless one of them is left invalid. */
  lemma Touched(rules: Rules, hub: Hub, sourceInstanceId: string, at: string)
    ensures TouchedExchanges(rules, hub, sourceInstanceId, at) <= ExchangeHits(hub, sourceInstanceId)
    ensures FirstExchangeError(rules, hub, sourceInstanceId, at).None? ==>
      TouchedExchanges(rules, hub, sourceInstanceId, at) == ExchangeHits(hub, sourceInstanceId)
    ensures var interrupted := AfterExchanges(rules, hub, sourceInstanceId, at);
      && TouchedCommands(rules, interrupted, sourceInstanceId, at) <= CommandHits(hub, sourceInstanceId)
      && (FirstCommandError(rules, hub, sourceInstanceId, at).None? ==>
            TouchedCommands(rules, interrupted, sourceInstanceId, at) == CommandHits(hub, sourceInstanceId))
  {
    hide ExchangeHits, InFlightCommands, InterruptExchanges, ExchangeError, CommandError;
  }

  lemma {:induction false} ValidBefore(rules: Rules, exchanges: map<ExchangeKey, HttpExchange>, hits: seq<ExchangeKey>,
                                       at: string, i: nat)
    requires i < ValidExchangePrefix(rules, exchanges, hits, at) && hits[i] in exchanges
    ensures ExchangeError(rules, Interrupted(exchanges[hits[i]], at)).None?
  {
    hide ExchangeError, Interrupted;
    if i > 0 {
      ValidBefore(rules, exchanges, hits[1..], at, i - 1);
    }
  }

  lemma {:induction false} CommandValidBefore(rules: Rules, commands: map<CommandKey, DatabaseCommand>,
                                              hits: seq<CommandKey>, at: string, i: nat)
    requires i < ValidCommandPrefix(rules, commands, hits, at) && hits[i] in commands
    ensures CommandError(rules, InterruptedCommand(commands[hits[i]], at)).None?
  {
    hide CommandError, InterruptedCommand;
    if i > 0 {
      CommandValidBefore(rules, commands, hits[1..], at, i - 1);
    }
  }

  /**
   What a disconnect makes of the `i`-th of the source's open exchanges: those up to the first left invalid
   are edited.
   */
  lemma ExchangeAt(rules: Rules, hub: Hub, sourceInstanceId: string, at: string, i: nat)
    requires Consistent(hub) && i < |ExchangeHits(hub, sourceInstanceId)|
    ensures var hits := ExchangeHits(hub, sourceInstanceId);
      var valid := ValidExchangePrefix(rules, hub.exchanges, hits, at);
      var exchanges := AfterExchanges(rules, hub, sourceInstanceId, at).exchanges;
      && hits[i] in hub.exchanges && hits[i] in exchanges
      && (exchanges[hits[i]] != hub.exchanges[hits[i]] <==> i <= valid)
      && (i < valid ==> ExchangeError(rules, exchanges[hits[i]]).None?)
      && (i == valid ==> ExchangeError(rules, exchanges[hits[i]])
                         == FirstExchangeError(rules, hub, sourceInstanceId, at))
  {
    hide Consistent, ExchangeError, ExchangeHits, Interrupted, ValidExchangePrefix;
    var hits := ExchangeHits(hub, sourceInstanceId);
    var valid := ValidExchangePrefix(rules, hub.exchanges, hits, at);
    var touched := TouchedExchanges(rules, hub, sourceInstanceId, at);
    HitsRise(hub, sourceInstanceId);
    assert hits[i] in hits;
    InterruptedDiffers(hub.exchanges[hits[i]], at);
    if i < valid {
      ValidBefore(rules, hub.exchanges, hits, at, i);
    }
    if i <= valid {
      assert touched[i] == hits[i];
    } else {
      assert hits[i] !in touched by { NotAmongFirst(hub, sourceInstanceId, valid + 1, i); }
    }
  }

  lemma NotAmongFirst(hub: Hub, sourceInstanceId: string, n: nat, i: nat)
    requires Consistent(hub) && n <= i < |ExchangeHits(hub, sourceInstanceId)|
    ensures ExchangeHits(hub, sourceInstanceId)[i] !in ExchangeHits(hub, sourceInstanceId)[..n]
  {
    hide Consistent, ExchangeHits;
    HitsRise(hub, sourceInstanceId);
  }

  lemma ExchangesInOrder(rules: Rules, hub: Hub, sourceInstanceId: string, at: string, k: ExchangeKey, l: ExchangeKey)
    requires Consistent(hub) && OpenExchange(hub, sourceInstanceId, k) && OpenExchange(hub, sourceInstanceId, l)
    requires hub.exchanges[k].arrivalSequence < hub.exchanges[l].arrivalSequence
    ensures var exchanges := AfterExchanges(rules, hub, sourceInstanceId, at).exchanges;
      && k in exchanges && l in exchanges
      && (exchanges[l] != hub.exchanges[l] ==>
          exchanges[k] != hub.exchanges[k] && ExchangeError(rules, exchanges[k]).None?)
  {
    hide Consistent, ExchangeError, ExchangeHits, InterruptExchanges, ValidExchangePrefix, TouchedExchanges,
         OpenExchange;
    var hits := ExchangeHits(hub, sourceInstanceId);
    HitsRise(hub, sourceInstanceId);
    assert k in hits && l in hits;
    var i, j :| 0 <= i < |hits| && 0 <= j < |hits| && hits[i] == k && hits[j] == l;
    ExchangeAt(rules, hub, sourceInstanceId, at, i);
    ExchangeAt(rules, hub, sourceInstanceId, at, j);
  }

  /**
   Where a disconnect stops. Its exchanges are edited in arrival order, each one after the first only if
   those before it stayed valid; its error is that of the exchange left invalid.
   */
  lemma ExchangesStop(rules: Rules, hub: Hub, sourceInstanceId: string, at: string)
    requires Consistent(hub)
    ensures var exchanges := AfterExchanges(rules, hub, sourceInstanceId, at).exchanges;
      var error := FirstExchangeError(rules, hub, sourceInstanceId, at);
      && exchanges.Keys == hub.exchanges.Keys
      && (forall k, l :: OpenExchange(hub, sourceInstanceId, k) && OpenExchange(hub, sourceInstanceId, l)
                         && hub.exchanges[k].arrivalSequence < hub.exchanges[l].arrivalSequence
                         && exchanges[l] != hub.exchanges[l] ==>
            exchanges[k] != hub.exchanges[k] && ExchangeError(rules, exchanges[k]).None?)
      && (error.Some? ==> exists k ::
            OpenExchange(hub, sourceInstanceId, k) && exchanges[k] != hub.exchanges[k]
            && ExchangeError(rules, exchanges[k]) == error)
      && (error.None? ==> forall k :: OpenExchange(hub, sourceInstanceId, k) ==>
            exchanges[k] != hub.exchanges[k] && ExchangeError(rules, exchanges[k]).None?)
  {
    hide Consistent, ExchangeError, ExchangeHits, InterruptExchanges, ValidExchangePrefix, TouchedExchanges,
         OpenExchange;
    var hits := ExchangeHits(hub, sourceInstanceId);
    var valid := ValidExchangePrefix(rules, hub.exchanges, hits, at);
    var exchanges := AfterExchanges(rules, hub, sourceInstanceId, at).exchanges;
    HitsRise(hub, sourceInstanceId);
    assert exchanges.Keys == hub.exchanges.Keys
      by { SameKeys(hub, Elems(TouchedExchanges(rules, hub, sourceInstanceId, at)), at); }
    assert forall k :: OpenExchange(hub, sourceInstanceId, k) ==> k in hub.exchanges
                                                                  by { OpenIsStored(hub, sourceInstanceId); }
    forall k, l | OpenExchange(hub, sourceInstanceId, k) && OpenExchange(hub, sourceInstanceId, l)
                  && hub.exchanges[k].arrivalSequence < hub.exchanges[l].arrivalSequence
                  && exchanges[l] != hub.exchanges[l]
      ensures exchanges[k] != hub.exchanges[k] && ExchangeError(rules, exchanges[k]).None?
    {
      ExchangesInOrder(rules, hub, sourceInstanceId, at, k, l);
    }
    if valid < |hits| {
      ExchangeAt(rules, hub, sourceInstanceId, at, valid);
      assert hits[valid] in hits;
    } else {
      forall k | OpenExchange(hub, sourceInstanceId, k)
        ensures exchanges[k] != hub.exchanges[k] && ExchangeError(rules, exchanges[k]).None?
      {
        assert k in hits;
        var i :| 0 <= i < |hits| && hits[i] == k;
        ExchangeAt(rules, hub, sourceInstanceId, at, i);
      }
    }
  }

  lemma SameKeys(hub: Hub, hits: set<ExchangeKey>, at: string)
    ensures InterruptExchanges(hub.exchanges, hits, at).Keys == hub.exchanges.Keys
  {
  }

  lemma OpenIsStored(hub: Hub, sourceInstanceId: string)
    ensures forall k :: OpenExchange(hub, sourceInstanceId, k) ==> k in hub.exchanges
  {
  }

  lemma CommandAt(rules: Rules, hub: Hub, sourceInstanceId: string, at: string, i: nat)
    requires Consistent(hub) && i < |CommandHits(hub, sourceInstanceId)|
    ensures var hits := CommandHits(hub, sourceInstanceId);
      var valid := ValidCommandPrefix(rules, hub.commands, hits, at);
      var commands := AfterCommands(rules, hub, sourceInstanceId, at).commands;
      && hits[i] in hub.commands && hits[i] in commands
      && (commands[hits[i]] != hub.commands[hits[i]] <==> i <= valid)
      && (i < valid ==> CommandError(rules, commands[hits[i]]).None?)
      && (i == valid ==> CommandError(rules, commands[hits[i]]) == FirstCommandError(rules, hub, sourceInstanceId, at))
  {
    hide Consistent, CommandError, CommandHits, InterruptedCommand, ValidCommandPrefix;
    var hits := CommandHits(hub, sourceInstanceId);
    var valid := ValidCommandPrefix(rules, hub.commands, hits, at);
    var touched := TouchedCommands(rules, hub, sourceInstanceId, at);
    HitsRise(hub, sourceInstanceId);
    assert hits[i] in hits;
    InterruptedCommandDiffers(hub.commands[hits[i]], at);
    if i < valid {
      CommandValidBefore(rules, hub.commands, hits, at, i);
    }
    if i <= valid {
      assert touched[i] == hits[i];
    } else {
      assert hits[i] !in touched by { CommandNotAmongFirst(hub, sourceInstanceId, valid + 1, i); }
    }
  }

  lemma CommandNotAmongFirst(hub: Hub, sourceInstanceId: string, n: nat, i: nat)
    requires Consistent(hub) && n <= i < |CommandHits(hub, sourceInstanceId)|
    ensures CommandHits(hub, sourceInstanceId)[i] !in CommandHits(hub, sourceInstanceId)[..n]
  {
    hide Consistent, CommandHits;
    HitsRise(hub, sourceInstanceId);
  }

  lemma CommandsInOrder(rules: Rules, hub: Hub, sourceInstanceId: string, at: string, k: CommandKey, l: CommandKey)
    requires Consistent(hub) && OpenCommand(hub, sourceInstanceId, k) && OpenCommand(hub, sourceInstanceId, l)
    requires hub.commands[k].arrivalSequence < hub.commands[l].arrivalSequence
    ensures var commands := AfterCommands(rules, hub, sourceInstanceId, at).commands;
      && k in commands && l in commands
      && (commands[l] != hub.commands[l] ==> commands[k] != hub.commands[k] && CommandError(rules, commands[k]).None?)
  {
    hide Consistent, CommandError, CommandHits, InterruptCommands, ValidCommandPrefix, TouchedCommands, OpenCommand;
    var hits := CommandHits(hub, sourceInstanceId);
    HitsRise(hub, sourceInstanceId);
    assert k in hits && l in hits;
    var i, j :| 0 <= i < |hits| && 0 <= j < |hits| && hits[i] == k && hits[j] == l;
    CommandAt(rules, hub, sourceInstanceId, at, i);
    CommandAt(rules, hub, sourceInstanceId, at, j);
  }

  /** The same for its commands. */
  lemma CommandsStop(rules: Rules, hub: Hub, sourceInstanceId: string, at: string)
    requires Consistent(hub)
    ensures var commands := AfterCommands(rules, hub, sourceInstanceId, at).commands;
      var error := FirstCommandError(rules, hub, sourceInstanceId, at);
      && commands.Keys == hub.commands.Keys
      && (forall k, l :: OpenCommand(hub, sourceInstanceId, k) && OpenCommand(hub, sourceInstanceId, l)
                         && hub.commands[k].arrivalSequence < hub.commands[l].arrivalSequence
                         && commands[l] != hub.commands[l] ==>
            commands[k] != hub.commands[k] && CommandError(rules, commands[k]).None?)
      && (error.Some? ==> exists k ::
            OpenCommand(hub, sourceInstanceId, k) && commands[k] != hub.commands[k]
            && CommandError(rules, commands[k]) == error)
      && (error.None? ==> forall k :: OpenCommand(hub, sourceInstanceId, k) ==>
            commands[k] != hub.commands[k] && CommandError(rules, commands[k]).None?)
  {
    hide Consistent, CommandError, CommandHits, InterruptCommands, ValidCommandPrefix, TouchedCommands, OpenCommand;
    var hits := CommandHits(hub, sourceInstanceId);
    var valid := ValidCommandPrefix(rules, hub.commands, hits, at);
    var commands := AfterCommands(rules, hub, sourceInstanceId, at).commands;
    HitsRise(hub, sourceInstanceId);
    assert commands.Keys == hub.commands.Keys
      by { SameCommandKeys(hub, Elems(TouchedCommands(rules, hub, sourceInstanceId, at)), at); }
    assert forall k :: OpenCommand(hub, sourceInstanceId, k) ==> k in hub.commands
                                                                 by { OpenCommandIsStored(hub, sourceInstanceId); }
    forall k, l | OpenCommand(hub, sourceInstanceId, k) && OpenCommand(hub, sourceInstanceId, l)
                  && hub.commands[k].arrivalSequence < hub.commands[l].arrivalSequence
                  && commands[l] != hub.commands[l]
      ensures commands[k] != hub.commands[k] && CommandError(rules, commands[k]).None?
    {
      CommandsInOrder(rules, hub, sourceInstanceId, at, k, l);
    }
    if valid < |hits| {
      CommandAt(rules, hub, sourceInstanceId, at, valid);
      assert hits[valid] in hits;
    } else {
      forall k | OpenCommand(hub, sourceInstanceId, k)
        ensures commands[k] != hub.commands[k] && CommandError(rules, commands[k]).None?
      {
        assert k in hits;
        var i :| 0 <= i < |hits| && hits[i] == k;
        CommandAt(rules, hub, sourceInstanceId, at, i);
      }
    }
  }

  lemma SameCommandKeys(hub: Hub, hits: set<CommandKey>, at: string)
    ensures InterruptCommands(hub.commands, hits, at).Keys == hub.commands.Keys
  {
  }

  lemma OpenCommandIsStored(hub: Hub, sourceInstanceId: string)
    ensures forall k :: OpenCommand(hub, sourceInstanceId, k) ==> k in hub.commands
  {
  }

  lemma InterruptedDiffers(was: HttpExchange, at: string)
    ensures Interrupted(was, at) != was
  {
    assert Interrupted(was, at).revision == was.revision + 1;
  }

  lemma InterruptedCommandDiffers(was: DatabaseCommand, at: string)
    ensures InterruptedCommand(was, at) != was
  {
    assert InterruptedCommand(was, at).revision == was.revision + 1;
  }

  /**
   Where a disconnect stops. It edits the open exchanges in arrival order and then the open commands, each
   only if all before it stayed valid; it fails with the error of the first left invalid, whose edit stays.
   */
  lemma DisconnectStops(config: HubConfig, hub: Hub, sourceInstanceId: string, at: string)
    requires Consistent(hub)
    ensures var outcome := Disconnect(config, hub, sourceInstanceId, at);
      var next, rules := outcome.hub, config.rules;
      && next.exchanges.Keys == hub.exchanges.Keys && next.commands.Keys == hub.commands.Keys
      && (forall k, l :: OpenExchange(hub, sourceInstanceId, k) && OpenExchange(hub, sourceInstanceId, l)
                         && hub.exchanges[k].arrivalSequence < hub.exchanges[l].arrivalSequence
                         && next.exchanges[l] != hub.exchanges[l] ==>
            next.exchanges[k] != hub.exchanges[k] && ExchangeError(rules, next.exchanges[k]).None?)
      && (next.commands != hub.commands ==> forall k :: OpenExchange(hub, sourceInstanceId, k) ==>
            next.exchanges[k] != hub.exchanges[k] && ExchangeError(rules, next.exchanges[k]).None?)
      && (forall k, l :: OpenCommand(hub, sourceInstanceId, k) && OpenCommand(hub, sourceInstanceId, l)
                         && hub.commands[k].arrivalSequence < hub.commands[l].arrivalSequence
                         && next.commands[l] != hub.commands[l] ==>
            next.commands[k] != hub.commands[k] && CommandError(rules, next.commands[k]).None?)
      && (outcome.result.Failure? ==>
            || (exists k :: OpenExchange(hub, sourceInstanceId, k) && next.exchanges[k] != hub.exchanges[k]
                            && ExchangeError(rules, next.exchanges[k]) == Some(outcome.result.error))
            || (exists k :: OpenCommand(hub, sourceInstanceId, k) && next.commands[k] != hub.commands[k]
                            && CommandError(rules, next.commands[k]) == Some(outcome.result.error)))
  {
    hide Consistent, ExchangeError, CommandError, ExchangeHits, CommandHits, FirstExchangeError, FirstCommandError,
         OpenExchange, OpenCommand,
         InterruptionUpserts, CommandInterruptionUpserts, TouchedExchanges, TouchedCommands, InterruptExchanges,
           InterruptCommands;
    ExchangesStop(config.rules, hub, sourceInstanceId, at);
    CommandsStop(config.rules, hub, sourceInstanceId, at);
    SameCommandsTouched(config.rules, hub, sourceInstanceId, at);
    OpenIsStored(hub, sourceInstanceId);
    OpenCommandIsStored(hub, sourceInstanceId);
  }

  lemma SameCommandsTouched(rules: Rules, hub: Hub, sourceInstanceId: string, at: string)
    ensures var interrupted := AfterExchanges(rules, hub, sourceInstanceId, at);
      && interrupted == hub.(exchanges := interrupted.exchanges)
      && AfterCommands(rules, interrupted, sourceInstanceId, at).commands
         == AfterCommands(rules, hub, sourceInstanceId, at).commands
  {
    hide InFlightCommands, InterruptExchanges, InterruptCommands, CommandError, ValidCommandPrefix;
  }

  // ---- ingest

  /** The checks every message passes before anything is merged. */
  ghost predicate Admitted(hub: Hub, source: Source, message: CaptureMessage, requireRecording: bool) {
    && message.schemaMajor == 1 && message.sourceInstanceId == source.instanceId
    && (requireRecording ==> hub.recording)
  }

  /**
   The gates of an ingest. A foreign message is an error and a message while recording is paused is ignored,
   both without effect; past the gates an explicit ingest is like a passive one; a heartbeat changes nothing.
   */
  lemma IngestGates(config: HubConfig, hub: Hub, source: Source, at: string, message: CaptureMessage,
                    requireRecording: bool)
    ensures var outcome := Ingest(config, hub, source, at, message, requireRecording);
      && outcome.hub.recording == hub.recording && outcome.hub.sessionId == hub.sessionId
      && (outcome.result.Failure? ==> outcome.hub == hub)
      && (message.schemaMajor != 1 || message.sourceInstanceId != source.instanceId ==> outcome.result.Failure?)
      && (message.schemaMajor == 1 && message.sourceInstanceId == source.instanceId && requireRecording
          && !hub.recording ==>
            outcome == Outcome(hub, Success(HubMutation([], [], false))))
      && (Admitted(hub, source, message, requireRecording) ==>
            outcome == Ingest(config, hub, source, at, message, !requireRecording)
            || (!requireRecording && !hub.recording))
      && (Admitted(hub, source, message, requireRecording) && message.payload.Heartbeat? ==>
            outcome == Outcome(hub, Success(HubMutation([], [], false))))
  {
    hide EvictExchanges, EvictCommands, StoreExchange, StoreCommand, MergedCommand, ExchangeVictims, CommandVictims,
         SummaryOf, CommandSummaryOf,
         Removals, CommandRemovals;
    if message.payload.Database? {
      CommandSideOnly(config, hub, source, at, message.payload);
    } else {
      ExchangeSideOnly(config, hub, source, at, message.payload);
    }
    hide IngestCommand, IngestExchange;
  }

  lemma ExchangeSideOnly(config: HubConfig, hub: Hub, source: Source, at: string, payload: Payload)
    ensures var outcome := IngestExchange(config, hub, source, at, payload);
      && outcome.hub.recording == hub.recording && outcome.hub.sessionId == hub.sessionId
      && (outcome.result.Failure? ==> outcome.hub == hub)
      && (payload.Heartbeat? ==> outcome == Outcome(hub, Success(HubMutation([], [], false))))
  {
    hide ExchangeVictims, SummaryOf, Removals, KeyOf, MergedExchange, StoreExchange, EvictExchanges;
    var merged := MergedExchange(config, hub, source, at, payload);
    if merged.Success? && merged.value.Applied? {
      StoredOne(hub, merged.value.exchange);
      EvictsExchangesOnly(config.maxSummaries, StoreExchange(hub, merged.value.exchange));
    }
    if payload.Heartbeat? {
      HeartbeatIsIgnored(config, hub, source, at, payload);
    }
  }

  lemma HeartbeatIsIgnored(config: HubConfig, hub: Hub, source: Source, at: string, payload: Payload)
    requires payload.Heartbeat?
    ensures MergedExchange(config, hub, source, at, payload) == Success(LifecycleMerger.NoExchange)
  {
  }

  /** The entry a message for `key` meets: the stored one, older than the message, or a stand-in for a new one. */
  ghost predicate Meets(hub: Hub, key: ExchangeKey, context: LifecycleMerger.Context, payload: Payload,
                        was: HttpExchange)
    requires payload.Http?
  {
    if key in hub.exchanges then was == hub.exchanges[key] && was.revision < payload.revision
    else LifecycleMerger.StandsIn(context, payload, was)
  }

  ghost predicate MeetsCommand(hub: Hub, key: CommandKey, context: DatabaseMerger.Context, payload: Payload,
                               was: DatabaseCommand)
    requires payload.Database?
  {
    if key in hub.commands then was == hub.commands[key] && was.revision < payload.revision
    else DatabaseMerger.StandsIn(context, payload, was)
  }

  function SequenceFor(hub: Hub, key: ExchangeKey): nat {
    if key in hub.exchanges then hub.exchanges[key].arrivalSequence else hub.nextArrivalSequence
  }

  function CommandSequenceFor(hub: Hub, key: CommandKey): nat {
    if key in hub.commands then hub.commands[key].arrivalSequence else hub.nextArrivalSequence
  }

  /**
   What an ingest stores. An admitted message that is newer than the entry it meets, and whose effect on it
   is valid, takes effect: the entry is what the message makes of it unless it is finished and evicted at
   once; every other entry stays or, when finished, is evicted; only a new key takes a sequence; the batch
   announces the entry and then every eviction.
   */
  lemma IngestStores(config: HubConfig, hub: Hub, source: Source, at: string, message: CaptureMessage,
                     requireRecording: bool,
                     was: HttpExchange, e: HttpExchange)
    requires Consistent(hub) && Admitted(hub, source, message, requireRecording) && message.payload.Http?
    requires var key := ExchangeKey(source.instanceId, message.payload.exchangeId);
      var context := LifecycleMerger.Context(source, hub.sessionId, SequenceFor(hub, key), at);
      && Meets(hub, key, context, message.payload, was)
      && LifecycleMerger.Becomes(was, context, message.payload, e) && ExchangeError(config.rules, e).None?
    ensures var key := ExchangeKey(source.instanceId, message.payload.exchangeId);
      var outcome := Ingest(config, hub, source, at, message, requireRecording);
      var next := outcome.hub;
      && outcome.result.Success? && outcome.result.value.changed
      && (key in next.exchanges ==> next.exchanges[key] == e)
      && (e.lifecycle.state == InFlight ==> key in next.exchanges)
      && (forall k :: k in next.exchanges && k != key ==> k in hub.exchanges && next.exchanges[k] == hub.exchanges[k])
      && (forall k :: k in hub.exchanges && hub.exchanges[k].lifecycle.state == InFlight && k != key ==>
          k in next.exchanges)
      && next.nextArrivalSequence == hub.nextArrivalSequence + (if key in hub.exchanges then 0 else 1)
      && next.commands == hub.commands && next.commandOrder == hub.commandOrder
         && next.retainedBytes == hub.retainedBytes
      && Announces(outcome.result.value.deltas, e)
      && outcome.result.value.databaseDeltas == []
  {
    hide Consistent, ExchangeError, EvictExchanges, ExchangeVictims, SummaryOf, Removals, LifecycleMerger.Becomes,
         Meets, StoreExchange, KeyOf, Ingest, Announces;
    var payload := message.payload;
    MergedAs(config, hub, source, at, payload, was, e);
    HubInvariant.AppliedExchange(config, hub, source, at, payload);
    IngestIs(config, hub, source, at, message, requireRecording, e);
    StoredThenEvicted(config.maxSummaries, hub, e);
    AnnouncesStore(e, ExchangeVictims(config.maxSummaries, StoreExchange(hub, e)));
  }

  lemma StoredThenEvicted(limit: nat, hub: Hub, e: HttpExchange)
    requires Consistent(hub) && e.arrivalSequence == SequenceFor(hub, KeyOf(e))
    ensures var next, key := EvictExchanges(limit, StoreExchange(hub, e)), KeyOf(e);
      && (key in next.exchanges ==> next.exchanges[key] == e)
      && (e.lifecycle.state == InFlight ==> key in next.exchanges)
      && (forall k :: k in next.exchanges && k != key ==> k in hub.exchanges && next.exchanges[k] == hub.exchanges[k])
      && (forall k :: k in hub.exchanges && hub.exchanges[k].lifecycle.state == InFlight && k != key ==>
          k in next.exchanges)
      && next.nextArrivalSequence == hub.nextArrivalSequence + (if key in hub.exchanges then 0 else 1)
      && next.commands == hub.commands && next.commandOrder == hub.commandOrder
         && next.retainedBytes == hub.retainedBytes
  {
    hide Consistent, EvictExchanges, StoreExchange, KeyOf;
    HubInvariant.StoreExchangeConsistent(hub, e);
    StoredOne(hub, e);
    EvictedExchangesAreTerminal(limit, StoreExchange(hub, e));
    EvictsExchangesOnly(limit, StoreExchange(hub, e));
  }

  lemma EvictedExchangesAreTerminal(limit: nat, hub: Hub)
    requires Consistent(hub)
    ensures var next := EvictExchanges(limit, hub);
      && (forall k :: k in next.exchanges ==> k in hub.exchanges && next.exchanges[k] == hub.exchanges[k])
      && (forall k :: k in hub.exchanges && hub.exchanges[k].lifecycle.state.InFlight? ==> k in next.exchanges)
  {
    hide Consistent, EvictExchanges, ExchangeVictims, Only, TerminalExchanges, VictimCount, Without;
    RetentionExact(limit, hub);
  }

  lemma IngestIs(config: HubConfig, hub: Hub, source: Source, at: string, message: CaptureMessage,
                 requireRecording: bool, e: HttpExchange)
    requires Admitted(hub, source, message, requireRecording) && message.payload.Http?
    requires MergedExchange(config, hub, source, at, message.payload) == Success(LifecycleMerger.Applied(e))
    ensures var stored := StoreExchange(hub, e);
      Ingest(config, hub, source, at, message, requireRecording)
      == Outcome(EvictExchanges(config.maxSummaries, stored),
                 Success(HubMutation([HubDelta.Upsert(SummaryOf(e))]
                                     + Removals(ExchangeVictims(config.maxSummaries, stored)), [], true)))
  {
    hide MergedExchange, EvictExchanges, ExchangeVictims, SummaryOf, Removals, StoreExchange;
  }

  lemma MergedAs(config: HubConfig, hub: Hub, source: Source, at: string, payload: Payload, was: HttpExchange,
                 e: HttpExchange)
    requires Consistent(hub) && payload.Http?
    requires var key := ExchangeKey(source.instanceId, payload.exchangeId);
      var context := LifecycleMerger.Context(source, hub.sessionId, SequenceFor(hub, key), at);
      && Meets(hub, key, context, payload, was)
      && LifecycleMerger.Becomes(was, context, payload, e) && ExchangeError(config.rules, e).None?
    ensures MergedExchange(config, hub, source, at, payload) == Success(LifecycleMerger.Applied(e))
  {
    hide Consistent, ExchangeError, LifecycleMerger.Becomes, LifecycleMerger.Merge, LifecycleMerger.StandsIn;
    var key := ExchangeKey(source.instanceId, payload.exchangeId);
    var context := LifecycleMerger.Context(source, hub.sessionId, SequenceFor(hub, key), at);
    if key in hub.exchanges {
      LifecycleMerger.MergesExactly(config.rules, was, context, payload, e);
    } else {
      LifecycleMerger.StartsExactly(config.rules, context, payload, was, e);
    }
  }

  lemma StoredOne(hub: Hub, e: HttpExchange)
    ensures var stored := StoreExchange(hub, e);
      && stored == hub.(exchanges := hub.exchanges[KeyOf(e) := e], arrivalOrder := stored.arrivalOrder,
                        nextArrivalSequence := hub.nextArrivalSequence + (if KeyOf(e) in hub.exchanges then 0 else 1))
  {
    hide KeyOf;
  }

  lemma EvictsExchangesOnly(limit: nat, hub: Hub)
    ensures var next := EvictExchanges(limit, hub);
      next == hub.(exchanges := next.exchanges, arrivalOrder := next.arrivalOrder,
                   retentionBlockedByInFlight := next.retentionBlockedByInFlight)
  {
    hide ExchangeVictims;
  }

  /** First an upsert with the exchange's summary, then removals by retention. */
  ghost predicate Announces(deltas: seq<HubDelta>, e: HttpExchange) {
    && deltas != [] && deltas[0] == HubDelta.Upsert(SummaryOf(e))
    && forall i :: 0 < i < |deltas| ==> deltas[i].Remove? && deltas[i].reason == "retention limit"
  }

  lemma AnnouncesStore(e: HttpExchange, victims: seq<ExchangeKey>)
    ensures Announces([HubDelta.Upsert(SummaryOf(e))] + Removals(victims), e)
  {
    hide SummaryOf;
  }

  // ---- ingest of commands

  lemma EvictedCommandsAreTerminal(config: HubConfig, hub: Hub)
    ensures var next := EvictCommands(config, hub);
      && next == hub.(commands := next.commands, commandOrder := next.commandOrder, retainedBytes := next.retainedBytes,
                      commandRetentionBlockedByInFlight := next.commandRetentionBlockedByInFlight)
      && (forall k :: k in next.commands ==> k in hub.commands && next.commands[k] == hub.commands[k])
      && (forall k :: k in hub.commands && hub.commands[k].lifecycle.state == InFlight ==> k in next.commands)
  {
    hide Relief, Only, TerminalCommands;
    var terminal := TerminalCommands(hub.commands);
    var victims := CommandVictims(config, hub);
    forall k | k in victims ensures k in terminal {
      assert k in Only(hub.commandOrder, terminal);
      OnlyMembers(hub.commandOrder, terminal, k);
    }
    assert forall k :: k in terminal ==> k in hub.commands && hub.commands[k].lifecycle.state != InFlight by {
      TerminalIsNotOpen(hub);
    }
  }

  lemma TerminalIsNotOpen(hub: Hub)
    ensures forall k :: k in TerminalCommands(hub.commands) ==>
      k in hub.commands && hub.commands[k].lifecycle.state != InFlight
  {
  }

  lemma CommandStoredThenEvicted(config: HubConfig, hub: Hub, c: DatabaseCommand)
    ensures var next, key := EvictCommands(config, StoreCommand(config.rules, hub, c)), CommandKeyOf(c);
      && (key in next.commands ==> next.commands[key] == c)
      && (c.lifecycle.state == InFlight ==> key in next.commands)
      && (forall k :: k in next.commands && k != key ==> k in hub.commands && next.commands[k] == hub.commands[k])
      && (forall k :: k in hub.commands && hub.commands[k].lifecycle.state == InFlight && k != key ==>
          k in next.commands)
      && next.nextArrivalSequence == hub.nextArrivalSequence + (if key in hub.commands then 0 else 1)
      && next.exchanges == hub.exchanges && next.arrivalOrder == hub.arrivalOrder
  {
    hide EvictCommands, CommandKeyOf;
    EvictedCommandsAreTerminal(config, StoreCommand(config.rules, hub, c));
  }

  /** The summary tells of the command what the list of commands shows. */
  ghost predicate Tells(s: DatabaseCommandSummary, c: DatabaseCommand) {
    && s.key == CommandKey(c.source.instanceId, c.id) && s.revision == c.revision
    && s.arrivalSequence == c.arrivalSequence && s.lifecycle == c.lifecycle
    && s.provider == c.profile.provider && s.databaseName == c.profile.databaseName
       && s.dataSource == c.profile.dataSource
    && s.commandType == c.profile.commandType && s.operation == c.profile.operation
    && s.primaryTarget == c.profile.primaryTarget && s.durationMs == c.totalDuration
    && s.sourceName == c.source.applicationName
    && (s.info.Some? <==> c.failure.Some?) && (c.failure.Some? ==> s.info == Some(c.failure.value.message))
  }

  /** The database counterpart of IngestStores. */
  lemma IngestStoresCommand(config: HubConfig, hub: Hub, source: Source, at: string, message: CaptureMessage,
                            requireRecording: bool, was: DatabaseCommand, c: DatabaseCommand)
    requires Consistent(hub) && Admitted(hub, source, message, requireRecording) && message.payload.Database?
    requires var key := CommandKey(source.instanceId, message.payload.commandId);
      var context := LifecycleMerger.Context(source, hub.sessionId, CommandSequenceFor(hub, key), at);
      && MeetsCommand(hub, key, context, message.payload, was)
      && DatabaseMerger.Becomes(was, context, message.payload, c) && CommandError(config.rules, c).None?
    ensures var key := CommandKey(source.instanceId, message.payload.commandId);
      var outcome := Ingest(config, hub, source, at, message, requireRecording);
      var next := outcome.hub;
      && outcome.result.Success? && outcome.result.value.changed
      && (key in next.commands ==> next.commands[key] == c)
      && (c.lifecycle.state == InFlight ==> key in next.commands)
      && (forall k :: k in next.commands && k != key ==> k in hub.commands && next.commands[k] == hub.commands[k])
      && (forall k :: k in hub.commands && hub.commands[k].lifecycle.state == InFlight && k != key ==>
          k in next.commands)
      && next.nextArrivalSequence == hub.nextArrivalSequence + (if key in hub.commands then 0 else 1)
      && next.exchanges == hub.exchanges && next.arrivalOrder == hub.arrivalOrder
      && outcome.result.value.deltas == []
  {
    hide Consistent, CommandError, EvictCommands, CommandVictims, CommandSummaryOf, CommandRemovals,
         DatabaseMerger.Becomes,
         MeetsCommand, StoreCommand, CommandKeyOf, Ingest;
    var payload := message.payload;
    CommandMergedAs(config, hub, source, at, payload, was, c);
    HubInvariant.AppliedCommand(config, hub, source, at, payload);
    CommandIngestIs(config, hub, source, at, message, requireRecording, c);
    CommandStoredThenEvicted(config, hub, c);
  }

  lemma CommandMergedAs(config: HubConfig, hub: Hub, source: Source, at: string, payload: Payload, was: DatabaseCommand,
                        c: DatabaseCommand)
    requires payload.Database?
    requires var key := CommandKey(source.instanceId, payload.commandId);
      var context := LifecycleMerger.Context(source, hub.sessionId, CommandSequenceFor(hub, key), at);
      && MeetsCommand(hub, key, context, payload, was)
      && DatabaseMerger.Becomes(was, context, payload, c) && CommandError(config.rules, c).None?
    ensures MergedCommand(config, hub, source, at, payload) == Success(DatabaseMerger.Applied(c))
  {
    hide CommandError, DatabaseMerger.Becomes, DatabaseMerger.Merge, DatabaseMerger.StandsIn;
    var key := CommandKey(source.instanceId, payload.commandId);
    var context := LifecycleMerger.Context(source, hub.sessionId, CommandSequenceFor(hub, key), at);
    if key in hub.commands {
      DatabaseMerger.MergesExactly(config.rules, was, context, payload, c);
    } else {
      DatabaseMerger.StartsExactly(config.rules, context, payload, was, c);
    }
  }

  lemma CommandIngestIs(config: HubConfig, hub: Hub, source: Source, at: string, message: CaptureMessage,
                        requireRecording: bool,
                        c: DatabaseCommand)
    requires Admitted(hub, source, message, requireRecording) && message.payload.Database?
    requires MergedCommand(config, hub, source, at, message.payload) == Success(DatabaseMerger.Applied(c))
    ensures var stored := StoreCommand(config.rules, hub, c);
      Ingest(config, hub, source, at, message, requireRecording)
      == Outcome(EvictCommands(config, stored),
                 Success(HubMutation([], [CommandUpsert(CommandSummaryOf(c))]
                                     + CommandRemovals(CommandVictims(config, stored)), true)))
  {
    hide MergedCommand, EvictCommands, CommandVictims, CommandSummaryOf, CommandRemovals, StoreCommand;
  }

  // ---- what the command batch says

  /** The last delta of a key in a database batch. */
  function LastFor(deltas: seq<DatabaseDelta>, k: CommandKey): Option<DatabaseDelta> {
    if deltas == [] then None
    else
      var last := deltas[|deltas| - 1];
      if (if last.CommandUpsert? then last.summary.key else last.key) == k then Some(last)
      else LastFor(deltas[..|deltas| - 1], k)
  }

  /** A command batch accounts for every command: silent when it is as before, a telling summary, or a removal. */
  ghost predicate CommandsDelivered(before: map<CommandKey, DatabaseCommand>, after: map<CommandKey, DatabaseCommand>,
                                    deltas: seq<DatabaseDelta>)
  {
    forall k :: match LastFor(deltas, k)
      case None => (k in before <==> k in after) && (k in after ==> after[k] == before[k])
      case Some(CommandUpsert(s)) => k in after && Tells(s, after[k])
      case Some(CommandRemove(_, reason)) => k !in after && reason == "database retention limit"
  }

  lemma SummaryTells(c: DatabaseCommand)
    ensures Tells(CommandSummaryOf(c), c)
  {
  }

  lemma {:induction false} LastOfStore(c: DatabaseCommand, victims: seq<CommandKey>, n: nat, k: CommandKey)
    requires n <= |victims|
    ensures LastFor([CommandUpsert(CommandSummaryOf(c))] + CommandRemovals(victims)[..n], k)
         == if k in victims[..n] then Some(CommandRemove(k, "database retention limit"))
            else if k == CommandKeyOf(c) then Some(CommandUpsert(CommandSummaryOf(c)))
            else None
  {
    hide CommandSummaryOf;
    SummaryTells(c);
    var upsert, removals := CommandUpsert(CommandSummaryOf(c)), CommandRemovals(victims);
    if n > 0 {
      LastOfStore(c, victims, n - 1, k);
      assert ([upsert] + removals[..n])[..n] == [upsert] + removals[..n - 1];
      assert victims[..n] == victims[..n - 1] + [victims[n - 1]];
    } else {
      assert [upsert] + removals[..0] == [upsert];
      assert [upsert][..0] == [];
    }
  }

  lemma StoredCommandCell(config: HubConfig, hub: Hub, c: DatabaseCommand, k: CommandKey)
    ensures var stored := StoreCommand(config.rules, hub, c);
      CurrentCommand(EvictCommands(config, stored), k)
      == if k in CommandVictims(config, stored) then None
         else if k == CommandKeyOf(c) then Some(c)
         else CurrentCommand(hub, k)
  {
    hide CommandVictims, CommandKeyOf, Only, TerminalCommands, Fits, LoadAfter, Without;
    var stored := StoreCommand(config.rules, hub, c);
    assert stored.commands == hub.commands[CommandKeyOf(c) := c];
    hide StoreCommand;
    assert EvictCommands(config, stored).commands == stored.commands - Elems(CommandVictims(config, stored));
  }

  /** The batch of a stored command accounts for every change to the commands. */
  lemma StoreDeliversCommands(config: HubConfig, hub: Hub, c: DatabaseCommand)
    ensures var stored := StoreCommand(config.rules, hub, c);
      CommandsDelivered(hub.commands, EvictCommands(config, stored).commands,
                        [CommandUpsert(CommandSummaryOf(c))] + CommandRemovals(CommandVictims(config, stored)))
  {
    hide CommandSummaryOf, CommandVictims, Tells, CommandKeyOf, EvictCommands, StoreCommand, CommandRemovals, LastFor;
    var stored := StoreCommand(config.rules, hub, c);
    var victims := CommandVictims(config, stored);
    SummaryTells(c);
    forall k ensures match LastFor([CommandUpsert(CommandSummaryOf(c))] + CommandRemovals(victims), k)
      case None => CurrentCommand(EvictCommands(config, stored), k) == CurrentCommand(hub, k)
      case Some(CommandUpsert(s)) =>
        && k in EvictCommands(config, stored).commands
        && Tells(s, EvictCommands(config, stored).commands[k])
      case Some(CommandRemove(_, reason)) =>
        && k !in EvictCommands(config, stored).commands
        && reason == "database retention limit"
    {
      LastOfStored(c, victims, k);
      StoredCommandCell(config, hub, c, k);
    }
  }

  lemma LastOfStored(c: DatabaseCommand, victims: seq<CommandKey>, k: CommandKey)
    ensures LastFor([CommandUpsert(CommandSummaryOf(c))] + CommandRemovals(victims), k)
         == if k in victims then Some(CommandRemove(k, "database retention limit"))
            else if k == CommandKeyOf(c) then Some(CommandUpsert(CommandSummaryOf(c)))
            else None
  {
    hide CommandSummaryOf, LastFor;
    assert victims[..|victims|] == victims && CommandRemovals(victims)[..|victims|] == CommandRemovals(victims);
    LastOfStore(c, victims, |victims|, k);
  }

  lemma {:induction false} LastOfInterruption(commands: map<CommandKey, DatabaseCommand>, hits: seq<CommandKey>,
                                              at: string, k: CommandKey)
    requires NoDup(hits) && forall h :: h in hits ==> h in commands && CommandKeyOf(commands[h]) == h
    ensures LastFor(CommandInterruptionUpserts(commands, hits, at), k)
         == if k in hits then Some(CommandUpsert(CommandSummaryOf(InterruptedCommand(commands[k], at)))) else None
    decreases |hits|
  {
    hide CommandSummaryOf, InterruptedCommand;
    if hits != [] {
      var n := |hits| - 1;
      var last := hits[n];
      LastOfInterruption(commands, hits[..n], at, k);
      SummaryTells(InterruptedCommand(commands[last], at));
      KeyOfInterrupted(commands[last], at);
      var deltas := CommandInterruptionUpserts(commands, hits[..n], at);
      assert (deltas + [CommandUpsert(CommandSummaryOf(InterruptedCommand(commands[last], at)))])[..|deltas|] == deltas;
      assert hits == hits[..n] + [last];
    }
  }

  lemma KeyOfInterrupted(c: DatabaseCommand, at: string)
    ensures CommandKeyOf(InterruptedCommand(c, at)) == CommandKeyOf(c)
    ensures CommandSummaryOf(InterruptedCommand(c, at)).key == CommandKeyOf(c)
  {
  }

  lemma CommandsKeyedAndOrdered(hub: Hub, sourceInstanceId: string)
    requires Consistent(hub)
    ensures NoDup(CommandHits(hub, sourceInstanceId))
    ensures forall k :: k in hub.commands ==> CommandKeyOf(hub.commands[k]) == k
  {
    HitsRise(hub, sourceInstanceId);
  }

  /** The batch of a successful disconnect accounts for every change to the commands. */
  lemma DisconnectDeliversCommands(config: HubConfig, hub: Hub, sourceInstanceId: string, at: string)
    requires Consistent(hub) && Disconnect(config, hub, sourceInstanceId, at).result.Success?
    ensures var outcome := Disconnect(config, hub, sourceInstanceId, at);
      CommandsDelivered(hub.commands, outcome.hub.commands, outcome.result.value.databaseDeltas)
  {
    hide Consistent, CommandSummaryOf, Tells, CommandKeyOf, InterruptedCommand, CommandInterruptionUpserts, CommandHits,
         LastFor,
         InterruptionUpserts, FirstExchangeError, FirstCommandError, TouchedCommands, TouchedExchanges, ExchangeHits,
           InterruptExchanges;
    var hits := CommandHits(hub, sourceInstanceId);
    Touched(config.rules, hub, sourceInstanceId, at);
    HitsRise(hub, sourceInstanceId);
    CommandsKeyedAndOrdered(hub, sourceInstanceId);
    forall k ensures LastFor(CommandInterruptionUpserts(hub.commands, hits, at), k)
      == if k in hits then Some(CommandUpsert(CommandSummaryOf(InterruptedCommand(hub.commands[k], at)))) else None
    {
      LastOfInterruption(hub.commands, hits, at, k);
    }
    forall k | k in hub.commands
      ensures Tells(CommandSummaryOf(InterruptedCommand(hub.commands[k], at)), InterruptedCommand(hub.commands[k], at))
      {
      SummaryTells(InterruptedCommand(hub.commands[k], at));
    }
  }

  /** So does the batch of every ingest. */
  lemma IngestDeliversCommands(config: HubConfig, hub: Hub, source: Source, at: string, message: CaptureMessage,
                               requireRecording: bool)
    requires Ingest(config, hub, source, at, message, requireRecording).result.Success?
    ensures var outcome := Ingest(config, hub, source, at, message, requireRecording);
      CommandsDelivered(hub.commands, outcome.hub.commands, outcome.result.value.databaseDeltas)
  {
    hide CommandSummaryOf, Tells, CommandKeyOf, MergedCommand, MergedExchange, EvictCommands, EvictExchanges,
         StoreExchange, StoreCommand,
         CommandVictims, ExchangeVictims, CommandRemovals, Removals, SummaryOf, CommandsDelivered, IngestExchange;
    NothingDelivers(hub.commands);
    if message.payload.Database? {
      var merged := MergedCommand(config, hub, source, at, message.payload);
      if merged.Success? && merged.value.Applied? {
        StoreDeliversCommands(config, hub, merged.value.command);
      }
    } else {
      NoCommandSide(config, hub, source, at, message.payload);
    }
  }

  lemma NothingDelivers(commands: map<CommandKey, DatabaseCommand>)
    ensures CommandsDelivered(commands, commands, [])
  {
  }

  lemma NoCommandSide(config: HubConfig, hub: Hub, source: Source, at: string, payload: Payload)
    ensures var outcome := IngestExchange(config, hub, source, at, payload);
      && outcome.hub.commands == hub.commands
      && (outcome.result.Success? ==> outcome.result.value.databaseDeltas == [])
  {
    hide ExchangeVictims, SummaryOf, Removals, KeyOf, MergedExchange;
  }

  /** A mutation says it changed something exactly when it publishes something. */
  lemma ChangedIffPublished(config: HubConfig, hub: Hub, step: Step)
    requires StepOutcome(config, hub, step).result.Success?
    ensures var mutation := StepOutcome(config, hub, step).result.value;
      mutation.changed <==> mutation.deltas != [] || mutation.databaseDeltas != []
  {
    hide MergedCommand, MergedExchange, EvictCommands, EvictExchanges, StoreExchange, StoreCommand, CommandVictims,
         ExchangeVictims,
         CommandRemovals, Removals, SummaryOf, CommandSummaryOf, AfterExchanges, AfterCommands, FirstExchangeError,
           FirstCommandError,
         ExchangeHits, CommandHits, InterruptionUpserts, CommandInterruptionUpserts;
    if step.SourceDisconnected? {
      HubInvariant.UpsertsPerHit(hub, step.sourceInstanceId, step.disconnectedAt);
    }
  }

  /** A clear forgets everything but the recording flag, starts counting anew, and announces the new session. */
  lemma ClearForgets(config: HubConfig, hub: Hub, sessionId: string)
    ensures var outcome := StepOutcome(config, hub, SessionCleared(sessionId));
      var next := outcome.hub;
      && next.exchanges == map[] && next.arrivalOrder == [] && !next.retentionBlockedByInFlight
      && next.commands == map[] && next.commandOrder == [] && next.retainedBytes == 0
      && !next.commandRetentionBlockedByInFlight
      && next.sessionId == sessionId && next.nextArrivalSequence == 1 && next.recording == hub.recording
      && outcome.result.Success? && outcome.result.value.deltas == [HubDelta.Reset(sessionId, [])]
      && outcome.result.value.databaseDeltas == []
  {
  }

  // ---- what is stored is valid

  /** The checks on an exchange that merging and interrupting can break. */
  ghost predicate WellShaped(rules: Rules, e: HttpExchange) {
    && rules.isUuid(e.id) && rules.isUuid(e.sessionId) && rules.isUuid(e.source.instanceId)
    && e.schemaMajor == 1 && e.source.protocolMajor == 1 && e.revision > 0 && e.arrivalSequence > 0
    && (e.lifecycle.state == Completed ==> e.response.Some?)
    && (e.lifecycle.state == Failed <==> e.failure.Some?)
  }

  ghost predicate CommandWellShaped(c: DatabaseCommand) {
    && c.schemaMajor == 1 && c.revision > 0 && c.arrivalSequence > 0
    && (c.lifecycle.state == Failed <==> c.failure.Some?)
  }

  /** Validation passes exactly well-shaped exchanges that pass the other checks too. */
  lemma ValidIff(rules: Rules, e: HttpExchange)
    ensures ExchangeError(rules, e).None? <==> WellShaped(rules, e) && rules.exchangeError(e).None?
  {
  }

  lemma CommandValidIff(rules: Rules, c: DatabaseCommand)
    ensures CommandError(rules, c).None? <==> CommandWellShaped(c) && rules.commandError(c).None?
  {
  }

  ghost predicate AllWellShaped(rules: Rules, hub: Hub) {
    && (forall k :: k in hub.exchanges ==> WellShaped(rules, hub.exchanges[k]))
    && (forall k :: k in hub.commands ==> CommandWellShaped(hub.commands[k]))
  }

  lemma CutShortWellShaped(rules: Rules, was: HttpExchange, e: HttpExchange, at: string)
    requires WellShaped(rules, was) && was.lifecycle.state == InFlight && CutShort(was, e, at)
    ensures WellShaped(rules, e)
  {
    hide LifecycleMerger.Overlays;
  }

  lemma CommandCutShortWellShaped(was: DatabaseCommand, c: DatabaseCommand, at: string)
    requires CommandWellShaped(was) && was.lifecycle.state == InFlight && CommandCutShort(was, c, at)
    ensures CommandWellShaped(c)
  {
  }

  lemma StepKeepsWellShaped(config: HubConfig, hub: Hub, step: Step)
    requires Consistent(hub) && AllWellShaped(config.rules, hub)
    ensures AllWellShaped(config.rules, After(config, hub, step))
  {
    hide Consistent, Ingest, Disconnect, WellShaped, CommandWellShaped, CutShort, CommandCutShort;
    match step
    case IngestMessage(source, at, message, requireRecording) => IngestKeepsWellShaped(config, hub, step);
    case SourceDisconnected(sourceInstanceId, at) =>
      DisconnectEdits(config, hub, sourceInstanceId, at);
      var next := After(config, hub, step);
      forall k | k in next.exchanges ensures WellShaped(config.rules, next.exchanges[k]) {
        if next.exchanges[k] != hub.exchanges[k] {
          CutShortWellShaped(config.rules, hub.exchanges[k], next.exchanges[k], at);
        }
      }
      forall k | k in next.commands ensures CommandWellShaped(next.commands[k]) {
        if next.commands[k] != hub.commands[k] {
          CommandCutShortWellShaped(hub.commands[k], next.commands[k], at);
        }
      }
    case _ =>
  }

  lemma IngestKeepsWellShaped(config: HubConfig, hub: Hub, step: Step)
    requires Consistent(hub) && AllWellShaped(config.rules, hub) && step.IngestMessage?
    ensures AllWellShaped(config.rules, After(config, hub, step))
  {
    hide Consistent, WellShaped, CommandWellShaped, MergedExchange, MergedCommand, EvictExchanges, EvictCommands,
         StoreExchange, StoreCommand,
         ExchangeVictims, CommandVictims, SummaryOf, CommandSummaryOf, Removals, CommandRemovals, ExchangeError,
           CommandError, KeyOf, CommandKeyOf,
         SourceError;
    var payload, rules := step.message.payload, config.rules;
    if payload.Database? {
      HubInvariant.AppliedCommand(config, hub, step.source, step.receivedAt, payload);
      var merged := MergedCommand(config, hub, step.source, step.receivedAt, payload);
      if merged.Success? && merged.value.Applied? {
        CommandValid(config, hub, step.source, step.receivedAt, payload);
        CommandValidIff(rules, merged.value.command);
        CommandStoredThenEvicted(config, hub, merged.value.command);
      }
    } else {
      HubInvariant.AppliedExchange(config, hub, step.source, step.receivedAt, payload);
      var merged := MergedExchange(config, hub, step.source, step.receivedAt, payload);
      if merged.Success? && merged.value.Applied? {
        ValidIff(rules, merged.value.exchange);
        StoredThenEvicted(config.maxSummaries, hub, merged.value.exchange);
      }
    }
  }

  lemma CommandValid(config: HubConfig, hub: Hub, source: Source, at: string, payload: Payload)
    requires Consistent(hub) && payload.Database?
    ensures var merged := MergedCommand(config, hub, source, at, payload);
      merged.Success? && merged.value.Applied? ==> CommandError(config.rules, merged.value.command).None?
  {
    var current := CurrentCommand(hub, CommandKey(source.instanceId, payload.commandId));
    DatabaseMerger.AppliedKeepsIdentity(config.rules, current, CommandContext(hub, source, at, current), payload);
  }

  /** In every run from a fresh session everything stored is well shaped, failed disconnects included. */
  lemma {:induction false} RunKeepsWellShaped(config: HubConfig, sessionId: string, steps: seq<Step>)
    ensures AllWellShaped(config.rules, Run(config, Fresh(sessionId), steps))
  {
    hide AllWellShaped, After;
    if steps == [] {
      NothingMisshaped(config.rules, sessionId);
    } else {
      var front := steps[..|steps| - 1];
      RunKeepsWellShaped(config, sessionId, front);
      ReachableConsistent(config, sessionId, front);
      StepKeepsWellShaped(config, Run(config, Fresh(sessionId), front), steps[|steps| - 1]);
    }
  }

  lemma NothingMisshaped(rules: Rules, sessionId: string)
    ensures AllWellShaped(rules, Fresh(sessionId))
  {
  }
}
