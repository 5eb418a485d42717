/** Runs of the system, from its start, that show where the code falls short of what it is for. */
module Shortfalls {
  import opened Wrappers
  import opened Sequences
  import opened CaptureModel
  import opened MapSums
  import opened Decimals
  import opened Retention
  import opened HubState
  import opened HubRuns
  import opened Samples
  import LifecycleMerger
  import DatabaseMerger
  import CE = CaptureEntities
  import Publication
  import Replication
  import ByteConservation

  // ---- a disconnect that the interface never hears of

  /** A JSON array of `n` zeros, one at least. */
  function Zeros(n: nat): (encoded: string)
    requires n > 0
    ensures |encoded| == 2 * n + 1
  {
    seq(2 * n + 1, i requires 0 <= i < 2 * n + 1 => if i == 0 then '[' else if i == 2 * n then ']' else if i % 2 == 1
        then '0' else ',')
  }

  /** Metadata one byte below the limit: a single array of numbers. */
  function Filling(): Metadata {
    map["n" := Structured(Zeros(32_764))]
  }

  lemma FillingBytes()
    ensures MetadataBytes(Filling()) == METADATA_LIMIT - 1
  {
    var value := Structured(Zeros(32_764));
    SumWith(map[], "n", value, (name, v) => EntryBytes(name, v));
    assert Filling() == map["n" := value];
  }

  /** The reason a disconnect records takes the metadata over the limit. */
  lemma FillingOverflows(at: string)
    ensures MetadataBytes(Interrupted(StartedExchange(Filling()), at).metadata) > METADATA_LIMIT
  {
    hide Zeros;
    FillingBytes();
    var name, value := "capture.incompleteReason", Text("source disconnected");
    assert name !in Filling() by { assert |name| != |"n"|; }
    SumWith(Filling(), name, value, (n, v) => EntryBytes(n, v));
  }

  lemma RunOne(config: HubConfig, hub: Hub, first: Step)
    ensures Run(config, hub, [first]) == After(config, hub, first)
  {
    hide After;
    assert [first][..0] == [];
  }

  lemma RunTwo(config: HubConfig, hub: Hub, first: Step, second: Step)
    ensures Run(config, hub, [first, second]) == After(config, After(config, hub, first), second)
  {
    hide After;
    assert [first, second][..1] == [first];
    RunOne(config, hub, first);
  }

  /**
   A start whose metadata is just within the limit, and then the source disconnects. Recording the reason
   takes the metadata over the limit, so the disconnect fails, publishes nothing, and leaves the exchange
   edited: the interface, which followed every batch, no longer mirrors the hub.
   */
  lemma DisconnectLosesMirror(compare: CE.Collation, frame: nat)
    requires CE.TotalOrder(compare)
    ensures UuidLaw(Defaults(frame).rules)
    ensures var config, start, steps := Defaults(frame), Fresh(SESSION),
      [HttpStep(EARLY, 1, StartEvent(Filling())), GONE];
      && KEY in Run(config, start, steps[..1]).exchanges
      && Published(config, Run(config, start, steps[..1]), GONE) == []
      && !Replication.Mirrors(compare, Replication.RunUi(compare, config, start, CE.NO_ENTITIES, steps),
                              Run(config, start, steps))
  {
    hide CE.TotalOrder, StepOutcome, Zeros, Filling, StartedExchange, Consistent, KeyOf, Replication.StepBatch,
         Replication.ApplyBatch, Replication.Mirrors,
         Replication.AllPublish, Interruptible, MetadataBytes, Replication.Sound, UuidLaw;
    var config, start, first := Defaults(frame), Fresh(SESSION), HttpStep(EARLY, 1, StartEvent(Filling()));
    var steps := [first, GONE];
    DefaultsUuidLaw(frame);
    FillingBytes();
    StartTaken(frame, Filling());
    assert steps[..1] == [first];
    RunOne(config, start, first);
    RunTwo(config, start, first, GONE);
    var hub := Run(config, start, [first]);
    FillingNotInterruptible(frame, hub);
    FollowsFirst(compare, config, first);
    var ui := Replication.RunUi(compare, config, start, CE.NO_ENTITIES, [first]);
    Replication.FreshSound(SESSION);
    Replication.RunKeepsSound(config, start, [first]);
    Replication.DisconnectMirrorsIff(compare, config, hub, GONE, ui);
    HoldsConsistent(hub, StartedExchange(Filling()));
    DisconnectSucceedsIff(config, hub, SOURCE.instanceId, LATE);
    FailedPublishesNothing(config, hub);
  }

  lemma FailedPublishesNothing(config: HubConfig, hub: Hub)
    requires !Disconnect(config, hub, SOURCE.instanceId, LATE).result.Success?
    ensures Published(config, hub, GONE) == []
  {
    hide Disconnect;
  }

  /** The interface that follows the first ingest mirrors the hub. */
  lemma FollowsFirst(compare: CE.Collation, config: HubConfig, first: Step)
    requires CE.TotalOrder(compare) && UuidLaw(config.rules) && first.IngestMessage?
    ensures Replication.Mirrors(compare, Replication.RunUi(compare, config, Fresh(SESSION), CE.NO_ENTITIES, [first]),
                                Run(config, Fresh(SESSION), [first]))
  {
    hide CE.TotalOrder, UuidLaw, Replication.RunUi, Replication.Mirrors, Run, Replication.Sound;
    Replication.FreshSound(SESSION);
    Replication.NothingMirrorsEmpty(compare, Fresh(SESSION));
    Replication.RunMirrors(compare, config, Fresh(SESSION), CE.NO_ENTITIES, [first]);
  }

  lemma FillingNotInterruptible(frame: nat, hub: Hub)
    requires Holds(hub, StartedExchange(Filling()))
    ensures !Interruptible(Defaults(frame).rules, hub, SOURCE.instanceId, LATE)
      && !NoExchangeInFlight(hub, SOURCE.instanceId)
  {
    hide Zeros, Filling, MetadataBytes, KeyOf, IsUuid;
    FillingOverflows(LATE);
    assert KEY in hub.exchanges && hub.exchanges[KEY] == StartedExchange(Filling());
  }

  // ---- a counter that no longer measures what is stored

  /** The reason and the state a disconnect records are longer than those they replace. */
  lemma InterruptedIsLonger()
    ensures CommandBytes(InterruptedCommand(StartedCommand(), LATE)) > CommandBytes(StartedCommand())
  {
    hide IsUuid;
    assert Decimal(1) == "1" && Decimal(2) == "2";
  }

  lemma StartedCommandFits()
    ensures CommandBytes(StartedCommand()) <= 1_000
  {
    hide IsUuid;
    assert Decimal(1) == "1";
  }

  lemma StartedCommandInterruptible(frame: nat, bytes: nat)
    ensures Interruptible(Defaults(frame).rules, HoldsCommand(bytes), SOURCE.instanceId, LATE)
  {
    hide IsUuid, CommandBytes;
  }

  lemma StartedCommandHit(bytes: nat)
    ensures CommandHits(HoldsCommand(bytes), SOURCE.instanceId) == [COMMAND_KEY]
  {
    hide IsUuid;
    assert InFlightCommands(HoldsCommand(bytes).commands, SOURCE.instanceId) == {COMMAND_KEY};
    assert Only([COMMAND_KEY], {COMMAND_KEY}) == [COMMAND_KEY];
  }

  lemma AllRewritten(config: HubConfig, hub: Hub)
    requires Disconnect(config, hub, SOURCE.instanceId, LATE).result.Success?
    ensures ByteConservation.Rewritten(config.rules, hub, SOURCE.instanceId, LATE)
      == CommandHits(hub, SOURCE.instanceId)
  {
    hide CommandHits, ExchangeHits, AfterExchanges, AfterCommands, InterruptionUpserts, CommandInterruptionUpserts;
  }

  lemma BytesOfOne(frame: nat, bytes: nat)
    ensures var hub := HoldsCommand(bytes);
      var rules := Defaults(frame).rules;
      && ByteConservation.StoredBytes(rules, hub) == frame + CommandBytes(StartedCommand())
      && ByteConservation.Sum([COMMAND_KEY], Lengths(rules, hub.commands)) == frame + CommandBytes(StartedCommand())
      && ByteConservation.Sum([COMMAND_KEY],
                              Lengths(rules, InterruptCommands(hub.commands, Elems([COMMAND_KEY]), LATE)))
         == frame + CommandBytes(InterruptedCommand(StartedCommand(), LATE))
  {
    hide CommandBytes, InterruptedCommand, IsUuid;
  }

  lemma CommandSourceGone(frame: nat, bytes: nat)
    ensures var rules, outcome := Defaults(frame).rules,
      Disconnect(Defaults(frame), HoldsCommand(bytes), SOURCE.instanceId, LATE);
      && outcome.result.Success?
      && outcome.hub.retainedBytes == bytes
      && ByteConservation.StoredBytes(rules, outcome.hub)
         == frame + CommandBytes(InterruptedCommand(StartedCommand(), LATE))
  {
    hide CommandBytes, InterruptedCommand, Consistent, StartedCommand, Disconnect, Interruptible,
         ByteConservation.Rewritten, Lengths, InterruptCommands;
    var config, hub := Defaults(frame), HoldsCommand(bytes);
    HoldsCommandConsistent(bytes);
    StartedCommandInterruptible(frame, bytes);
    StartedCommandHit(bytes);
    DisconnectSucceedsIff(config, hub, SOURCE.instanceId, LATE);
    AllRewritten(config, hub);
    BytesOfOne(frame, bytes);
    ByteConservation.CommandsAfterDisconnect(config, hub, SOURCE.instanceId, LATE);
  }

  /**
   A command starts and its source disconnects. The stored command grows by the reason recorded in it,
   the counter does not: it matched the stored bytes before the disconnect and falls short of them after.
   */
  lemma DisconnectDrifts(frame: nat)
    requires frame <= 0x1_0000
    ensures var config, start := Defaults(frame), Fresh(SESSION);
      var before, after := Run(config, start, [COMMAND_STEP]), Run(config, start, [COMMAND_STEP, GONE]);
      && ByteConservation.Conserved(config.rules, before)
      && StepOutcome(config, before, GONE).result.Success?
      && after.retainedBytes < ByteConservation.StoredBytes(config.rules, after)
  {
    hide CommandBytes, InterruptedCommand, StartedCommand, HoldsCommand, Disconnect, Ingest,
         ByteConservation.StoredBytes;
    var config, start, bytes := Defaults(frame), Fresh(SESSION), frame + CommandBytes(StartedCommand());
    StartedCommandFits();
    CommandTaken(frame);
    RunOne(config, start, COMMAND_STEP);
    RunTwo(config, start, COMMAND_STEP, GONE);
    BytesOfOne(frame, bytes);
    InterruptedIsLonger();
    CommandSourceGone(frame, bytes);
    CountedAt(bytes);
  }

  lemma CountedAt(bytes: nat)
    ensures HoldsCommand(bytes).retainedBytes == bytes
  {
  }
}
