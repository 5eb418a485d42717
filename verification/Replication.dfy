/** The interface follows the hub, batch by batch, over whole runs; and exactly which disconnects it loses. */
module Replication {
  import opened Wrappers
  import opened Sequences
  import opened CaptureModel
  import opened Retention
  import opened ArrivalIndex
  import opened HubState
  import opened HubRuns
  import CE = CaptureEntities
  import opened Coalescing
  import opened Publication
  import HubInvariant

  type Entities = CE.Entities

  function ApplyBatch(compare: CE.Collation, ui: Entities, batch: seq<CE.UiDelta>): Entities {
    CE.Fold(compare, ui, Coalesce(batch))
  }

  /** The batch of one step, fetched right after it. */
  function StepBatch(config: HubConfig, hub: Hub, step: Step): seq<CE.UiDelta> {
    TranslateAll(After(config, hub, step), Published(config, hub, step))
  }

  /** The step publishes what it does: every step but a disconnect that leaves an entry invalid. */
  ghost predicate Publishes(config: HubConfig, hub: Hub, step: Step) {
    step.SourceDisconnected? ==> Interruptible(config.rules, hub, step.sourceInstanceId, step.disconnectedAt)
  }

  lemma PublishedDisconnect(config: HubConfig, hub: Hub, step: Step)
    requires Sound(hub) && Publishes(config, hub, step) && step.SourceDisconnected?
    ensures StepOutcome(config, hub, step).result.Success?
  {
    hide Consistent, PlainKeys, Disconnect, Interruptible;
    DisconnectSucceedsIff(config, hub, step.sourceInstanceId, step.disconnectedAt);
  }

  /** The interface holds exactly the hub's exchanges, sorted by arrival. */
  ghost predicate Mirrors(compare: CE.Collation, ui: Entities, hub: Hub) {
    && CE.WellFormed(ui)
    && CE.Sorted(compare, ui)
    && (forall key :: CE.Cell(ui, key) == HubCell(hub, key))
  }

  ghost predicate Sound(hub: Hub) {
    Consistent(hub) && PlainKeys(hub)
  }

  lemma StepKeepsSound(config: HubConfig, hub: Hub, step: Step)
    requires UuidLaw(config.rules) && Sound(hub)
    ensures Sound(After(config, hub, step))
  {
    hide Consistent, PlainKeys, After;
    StepKeepsConsistent(config, hub, step);
    StepKeepsPlainKeys(config, hub, step);
  }

  lemma {:induction false} RunKeepsSound(config: HubConfig, hub: Hub, steps: seq<Step>)
    requires UuidLaw(config.rules) && Sound(hub)
    ensures Sound(Run(config, hub, steps))
  {
    hide Sound, After;
    if steps != [] {
      RunKeepsSound(config, hub, steps[..|steps| - 1]);
      StepKeepsSound(config, Run(config, hub, steps[..|steps| - 1]), steps[|steps| - 1]);
    }
  }

  // ---- one step

  lemma StepDelivers(config: HubConfig, hub: Hub, step: Step)
    requires UuidLaw(config.rules) && Sound(hub) && Publishes(config, hub, step) && !step.SessionCleared?
    ensures Delivers(hub, After(config, hub, step), StepBatch(config, hub, step))
  {
    hide Consistent, PlainKeys, Delivers, Ingest, Disconnect, TranslateAll, Interruptible;
    match step
    case IngestMessage(_, _, _, _) => IngestDelivers(config, hub, step);
    case SourceDisconnected(_, _) =>
      PublishedDisconnect(config, hub, step);
      DisconnectDelivers(config, hub, step);
    case RecordingSwitched(_) => NothingDelivers(hub, After(config, hub, step));
  }

  lemma ClearedBatch(compare: CE.Collation, config: HubConfig, hub: Hub, step: Step, ui: Entities)
    requires step.SessionCleared?
    ensures ApplyBatch(compare, ui, StepBatch(config, hub, step)) == CE.NO_ENTITIES
    ensures After(config, hub, step).exchanges == map[]
  {
    var batch := StepBatch(config, hub, step);
    assert batch == [CE.Reset(step.sessionId, [])];
    assert batch[..0] == [];
    assert Coalesce(batch) == Coalesced(Coalesce([]), batch[0]);
    assert CE.Fold(compare, ui, batch) == CE.Reduce(compare, CE.Fold(compare, ui, []), batch[0]);
  }

  /** The cell after a batch is the last word of the batch on it. */
  lemma BatchCell(compare: CE.Collation, ui: Entities, deltas: seq<CE.UiDelta>, key: string)
    requires CE.WellFormed(ui) && ResetFree(deltas)
    ensures CE.Cell(ApplyBatch(compare, ui, deltas), key) == StepLast(CE.Cell(ui, key), deltas, key)
  {
    CoalescedCell(compare, ui, deltas, key);
  }

  /** Folding a batch keeps the settled part of the arrival order sorted when its upserts only move back. */
  lemma BatchSettled(compare: CE.Collation, ui: Entities, deltas: seq<CE.UiDelta>, settled: iset<string>)
    requires CE.TotalOrder(compare) && CE.WellFormed(ui) && Settled(compare, ui, settled) && ResetFree(deltas)
    requires forall i :: 0 <= i < |deltas| && deltas[i].Upsert? ==>
      var key := CE.StoreKey(KeyOf(deltas[i].exchange)); MovesBack(CE.Cell(ui, key), deltas[i].exchange, key in settled)
    ensures CE.WellFormed(ApplyBatch(compare, ui, deltas)) && Settled(compare, ApplyBatch(compare, ui, deltas), settled)
  {
    hide CE.TotalOrder, CE.Keyed, CE.StoreKey, KeyOf, SortedOn, MovesBack, Coalesce, SlotOf;
    CoalesceKeepsLast(deltas, StatusSlot);
    CoalescedFromBatch(deltas);
    FoldSettled(compare, ui, Coalesce(deltas), settled);
  }

  lemma DeliveredMirrors(compare: CE.Collation, ui: Entities, hub: Hub, next: Hub, deltas: seq<CE.UiDelta>)
    requires CE.TotalOrder(compare) && Mirrors(compare, ui, hub) && Delivers(hub, next, deltas)
    ensures Mirrors(compare, ApplyBatch(compare, ui, deltas), next)
  {
    hide CE.TotalOrder, CE.Keyed, CE.StoreKey, KeyOf, SortedOn, HubCell, ApplyBatch, CE.Sorted;
    AllSettled(compare, ui);
    forall i | 0 <= i < |deltas| && deltas[i].Upsert?
      ensures var key := CE.StoreKey(KeyOf(deltas[i].exchange));
        MovesBack(CE.Cell(ui, key), deltas[i].exchange, key in ALL)
    {
      var key := CE.StoreKey(KeyOf(deltas[i].exchange));
      assert CellEvent(HubCell(hub, key), HubCell(next, key), Last(deltas, KeySlot(key)));
      UpsertIsLast(deltas, i);
    }
    BatchSettled(compare, ui, deltas, ALL);
    AllSettled(compare, ApplyBatch(compare, ui, deltas));
    forall key ensures CE.Cell(ApplyBatch(compare, ui, deltas), key) == HubCell(next, key) {
      BatchCell(compare, ui, deltas, key);
      assert CellEvent(HubCell(hub, key), HubCell(next, key), Last(deltas, KeySlot(key)));
    }
  }

  /** A key with an upsert has a last delta. */
  lemma UpsertIsLast(deltas: seq<CE.UiDelta>, i: nat)
    requires i < |deltas| && deltas[i].Upsert?
    ensures Last(deltas, KeySlot(CE.StoreKey(KeyOf(deltas[i].exchange)))).Some?
  {
    hide CE.StoreKey, KeyOf;
    var at := LastIndex(deltas, SlotOf(deltas[i]));
  }

  lemma NothingMirrorsEmpty(compare: CE.Collation, hub: Hub)
    requires hub.exchanges == map[]
    ensures Mirrors(compare, CE.NO_ENTITIES, hub)
  {
    CE.NothingWellFormed(compare);
  }

  /** One published step takes a mirroring interface to a mirroring interface. */
  lemma StepMirrors(compare: CE.Collation, config: HubConfig, hub: Hub, step: Step, ui: Entities)
    requires CE.TotalOrder(compare) && UuidLaw(config.rules) && Sound(hub) && Publishes(config, hub, step)
    requires Mirrors(compare, ui, hub)
    ensures Mirrors(compare, ApplyBatch(compare, ui, StepBatch(config, hub, step)), After(config, hub, step))
  {
    hide CE.TotalOrder, Sound, Mirrors, Delivers, ApplyBatch, StepBatch, After;
    if step.SessionCleared? {
      ClearedBatch(compare, config, hub, step, ui);
      NothingMirrorsEmpty(compare, After(config, hub, step));
    } else {
      StepDelivers(config, hub, step);
      DeliveredMirrors(compare, ui, hub, After(config, hub, step), StepBatch(config, hub, step));
    }
  }

  /** While the interface mirrors the hub, its revision guard lets every upsert of the next batch through. */
  lemma GuardNeverDiscards(compare: CE.Collation, config: HubConfig, hub: Hub, step: Step, ui: Entities, at: nat)
    requires CE.TotalOrder(compare) && UuidLaw(config.rules) && Sound(hub) && Publishes(config, hub, step)
      && !step.SessionCleared?
    requires Mirrors(compare, ui, hub)
    requires at < |Coalesce(StepBatch(config, hub, step))| && Coalesce(StepBatch(config, hub, step))[at].Upsert?
    ensures var batch := Coalesce(StepBatch(config, hub, step));
      var held := CE.Cell(CE.Fold(compare, ui, batch[..at]), CE.StoreKey(KeyOf(batch[at].exchange)));
      held.Some? ==> held.value.revision < batch[at].exchange.revision
  {
    hide CE.TotalOrder, Sound, StepBatch, After, CE.StoreKey, KeyOf, Coalesce, HubCell, CE.Keyed, CE.Sorted;
    var deltas := StepBatch(config, hub, step);
    var batch := Coalesce(deltas);
    StepDelivers(config, hub, step);
    CoalesceKeepsLast(deltas, SlotOf(batch[at]));
    LastOfDistinct(batch, at);
    var key := CE.StoreKey(KeyOf(batch[at].exchange));
    assert CellEvent(HubCell(hub, key), HubCell(After(config, hub, step), key), Last(deltas, KeySlot(key)));
    FoldIsCellwise(compare, ui, batch[..at], key);
    assert forall i :: 0 <= i < at ==> SlotOf(batch[..at][i]) == SlotOf(batch[i]);
    UntouchedCell(CE.Cell(ui, key), batch[..at], key);
  }

  // ---- runs

  /** The interface after a run: every batch of the run folded in, coalescing included. */
  function RunUi(compare: CE.Collation, config: HubConfig, hub: Hub, ui: Entities, steps: seq<Step>): Entities {
    if steps == [] then ui
    else
      var front := steps[..|steps| - 1];
      ApplyBatch(compare, RunUi(compare, config, hub, ui, front),
                 StepBatch(config, Run(config, hub, front), steps[|steps| - 1]))
  }

  /** Every disconnect of the run validates all the entries it interrupts. */
  ghost predicate AllPublish(config: HubConfig, hub: Hub, steps: seq<Step>) {
    forall i :: 0 <= i < |steps| ==> Publishes(config, Run(config, hub, steps[..i]), steps[i])
  }

  lemma PrefixPublishes(config: HubConfig, hub: Hub, steps: seq<Step>)
    requires steps != [] && AllPublish(config, hub, steps)
    ensures AllPublish(config, hub, steps[..|steps| - 1])
    ensures Publishes(config, Run(config, hub, steps[..|steps| - 1]), steps[|steps| - 1])
    ensures Run(config, hub, steps) == After(config, Run(config, hub, steps[..|steps| - 1]), steps[|steps| - 1])
  {
    hide Publishes, After;
    var n := |steps| - 1;
    assert forall i :: 0 <= i < n ==> steps[..n][i] == steps[i] && steps[..n][..i] == steps[..i];
  }

  lemma {:induction false} RunMirrors(compare: CE.Collation, config: HubConfig, hub: Hub, ui: Entities,
                                      steps: seq<Step>)
    requires CE.TotalOrder(compare) && UuidLaw(config.rules) && Sound(hub) && Mirrors(compare, ui, hub)
    requires AllPublish(config, hub, steps)
    ensures Mirrors(compare, RunUi(compare, config, hub, ui, steps), Run(config, hub, steps))
  {
    hide CE.TotalOrder, Sound, Mirrors, AllPublish, Publishes, ApplyBatch, StepBatch, After, UuidLaw;
    if steps != [] {
      var front := steps[..|steps| - 1];
      PrefixPublishes(config, hub, steps);
      RunMirrors(compare, config, hub, ui, front);
      RunKeepsSound(config, hub, front);
      StepMirrors(compare, config, Run(config, hub, front), steps[|steps| - 1], RunUi(compare, config, hub, ui, front));
    } else {
      assert Run(config, hub, steps) == hub;
    }
  }

  // ---- what mirroring shows

  function HubSnapshot(hub: Hub): seq<HttpExchangeSummary>
    requires forall k :: k in hub.arrivalOrder ==> k in hub.exchanges
  {
    seq(|hub.arrivalOrder|, i requires 0 <= i < |hub.arrivalOrder| => SummaryOf(hub.exchanges[hub.arrivalOrder[i]]))
  }

  function UiSnapshot(ui: Entities): seq<HttpExchangeSummary>
    requires forall k :: k in ui.arrivalOrder ==> k in ui.summaryById
  {
    seq(|ui.arrivalOrder|, i requires 0 <= i < |ui.arrivalOrder| => ui.summaryById[ui.arrivalOrder[i]])
  }

  function StoreKeys(keys: seq<ExchangeKey>): seq<string> {
    seq(|keys|, i requires 0 <= i < |keys| => CE.StoreKey(keys[i]))
  }

  lemma OrderStored(hub: Hub)
    requires Consistent(hub)
    ensures forall k :: k in hub.arrivalOrder <==> k in hub.exchanges
    ensures NoDup(hub.arrivalOrder)
    ensures forall i, j :: 0 <= i < j < |hub.arrivalOrder| ==>
      hub.exchanges[hub.arrivalOrder[i]].arrivalSequence < hub.exchanges[hub.arrivalOrder[j]].arrivalSequence
    ensures forall k :: k in hub.exchanges ==> KeyOf(hub.exchanges[k]) == k
  {
    var ranks := ExchangeRanks(hub.exchanges);
    assert forall k :: k in ranks <==> k in hub.exchanges;
    assert forall i :: 0 <= i < |hub.arrivalOrder| ==> hub.arrivalOrder[i] in ranks;
  }

  lemma MirroredOrder(compare: CE.Collation, ui: Entities, hub: Hub)
    requires CE.TotalOrder(compare) && Sound(hub) && Mirrors(compare, ui, hub)
    ensures ui.arrivalOrder == StoreKeys(hub.arrivalOrder)
  {
    hide CE.TotalOrder, Consistent, CE.StoreKey, KeyOf, NoColonPair, SplitKey, CE.Keyed;
    OrderStored(hub);
    var keys := StoreKeys(hub.arrivalOrder);
    forall i | 0 <= i < |keys|
      ensures SplitKey(keys[i]) == Some(hub.arrivalOrder[i])
      ensures keys[i] in ui.detailById && ui.detailById[keys[i]] == hub.exchanges[hub.arrivalOrder[i]]
    {
      assert hub.arrivalOrder[i] in hub.arrivalOrder;
      SplitStoreKey(hub.arrivalOrder[i]);
      assert CE.Cell(ui, keys[i]) == HubCell(hub, keys[i]);
    }
    forall key ensures key in keys <==> key in ui.arrivalOrder {
      assert CE.Cell(ui, key) == HubCell(hub, key);
      if key in ui.arrivalOrder {
        var k := SplitKey(key).value;
        var i :| 0 <= i < |hub.arrivalOrder| && hub.arrivalOrder[i] == k;
        assert keys[i] == key;
      }
    }
    CE.SortedListsAgree(compare, ui.detailById, ui.arrivalOrder, keys);
  }

  lemma MirroredSnapshot(compare: CE.Collation, ui: Entities, hub: Hub)
    requires CE.TotalOrder(compare) && Sound(hub) && Mirrors(compare, ui, hub)
    ensures forall k :: k in hub.arrivalOrder ==> k in hub.exchanges
    ensures forall k :: k in ui.arrivalOrder ==> k in ui.summaryById
    ensures UiSnapshot(ui) == HubSnapshot(hub)
  {
    hide CE.TotalOrder, Consistent, CE.StoreKey, KeyOf, NoColonPair, SplitKey, SummaryOf;
    OrderStored(hub);
    MirroredOrder(compare, ui, hub);
    forall i | 0 <= i < |ui.arrivalOrder|
      ensures ui.arrivalOrder[i] in ui.summaryById
        && ui.summaryById[ui.arrivalOrder[i]] == SummaryOf(hub.exchanges[hub.arrivalOrder[i]]) {
      var key := ui.arrivalOrder[i];
      assert hub.arrivalOrder[i] in hub.arrivalOrder;
      SplitStoreKey(hub.arrivalOrder[i]);
      assert CE.Cell(ui, key) == HubCell(hub, key);
      assert key in ui.arrivalOrder;
    }
  }

  /**
   End to end. From a fresh session and an empty interface, after any run of ingests, clears,
   recording switches and disconnects that validate, the interface lists exactly the hub's summaries
   in the hub's arrival order.
   */
  lemma EndToEnd(compare: CE.Collation, config: HubConfig, sessionId: string, steps: seq<Step>)
    requires CE.TotalOrder(compare) && UuidLaw(config.rules)
    requires AllPublish(config, Fresh(sessionId), steps)
    ensures var hub := Run(config, Fresh(sessionId), steps);
      var ui := RunUi(compare, config, Fresh(sessionId), CE.NO_ENTITIES, steps);
      && (forall k :: k in hub.arrivalOrder ==> k in hub.exchanges)
      && (forall k :: k in ui.arrivalOrder ==> k in ui.summaryById)
      && UiSnapshot(ui) == HubSnapshot(hub)
      && ui.arrivalOrder == StoreKeys(hub.arrivalOrder)
      && (forall key :: CE.Cell(ui, key) == HubCell(hub, key))
  {
    hide CE.TotalOrder, Consistent, RunUi, Run, UuidLaw, AllPublish, StoreKeys, UiSnapshot, HubSnapshot, HubCell;
    FreshSound(sessionId);
    NothingMirrorsEmpty(compare, Fresh(sessionId));
    RunMirrors(compare, config, Fresh(sessionId), CE.NO_ENTITIES, steps);
    RunKeepsSound(config, Fresh(sessionId), steps);
    var hub := Run(config, Fresh(sessionId), steps);
    var ui := RunUi(compare, config, Fresh(sessionId), CE.NO_ENTITIES, steps);
    MirroredOrder(compare, ui, hub);
    MirroredSnapshot(compare, ui, hub);
  }

  lemma FreshSound(sessionId: string)
    ensures Sound(Fresh(sessionId))
  {
    HubInvariant.ClearedConsistent(Fresh(sessionId), sessionId);
  }

  /**
   Exactly which disconnects break the mirror. The interface still mirrors the hub if and only if every
   entry of the source in flight stays valid once interrupted, or the source has no exchange in flight.
   Otherwise the disconnect has edited an exchange and published nothing.
   */
  lemma DisconnectMirrorsIff(compare: CE.Collation, config: HubConfig, hub: Hub, step: Step, ui: Entities)
    requires CE.TotalOrder(compare) && UuidLaw(config.rules) && Sound(hub) && Mirrors(compare, ui, hub)
    requires step.SourceDisconnected?
    ensures Mirrors(compare, ApplyBatch(compare, ui, StepBatch(config, hub, step)), After(config, hub, step))
       <==> Interruptible(config.rules, hub, step.sourceInstanceId, step.disconnectedAt)
            || NoExchangeInFlight(hub, step.sourceInstanceId)
  {
    hide CE.TotalOrder, UuidLaw, Consistent, CE.WellFormed, CE.Sorted, Disconnect, ExchangeHits, HubCell, Interruptible,
         NoExchangeInFlight;
    DisconnectSucceedsIff(config, hub, step.sourceInstanceId, step.disconnectedAt);
    HitsAreInFlight(hub, step.sourceInstanceId);
    if Interruptible(config.rules, hub, step.sourceInstanceId, step.disconnectedAt) {
      StepMirrors(compare, config, hub, step, ui);
    } else {
      var next := After(config, hub, step);
      assert StepBatch(config, hub, step) == [];
      if NoExchangeInFlight(hub, step.sourceInstanceId) {
        NoHitsNoChange(config, hub, step.sourceInstanceId, step.disconnectedAt);
        SameCells(hub, next);
      } else {
        var k := FirstHitChanges(config, hub, step.sourceInstanceId, step.disconnectedAt);
        HubCellAt(hub, k);
        HubCellAt(next, k);
        assert CE.Cell(ui, CE.StoreKey(k)) == HubCell(hub, CE.StoreKey(k));
      }
    }
  }

  lemma SameCells(hub: Hub, next: Hub)
    requires next.exchanges == hub.exchanges
    ensures forall key :: HubCell(next, key) == HubCell(hub, key)
  {
  }

  lemma NoHitsNoChange(config: HubConfig, hub: Hub, sourceInstanceId: string, receivedAt: string)
    requires ExchangeHits(hub, sourceInstanceId) == []
    ensures Disconnect(config, hub, sourceInstanceId, receivedAt).hub.exchanges == hub.exchanges
  {
    hide Interrupted, InterruptCommands, TouchedCommands, CommandHits, FirstCommandError, FirstExchangeError,
         ExchangeHits,
         InterruptionUpserts, CommandInterruptionUpserts;
    assert InterruptExchanges(hub.exchanges, {}, receivedAt) == hub.exchanges;
  }

  lemma FirstHitChanges(config: HubConfig, hub: Hub, sourceInstanceId: string, receivedAt: string)
    returns (k: ExchangeKey)
    requires ExchangeHits(hub, sourceInstanceId) != []
    ensures k in hub.exchanges
    ensures CurrentExchange(Disconnect(config, hub, sourceInstanceId, receivedAt).hub, k) != CurrentExchange(hub, k)
  {
    hide InterruptedCommand, TouchedCommands, CommandHits, FirstCommandError, FirstExchangeError, ExchangeHits,
         ExchangeError;
    HubInvariant.HitsStored(hub, sourceInstanceId);
    k := ExchangeHits(hub, sourceInstanceId)[0];
    assert k in ExchangeHits(hub, sourceInstanceId);
    assert TouchedExchanges(config.rules, hub, sourceInstanceId, receivedAt)[0] == k;
    assert k in Elems(TouchedExchanges(config.rules, hub, sourceInstanceId, receivedAt));
  }
}
