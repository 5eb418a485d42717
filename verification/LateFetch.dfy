/** Fetches that lag behind the hub: the full exchange of each published summary may be read at any later hub state. */
module LateFetch {
  import opened Wrappers
  import opened CaptureModel
  import opened HubState
  import opened HubRuns
  import CE = CaptureEntities
  import opened Coalescing
  import opened Publication
  import opened Replication
  import opened LagReset
  import HubInvariant

  /** When the detail behind a delta of a step is read, as a number of steps done by then. */
  type Schedule = (nat, nat) -> nat

  /** No read happens before its batch is published or after `end`. */
  ghost predicate Causal(fetchedAt: Schedule, end: nat) {
    forall j: nat, i: nat :: j < end ==> j < fetchedAt(j, i) <= end
  }

  /** The batch of step `j`, each detail read at its own time. */
  function LateBatch(config: HubConfig, hub: Hub, steps: seq<Step>, fetchedAt: Schedule, j: nat): seq<CE.UiDelta>
    requires j < |steps|
  {
    var published := Published(config, HubAt(config, hub, steps, j), steps[j]);
    seq(|published|, i requires 0 <= i < |published| =>
      Translate(ReadHub(config, hub, steps, fetchedAt(j, i)), published[i]))
  }

  function ReadHub(config: HubConfig, hub: Hub, steps: seq<Step>, t: nat): Hub {
    if t <= |steps| then HubAt(config, hub, steps, t) else hub
  }

  // ---- what is published stays or is taken back in the same batch

  /** The slot a published delta takes once translated, whenever its detail is read. */
  function PublishedSlot(delta: HubDelta): Slot {
    match delta
    case Upsert(summary) => KeySlot(CE.StoreKey(summary.key))
    case Remove(key, _) => KeySlot(CE.StoreKey(key))
    case Reset(_, _) => ResetSlot
  }

  lemma TranslatedSlot(hub: Hub, delta: HubDelta)
    requires Sound(hub)
    ensures SlotOf(Translate(hub, delta)) == PublishedSlot(delta)
  {
    hide CE.StoreKey, KeyOf, NoColonPair;
    if delta.Upsert? && delta.summary.key in hub.exchanges {
      StoredUnderKey(hub, delta.summary.key);
    }
  }

  /** A published upsert with nothing after it for its key names an exchange the hub then holds. */
  ghost predicate UpsertsStand(next: Hub, published: seq<HubDelta>) {
    forall i :: 0 <= i < |published| && published[i].Upsert?
      && (forall j :: i < j < |published| ==> PublishedSlot(published[j]) != PublishedSlot(published[i]))
      ==> published[i].summary.key in next.exchanges
  }

  lemma StoreUpsertsStand(limit: nat, hub: Hub, e: HttpExchange)
    ensures UpsertsStand(EvictExchanges(limit, StoreExchange(hub, e)), StoreDeltas(limit, StoreExchange(hub, e), e))
  {
    hide ExchangeVictims, StoreExchange, EvictExchanges, KeyOf, CE.StoreKey, SummaryOf;
    var stored := StoreExchange(hub, e);
    var next, victims := EvictExchanges(limit, stored), ExchangeVictims(limit, stored);
    var published := StoreDeltas(limit, stored, e);
    CE.SameRevision(e);
    StoredCell(limit, hub, e, KeyOf(e));
    if KeyOf(e) in victims {
      var v :| 0 <= v < |victims| && victims[v] == KeyOf(e);
      assert published[v + 1] == HubDelta.Remove(victims[v], "retention limit");
      assert PublishedSlot(published[v + 1]) == PublishedSlot(published[0]);
    }
  }

  lemma IngestUpsertsStand(config: HubConfig, hub: Hub, step: Step)
    requires UuidLaw(config.rules) && Sound(hub) && step.IngestMessage?
    ensures UpsertsStand(After(config, hub, step), Published(config, hub, step))
  {
    hide Consistent, UpsertsStand, PlainKeys, MergedExchange, StoreExchange, EvictExchanges, IngestCommand, SummaryOf,
         Removals,
         ExchangeVictims, KeyOf, ExchangeError, SourceError;
    var payload := step.message.payload;
    HubInvariant.AppliedExchange(config, hub, step.source, step.receivedAt, payload);
    var merged := MergedExchange(config, hub, step.source, step.receivedAt, payload);
    assert UpsertsStand(After(config, hub, step), []) by { NothingStands(After(config, hub, step)); }
    if payload.Database? {
      CommandPublishesNothing(config, hub, step.source, step.receivedAt, payload);
    } else if SourceError(step.source, step.message).None? && (step.requireRecording ==> hub.recording)
              && merged.Success? && merged.value.Applied? {
      StoreUpsertsStand(config.maxSummaries, hub, merged.value.exchange);
    }
  }

  lemma NothingStands(next: Hub)
    ensures UpsertsStand(next, [])
  {
  }

  lemma DisconnectUpsertsStand(config: HubConfig, hub: Hub, step: Step)
    requires Sound(hub) && step.SourceDisconnected? && StepOutcome(config, hub, step).result.Success?
    ensures UpsertsStand(After(config, hub, step), Published(config, hub, step))
  {
    hide Consistent, PlainKeys, Disconnect, Interrupted, KeyOf, CE.StoreKey;
    DisconnectDeltas(config, hub, step.sourceInstanceId, step.disconnectedAt);
    var next, published := After(config, hub, step), Published(config, hub, step);
    forall i | 0 <= i < |published| && published[i].Upsert? ensures published[i].summary.key in next.exchanges {
      assert TranslateAll(next, published)[i] == Translate(next, published[i]);
    }
  }

  lemma StepUpsertsStand(config: HubConfig, hub: Hub, step: Step)
    requires UuidLaw(config.rules) && Sound(hub) && Publishes(config, hub, step)
    ensures UpsertsStand(After(config, hub, step), Published(config, hub, step))
  {
    hide Sound, Ingest, Disconnect, PublishedSlot;
    match step
    case IngestMessage(_, _, _, _) => IngestUpsertsStand(config, hub, step);
    case SourceDisconnected(_, _) =>
      PublishedDisconnect(config, hub, step);
      DisconnectUpsertsStand(config, hub, step);
    case _ =>
  }

  // ---- the last delta of a slot, late and in time

  /** The last delta of a late batch in a slot sits where the last of the timely batch does. */
  lemma LateLast(config: HubConfig, hub: Hub, steps: seq<Step>, fetchedAt: Schedule, j: nat, key: string)
    returns (at: nat)
    requires UuidLaw(config.rules) && Sound(hub) && j < |steps| && Causal(fetchedAt, |steps|)
    ensures var now, next := HubAt(config, hub, steps, j), HubAt(config, hub, steps, j + 1);
      var published := Published(config, now, steps[j]);
      && at <= |published|
      && (at == |published| ==>
            && Last(StepBatch(config, now, steps[j]), KeySlot(key)).None?
            && Last(LateBatch(config, hub, steps, fetchedAt, j), KeySlot(key)).None?
            && (forall i :: 0 <= i < |published| ==> PublishedSlot(published[i]) != KeySlot(key)))
      && (at < |published| ==>
            && j < fetchedAt(j, at) <= |steps|
            && PublishedSlot(published[at]) == KeySlot(key)
            && (forall i :: at < i < |published| ==> PublishedSlot(published[i]) != KeySlot(key))
            && Last(StepBatch(config, now, steps[j]), KeySlot(key)) == Some(Translate(next, published[at]))
            && Last(LateBatch(config, hub, steps, fetchedAt, j), KeySlot(key))
               == Some(Translate(HubAt(config, hub, steps, fetchedAt(j, at)), published[at])))
  {
    hide Sound, UuidLaw, Translate, HubAt, Published, After, SlotOf, PublishedSlot, Last;
    var now, next := HubAt(config, hub, steps, j), HubAt(config, hub, steps, j + 1);
    var published := Published(config, now, steps[j]);
    var timely, late := StepBatch(config, now, steps[j]), LateBatch(config, hub, steps, fetchedAt, j);
    NextHub(config, hub, steps, j);
    SoundAt(config, hub, steps, j + 1);
    forall i | 0 <= i < |published|
      ensures j < fetchedAt(j, i) <= |steps|
      ensures timely[i] == Translate(next, published[i]) && SlotOf(timely[i]) == PublishedSlot(published[i])
      ensures late[i] == Translate(HubAt(config, hub, steps, fetchedAt(j, i)), published[i])
        && SlotOf(late[i]) == PublishedSlot(published[i])
    {
      SoundAt(config, hub, steps, fetchedAt(j, i));
      TranslatedSlot(next, published[i]);
      TranslatedSlot(HubAt(config, hub, steps, fetchedAt(j, i)), published[i]);
    }
    assert |timely| == |late| == |published|;
    at := LastIndex(timely, KeySlot(key));
    var lateAt := LastIndex(late, KeySlot(key));
    SameLast(timely, late, published, KeySlot(key), at, lateAt);
  }

  lemma SameLast(timely: seq<CE.UiDelta>, late: seq<CE.UiDelta>, published: seq<HubDelta>, slot: Slot, at: nat,
                 lateAt: nat)
    requires |timely| == |late| == |published|
    requires forall i :: 0 <= i < |published| ==> SlotOf(timely[i]) == PublishedSlot(published[i]) == SlotOf(late[i])
    requires at <= |published| && (at < |published| ==> SlotOf(timely[at]) == slot)
    requires forall i :: at < i < |published| ==> SlotOf(timely[i]) != slot
    requires at == |published| ==> forall i :: 0 <= i < |published| ==> SlotOf(timely[i]) != slot
    requires lateAt <= |published| && (lateAt < |published| ==> SlotOf(late[lateAt]) == slot)
    requires forall i :: lateAt < i < |published| ==> SlotOf(late[i]) != slot
    requires lateAt == |published| ==> forall i :: 0 <= i < |published| ==> SlotOf(late[i]) != slot
    ensures at == lateAt
    ensures forall i :: at < i < |published| ==> PublishedSlot(published[i]) != slot
    ensures at == |published| ==> forall i :: 0 <= i < |published| ==> PublishedSlot(published[i]) != slot
  {
    hide SlotOf, PublishedSlot;
  }

  lemma ClearedCells(config: HubConfig, hub: Hub, steps: seq<Step>, j: nat, key: string)
    requires j < |steps| && steps[j].SessionCleared?
    ensures HubCell(HubAt(config, hub, steps, j + 1), key).None?
  {
    hide HubAt;
    NextHub(config, hub, steps, j);
  }

  lemma DeliveredEvent(now: Hub, next: Hub, deltas: seq<CE.UiDelta>, key: string)
    requires Delivers(now, next, deltas)
    ensures CellEvent(HubCell(now, key), HubCell(next, key), Last(deltas, KeySlot(key)))
  {
    hide HubCell, CellEvent, Last;
  }

  /** What the last published delta of a key becomes when it is read at step `t`. */
  lemma LateTranslation(config: HubConfig, hub: Hub, steps: seq<Step>, j: nat, published: seq<HubDelta>, at: nat,
                        t: nat, key: string)
    requires UuidLaw(config.rules) && Sound(hub) && AllPublish(config, hub, steps)
    requires j < |steps| && j < t <= |steps| && published == Published(config, HubAt(config, hub, steps, j), steps[j])
      && at < |published|
    requires PublishedSlot(published[at]) == KeySlot(key)
    requires forall i :: at < i < |published| ==> PublishedSlot(published[i]) != KeySlot(key)
    ensures var timely, late := Translate(HubAt(config, hub, steps, j + 1), published[at]),
      Translate(HubAt(config, hub, steps, t), published[at]);
      && !published[at].Reset?
      && (published[at].Remove? ==> timely.Remove? && late.Remove?)
      && (published[at].Upsert? ==> (
            && timely.Upsert?
            && match HubCell(HubAt(config, hub, steps, t), key)
               case Some(exchange) => late == CE.Upsert(exchange)
               case None => late.Remove?))
  {
    hide UuidLaw, Consistent, AllPublish, HubAt, Published, CE.StoreKey, NoColonPair, SplitKey, Publishes;
    if published[at].Upsert? {
      var next, k := HubAt(config, hub, steps, j + 1), published[at].summary.key;
      NextHub(config, hub, steps, j);
      SoundAt(config, hub, steps, j);
      SoundAt(config, hub, steps, j + 1);
      PublishesAt(config, hub, steps, j);
      StepUpsertsStand(config, HubAt(config, hub, steps, j), steps[j]);
      assert k in next.exchanges;
      HubCellAt(HubAt(config, hub, steps, t), k);
    }
  }

  lemma LateBatchResetFree(config: HubConfig, hub: Hub, steps: seq<Step>, fetchedAt: Schedule, j: nat)
    requires UuidLaw(config.rules) && Sound(hub) && AllPublish(config, hub, steps) && Causal(fetchedAt, |steps|)
    requires j < |steps| && !steps[j].SessionCleared?
    ensures ResetFree(LateBatch(config, hub, steps, fetchedAt, j))
  {
    hide UuidLaw, Sound, AllPublish, HubAt, After, Published, SplitKey, CellEvent;
    NextHub(config, hub, steps, j);
    DeliversAt(config, hub, steps, j);
    var timely := StepBatch(config, HubAt(config, hub, steps, j), steps[j]);
    var late := LateBatch(config, hub, steps, fetchedAt, j);
    assert |late| == |timely|;
    forall i | 0 <= i < |late| ensures !late[i].Reset? {
      assert !timely[i].Reset?;
    }
  }

  lemma LateClear(compare: CE.Collation, config: HubConfig, hub: Hub, steps: seq<Step>, fetchedAt: Schedule, j: nat,
                  ui: Entities)
    requires j < |steps| && steps[j].SessionCleared?
    ensures ApplyBatch(compare, ui, LateBatch(config, hub, steps, fetchedAt, j)) == CE.NO_ENTITIES
  {
    hide HubAt, HubCell, ApplyBatch;
    ClearedBatch(compare, config, HubAt(config, hub, steps, j), steps[j], ui);
    var late := LateBatch(config, hub, steps, fetchedAt, j);
    assert Published(config, HubAt(config, hub, steps, j), steps[j]) == [HubDelta.Reset(steps[j].sessionId, [])];
    assert late[0] == Translate(ReadHub(config, hub, steps, fetchedAt(j, 0)), HubDelta.Reset(steps[j].sessionId, []));
    assert late[0] == CE.Reset(steps[j].sessionId, []);
    assert late == StepBatch(config, HubAt(config, hub, steps, j), steps[j]);
  }
}
