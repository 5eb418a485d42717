/**
 What one hub step tells the user interface. The published batch carries summaries; the interface
 fetches the full exchange for each, and a summary whose exchange is gone by then becomes a removal.
 */
module Publication {
  import opened Wrappers
  import opened Sequences
  import opened CaptureModel
  import opened Retention
  import opened HubState
  import opened HubRuns
  import CE = CaptureEntities
  import opened Coalescing
  import HubInvariant

  // ---- the hub by store key

  /** The key a store key was made from: the text around its first pair of colons. */
  function SplitKey(key: string): (r: Option<ExchangeKey>)
    ensures r.Some? ==> CE.StoreKey(r.value) == key
  {
    if |key| < 2 then None
    else if key[0] == ':' && key[1] == ':' then
      assert key == "" + "::" + key[2..];
      Some(ExchangeKey("", key[2..]))
    else
      var rest := SplitKey(key[1..]);
      if rest.None? then None
      else
        assert key == [key[0]] + key[1..];
        assert [key[0]] + rest.value.sourceInstanceId + "::" + rest.value.exchangeId
            == [key[0]] + (rest.value.sourceInstanceId + "::" + rest.value.exchangeId);
        Some(ExchangeKey([key[0]] + rest.value.sourceInstanceId, rest.value.exchangeId))
  }

  /** Store keys are injective on sources without a colon pair. */
  lemma {:induction false} SplitStoreKey(key: ExchangeKey)
    requires NoColonPair(key.sourceInstanceId)
    ensures SplitKey(CE.StoreKey(key)) == Some(key)
    decreases |key.sourceInstanceId|
  {
    var source, whole := key.sourceInstanceId, CE.StoreKey(key);
    if source == "" {
      assert whole == "::" + key.exchangeId;
      assert whole[2..] == key.exchangeId;
    } else {
      var rest := ExchangeKey(source[1..], key.exchangeId);
      assert whole[1..] == CE.StoreKey(rest);
      assert whole[0] == source[0];
      assert whole[1] == if |source| > 1 then source[1] else ':';
      SplitStoreKey(rest);
      assert [whole[0]] + source[1..] == source;
    }
  }

  /** Every stored source is the text of a UUID, so its store keys split back. */
  ghost predicate PlainKeys(hub: Hub) {
    forall k :: k in hub.exchanges ==> NoColonPair(k.sourceInstanceId)
  }

  function HubCell(hub: Hub, key: string): Option<HttpExchange> {
    var split := SplitKey(key);
    if split.Some? && split.value in hub.exchanges then Some(hub.exchanges[split.value]) else None
  }

  lemma HubCellAt(hub: Hub, key: ExchangeKey)
    requires NoColonPair(key.sourceInstanceId)
    ensures HubCell(hub, CE.StoreKey(key)) == CurrentExchange(hub, key)
  {
    SplitStoreKey(key);
  }

  lemma StepKeepsPlainKeys(config: HubConfig, hub: Hub, step: Step)
    requires UuidLaw(config.rules) && Consistent(hub) && PlainKeys(hub)
    ensures PlainKeys(After(config, hub, step))
  {
    hide Consistent, After;
    forall k | k in After(config, hub, step).exchanges ensures NoColonPair(k.sourceInstanceId) {
      StepKeyOrigin(config, hub, step, k);
    }
  }

  lemma StepKeyOrigin(config: HubConfig, hub: Hub, step: Step, k: ExchangeKey)
    requires UuidLaw(config.rules) && Consistent(hub) && k in After(config, hub, step).exchanges
    ensures k in hub.exchanges || NoColonPair(k.sourceInstanceId)
  {
    hide Consistent, Ingest, Disconnect;
    if step.IngestMessage? {
      IngestCell(config, hub, step, k);
      HubInvariant.AppliedExchange(config, hub, step.source, step.receivedAt, step.message.payload);
    } else if step.SourceDisconnected? {
      DisconnectKeys(config, hub, step.sourceInstanceId, step.disconnectedAt);
    }
  }

  lemma DisconnectKeys(config: HubConfig, hub: Hub, sourceInstanceId: string, receivedAt: string)
    ensures Disconnect(config, hub, sourceInstanceId, receivedAt).hub.exchanges.Keys == hub.exchanges.Keys
    ensures Disconnect(config, hub, sourceInstanceId, receivedAt).hub.nextArrivalSequence == hub.nextArrivalSequence
  {
    hide TouchedExchanges, TouchedCommands, FirstExchangeError, FirstCommandError, InterruptCommands, Interrupted;
  }

  // ---- translation

  /** The interface's view of one published delta, when it fetches from `hub`. */
  function Translate(hub: Hub, delta: HubDelta): CE.UiDelta {
    match delta
    case Upsert(summary) =>
      if summary.key in hub.exchanges then CE.Upsert(hub.exchanges[summary.key])
      else CE.Remove(summary.key, "The exchange was evicted before its detail could be read.")
    case Remove(key, reason) => CE.Remove(key, reason)
    case Reset(sessionId, summaries) => CE.Reset(sessionId, Fetched(hub, summaries))
  }

  function Fetched(hub: Hub, summaries: seq<HttpExchangeSummary>): seq<HttpExchange> {
    if summaries == [] then []
    else
      (if summaries[0].key in hub.exchanges then [hub.exchanges[summaries[0].key]] else [])
        + Fetched(hub, summaries[1..])
  }

  function TranslateAll(hub: Hub, deltas: seq<HubDelta>): seq<CE.UiDelta> {
    seq(|deltas|, i requires 0 <= i < |deltas| => Translate(hub, deltas[i]))
  }

  // ---- what a batch says about one key

  /**
   The last delta of a key tells what the step did to it: nothing said, nothing changed; an upsert is
   the entry as it now is, newer than before and in the same place; a removal means it is gone.
   */
  ghost predicate CellEvent(before: Option<HttpExchange>, after: Option<HttpExchange>, last: Option<CE.UiDelta>) {
    match last
    case None => after == before
    case Some(Upsert(e)) => after == Some(e) &&
      (before.Some? ==> before.value.revision < e.revision && before.value.arrivalSequence == e.arrivalSequence)
    case Some(Remove(_, _)) => after.None?
    case Some(_) => false
  }

  /** A batch of upserts and removals that accounts for the whole change from `before` to `after`. */
  ghost predicate Delivers(before: Hub, after: Hub, deltas: seq<CE.UiDelta>) {
    && ResetFree(deltas)
    && before.nextArrivalSequence <= after.nextArrivalSequence
    && (forall i :: 0 <= i < |deltas| && deltas[i].Upsert? ==>
          HubCell(after, CE.StoreKey(KeyOf(deltas[i].exchange))) == Some(deltas[i].exchange))
    && (forall key :: CellEvent(HubCell(before, key), HubCell(after, key), Last(deltas, KeySlot(key))))
    && (forall key :: HubCell(before, key).None? && HubCell(after, key).Some? ==>
          HubCell(after, key).value.arrivalSequence >= before.nextArrivalSequence)
  }

  /** The last delta of a slot, wherever it is. */
  lemma {:induction false} LastIndex(deltas: seq<CE.UiDelta>, slot: Slot) returns (at: nat)
    ensures at <= |deltas|
    ensures at < |deltas| ==> SlotOf(deltas[at]) == slot
    ensures forall j :: at < j < |deltas| ==> SlotOf(deltas[j]) != slot
    ensures at == |deltas| ==> forall j :: 0 <= j < |deltas| ==> SlotOf(deltas[j]) != slot
    ensures Last(deltas, slot) == if at < |deltas| then Some(deltas[at]) else None
  {
    hide SlotOf;
    var n := |deltas|;
    if n == 0 || SlotOf(deltas[n - 1]) == slot {
      at := if n == 0 then 0 else n - 1;
    } else {
      at := LastIndex(deltas[..n - 1], slot);
      if at == n - 1 {
        at := n;
      }
    }
  }

  // ---- ingestion delivers

  /** What the store of a merged exchange may rely on. */
  ghost predicate Storable(hub: Hub, e: HttpExchange) {
    && NoColonPair(KeyOf(e).sourceInstanceId)
    && (if KeyOf(e) in hub.exchanges
        then e.arrivalSequence == hub.exchanges[KeyOf(e)].arrivalSequence
        && hub.exchanges[KeyOf(e)].revision < e.revision
        else e.arrivalSequence == hub.nextArrivalSequence)
  }

  function StoreDeltas(limit: nat, stored: Hub, e: HttpExchange): seq<HubDelta> {
    [Upsert(SummaryOf(e))] + Removals(ExchangeVictims(limit, stored))
  }

  /** After storing and evicting, a cell is the stored exchange, gone with the victims, or as before. */
  lemma StoredCell(limit: nat, hub: Hub, e: HttpExchange, key: ExchangeKey)
    ensures var stored := StoreExchange(hub, e);
      var next := EvictExchanges(limit, stored);
      CurrentExchange(next, key) ==
        if key in ExchangeVictims(limit, stored) then None
        else if key == KeyOf(e) then Some(e)
        else CurrentExchange(hub, key)
    ensures hub.nextArrivalSequence <= EvictExchanges(limit, StoreExchange(hub, e)).nextArrivalSequence
  {
    hide KeyOf, ExchangeVictims;
  }

  lemma VictimsArePlain(limit: nat, hub: Hub, e: HttpExchange)
    requires PlainKeys(hub) && NoColonPair(KeyOf(e).sourceInstanceId)
    ensures forall v :: v in ExchangeVictims(limit, StoreExchange(hub, e)) ==> NoColonPair(v.sourceInstanceId)
  {
    hide KeyOf;
    var stored := StoreExchange(hub, e);
    var terminal := TerminalExchanges(stored.exchanges);
    forall v | v in ExchangeVictims(limit, stored) ensures NoColonPair(v.sourceInstanceId) {
      assert v in Only(stored.arrivalOrder, terminal);
      OnlyMembers(stored.arrivalOrder, terminal, v);
    }
  }

  lemma StoreDeltaSlots(limit: nat, stored: Hub, next: Hub, e: HttpExchange)
    ensures var victims := ExchangeVictims(limit, stored);
      var deltas := TranslateAll(next, StoreDeltas(limit, stored, e));
      && |deltas| == |victims| + 1
      && deltas[0] == (if KeyOf(e) in next.exchanges then CE.Upsert(next.exchanges[KeyOf(e)])
                       else CE.Remove(KeyOf(e), "The exchange was evicted before its detail could be read."))
      && (forall i :: 0 < i < |deltas| ==> deltas[i] == CE.Remove(victims[i - 1], "retention limit"))
  {
    hide ExchangeVictims;
    CE.SameRevision(e);
  }

  lemma StoreCellEvent(limit: nat, hub: Hub, e: HttpExchange, key: string)
    requires PlainKeys(hub) && Storable(hub, e)
    ensures var stored := StoreExchange(hub, e);
      var next := EvictExchanges(limit, stored);
      && CellEvent(HubCell(hub, key), HubCell(next, key),
                   Last(TranslateAll(next, StoreDeltas(limit, stored, e)), KeySlot(key)))
      && (HubCell(hub, key).None? && HubCell(next, key).Some? ==>
          HubCell(next, key).value.arrivalSequence >= hub.nextArrivalSequence)
  {
    hide KeyOf, StoreExchange, EvictExchanges, ExchangeVictims, CE.StoreKey, TranslateAll, StoreDeltas, SplitKey, Last,
         NoColonPair;
    var stored := StoreExchange(hub, e);
    var next := EvictExchanges(limit, stored);
    var victims := ExchangeVictims(limit, stored);
    var deltas := TranslateAll(next, StoreDeltas(limit, stored, e));
    StoreDeltaSlots(limit, stored, next, e);
    VictimsArePlain(limit, hub, e);
    StoredCell(limit, hub, e, KeyOf(e));
    SplitStoreKey(KeyOf(e));
    var split := SplitKey(key);
    if split.Some? {
      StoredCell(limit, hub, e, split.value);
    }
    assert forall j :: 0 <= j < |victims| ==> deltas[j + 1] == CE.Remove(victims[j], "retention limit")
                                              && SlotOf(deltas[j + 1]) == KeySlot(CE.StoreKey(victims[j]));
    var at := LastIndex(deltas, KeySlot(key));
    if at == |deltas| {
      assert SlotOf(deltas[0]) != KeySlot(key);
    } else if at > 0 {
      SplitStoreKey(victims[at - 1]);
      assert victims[at - 1] in victims;
    }
  }

  lemma StoreDelivers(limit: nat, hub: Hub, e: HttpExchange)
    requires PlainKeys(hub) && Storable(hub, e)
    ensures var stored := StoreExchange(hub, e);
      var next := EvictExchanges(limit, stored);
      Delivers(hub, next, TranslateAll(next, StoreDeltas(limit, stored, e)))
  {
    hide KeyOf, StoreExchange, EvictExchanges, ExchangeVictims, CE.StoreKey, TranslateAll, StoreDeltas, HubCell,
         CellEvent, Last, NoColonPair;
    var stored := StoreExchange(hub, e);
    var next := EvictExchanges(limit, stored);
    var deltas := TranslateAll(next, StoreDeltas(limit, stored, e));
    StoreDeltaSlots(limit, stored, next, e);
    StoredCell(limit, hub, e, KeyOf(e));
    HubCellAt(next, KeyOf(e));
    forall key
      ensures CellEvent(HubCell(hub, key), HubCell(next, key), Last(deltas, KeySlot(key)))
      ensures HubCell(hub, key).None? && HubCell(next, key).Some? ==>
        HubCell(next, key).value.arrivalSequence >= hub.nextArrivalSequence
    {
      StoreCellEvent(limit, hub, e, key);
    }
  }

  lemma NothingDelivers(hub: Hub, next: Hub)
    requires next.exchanges == hub.exchanges && hub.nextArrivalSequence <= next.nextArrivalSequence
    ensures Delivers(hub, next, TranslateAll(next, []))
  {
    hide SplitKey;
    forall key ensures CellEvent(HubCell(hub, key), HubCell(next, key), Last([], KeySlot(key))) {
      assert HubCell(hub, key) == HubCell(next, key);
    }
  }

  lemma IngestDelivers(config: HubConfig, hub: Hub, step: Step)
    requires UuidLaw(config.rules) && Consistent(hub) && PlainKeys(hub) && step.IngestMessage?
    ensures Delivers(hub, After(config, hub, step),
                     TranslateAll(After(config, hub, step), Published(config, hub, step)))
  {
    hide Consistent, Delivers, PlainKeys, MergedExchange, StoreExchange, EvictExchanges, IngestCommand, TranslateAll,
         SummaryOf, Removals,
         ExchangeVictims, KeyOf, ExchangeError, SourceError;
    var payload := step.message.payload;
    HubInvariant.AppliedExchange(config, hub, step.source, step.receivedAt, payload);
    var merged := MergedExchange(config, hub, step.source, step.receivedAt, payload);
    if payload.Database? {
      CommandSideOnly(config, hub, step.source, step.receivedAt, payload);
      CommandPublishesNothing(config, hub, step.source, step.receivedAt, payload);
      NothingDelivers(hub, After(config, hub, step));
    } else if SourceError(step.source, step.message).None? && (step.requireRecording ==> hub.recording)
              && merged.Success? && merged.value.Applied? {
      PlainSource(config.rules, merged.value.exchange);
      StoreDelivers(config.maxSummaries, hub, merged.value.exchange);
    } else {
      NothingDelivers(hub, hub);
    }
  }

  lemma CommandPublishesNothing(config: HubConfig, hub: Hub, source: Source, receivedAt: string, payload: Payload)
    requires payload.Database?
    ensures var result := IngestCommand(config, hub, source, receivedAt, payload).result;
      result.Success? ==> result.value.deltas == []
  {
    hide MergedCommand, CommandVictims, CommandSummaryOf, CommandRemovals, EvictCommands, StoreCommand;
  }

  lemma PlainSource(rules: Rules, e: HttpExchange)
    requires UuidLaw(rules) && ExchangeError(rules, e).None?
    ensures NoColonPair(KeyOf(e).sourceInstanceId)
  {
  }

  // ---- a disconnect delivers

  lemma {:induction false} InterruptionUpsertAt(exchanges: map<ExchangeKey, HttpExchange>, hits: seq<ExchangeKey>,
                                                receivedAt: string)
    requires forall k :: k in hits ==> k in exchanges
    ensures var upserts := InterruptionUpserts(exchanges, hits, receivedAt);
      |upserts| == |hits| && forall i :: 0 <= i < |hits| ==>
        upserts[i] == Upsert(SummaryOf(Interrupted(exchanges[hits[i]], receivedAt)))
  {
    hide SummaryOf, Interrupted;
    if hits != [] {
      InterruptionUpsertAt(exchanges, hits[..|hits| - 1], receivedAt);
    }
  }

  lemma InterruptedKey(e: HttpExchange, receivedAt: string)
    ensures var i := Interrupted(e, receivedAt);
      KeyOf(i) == KeyOf(e) && i.arrivalSequence == e.arrivalSequence && i.revision == e.revision + 1
        && SummaryOf(i).key == KeyOf(e)
  {
  }

  lemma DisconnectDeltas(config: HubConfig, hub: Hub, sourceInstanceId: string, receivedAt: string)
    requires Consistent(hub) && Disconnect(config, hub, sourceInstanceId, receivedAt).result.Success?
    ensures var hits := ExchangeHits(hub, sourceInstanceId);
      var next := Disconnect(config, hub, sourceInstanceId, receivedAt).hub;
      var deltas := TranslateAll(next, Disconnect(config, hub, sourceInstanceId, receivedAt).result.value.deltas);
      && |deltas| == |hits|
      && (forall i :: 0 <= i < |hits| ==>
            hits[i] in hub.exchanges && deltas[i] == CE.Upsert(Interrupted(hub.exchanges[hits[i]], receivedAt)))
      && (forall k :: CurrentExchange(next, k) ==
            if k in hub.exchanges && k in hits then Some(Interrupted(hub.exchanges[k], receivedAt))
            else CurrentExchange(hub, k))
  {
    hide Interrupted, InterruptedCommand, ExchangeHits, CommandHits, InterruptionUpserts, CommandInterruptionUpserts,
         SummaryOf, Consistent,
         ExchangeError, CommandError, KeyOf, InterruptCommands;
    var hits := ExchangeHits(hub, sourceInstanceId);
    HubInvariant.HitsStored(hub, sourceInstanceId);
    InterruptionUpsertAt(hub.exchanges, hits, receivedAt);
    forall i | 0 <= i < |hits|
      ensures hits[i] in hub.exchanges && SummaryOf(Interrupted(hub.exchanges[hits[i]], receivedAt)).key == hits[i]
    {
      assert hits[i] in hits;
      StoredUnderKey(hub, hits[i]);
      InterruptedKey(hub.exchanges[hits[i]], receivedAt);
    }
  }

  lemma StoredUnderKey(hub: Hub, k: ExchangeKey)
    requires Consistent(hub) && k in hub.exchanges
    ensures KeyOf(hub.exchanges[k]) == k
  {
  }

  lemma DisconnectDelivers(config: HubConfig, hub: Hub, step: Step)
    requires Consistent(hub) && PlainKeys(hub) && step.SourceDisconnected?
    requires StepOutcome(config, hub, step).result.Success?
    ensures Delivers(hub, After(config, hub, step),
                     TranslateAll(After(config, hub, step), Published(config, hub, step)))
  {
    hide Consistent, KeyOf, Interrupted, ExchangeHits, Disconnect, TranslateAll, CE.StoreKey, SplitKey, Last,
         NoColonPair;
    var hits := ExchangeHits(hub, step.sourceInstanceId);
    var next := After(config, hub, step);
    var deltas := TranslateAll(next, Published(config, hub, step));
    DisconnectDeltas(config, hub, step.sourceInstanceId, step.disconnectedAt);
    DisconnectKeys(config, hub, step.sourceInstanceId, step.disconnectedAt);
    forall i | 0 <= i < |deltas|
      ensures SplitKey(CE.StoreKey(hits[i])) == Some(hits[i])
      ensures SlotOf(deltas[i]) == KeySlot(CE.StoreKey(hits[i]))
    {
      SplitStoreKey(hits[i]);
      StoredUnderKey(hub, hits[i]);
      InterruptedKey(hub.exchanges[hits[i]], step.disconnectedAt);
    }
    forall key
      ensures CellEvent(HubCell(hub, key), HubCell(next, key), Last(deltas, KeySlot(key)))
      ensures HubCell(hub, key).None? ==> HubCell(next, key).None?
    {
      DisconnectCellEvent(hub, next, hits, deltas, step.disconnectedAt, key);
    }
  }

  lemma DisconnectCellEvent(hub: Hub, next: Hub, hits: seq<ExchangeKey>, deltas: seq<CE.UiDelta>, receivedAt: string,
                            key: string)
    requires |deltas| == |hits|
    requires forall i :: 0 <= i < |hits| ==>
      && hits[i] in hub.exchanges
      && deltas[i] == CE.Upsert(Interrupted(hub.exchanges[hits[i]], receivedAt))
      && SlotOf(deltas[i]) == KeySlot(CE.StoreKey(hits[i]))
      && SplitKey(CE.StoreKey(hits[i])) == Some(hits[i])
    requires forall k :: CurrentExchange(next, k) ==
                         (if k in hub.exchanges && k in hits then Some(Interrupted(hub.exchanges[k], receivedAt))
                          else CurrentExchange(hub, k))
    ensures CellEvent(HubCell(hub, key), HubCell(next, key), Last(deltas, KeySlot(key)))
    ensures HubCell(hub, key).None? ==> HubCell(next, key).None?
  {
    hide KeyOf, Interrupted, CE.StoreKey, SplitKey, Last, SlotOf;
    var at := LastIndex(deltas, KeySlot(key));
    var split := SplitKey(key);
    if split.Some? {
      assert CurrentExchange(next, split.value) ==
        if split.value in hub.exchanges && split.value in hits
          then Some(Interrupted(hub.exchanges[split.value], receivedAt))
        else CurrentExchange(hub, split.value);
    }
    if at < |deltas| {
      assert hits[at] in hits;
      InterruptedKey(hub.exchanges[hits[at]], receivedAt);
    }
  }
}
