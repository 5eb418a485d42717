/** Runs, from their start, in which late reads or overtaking batches leave the interface apart from the hub. */
module LateShortfalls {
  import opened Wrappers
  import opened Sequences
  import opened CaptureModel
  import opened MapSums
  import opened Retention
  import opened HubState
  import opened HubRuns
  import opened Samples
  import LifecycleMerger
  import CE = CaptureEntities
  import opened Coalescing
  import opened Publication
  import opened Replication
  import opened LagReset
  import opened LateFetch
  import opened Overtaking

  // ---- a small interface, entry by entry

  /** The interface holds exactly these exchanges, in this order. */
  ghost predicate Lists(ui: Entities, es: seq<HttpExchange>) {
    && CE.WellFormed(ui)
    && |ui.arrivalOrder| == |es|
    && (forall i :: 0 <= i < |es| ==>
        ui.arrivalOrder[i] == CE.StoreKey(KeyOf(es[i])) && CE.Cell(ui, ui.arrivalOrder[i]) == Some(es[i]))
  }

  lemma ListsInserted(compare: CE.Collation, ui: Entities, es: seq<HttpExchange>, e: HttpExchange, at: nat)
    requires CE.TotalOrder(compare) && Lists(ui, es) && at <= |es| && CE.StoreKey(KeyOf(e)) !in ui.arrivalOrder
    requires forall i :: 0 <= i < at ==> es[i].arrivalSequence < e.arrivalSequence
    requires at < |es| ==> e.arrivalSequence < es[at].arrivalSequence
    ensures Lists(CE.UpsertExchange(compare, ui, e), es[..at] + [e] + es[at..])
  {
    hide CE.StoreKey, KeyOf, SummaryOf, CE.TotalOrder, CE.InsertionIndex;
    var key, next := CE.StoreKey(KeyOf(e)), CE.UpsertExchange(compare, ui, e);
    CE.UpsertWellFormed(compare, ui, e);
    InsertedAt(compare, ui, es, e, at);
    assert key !in ui.detailById;
    assert next.arrivalOrder == ui.arrivalOrder[..at] + [key] + ui.arrivalOrder[at..];
    ListsShifted(ui, next, es, e, at);
  }

  lemma ListsShifted(ui: Entities, next: Entities, es: seq<HttpExchange>, e: HttpExchange, at: nat)
    requires Lists(ui, es) && CE.WellFormed(next) && at <= |es|
    requires var key := CE.StoreKey(KeyOf(e));
      && key !in ui.arrivalOrder && next.detailById == ui.detailById[key := e]
      && next.arrivalOrder == ui.arrivalOrder[..at] + [key] + ui.arrivalOrder[at..]
    ensures Lists(next, es[..at] + [e] + es[at..])
  {
    hide CE.StoreKey, KeyOf, SummaryOf, CE.WellFormed;
    var longer := es[..at] + [e] + es[at..];
    forall i | 0 <= i < |longer|
      ensures next.arrivalOrder[i] == CE.StoreKey(KeyOf(longer[i]))
        && CE.Cell(next, next.arrivalOrder[i]) == Some(longer[i])
    {
      if i != at {
        var was := if i < at then i else i - 1;
        assert ui.arrivalOrder[was] in ui.arrivalOrder;
      }
    }
  }

  lemma InsertedAt(compare: CE.Collation, ui: Entities, es: seq<HttpExchange>, e: HttpExchange, at: nat)
    requires Lists(ui, es) && at <= |es|
    requires forall i :: 0 <= i < at ==> es[i].arrivalSequence < e.arrivalSequence
    requires at < |es| ==> e.arrivalSequence < es[at].arrivalSequence
    ensures CE.InsertionIndex(compare, ui.arrivalOrder, SummaryOf(e), ui.summaryById) == at
  {
    hide CE.StoreKey, KeyOf, SummaryOf;
    CE.SameRevision(e);
    forall i | 0 <= i < |es|
      ensures ui.arrivalOrder[i] in ui.summaryById && ui.summaryById[ui.arrivalOrder[i]].arrivalSequence
        == es[i].arrivalSequence
    {
      assert ui.arrivalOrder[i] in ui.arrivalOrder;
      CE.SameRevision(es[i]);
    }
  }

  lemma ListsReplaced(compare: CE.Collation, ui: Entities, es: seq<HttpExchange>, e: HttpExchange, at: nat)
    requires Lists(ui, es) && at < |es| && KeyOf(es[at]) == KeyOf(e) && es[at].revision < e.revision
    ensures Lists(CE.UpsertExchange(compare, ui, e), es[at := e])
  {
    hide CE.StoreKey, KeyOf, SummaryOf;
    CE.UpsertWellFormed(compare, ui, e);
    CE.SameRevision(es[at]);
    assert ui.arrivalOrder[at] in ui.arrivalOrder;
  }

  lemma ListsRemoved(ui: Entities, es: seq<HttpExchange>, at: nat)
    requires Lists(ui, es) && at < |es|
    ensures Lists(CE.RemoveExchange(ui, CE.StoreKey(KeyOf(es[at]))), es[..at] + es[at + 1..])
  {
    hide CE.StoreKey, KeyOf, SummaryOf;
    var key := CE.StoreKey(KeyOf(es[at]));
    CE.RemoveWellFormed(ui, key);
    assert ui.arrivalOrder[at] in ui.arrivalOrder;
    WithoutOne(ui.arrivalOrder, at);
  }

  lemma OneUpsert(compare: CE.Collation, ui: Entities, e: HttpExchange)
    ensures ApplyBatch(compare, ui, [CE.Upsert(e)]) == CE.UpsertExchange(compare, ui, e)
  {
    hide CE.UpsertExchange, SlotOf;
    var batch := [CE.Upsert(e)];
    assert batch[..0] == [];
    assert Coalesce([]) == [];
    assert Coalesce(batch) == batch;
    assert CE.Fold(compare, ui, []) == ui;
  }

  lemma UpsertAndRemove(compare: CE.Collation, ui: Entities, e: HttpExchange, key: ExchangeKey, reason: string)
    requires CE.StoreKey(KeyOf(e)) != CE.StoreKey(key)
    ensures ApplyBatch(compare, ui, [CE.Upsert(e), CE.Remove(key, reason)])
         == CE.RemoveExchange(CE.UpsertExchange(compare, ui, e), CE.StoreKey(key))
  {
    hide CE.UpsertExchange, CE.RemoveExchange, CE.StoreKey, KeyOf;
    var batch := [CE.Upsert(e), CE.Remove(key, reason)];
    assert batch[..1] == [CE.Upsert(e)] && batch[..1][..0] == [];
    assert Coalesce([]) == [];
    assert Coalesce(batch[..1]) == batch[..1];
    assert Coalesce(batch) == batch;
    assert CE.Fold(compare, ui, []) == ui;
    assert CE.Fold(compare, ui, batch[..1]) == CE.UpsertExchange(compare, ui, e);
  }

  // ---- a hub with room for two

  ghost function Small(frame: nat): HubConfig {
    Defaults(frame).(maxSummaries := 2)
  }

  function Id(digit: char): (id: ExchangeKey)
    requires IsHexDigit(digit)
    ensures IsUuid(id.exchangeId)
  {
    ExchangeKey(SOURCE.instanceId, Uuid(digit))
  }

  const K := Id('1')
  const B := Id('2')
  const C := Id('3')

  lemma KeysDiffer()
    ensures K != B && B != C && K != C
    ensures CE.StoreKey(K) != CE.StoreKey(B) && CE.StoreKey(B) != CE.StoreKey(C) && CE.StoreKey(K) != CE.StoreKey(C)
  {
    assert CE.StoreKey(K)[38] == '1' && CE.StoreKey(B)[38] == '2' && CE.StoreKey(C)[38] == '3';
  }

  /** The exchange the hub makes of a first start. */
  function Opened(key: ExchangeKey, sequence: nat): HttpExchange {
    StartedExchange(map[]).(id := key.exchangeId, arrivalSequence := sequence)
  }

  function Message(key: ExchangeKey, revision: nat, event: HttpEvent): Step {
    IngestMessage(SOURCE, EARLY,
                  CaptureMessage(1, Uuid('0'), SOURCE.instanceId, Http(key.exchangeId, revision, EARLY, event)), true)
  }

  const STARTED := StartEvent(map[])
  const CANCELLED := CancelledBy("caller", Timing(None, ""), Sizes(None, "unavailable"), "unavailable")

  /** The exchange after its cancellation. */
  function Ended(key: ExchangeKey, sequence: nat): HttpExchange {
    var start := Opened(key, sequence);
    start.(revision := 2, lifecycle := start.lifecycle.(state := Cancelled),
           metadata := map["capture.cancellationOrigin" := Text("caller")])
  }

  /** The exchange as an adapter resends it, and what the hub makes of it under a new sequence. */
  function Resent(key: ExchangeKey, sequence: nat): HttpExchange {
    Opened(key, sequence).(revision := 4)
  }

  function Stocked(exchanges: map<ExchangeKey, HttpExchange>, order: seq<ExchangeKey>, next: nat, blocked: bool): Hub {
    Fresh(SESSION).(exchanges := exchanges, arrivalOrder := order, nextArrivalSequence := next,
                    retentionBlockedByInFlight := blocked)
  }

  lemma OpenedMerges(frame: nat, hub: Hub, key: ExchangeKey)
    requires Bare(hub) && key == ExchangeKey(SOURCE.instanceId, key.exchangeId) && IsUuid(key.exchangeId)
    requires key !in hub.exchanges && hub.nextArrivalSequence > 0
    ensures MergedExchange(Small(frame), hub, SOURCE, EARLY, Message(key, 1, STARTED).message.payload)
         == Success(LifecycleMerger.Applied(Opened(key, hub.nextArrivalSequence)))
  {
    hide MetadataBytes, IsUuid;
    assert MetadataBytes(map[]) == 2 by { NoMetadata(); }
  }

  lemma EndedMerges(frame: nat, hub: Hub, key: ExchangeKey, sequence: nat)
    requires Bare(hub) && key == ExchangeKey(SOURCE.instanceId, key.exchangeId) && IsUuid(key.exchangeId)
    requires key in hub.exchanges && hub.exchanges[key] == Opened(key, sequence) && sequence > 0
    ensures MergedExchange(Small(frame), hub, SOURCE, EARLY, Message(key, 2, CANCELLED).message.payload)
         == Success(LifecycleMerger.Applied(Ended(key, sequence)))
  {
    hide MetadataBytes, IsUuid;
    assert MetadataBytes(map["capture.cancellationOrigin" := Text("caller")]) <= 100 by { OriginBytes(); }
  }

  lemma OriginBytes()
    ensures MetadataBytes(map["capture.cancellationOrigin" := Text("caller")]) <= 100
  {
    SumWith(map[], "capture.cancellationOrigin", Text("caller"), (n, v) => EntryBytes(n, v));
    assert map["capture.cancellationOrigin" := Text("caller")] == map[]["capture.cancellationOrigin" := Text("caller")];
  }

  lemma ResentMerges(frame: nat, hub: Hub, key: ExchangeKey)
    requires Bare(hub) && key == ExchangeKey(SOURCE.instanceId, key.exchangeId) && IsUuid(key.exchangeId)
    requires key !in hub.exchanges && hub.nextArrivalSequence > 0
    ensures MergedExchange(Small(frame), hub, SOURCE, EARLY, Message(key, 4, Snapshot(Resent(key, 1))).message.payload)
         == Success(LifecycleMerger.Applied(Resent(key, hub.nextArrivalSequence)))
  {
    hide MetadataBytes, IsUuid;
    assert MetadataBytes(map[]) == 2 by { NoMetadata(); }
  }

  /** A merged message is stored, the store is brought back to its limit, and both are published. */
  lemma Stores(frame: nat, hub: Hub, key: ExchangeKey, revision: nat, event: HttpEvent, e: HttpExchange)
    requires Bare(hub)
    requires MergedExchange(Small(frame), hub, SOURCE, EARLY, Message(key, revision, event).message.payload)
      == Success(LifecycleMerger.Applied(e))
    ensures After(Small(frame), hub, Message(key, revision, event)) == EvictExchanges(2, StoreExchange(hub, e))
    ensures Published(Small(frame), hub, Message(key, revision, event)) == StoreDeltas(2, StoreExchange(hub, e), e)
  {
    hide MergedExchange, KeyOf, EvictExchanges, ExchangeVictims, SummaryOf, Removals, ExchangeChecks;
  }

  lemma NobodyLeaves(hub: Hub)
    requires |hub.exchanges| <= 2 || TerminalExchanges(hub.exchanges) == {}
    ensures ExchangeVictims(2, hub) == []
    ensures EvictExchanges(2, hub) == hub.(retentionBlockedByInFlight := |hub.exchanges| > 2)
  {
    hide TerminalExchanges;
    var terminal := TerminalExchanges(hub.exchanges);
    if terminal == {} {
      NothingTerminal(hub.arrivalOrder);
    }
    assert ExchangeVictims(2, hub) == [];
    assert Elems<ExchangeKey>([]) == {};
    WithoutNothing(hub.arrivalOrder, {});
    assert hub.exchanges - {} == hub.exchanges;
  }

  lemma {:induction false} NothingTerminal(order: seq<ExchangeKey>)
    ensures Only(order, {}) == []
  {
    if order != [] {
      NothingTerminal(order[1..]);
    }
  }

  // ---- a late read puts two others out of order

  // The hub after each step: K and B start, K is cancelled, C starts and takes K's place, K is resent.
  const HUB1 := Stocked(map[K := Opened(K, 1)], [K], 2, false)
  const HUB2 := Stocked(map[K := Opened(K, 1), B := Opened(B, 2)], [K, B], 3, false)
  const HUB3 := Stocked(map[K := Ended(K, 1), B := Opened(B, 2)], [K, B], 3, false)
  const HUB4 := Stocked(map[B := Opened(B, 2), C := Opened(C, 3)], [B, C], 4, false)
  const HUB5 := Stocked(map[B := Opened(B, 2), C := Opened(C, 3), K := Resent(K, 4)], [B, C, K], 5, true)

  const STEP1 := Message(K, 1, STARTED)
  const STEP2 := Message(B, 1, STARTED)
  const STEP3 := Message(K, 2, CANCELLED)
  const STEP4 := Message(C, 1, STARTED)
  const STEP5 := Message(K, 4, Snapshot(Resent(K, 1)))
  const STEPS := [STEP1, STEP2, STEP3, STEP4, STEP5]

  lemma Sizes3(a: ExchangeKey, b: ExchangeKey, c: ExchangeKey, x: HttpExchange, y: HttpExchange, z: HttpExchange)
    requires a != b && b != c && a != c
    ensures |map[a := x]| == 1 && |map[a := x, b := y]| == 2 && |map[a := x, b := y, c := z]| == 3
  {
    assert map[a := x, b := y].Keys == {a, b} && map[a := x, b := y, c := z].Keys == {a, b, c};
    assert |{a, b}| == 2 && |{a, b, c}| == 3;
  }

  lemma KeyOfOpened(key: ExchangeKey, sequence: nat)
    requires key.sourceInstanceId == SOURCE.instanceId
    ensures KeyOf(Opened(key, sequence)) == KeyOf(Ended(key, sequence)) == KeyOf(Resent(key, sequence)) == key
    ensures Opened(key, sequence).arrivalSequence == Ended(key, sequence).arrivalSequence
      == Resent(key, sequence).arrivalSequence == sequence
    ensures Opened(key, sequence).revision == 1 && Ended(key, sequence).revision == 2
      && Resent(key, sequence).revision == 4
    ensures Opened(key, sequence).lifecycle.state == Resent(key, sequence).lifecycle.state == InFlight
    ensures Ended(key, sequence).lifecycle.state == Cancelled
  {
  }

  /** The hub after a step that evicts nothing. */
  lemma Fits(frame: nat, hub: Hub, key: ExchangeKey, revision: nat, event: HttpEvent, e: HttpExchange)
    requires Bare(hub) && KeyOf(e) == key
    requires MergedExchange(Small(frame), hub, SOURCE, EARLY, Message(key, revision, event).message.payload)
      == Success(LifecycleMerger.Applied(e))
    requires var stored := StoreExchange(hub, e); |stored.exchanges| <= 2 || TerminalExchanges(stored.exchanges) == {}
    ensures var stored := StoreExchange(hub, e);
      After(Small(frame), hub, Message(key, revision, event))
        == stored.(retentionBlockedByInFlight := |stored.exchanges| > 2)
    ensures Published(Small(frame), hub, Message(key, revision, event)) == [HubDelta.Upsert(SummaryOf(e))]
  {
    hide MergedExchange, KeyOf, EvictExchanges, ExchangeVictims, SummaryOf, Message, StoreExchange, TerminalExchanges;
    Stores(frame, hub, key, revision, event, e);
    NobodyLeaves(StoreExchange(hub, e));
  }

  lemma First(frame: nat)
    ensures After(Small(frame), Fresh(SESSION), STEP1) == HUB1
    ensures Published(Small(frame), Fresh(SESSION), STEP1) == [HubDelta.Upsert(SummaryOf(Opened(K, 1)))]
  {
    hide Opened, KeyOf, SummaryOf, MergedExchange, After, Published, Message, CE.StoreKey;
    KeysDiffer();
    KeyOfOpened(K, 1);
    OpenedMerges(frame, Fresh(SESSION), K);
    Sizes3(K, B, C, Opened(K, 1), Opened(K, 1), Opened(K, 1));
    Fits(frame, Fresh(SESSION), K, 1, STARTED, Opened(K, 1));
  }

  lemma Second(frame: nat)
    ensures After(Small(frame), HUB1, STEP2) == HUB2
    ensures Published(Small(frame), HUB1, STEP2) == [HubDelta.Upsert(SummaryOf(Opened(B, 2)))]
  {
    hide Opened, KeyOf, SummaryOf, MergedExchange, After, Published, Message, CE.StoreKey;
    KeysDiffer();
    KeyOfOpened(B, 2);
    OpenedMerges(frame, HUB1, B);
    Sizes3(K, B, C, Opened(K, 1), Opened(B, 2), Opened(K, 1));
    assert StoreExchange(HUB1, Opened(B, 2)) == HUB2;
    Fits(frame, HUB1, B, 1, STARTED, Opened(B, 2));
  }

  lemma Third(frame: nat)
    ensures After(Small(frame), HUB2, STEP3) == HUB3
    ensures Published(Small(frame), HUB2, STEP3) == [HubDelta.Upsert(SummaryOf(Ended(K, 1)))]
  {
    hide Opened, Ended, KeyOf, SummaryOf, MergedExchange, After, Published, Message, CE.StoreKey;
    KeysDiffer();
    KeyOfOpened(K, 1);
    EndedMerges(frame, HUB2, K, 1);
    Sizes3(K, B, C, Ended(K, 1), Opened(B, 2), Opened(K, 1));
    assert StoreExchange(HUB2, Ended(K, 1)) == HUB3;
    Fits(frame, HUB2, K, 2, CANCELLED, Ended(K, 1));
  }

  lemma Fourth(frame: nat)
    ensures After(Small(frame), HUB3, STEP4) == HUB4
    ensures Published(Small(frame), HUB3, STEP4)
      == [HubDelta.Upsert(SummaryOf(Opened(C, 3))), HubDelta.Remove(K, "retention limit")]
  {
    hide Opened, Ended, KeyOf, SummaryOf, MergedExchange, After, Published, Message, CE.StoreKey;
    KeysDiffer();
    KeyOfOpened(C, 3);
    OpenedMerges(frame, HUB3, C);
    Stores(frame, HUB3, C, 1, STARTED, Opened(C, 3));
    OnlyKLeaves();
  }

  lemma OnlyKLeaves()
    ensures var stored := StoreExchange(HUB3, Opened(C, 3));
      && ExchangeVictims(2, stored) == [K]
      && EvictExchanges(2, stored) == HUB4
      && Removals([K]) == [HubDelta.Remove(K, "retention limit")]
  {
    hide Opened, Ended, KeyOf, CE.StoreKey, TerminalExchanges, StoreExchange, ExchangeVictims, HUB3, EvictExchanges;
    KeysDiffer();
    OneTerminal();
    EvictsFirst(StoreExchange(HUB3, Opened(C, 3)), K, B, C, Ended(K, 1), Opened(B, 2), Opened(C, 3));
  }

  lemma OneVictim(stored: Hub, a: ExchangeKey, b: ExchangeKey, c: ExchangeKey)
    requires stored.arrivalOrder == [a, b, c] && TerminalExchanges(stored.exchanges) == {a} && |stored.exchanges| == 3
    requires a != b && a != c
    ensures ExchangeVictims(2, stored) == [a]
  {
    hide TerminalExchanges;
    OnlyFirst(a, b, c);
  }

  /** With three stored and only the first terminal, that one goes. */
  lemma EvictsFirst(stored: Hub, a: ExchangeKey, b: ExchangeKey, c: ExchangeKey,
                    x: HttpExchange, y: HttpExchange, z: HttpExchange)
    requires a != b && b != c && a != c
    requires stored.exchanges == map[a := x, b := y, c := z] && stored.arrivalOrder == [a, b, c]
    requires TerminalExchanges(stored.exchanges) == {a}
    ensures ExchangeVictims(2, stored) == [a]
    ensures EvictExchanges(2, stored)
      == stored.(exchanges := map[b := y, c := z], arrivalOrder := [b, c], retentionBlockedByInFlight := false)
  {
    hide TerminalExchanges, ExchangeVictims, Only, Without, Elems;
    Sizes3(a, b, c, x, y, z);
    OneVictim(stored, a, b, c);
    OnlyFirst(a, b, c);
    FirstGone(a, b, c, x, y, z);
  }

  lemma FirstGone(a: ExchangeKey, b: ExchangeKey, c: ExchangeKey, x: HttpExchange, y: HttpExchange, z: HttpExchange)
    requires a != b && b != c && a != c
    ensures Elems([a]) == {a} && map[a := x, b := y, c := z] - {a} == map[b := y, c := z]
  {
  }

  lemma OneTerminal()
    ensures var stored := StoreExchange(HUB3, Opened(C, 3));
      && stored.exchanges == map[K := Ended(K, 1), B := Opened(B, 2), C := Opened(C, 3)]
         && stored.arrivalOrder == [K, B, C]
      && stored == HUB4.(exchanges := stored.exchanges, arrivalOrder := stored.arrivalOrder)
         && TerminalExchanges(stored.exchanges) == {K}
  {
    hide Opened, Ended, KeyOf, CE.StoreKey;
    KeysDiffer();
    KeyOfOpened(K, 1);
    KeyOfOpened(B, 2);
    KeyOfOpened(C, 3);
  }

  lemma OnlyRest(b: ExchangeKey, c: ExchangeKey, gone: set<ExchangeKey>)
    requires b !in gone && c !in gone
    ensures Only([b, c], gone) == [] && Without([b, c], gone) == [b, c]
  {
    assert [b, c][1..] == [c] && [c][1..] == [];
    assert Only([c], gone) == [] && Without([c], gone) == [c];
  }

  lemma OnlyFirst(a: ExchangeKey, b: ExchangeKey, c: ExchangeKey)
    requires a != b && a != c
    ensures Only([a, b, c], {a}) == [a] && Without([a, b, c], {a}) == [b, c]
  {
    assert [a, b, c][1..] == [b, c];
    OnlyRest(b, c, {a});
  }

  lemma Fifth(frame: nat)
    ensures After(Small(frame), HUB4, STEP5) == HUB5
    ensures Published(Small(frame), HUB4, STEP5) == [HubDelta.Upsert(SummaryOf(Resent(K, 4)))]
  {
    hide Opened, Resent, KeyOf, SummaryOf, MergedExchange, After, Published, Message, CE.StoreKey;
    KeysDiffer();
    KeyOfOpened(B, 2);
    KeyOfOpened(C, 3);
    KeyOfOpened(K, 4);
    ResentMerges(frame, HUB4, K);
    Sizes3(B, C, K, Opened(B, 2), Opened(C, 3), Resent(K, 4));
    assert StoreExchange(HUB4, Resent(K, 4)) == HUB5.(retentionBlockedByInFlight := false);
    assert TerminalExchanges(HUB5.exchanges) == {};
    Fits(frame, HUB4, K, 4, Snapshot(Resent(K, 1)), Resent(K, 4));
  }

  /** Every detail is read right after its step, but the cancellation's only at the end. */
  function Slow(j: nat, i: nat): nat {
    if j == 2 then 5 else j + 1
  }

  ghost function SlowFeed(frame: nat): (f: Feed)
    ensures |f.steps| == 5
  {
    Feed(Small(frame), Fresh(SESSION), STEPS, Slow)
  }

  ghost function At(frame: nat, i: nat): Hub
    requires i <= 5
  {
    HubBefore(SlowFeed(frame), i)
  }

  lemma HubsAre(frame: nat)
    ensures At(frame, 0) == Fresh(SESSION) && At(frame, 1) == HUB1 && At(frame, 2) == HUB2 && At(frame, 3) == HUB3
      && At(frame, 4) == HUB4
    ensures At(frame, 5) == HUB5 == Run(Small(frame), Fresh(SESSION), STEPS)
  {
    hide HubAt, After, Stocked, Message, Opened, Ended, Resent, Small;
    assert HubAt(Small(frame), Fresh(SESSION), STEPS, 0) == Fresh(SESSION) by { NoStep(frame); }
    First(frame);
    NextHub(Small(frame), Fresh(SESSION), STEPS, 0);
    Second(frame);
    NextHub(Small(frame), Fresh(SESSION), STEPS, 1);
    Third(frame);
    NextHub(Small(frame), Fresh(SESSION), STEPS, 2);
    Fourth(frame);
    NextHub(Small(frame), Fresh(SESSION), STEPS, 3);
    Fifth(frame);
    NextHub(Small(frame), Fresh(SESSION), STEPS, 4);
    assert HubAt(Small(frame), Fresh(SESSION), STEPS, 5) == Run(Small(frame), Fresh(SESSION), STEPS)
      by { AllSteps(frame); }
  }

  lemma NoStep(frame: nat)
    ensures HubAt(Small(frame), Fresh(SESSION), STEPS, 0) == Fresh(SESSION)
  {
    assert STEPS[..0] == [];
  }

  lemma AllSteps(frame: nat)
    ensures HubAt(Small(frame), Fresh(SESSION), STEPS, 5) == Run(Small(frame), Fresh(SESSION), STEPS)
  {
    hide Run;
    assert STEPS[..5] == STEPS;
  }

  ghost function Batch(frame: nat, j: nat): seq<CE.UiDelta>
    requires j < 5
  {
    BatchAt(SlowFeed(frame), j)
  }

  lemma BatchIs(frame: nat, j: nat, published: seq<HubDelta>)
    requires j < 5 && Published(Small(frame), At(frame, j), STEPS[j]) == published
    ensures |Batch(frame, j)| == |published|
    ensures forall i :: 0 <= i < |published| ==> Batch(frame, j)[i] == Translate(At(frame, Slow(j, i)), published[i])
  {
    hide HubAt, Published, Translate, STEP1, STEP2, STEP3, STEP4, STEP5, Small;
    forall i | 0 <= i < |published| ensures Batch(frame, j)[i] == Translate(At(frame, Slow(j, i)), published[i]) {
      assert ReadHub(Small(frame), Fresh(SESSION), STEPS, Slow(j, i)) == At(frame, Slow(j, i));
    }
  }

  lemma OneTranslated(frame: nat, j: nat, e: HttpExchange, read: HttpExchange)
    requires j < 5 && Published(Small(frame), At(frame, j), STEPS[j]) == [HubDelta.Upsert(SummaryOf(e))]
    requires KeyOf(e) in At(frame, Slow(j, 0)).exchanges && At(frame, Slow(j, 0)).exchanges[KeyOf(e)] == read
    ensures Batch(frame, j) == [CE.Upsert(read)]
  {
    hide HubAt, At, Batch, Published, SummaryOf, KeyOf, Small;
    CE.SameRevision(e);
    BatchIs(frame, j, [HubDelta.Upsert(SummaryOf(e))]);
  }

  lemma BatchesAre(frame: nat)
    ensures Batch(frame, 0) == [CE.Upsert(Opened(K, 1))] && Batch(frame, 1) == [CE.Upsert(Opened(B, 2))]
    ensures Batch(frame, 2) == [CE.Upsert(Resent(K, 4))]
    ensures Batch(frame, 4) == [CE.Upsert(Resent(K, 4))]
  {
    hide HubAt, Published, SummaryOf, KeyOf, Opened, Ended, Resent, Message, LateBatch, Small, CE.StoreKey, At;
    HubsAre(frame);
    KeysDiffer();
    KeyOfOpened(K, 1);
    KeyOfOpened(B, 2);
    KeyOfOpened(K, 4);
    First(frame);
    OneTranslated(frame, 0, Opened(K, 1), Opened(K, 1));
    Second(frame);
    OneTranslated(frame, 1, Opened(B, 2), Opened(B, 2));
    Third(frame);
    OneTranslated(frame, 2, Ended(K, 1), Resent(K, 4));
    Fifth(frame);
    OneTranslated(frame, 4, Resent(K, 4), Resent(K, 4));
  }

  lemma FourthBatch(frame: nat)
    ensures Batch(frame, 3) == [CE.Upsert(Opened(C, 3)), CE.Remove(K, "retention limit")]
  {
    hide HubAt, At, Batch, Published, SummaryOf, KeyOf, Opened, Ended, Message, Small, CE.StoreKey;
    HubsAre(frame);
    KeysDiffer();
    KeyOfOpened(C, 3);
    Fourth(frame);
    CE.SameRevision(Opened(C, 3));
    BatchIs(frame, 3, [HubDelta.Upsert(SummaryOf(Opened(C, 3))), HubDelta.Remove(K, "retention limit")]);
  }

  ghost function Ui(compare: CE.Collation, frame: nat, n: nat): Entities
    requires n <= 5
  {
    LateReplay(compare, SlowFeed(frame), CE.NO_ENTITIES, 0, n)
  }

  lemma NextUi(compare: CE.Collation, frame: nat, n: nat)
    requires n < 5
    ensures Ui(compare, frame, n + 1) == ApplyBatch(compare, Ui(compare, frame, n), Batch(frame, n))
  {
    hide ApplyBatch, LateBatch, SlowFeed;
  }

  lemma NotListed(ui: Entities, es: seq<HttpExchange>, key: string)
    requires Lists(ui, es) && forall i :: 0 <= i < |es| ==> CE.StoreKey(KeyOf(es[i])) != key
    ensures key !in ui.arrivalOrder
  {
    hide CE.StoreKey, KeyOf, CE.WellFormed;
  }

  /** K and B are listed; then K's cancellation is read, and shows K as it was resent, in K's old place. */
  lemma UiMisplacesK(compare: CE.Collation, frame: nat)
    requires CE.TotalOrder(compare)
    ensures Lists(Ui(compare, frame, 3), [Resent(K, 4), Opened(B, 2)])
  {
    hide CE.TotalOrder, CE.StoreKey, KeyOf, Lists, Ui, Batch, ApplyBatch, CE.UpsertExchange, Opened, Resent, Ended,
         CE.WellFormed;
    BatchesAre(frame);
    KeysDiffer();
    KeyOfOpened(K, 1);
    KeyOfOpened(B, 2);
    KeyOfOpened(K, 4);
    NothingListed(compare, frame);
    NextUi(compare, frame, 0);
    OneUpsert(compare, CE.NO_ENTITIES, Opened(K, 1));
    ListsInserted(compare, CE.NO_ENTITIES, [], Opened(K, 1), 0);
    assert [][..0] + [Opened(K, 1)] + [][0..] == [Opened(K, 1)];
    var first := Ui(compare, frame, 1);
    NextUi(compare, frame, 1);
    OneUpsert(compare, first, Opened(B, 2));
    NotListed(first, [Opened(K, 1)], CE.StoreKey(B));
    ListsInserted(compare, first, [Opened(K, 1)], Opened(B, 2), 1);
    assert [Opened(K, 1)][..1] + [Opened(B, 2)] + [Opened(K, 1)][1..] == [Opened(K, 1), Opened(B, 2)];
    var second := Ui(compare, frame, 2);
    NextUi(compare, frame, 2);
    OneUpsert(compare, second, Resent(K, 4));
    ListsReplaced(compare, second, [Opened(K, 1), Opened(B, 2)], Resent(K, 4), 0);
    assert [Opened(K, 1), Opened(B, 2)][0 := Resent(K, 4)] == [Resent(K, 4), Opened(B, 2)];
  }

  lemma NothingListed(compare: CE.Collation, frame: nat)
    ensures Ui(compare, frame, 0) == CE.NO_ENTITIES && Lists(CE.NO_ENTITIES, []) && CE.NO_ENTITIES.arrivalOrder == []
  {
    CE.NothingWellFormed(compare);
  }

  /** C, which arrived before the resent K, goes before it and so before B; then K is dropped and comes last. */
  lemma UiSwaps(compare: CE.Collation, frame: nat)
    requires CE.TotalOrder(compare)
    ensures Lists(Ui(compare, frame, 5), [Opened(C, 3), Opened(B, 2), Resent(K, 4)])
  {
    hide CE.TotalOrder, CE.StoreKey, KeyOf, Lists, Ui, Batch, ApplyBatch, CE.UpsertExchange, CE.RemoveExchange, Opened,
         Resent, Ended, CE.WellFormed;
    BatchesAre(frame);
    FourthBatch(frame);
    KeysDiffer();
    KeyOfOpened(B, 2);
    KeyOfOpened(C, 3);
    KeyOfOpened(K, 4);
    UiMisplacesK(compare, frame);
    var third, misplaced := Ui(compare, frame, 3), [Resent(K, 4), Opened(B, 2)];
    NextUi(compare, frame, 3);
    UpsertAndRemove(compare, third, Opened(C, 3), K, "retention limit");
    NotListed(third, misplaced, CE.StoreKey(C));
    ListsInserted(compare, third, misplaced, Opened(C, 3), 0);
    var swapped := [Opened(C, 3), Resent(K, 4), Opened(B, 2)];
    assert misplaced[..0] + [Opened(C, 3)] + misplaced[0..] == swapped;
    ListsRemoved(CE.UpsertExchange(compare, third, Opened(C, 3)), swapped, 1);
    assert swapped[..1] + swapped[2..] == [Opened(C, 3), Opened(B, 2)];
    var fourth, left := Ui(compare, frame, 4), [Opened(C, 3), Opened(B, 2)];
    NextUi(compare, frame, 4);
    OneUpsert(compare, fourth, Resent(K, 4));
    NotListed(fourth, left, CE.StoreKey(K));
    ListsInserted(compare, fourth, left, Resent(K, 4), 2);
    assert left[..2] + [Resent(K, 4)] + left[2..] == [Opened(C, 3), Opened(B, 2), Resent(K, 4)];
  }

  lemma AllPublished(frame: nat)
    ensures AllPublish(Small(frame), Fresh(SESSION), STEPS)
  {
    hide Run, Interruptible;
  }

  lemma KeysOfSource()
    ensures K.sourceInstanceId == B.sourceInstanceId == C.sourceInstanceId == SOURCE.instanceId
  {
  }

  /**
   A hub with room for two takes K, B, K's cancellation, C in place of K, and K again. The interface reads
   the cancellation's detail last and applies every batch in turn. It ends with the hub's entries, but with
   B and C, which never left the hub, the wrong way round.
   */
  lemma LateReadSwapsOthers(compare: CE.Collation, frame: nat)
    requires CE.TotalOrder(compare)
    ensures var f := SlowFeed(frame);
      && Valid(f) && f.hub == Fresh(SESSION)
      && Run(f.config, f.hub, f.steps).arrivalOrder == [B, C, K]
      && LateReplay(compare, f, CE.NO_ENTITIES, 0, |f.steps|).arrivalOrder == StoreKeys([C, B, K])
  {
    hide CE.TotalOrder, Run, LateReplay, Opened, Resent, KeyOf, CE.StoreKey, CE.WellFormed, UuidLaw, AllPublish, Sound,
         Message, Id;
    DefaultsUuidLaw(frame);
    FreshSound(SESSION);
    AllPublished(frame);
    KeysOfSource();
    HubsAre(frame);
    UiSwaps(compare, frame);
    KeyOfOpened(B, 2);
    KeyOfOpened(C, 3);
    KeyOfOpened(K, 4);
  }

  // ---- a reset overtakes the batch before it

  const STARTED_THEN_CLEARED := [STEP1, SessionCleared(Uuid('6'))]

  function Prompt(j: nat, i: nat): nat {
    j + 1
  }

  ghost function ClearedFeed(frame: nat): (f: Feed)
    ensures |f.steps| == 2
  {
    Feed(Small(frame), Fresh(SESSION), STARTED_THEN_CLEARED, Prompt)
  }

  lemma ClearedRun(frame: nat)
    ensures var f := ClearedFeed(frame);
      && HubBefore(f, 0) == Fresh(SESSION) && HubBefore(f, 1) == HUB1
      && Run(f.config, f.hub, f.steps).exchanges == map[]
  {
    hide StepOutcome, STEP1, HUB1, Small;
    var config, hub, steps := Small(frame), Fresh(SESSION), STARTED_THEN_CLEARED;
    assert steps[..0] == [];
    NextHub(config, hub, steps, 0);
    First(frame);
    ClearedBatch((a, b) => 0, config, Run(config, hub, steps[..1]), steps[1], CE.NO_ENTITIES);
  }

  lemma SingleRead(f: Feed, j: nat, e: HttpExchange, read: Hub)
    requires j < |f.steps| && PublishedAt(f, j) == [HubDelta.Upsert(SummaryOf(e))]
    requires ReadHub(f.config, f.hub, f.steps, f.fetchedAt(j, 0)) == read && KeyOf(e) in read.exchanges
    ensures BatchAt(f, j) == [CE.Upsert(read.exchanges[KeyOf(e)])]
  {
    hide HubAt, Published, SummaryOf, KeyOf, ReadHub;
    CE.SameRevision(e);
  }

  lemma StartBatch(frame: nat)
    ensures BatchAt(ClearedFeed(frame), 0) == [CE.Upsert(Opened(K, 1))]
  {
    hide Published, SummaryOf, KeyOf, Opened, Small, STEP1, HubAt, BatchAt, Fresh, CE.StoreKey;
    ClearedRun(frame);
    First(frame);
    KeyOfOpened(K, 1);
    SingleRead(ClearedFeed(frame), 0, Opened(K, 1), HUB1);
  }

  lemma StartListed(compare: CE.Collation)
    ensures CE.Cell(ApplyBatch(compare, CE.NO_ENTITIES, [CE.Upsert(Opened(K, 1))]), CE.StoreKey(K))
      == Some(Opened(K, 1))
  {
    hide CE.StoreKey, CE.InsertArrival, SummaryOf, ApplyBatch;
    OneUpsert(compare, CE.NO_ENTITIES, Opened(K, 1));
  }

  lemma TwoTurns(compare: CE.Collation, f: Feed)
    requires |f.steps| == 2 && f.steps[1].SessionCleared?
    ensures AllBelow([1, 0], 2)
    ensures ApplyInTurn(compare, f, CE.NO_ENTITIES, [1, 0]) == ApplyBatch(compare, CE.NO_ENTITIES, BatchAt(f, 0))
  {
    hide ApplyBatch, LateBatch, HubAt;
    assert [1, 0][..1] == [1] && [1][..0] == [];
    assert ApplyInTurn(compare, f, CE.NO_ENTITIES, []) == CE.NO_ENTITIES;
    assert ApplyInTurn(compare, f, CE.NO_ENTITIES, [1]) == ApplyBatch(compare, CE.NO_ENTITIES, BatchAt(f, 1));
    LateClear(compare, f.config, f.hub, f.steps, f.fetchedAt, 1, CE.NO_ENTITIES);
  }

  /**
   A start whose detail is read at once but arrives after the reset that follows. The reset needs no read and
   is applied first; the start's batch then brings back an exchange that the hub no longer has.
   */
  lemma ResetOvertakes(compare: CE.Collation, frame: nat)
    ensures var f := ClearedFeed(frame);
      && Valid(f) && f.hub == Fresh(SESSION)
      && AllBelow([1, 0], 2)
      && Run(f.config, f.hub, f.steps).exchanges == map[]
      && CE.Cell(ApplyInTurn(compare, f, CE.NO_ENTITIES, [1, 0]), CE.StoreKey(K)) == Some(Opened(K, 1))
  {
    hide CE.StoreKey, UuidLaw, Sound, Run, ApplyBatch, LateBatch, HubAt, Opened, ApplyInTurn, Interruptible;
    DefaultsUuidLaw(frame);
    FreshSound(SESSION);
    ClearedRun(frame);
    StartBatch(frame);
    StartListed(compare);
    TwoTurns(compare, ClearedFeed(frame));
  }
}
