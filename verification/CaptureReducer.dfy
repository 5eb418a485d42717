/** The reducer of the user interface's capture state, loop by loop, with its tree kept beside its entities. */
module CaptureReducer {
  import opened Wrappers
  import opened CaptureModel
  import CE = CaptureEntities
  import opened Coalescing
  import opened StructurePath
  import opened TreeAggregates
  import opened TreeIndex
  import HubRuns
  import HubState
  import Publication
  import Replication

  datatype CaptureState = CaptureState(entities: CE.Entities, structureTree: Index)

  const EMPTY_STATE := CaptureState(CE.NO_ENTITIES, EMPTY_INDEX)

  /** The entities fit together and the tree is the one recomputed from the summaries. */
  ghost predicate Valid(codec: UriCodec, state: CaptureState) {
    CE.WellFormed(state.entities) && Agrees(codec, state.structureTree, state.entities.summaryById)
  }

  lemma EmptyStateValid(codec: UriCodec)
    ensures Valid(codec, EMPTY_STATE)
  {
    hide Agrees;
    EmptyAgrees(codec);
  }

  // ---- coalescing

  /** The two indexes of the coalescing loop point at the place of each key and of the status. */
  ghost predicate Indexes(result: seq<CE.UiDelta>, lastByExchange: map<string, nat>, lastStatusIndex: Option<nat>) {
    && (forall key :: (if key in lastByExchange then Some(lastByExchange[key]) else None)
                      == IndexOf(result, KeySlot(key)))
    && lastStatusIndex == IndexOf(result, StatusSlot)
  }

  lemma {:induction false} IndexOfAppended(result: seq<CE.UiDelta>, delta: CE.UiDelta, slot: Slot)
    ensures IndexOf(result + [delta], slot) ==
      if IndexOf(result, slot).Some? then IndexOf(result, slot)
      else if SlotOf(delta) == slot then Some(|result|) else None
  {
    hide SlotOf;
    if result == [] {
      assert [delta][1..] == [];
    } else {
      assert (result + [delta])[1..] == result[1..] + [delta];
      IndexOfAppended(result[1..], delta, slot);
    }
  }

  lemma {:induction false} IndexOfReplaced(result: seq<CE.UiDelta>, at: nat, delta: CE.UiDelta, slot: Slot)
    requires at < |result| && SlotOf(result[at]) == SlotOf(delta)
    ensures IndexOf(result[at := delta], slot) == IndexOf(result, slot)
  {
    hide SlotOf;
    if at > 0 {
      assert result[at := delta][1..] == result[1..][at - 1 := delta];
      IndexOfReplaced(result[1..], at - 1, delta, slot);
    } else {
      assert result[at := delta][1..] == result[1..];
    }
  }

  lemma IndexesAfterReset(delta: CE.UiDelta)
    requires delta.Reset?
    ensures Indexes([delta], map[], None)
  {
    assert [delta][1..] == [];
  }

  lemma IndexesAfterReplace(result: seq<CE.UiDelta>, lastByExchange: map<string, nat>, lastStatusIndex: Option<nat>,
                            at: nat, delta: CE.UiDelta)
    requires Indexes(result, lastByExchange, lastStatusIndex) && IndexOf(result, SlotOf(delta)) == Some(at)
    ensures Indexes(result[at := delta], lastByExchange, lastStatusIndex)
  {
    hide SlotOf;
    forall slot ensures IndexOf(result[at := delta], slot) == IndexOf(result, slot) {
      IndexOfReplaced(result, at, delta, slot);
    }
  }

  lemma IndexesAfterAppend(result: seq<CE.UiDelta>, lastByExchange: map<string, nat>, lastStatusIndex: Option<nat>,
                           delta: CE.UiDelta)
    requires Indexes(result, lastByExchange, lastStatusIndex) && IndexOf(result, SlotOf(delta)) == None && !delta.Reset?
    ensures delta.Status? ==> Indexes(result + [delta], lastByExchange, Some(|result|))
    ensures CE.DeltaKey(delta).Some? ==>
      Indexes(result + [delta], lastByExchange[CE.DeltaKey(delta).value := |result|], lastStatusIndex)
  {
    hide CE.StoreKey, KeyOf, IndexOf;
    forall slot
      ensures IndexOf(result + [delta], slot) ==
        if IndexOf(result, slot).Some? then IndexOf(result, slot)
        else if SlotOf(delta) == slot then Some(|result|) else None
    {
      IndexOfAppended(result, delta, slot);
    }
  }

  method CoalesceCaptureDeltas(deltas: seq<CE.UiDelta>) returns (result: seq<CE.UiDelta>)
    ensures result == Coalesce(deltas)
  {
    hide Indexes, IndexOf, CE.StoreKey, KeyOf;
    result := [];
    var lastByExchange: map<string, nat> := map[];
    var lastStatusIndex: Option<nat> := None;
    assert Indexes(result, lastByExchange, lastStatusIndex) by { NoIndexes(); }
    for i := 0 to |deltas|
      invariant result == Coalesce(deltas[..i])
      invariant Indexes(result, lastByExchange, lastStatusIndex)
    {
      var delta := deltas[i];
      assert deltas[..i + 1][..i] == deltas[..i];
      assert Coalesce(deltas[..i + 1]) == Coalesced(result, delta);
      if delta.Reset? {
        result, lastByExchange, lastStatusIndex := [delta], map[], None;
        IndexesAfterReset(delta);
      } else if delta.Status? {
        StatusIndex(result, lastByExchange, lastStatusIndex);
        if lastStatusIndex.Some? {
          IndexesAfterReplace(result, lastByExchange, lastStatusIndex, lastStatusIndex.value, delta);
          result := result[lastStatusIndex.value := delta];
        } else {
          IndexesAfterAppend(result, lastByExchange, lastStatusIndex, delta);
          lastStatusIndex := Some(|result|);
          result := result + [delta];
        }
      } else {
        var key := CE.DeltaKey(delta).value;
        KeyIndex(result, lastByExchange, lastStatusIndex, key);
        if key in lastByExchange {
          IndexesAfterReplace(result, lastByExchange, lastStatusIndex, lastByExchange[key], delta);
          result := result[lastByExchange[key] := delta];
        } else {
          IndexesAfterAppend(result, lastByExchange, lastStatusIndex, delta);
          lastByExchange := lastByExchange[key := |result|];
          result := result + [delta];
        }
      }
    }
    assert deltas[..|deltas|] == deltas;
  }

  lemma NoIndexes()
    ensures Indexes([], map[], None)
  {
  }

  lemma StatusIndex(result: seq<CE.UiDelta>, lastByExchange: map<string, nat>, lastStatusIndex: Option<nat>)
    requires Indexes(result, lastByExchange, lastStatusIndex)
    ensures lastStatusIndex == IndexOf(result, StatusSlot)
    ensures lastStatusIndex.Some? ==> lastStatusIndex.value < |result|
  {
  }

  lemma KeyIndex(result: seq<CE.UiDelta>, lastByExchange: map<string, nat>, lastStatusIndex: Option<nat>, key: string)
    requires Indexes(result, lastByExchange, lastStatusIndex)
    ensures (if key in lastByExchange then Some(lastByExchange[key]) else None) == IndexOf(result, KeySlot(key))
    ensures key in lastByExchange ==> lastByExchange[key] < |result|
  {
    assert (if key in lastByExchange then Some(lastByExchange[key]) else None) == IndexOf(result, KeySlot(key));
  }

  // ---- reducing

  method ReduceCaptureDelta(codec: UriCodec, compare: CE.Collation, state: CaptureState, delta: CE.UiDelta)
    returns (next: CaptureState)
    requires EscapeLaw(codec) && Valid(codec, state)
    ensures next.entities == CE.Reduce(compare, state.entities, delta)
    ensures Valid(codec, next)
    decreases if delta.Reset? then 2 else 0
  {
    hide EscapeLaw, Agrees, CE.WellFormed, CE.StoreKey, KeyOf, SummaryOf, CE.UpsertExchange;
    CE.ReduceWellFormed(compare, state.entities, delta);
    match delta
    case Reset(_, exchanges) => next := FromSnapshot(codec, compare, exchanges);
    case Status(_) => next := state;
    case DetailInvalidated(_, _) => next := state;
    case Remove(key, _) =>
      next := RemoveExchange(codec, state, CE.StoreKey(key));
    case Upsert(exchange) =>
      next := UpsertExchange(codec, compare, state, exchange);
  }

  method RemoveExchange(codec: UriCodec, state: CaptureState, key: string) returns (next: CaptureState)
    requires EscapeLaw(codec) && Valid(codec, state)
    ensures next.entities == CE.RemoveExchange(state.entities, key)
    ensures Agrees(codec, next.structureTree, next.entities.summaryById)
  {
    hide EscapeLaw, Agrees, CE.WellFormed;
    if key !in state.entities.summaryById {
      return state;
    }
    var tree := RemoveStructureSummary(codec, state.structureTree, key, state.entities.summaryById[key],
                                       state.entities.summaryById);
    next := CaptureState(CE.RemoveExchange(state.entities, key), tree);
  }

  method UpsertExchange(codec: UriCodec, compare: CE.Collation, state: CaptureState, exchange: HttpExchange)
    returns (next: CaptureState)
    requires EscapeLaw(codec) && Valid(codec, state)
    ensures next.entities == CE.UpsertExchange(compare, state.entities, exchange)
    ensures Agrees(codec, next.structureTree, next.entities.summaryById)
  {
    hide EscapeLaw, Agrees, CE.WellFormed, SummaryOf, KeyOf, CE.StoreKey;
    var key := CE.StoreKey(KeyOf(exchange));
    var current := CE.SummaryAt(state.entities.summaryById, key);
    if current.Some? && current.value.revision >= exchange.revision {
      return state;
    }
    var summary := CE.SummaryFromExchange(exchange);
    var tree := UpsertStructureSummary(codec, state.structureTree, key, current, summary, state.entities.summaryById);
    next := CaptureState(CE.UpsertExchange(compare, state.entities, exchange), tree);
  }

  method FromSnapshot(codec: UriCodec, compare: CE.Collation, exchanges: seq<HttpExchange>)
    returns (state: CaptureState)
    requires EscapeLaw(codec)
    ensures state.entities == CE.FromExchanges(compare, exchanges)
    ensures Valid(codec, state)
    decreases 1
  {
    hide EscapeLaw, Valid, CE.UpsertExchange, CE.SortByArrival;
    EmptyStateValid(codec);
    state := EMPTY_STATE;
    var sorted := CE.SortByArrival(compare, exchanges);
    for i := 0 to |sorted|
      invariant state.entities == CE.UpsertAll(compare, CE.NO_ENTITIES, sorted[..i])
      invariant Valid(codec, state)
    {
      assert sorted[..i + 1][..i] == sorted[..i];
      state := ReduceCaptureDelta(codec, compare, state, CE.Upsert(sorted[i]));
    }
    assert sorted[..|sorted|] == sorted;
  }

  /** One batch: the entities are the fold of the coalesced batch, and the tree follows them. */
  method ReduceCaptureDeltas(codec: UriCodec, compare: CE.Collation, state: CaptureState, deltas: seq<CE.UiDelta>)
    returns (next: CaptureState)
    requires EscapeLaw(codec) && Valid(codec, state)
    ensures next.entities == Replication.ApplyBatch(compare, state.entities, deltas)
    ensures Valid(codec, next)
  {
    hide EscapeLaw, Valid, CE.Reduce, Coalesce;
    next := state;
    var coalesced := CoalesceCaptureDeltas(deltas);
    for i := 0 to |coalesced|
      invariant next.entities == CE.Fold(compare, state.entities, coalesced[..i])
      invariant Valid(codec, next)
    {
      assert coalesced[..i + 1][..i] == coalesced[..i];
      next := ReduceCaptureDelta(codec, compare, next, coalesced[i]);
    }
    assert coalesced[..|coalesced|] == coalesced;
  }

  // ---- the whole interface against the hub

  /** Two valid states with the same entities show the same tree, whatever batches led to them. */
  lemma SameEntitiesSameTree(codec: UriCodec, a: CaptureState, b: CaptureState)
    requires Valid(codec, a) && Valid(codec, b) && a.entities == b.entities
    ensures a.structureTree.nodesById.Keys == b.structureTree.nodesById.Keys
    ensures forall id :: id in a.structureTree.nodesById ==>
      SameNode(a.structureTree.nodesById[id], b.structureTree.nodesById[id])
    ensures forall r :: r in a.structureTree.rootIds <==> r in b.structureTree.rootIds
    ensures a.structureTree.exchangeToPath == b.structureTree.exchangeToPath
  {
    hide Agrees, SameNode;
    AgreeingIndexesMatch(codec, a.structureTree, b.structureTree, a.entities.summaryById);
  }

  /** The hub's own summaries, by store key. */
  ghost function HubSummaries(hub: HubState.Hub): map<string, Summary> {
    map key | key in (set k | k in hub.exchanges :: CE.StoreKey(k)) && Publication.HubCell(hub, key).Some? ::
      SummaryOf(Publication.HubCell(hub, key).value)
  }

  lemma HubSummariesAre(hub: HubState.Hub)
    requires Replication.Sound(hub)
    ensures HubSummaries(hub).Keys == set k | k in hub.exchanges :: CE.StoreKey(k)
    ensures forall k :: k in hub.exchanges ==> HubSummaries(hub)[CE.StoreKey(k)] == SummaryOf(hub.exchanges[k])
  {
    hide CE.StoreKey, SummaryOf, NoColonPair, HubState.Consistent, Publication.SplitKey;
    forall k | k in hub.exchanges ensures Publication.HubCell(hub, CE.StoreKey(k)) == Some(hub.exchanges[k]) {
      Publication.HubCellAt(hub, k);
    }
  }

  /** An interface that mirrors the hub holds the hub's summaries. */
  lemma MirroredSummaries(compare: CE.Collation, ui: CE.Entities, hub: HubState.Hub)
    requires Replication.Mirrors(compare, ui, hub) && Replication.Sound(hub)
    ensures ui.summaryById == HubSummaries(hub)
  {
    hide CE.StoreKey, SummaryOf, NoColonPair, HubState.Consistent, CE.Listed, KeyOf;
    forall key
      ensures key in ui.summaryById <==> key in HubSummaries(hub)
      ensures key in ui.summaryById ==> ui.summaryById[key] == HubSummaries(hub)[key]
    {
      assert CE.Cell(ui, key) == Publication.HubCell(hub, key);
    }
  }

  /**
   End to end, the tree included. Starting from nothing and reducing the batch of every step of a run of
   the hub, the interface ends with the hub's entries in the hub's arrival order, and with the tree
   recomputed from the hub's own summaries.
   */
  method FollowRun(codec: UriCodec, compare: CE.Collation, config: HubState.HubConfig, sessionId: string,
                   steps: seq<HubRuns.Step>)
    returns (state: CaptureState)
    requires EscapeLaw(codec) && CE.TotalOrder(compare) && UuidLaw(config.rules)
    requires Replication.AllPublish(config, HubState.Fresh(sessionId), steps)
    ensures var hub := HubRuns.Run(config, HubState.Fresh(sessionId), steps);
      && state.entities == Replication.RunUi(compare, config, HubState.Fresh(sessionId), CE.NO_ENTITIES, steps)
      && Replication.Mirrors(compare, state.entities, hub)
      && state.entities.arrivalOrder == Replication.StoreKeys(hub.arrivalOrder)
      && state.entities.summaryById == HubSummaries(hub)
      && Agrees(codec, state.structureTree, HubSummaries(hub))
      && HubSummaries(hub).Keys == (set k | k in hub.exchanges :: CE.StoreKey(k))
      && (forall k :: k in hub.exchanges ==> HubSummaries(hub)[CE.StoreKey(k)] == SummaryOf(hub.exchanges[k]))
  {
    hide EscapeLaw, CE.TotalOrder, UuidLaw, Agrees, Replication.AllPublish, Replication.StepBatch,
         Replication.ApplyBatch, HubRuns.After,
         Replication.Sound, Replication.Mirrors, Replication.StoreKeys, HubSummaries, CE.WellFormed, CE.StoreKey,
           SummaryOf;
    ghost var start := HubState.Fresh(sessionId);
    var hub := HubState.Fresh(sessionId);
    state := EMPTY_STATE;
    EmptyStateValid(codec);
    for i := 0 to |steps|
      invariant hub == HubRuns.Run(config, start, steps[..i])
      invariant state.entities == Replication.RunUi(compare, config, start, CE.NO_ENTITIES, steps[..i])
      invariant Valid(codec, state)
    {
      assert steps[..i + 1][..i] == steps[..i];
      state := ReduceCaptureDeltas(codec, compare, state, Replication.StepBatch(config, hub, steps[i]));
      hub := HubRuns.After(config, hub, steps[i]);
    }
    assert steps[..|steps|] == steps;
    Replication.FreshSound(sessionId);
    Replication.NothingMirrorsEmpty(compare, start);
    Replication.RunMirrors(compare, config, start, CE.NO_ENTITIES, steps);
    Replication.RunKeepsSound(config, start, steps);
    Replication.MirroredOrder(compare, state.entities, hub);
    MirroredSummaries(compare, state.entities, hub);
    HubSummariesAre(hub);
  }
}
