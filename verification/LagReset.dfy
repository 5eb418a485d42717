/**
 A subscriber that lagged is reset with the hub's snapshot and then still receives the batches left
 in its buffer, some of which the snapshot already contains.
 */
module LagReset {
  import opened Wrappers
  import opened Sequences
  import opened CaptureModel
  import opened HubState
  import opened HubRuns
  import CE = CaptureEntities
  import opened Coalescing
  import opened Publication
  import opened Replication

  function HubAt(config: HubConfig, hub: Hub, steps: seq<Step>, i: nat): Hub
    requires i <= |steps|
  {
    Run(config, hub, steps[..i])
  }

  // ---- the reset itself

  /** The exchanges behind a snapshot of the hub, in arrival order. */
  function Retained(hub: Hub): seq<HttpExchange>
    requires forall k :: k in hub.arrivalOrder ==> k in hub.exchanges
  {
    seq(|hub.arrivalOrder|, i requires 0 <= i < |hub.arrivalOrder| => hub.exchanges[hub.arrivalOrder[i]])
  }

  lemma FetchedConcat(hub: Hub, a: seq<HttpExchangeSummary>, b: seq<HttpExchangeSummary>)
    ensures Fetched(hub, a + b) == Fetched(hub, a) + Fetched(hub, b)
    decreases |a|
  {
    if a == [] {
      assert a + b == b;
    } else {
      assert (a + b)[0] == a[0] && (a + b)[1..] == a[1..] + b;
      FetchedConcat(hub, a[1..], b);
    }
  }

  lemma {:induction false} SnapshotFetches(hub: Hub, n: nat)
    requires forall k :: k in hub.arrivalOrder ==> k in hub.exchanges && KeyOf(hub.exchanges[k]) == k
    requires n <= |hub.arrivalOrder|
    ensures Fetched(hub, HubSnapshot(hub)[..n]) == Retained(hub)[..n]
  {
    hide KeyOf;
    if n > 0 {
      SnapshotFetches(hub, n - 1);
      var snapshot, k := HubSnapshot(hub), hub.arrivalOrder[n - 1];
      assert snapshot[..n] == snapshot[..n - 1] + [snapshot[n - 1]];
      FetchedConcat(hub, snapshot[..n - 1], [snapshot[n - 1]]);
      CE.SameRevision(hub.exchanges[k]);
      assert k in hub.arrivalOrder;
      assert [snapshot[n - 1]][1..] == [];
      assert Fetched(hub, [snapshot[n - 1]]) == [hub.exchanges[k]] + Fetched(hub, []);
      assert Retained(hub)[..n] == Retained(hub)[..n - 1] + [hub.exchanges[k]];
    }
  }

  ghost predicate Rising(exchanges: seq<HttpExchange>) {
    forall i, j :: 0 <= i < j < |exchanges| ==> exchanges[i].arrivalSequence < exchanges[j].arrivalSequence
  }

  lemma RisingEnd(exchanges: seq<HttpExchange>)
    requires exchanges != [] && Rising(exchanges)
    ensures var n := |exchanges| - 1;
      && Rising(exchanges[..n])
      && (n > 0 ==> exchanges[..n][n - 1].arrivalSequence < exchanges[n].arrivalSequence)
      && exchanges == exchanges[..n] + [exchanges[n]]
  {
  }

  /** An exchange that arrived after all others is inserted at the end. */
  lemma InsertedLast(compare: CE.Collation, front: seq<HttpExchange>, last: HttpExchange)
    requires front != [] ==> front[|front| - 1].arrivalSequence < last.arrivalSequence
    ensures CE.InsertSorted(compare, front, last) == front + [last]
  {
    hide SummaryOf, CE.StoreKey;
    if front != [] {
      CE.SameRevision(front[|front| - 1]);
      CE.SameRevision(last);
    }
  }

  /** Exchanges that already are in arrival order are left alone by the sort. */
  lemma {:induction false} SortedStays(compare: CE.Collation, exchanges: seq<HttpExchange>)
    requires Rising(exchanges)
    ensures CE.SortByArrival(compare, exchanges) == exchanges
  {
    hide Rising, CE.InsertSorted;
    if exchanges != [] {
      RisingEnd(exchanges);
      SortedStays(compare, exchanges[..|exchanges| - 1]);
      InsertedLast(compare, exchanges[..|exchanges| - 1], exchanges[|exchanges| - 1]);
    }
  }

  /** The state an interface is in right after a reset with the hub's snapshot. */
  function ResetUi(compare: CE.Collation, hub: Hub): Entities
    requires forall k :: k in hub.arrivalOrder ==> k in hub.exchanges
  {
    CE.FromExchanges(compare, Fetched(hub, HubSnapshot(hub)))
  }

  lemma ResetMirrors(compare: CE.Collation, hub: Hub)
    requires CE.TotalOrder(compare) && Sound(hub)
    ensures forall k :: k in hub.arrivalOrder ==> k in hub.exchanges
    ensures Mirrors(compare, ResetUi(compare, hub), hub)
  {
    hide CE.TotalOrder, Sound, CE.StoreKey, KeyOf, CE.WellFormed, CE.Sorted, SplitKey, HubCell, Retained, HubSnapshot,
         CE.UpsertAll, CE.SortByArrival;
    RetainedKeys(hub);
    var exchanges := Retained(hub);
    SnapshotFetches(hub, |hub.arrivalOrder|);
    assert HubSnapshot(hub)[..|hub.arrivalOrder|] == HubSnapshot(hub) && exchanges[..|hub.arrivalOrder|] == exchanges;
    SortedStays(compare, exchanges);
    UpsertAllHolds(compare, exchanges);
    RetainedCells(hub, CE.UpsertAll(compare, CE.NO_ENTITIES, exchanges));
  }

  lemma RetainedKeys(hub: Hub)
    requires Sound(hub)
    ensures forall k :: k in hub.arrivalOrder ==> k in hub.exchanges && KeyOf(hub.exchanges[k]) == k
    ensures forall k :: k in hub.exchanges ==> k in hub.arrivalOrder
    ensures |HubSnapshot(hub)| == |hub.arrivalOrder|
    ensures var exchanges := Retained(hub);
      && |exchanges| == |hub.arrivalOrder|
      && (forall i :: 0 <= i < |exchanges| ==> exchanges[i] == hub.exchanges[hub.arrivalOrder[i]]
                                               && KeyOf(exchanges[i]) == hub.arrivalOrder[i])
      && (forall i :: 0 <= i < |exchanges| ==> SplitKey(CE.StoreKey(KeyOf(exchanges[i]))) == Some(hub.arrivalOrder[i]))
      && Rising(exchanges)
      && KeysDiffer(exchanges)
  {
    hide CE.StoreKey, KeyOf, Consistent, NoColonPair, SplitKey;
    OrderStored(hub);
    var exchanges, order := Retained(hub), hub.arrivalOrder;
    forall i | 0 <= i < |order|
      ensures KeyOf(exchanges[i]) == order[i] && SplitKey(CE.StoreKey(order[i])) == Some(order[i])
    {
      assert order[i] in order;
      SplitStoreKey(order[i]);
    }
  }

  /** A state that holds exactly the retained exchanges has the hub's cells. */
  lemma RetainedCells(hub: Hub, ui: Entities)
    requires Sound(hub)
    requires forall k :: k in hub.arrivalOrder ==> k in hub.exchanges
    requires var exchanges := Retained(hub);
      && (forall i :: 0 <= i < |exchanges| ==> CE.Cell(ui, CE.StoreKey(KeyOf(exchanges[i]))) == Some(exchanges[i]))
      && (forall key :: CE.Cell(ui, key).Some? ==>
          exists i :: 0 <= i < |exchanges| && CE.StoreKey(KeyOf(exchanges[i])) == key)
    ensures forall key :: CE.Cell(ui, key) == HubCell(hub, key)
  {
    hide CE.StoreKey, KeyOf, Sound, SplitKey, Retained, CE.Cell;
    RetainedKeys(hub);
    var exchanges, order := Retained(hub), hub.arrivalOrder;
    forall key ensures CE.Cell(ui, key) == HubCell(hub, key) {
      if CE.Cell(ui, key).Some? {
        var i :| 0 <= i < |exchanges| && CE.StoreKey(KeyOf(exchanges[i])) == key;
        assert order[i] in order;
      }
    }
  }

  // ---- replaying buffered batches

  function Replay(compare: CE.Collation, config: HubConfig, hub: Hub, steps: seq<Step>, ui: Entities, from: nat,
                  to: nat): Entities
    requires from <= to <= |steps|
  {
    if from == to then ui
    else ApplyBatch(compare, Replay(compare, config, hub, steps, ui, from, to - 1),
                    StepBatch(config, HubAt(config, hub, steps, to - 1), steps[to - 1]))
  }

  /** Each cell is either what the hub held at this point of the replay or what the snapshot held. */
  ghost predicate Between(ui: Entities, now: Hub, target: Hub) {
    forall key :: CE.Cell(ui, key) == HubCell(now, key) || CE.Cell(ui, key) == HubCell(target, key)
  }

  /** No session is cleared in the steps from `i` up to `t`. */
  ghost predicate NoClear(steps: seq<Step>, i: nat, t: nat)
    requires t <= |steps|
  {
    forall j :: i <= j < t ==> !steps[j].SessionCleared?
  }

  /** The keys that, once stored, stay stored from `i` up to `t`; none when the session is cleared on the way. */
  ghost function Lasting(config: HubConfig, hub: Hub, steps: seq<Step>, i: nat, t: nat): iset<string>
    requires t <= |steps|
  {
    iset key: string | Lasts(config, hub, steps, i, t, key)
  }

  ghost predicate Lasts(config: HubConfig, hub: Hub, steps: seq<Step>, i: nat, t: nat, key: string)
    requires t <= |steps|
  {
    && NoClear(steps, i, t)
    && (forall j :: i <= j < t && HubCell(HubAt(config, hub, steps, j), key).Some? ==>
        HubCell(HubAt(config, hub, steps, j + 1), key).Some?)
  }

  lemma NextHub(config: HubConfig, hub: Hub, steps: seq<Step>, i: nat)
    requires i < |steps|
    ensures HubAt(config, hub, steps, i + 1) == After(config, HubAt(config, hub, steps, i), steps[i])
  {
    hide After;
    assert steps[..i + 1][..i] == steps[..i];
  }

  lemma SoundAt(config: HubConfig, hub: Hub, steps: seq<Step>, i: nat)
    requires UuidLaw(config.rules) && Sound(hub) && i <= |steps|
    ensures Sound(HubAt(config, hub, steps, i))
  {
    hide Sound;
    RunKeepsSound(config, hub, steps[..i]);
  }

  lemma PublishesAt(config: HubConfig, hub: Hub, steps: seq<Step>, i: nat)
    requires AllPublish(config, hub, steps) && i < |steps|
    ensures Publishes(config, HubAt(config, hub, steps, i), steps[i])
  {
    hide Publishes;
  }

  lemma DeliversAt(config: HubConfig, hub: Hub, steps: seq<Step>, i: nat)
    requires UuidLaw(config.rules) && Sound(hub) && AllPublish(config, hub, steps) && i < |steps|
      && !steps[i].SessionCleared?
    ensures Delivers(HubAt(config, hub, steps, i), HubAt(config, hub, steps, i + 1),
                     StepBatch(config, HubAt(config, hub, steps, i), steps[i]))
  {
    hide Sound, Publishes, Delivers, AllPublish, StepBatch, After, HubAt;
    NextHub(config, hub, steps, i);
    SoundAt(config, hub, steps, i);
    PublishesAt(config, hub, steps, i);
    StepDelivers(config, HubAt(config, hub, steps, i), steps[i]);
  }

  /** Without a clear, sequences of a key never go back, and stay put while the key stays stored. */
  lemma {:induction false} SequencesRise(config: HubConfig, hub: Hub, steps: seq<Step>, i: nat, t: nat, key: string)
    requires UuidLaw(config.rules) && Sound(hub) && AllPublish(config, hub, steps)
    requires i <= t <= |steps| && NoClear(steps, i, t)
    requires HubCell(HubAt(config, hub, steps, i), key).Some?
    ensures var early := HubCell(HubAt(config, hub, steps, i), key).value;
      var late := HubCell(HubAt(config, hub, steps, t), key);
      && early.arrivalSequence < HubAt(config, hub, steps, t).nextArrivalSequence
      && (late.Some? ==> early.arrivalSequence <= late.value.arrivalSequence)
      && (key in Lasting(config, hub, steps, i, t) ==>
          late.Some? && early.arrivalSequence == late.value.arrivalSequence)
    decreases t - i
  {
    hide UuidLaw, Sound, AllPublish, HubAt, StepBatch, HubCell;
    if i == t {
      SoundAt(config, hub, steps, i);
      CellBelowCounter(HubAt(config, hub, steps, i), key);
    } else {
      SequencesRise(config, hub, steps, i, t - 1, key);
      DeliversAt(config, hub, steps, t - 1);
      var before, after := HubAt(config, hub, steps, t - 1), HubAt(config, hub, steps, t);
      assert CellEvent(HubCell(before, key), HubCell(after, key),
                       Last(StepBatch(config, before, steps[t - 1]), KeySlot(key)));
      if key in Lasting(config, hub, steps, i, t) {
        assert key in Lasting(config, hub, steps, i, t - 1);
        assert HubCell(HubAt(config, hub, steps, t - 1), key).Some? ==>
          HubCell(HubAt(config, hub, steps, t - 1 + 1), key).Some?;
      }
    }
  }

  lemma CellBelowCounter(hub: Hub, key: string)
    requires Sound(hub) && HubCell(hub, key).Some?
    ensures HubCell(hub, key).value.arrivalSequence < hub.nextArrivalSequence
  {
    var k := SplitKey(key).value;
    assert k in ExchangeRanks(hub.exchanges);
  }

  /** A delivered batch keeps every cell between the replay's hub and the snapshot's. */
  lemma BatchStaysBetween(compare: CE.Collation, ui: Entities, now: Hub, next: Hub, target: Hub,
                          deltas: seq<CE.UiDelta>)
    requires CE.WellFormed(ui) && Between(ui, now, target) && Delivers(now, next, deltas)
    ensures Between(ApplyBatch(compare, ui, deltas), next, target)
  {
    hide CE.WellFormed, HubCell, ApplyBatch;
    forall key
      ensures CE.Cell(ApplyBatch(compare, ui, deltas), key) == HubCell(next, key)
           || CE.Cell(ApplyBatch(compare, ui, deltas), key) == HubCell(target, key)
    {
      BatchCell(compare, ui, deltas, key);
      assert CellEvent(HubCell(now, key), HubCell(next, key), Last(deltas, KeySlot(key)));
    }
  }

  /** Every upsert of a delivered batch moves an entry back to where the hub then had it. */
  lemma BatchMovesBack(ui: Entities, now: Hub, next: Hub, target: Hub, deltas: seq<CE.UiDelta>, settled: iset<string>,
                       i: nat)
    requires Between(ui, now, target) && Delivers(now, next, deltas)
    requires forall key :: HubCell(next, key).Some? && HubCell(target, key).Some? ==>
      && HubCell(next, key).value.arrivalSequence <= HubCell(target, key).value.arrivalSequence
      && (key in settled ==> HubCell(next, key).value.arrivalSequence == HubCell(target, key).value.arrivalSequence)
    requires i < |deltas| && deltas[i].Upsert?
    ensures var key := CE.StoreKey(KeyOf(deltas[i].exchange));
      MovesBack(CE.Cell(ui, key), deltas[i].exchange, key in settled)
  {
    hide HubCell, CE.StoreKey, KeyOf;
    var key := CE.StoreKey(KeyOf(deltas[i].exchange));
    UpsertIsLast(deltas, i);
    assert CellEvent(HubCell(now, key), HubCell(next, key), Last(deltas, KeySlot(key)));
    assert HubCell(next, key) == Some(deltas[i].exchange);
  }

  /** The state of a replay at step `j`, up to the snapshot at step `t`. */
  ghost predicate Replaying(compare: CE.Collation, config: HubConfig, hub: Hub, steps: seq<Step>, ui: Entities, j: nat,
                            t: nat)
    requires j <= t <= |steps|
  {
    && CE.WellFormed(ui)
    && Between(ui, HubAt(config, hub, steps, j), HubAt(config, hub, steps, t))
    && Settled(compare, ui, Lasting(config, hub, steps, j, t))
  }

  lemma ReplayBatch(compare: CE.Collation, config: HubConfig, hub: Hub, steps: seq<Step>, ui: Entities, j: nat, t: nat)
    requires CE.TotalOrder(compare) && UuidLaw(config.rules) && Sound(hub) && AllPublish(config, hub, steps)
    requires j < t <= |steps| && !steps[j].SessionCleared?
    requires Replaying(compare, config, hub, steps, ui, j, t)
    ensures Replaying(compare, config, hub, steps,
                      ApplyBatch(compare, ui, StepBatch(config, HubAt(config, hub, steps, j), steps[j])), j + 1, t)
  {
    hide CE.TotalOrder, UuidLaw, Sound, AllPublish, CE.Keyed, HubAt, StepBatch, HubCell, ApplyBatch, SortedOn, Delivers,
         Between, Lasts, MovesBack, CE.StoreKey, KeyOf;
    var now, next, target := HubAt(config, hub, steps, j), HubAt(config, hub, steps, j + 1),
      HubAt(config, hub, steps, t);
    var deltas := StepBatch(config, now, steps[j]);
    var settled := Lasting(config, hub, steps, j, t);
    var after := ApplyBatch(compare, ui, deltas);
    DeliversAt(config, hub, steps, j);
    BatchStaysBetween(compare, ui, now, next, target, deltas);
    assert ResetFree(deltas) by { DeliveredIsResetFree(now, next, deltas); }
    if NoClear(steps, j, t) {
      forall key | HubCell(next, key).Some? && HubCell(target, key).Some?
        ensures HubCell(next, key).value.arrivalSequence <= HubCell(target, key).value.arrivalSequence
        ensures key in settled ==>
          HubCell(next, key).value.arrivalSequence == HubCell(target, key).value.arrivalSequence
      {
        SequencesRise(config, hub, steps, j + 1, t, key);
        LastingShrinks(config, hub, steps, j, t, key);
      }
      forall i | 0 <= i < |deltas| && deltas[i].Upsert?
        ensures var key := CE.StoreKey(KeyOf(deltas[i].exchange));
          MovesBack(CE.Cell(ui, key), deltas[i].exchange, key in settled)
      {
        BatchMovesBack(ui, now, next, target, deltas, settled, i);
      }
      BatchSettled(compare, ui, deltas, settled);
      NewlyLastingIsGone(compare, config, hub, steps, ui, j, t);
    } else {
      BatchWellFormed(compare, ui, deltas);
      NothingLasts(compare, config, hub, steps, after, j, t);
    }
  }

  lemma BatchWellFormed(compare: CE.Collation, ui: Entities, deltas: seq<CE.UiDelta>)
    requires CE.WellFormed(ui)
    ensures CE.WellFormed(ApplyBatch(compare, ui, deltas))
  {
    CE.FoldWellFormed(compare, ui, Coalesce(deltas));
  }

  lemma DeliveredIsResetFree(now: Hub, next: Hub, deltas: seq<CE.UiDelta>)
    requires Delivers(now, next, deltas)
    ensures ResetFree(deltas)
  {
  }

  lemma LastingShrinks(config: HubConfig, hub: Hub, steps: seq<Step>, j: nat, t: nat, key: string)
    requires j < t <= |steps|
    ensures key in Lasting(config, hub, steps, j, t) ==> key in Lasting(config, hub, steps, j + 1, t)
    ensures NoClear(steps, j, t) ==> NoClear(steps, j + 1, t)
  {
    hide HubAt, HubCell;
  }

  lemma NothingLasts(compare: CE.Collation, config: HubConfig, hub: Hub, steps: seq<Step>, after: Entities, j: nat,
                     t: nat)
    requires j < t <= |steps| && !NoClear(steps, j, t) && !steps[j].SessionCleared? && CE.WellFormed(after)
    ensures Settled(compare, after, Lasting(config, hub, steps, j + 1, t))
  {
    hide HubAt, HubCell, CE.Keyed;
    assert !NoClear(steps, j + 1, t);
  }

  /** A key that starts to last at this step was removed by it, so its place does not matter. */
  lemma NewlyLastingIsGone(compare: CE.Collation, config: HubConfig, hub: Hub, steps: seq<Step>, ui: Entities, j: nat,
                           t: nat)
    requires UuidLaw(config.rules) && Sound(hub) && AllPublish(config, hub, steps)
    requires j < t <= |steps| && !steps[j].SessionCleared? && NoClear(steps, j, t)
    requires CE.WellFormed(ui)
    requires var after := ApplyBatch(compare, ui, StepBatch(config, HubAt(config, hub, steps, j), steps[j]));
      CE.WellFormed(after) && Settled(compare, after, Lasting(config, hub, steps, j, t))
    ensures var after := ApplyBatch(compare, ui, StepBatch(config, HubAt(config, hub, steps, j), steps[j]));
      Settled(compare, after, Lasting(config, hub, steps, j + 1, t))
  {
    hide UuidLaw, Sound, AllPublish, CE.Keyed, HubAt, StepBatch, HubCell, ApplyBatch, CE.Precedes, Lasts;
    var now, next := HubAt(config, hub, steps, j), HubAt(config, hub, steps, j + 1);
    var deltas := StepBatch(config, now, steps[j]);
    var after := ApplyBatch(compare, ui, deltas);
    DeliversAt(config, hub, steps, j);
    forall key | key in after.arrivalOrder && key in Lasting(config, hub, steps, j + 1, t)
      ensures key in Lasting(config, hub, steps, j, t)
    {
      BatchCell(compare, ui, deltas, key);
      assert CellEvent(HubCell(now, key), HubCell(next, key), Last(deltas, KeySlot(key)));
      LastsOneMore(config, hub, steps, j, t, key);
    }
  }

  lemma LastsOneMore(config: HubConfig, hub: Hub, steps: seq<Step>, j: nat, t: nat, key: string)
    requires j < t <= |steps| && NoClear(steps, j, t) && Lasts(config, hub, steps, j + 1, t, key)
    requires HubCell(HubAt(config, hub, steps, j), key).Some? ==> HubCell(HubAt(config, hub, steps, j + 1), key).Some?
    ensures Lasts(config, hub, steps, j, t, key)
  {
    hide HubAt, HubCell;
  }

  lemma {:induction false} ReplayToSnapshot(compare: CE.Collation, config: HubConfig, hub: Hub, steps: seq<Step>,
                                            ui: Entities, s: nat, j: nat, t: nat)
    requires CE.TotalOrder(compare) && UuidLaw(config.rules) && Sound(hub) && AllPublish(config, hub, steps)
    requires s <= j <= t <= |steps| && Mirrors(compare, ui, HubAt(config, hub, steps, t))
    ensures Replaying(compare, config, hub, steps, Replay(compare, config, hub, steps, ui, s, j), j, t)
    decreases j
  {
    hide CE.TotalOrder, UuidLaw, Sound, AllPublish, HubAt, StepBatch, HubCell, ApplyBatch, CE.Precedes, Lasting,
         CE.Keyed;
    if j == s {
      AllSettled(compare, ui);
    } else {
      ReplayToSnapshot(compare, config, hub, steps, ui, s, j - 1, t);
      var before := Replay(compare, config, hub, steps, ui, s, j - 1);
      if steps[j - 1].SessionCleared? {
        ClearedBatch(compare, config, HubAt(config, hub, steps, j - 1), steps[j - 1], before);
        NextHub(config, hub, steps, j - 1);
        ClearedReplay(compare, config, hub, steps, j, t);
      } else {
        ReplayBatch(compare, config, hub, steps, before, j - 1, t);
      }
    }
  }

  lemma ClearedReplay(compare: CE.Collation, config: HubConfig, hub: Hub, steps: seq<Step>, j: nat, t: nat)
    requires j <= t <= |steps| && HubAt(config, hub, steps, j).exchanges == map[]
    ensures Replaying(compare, config, hub, steps, CE.NO_ENTITIES, j, t)
  {
    hide HubAt;
    CE.NothingWellFormed(compare);
  }

  lemma {:induction false} ReplayOnwards(compare: CE.Collation, config: HubConfig, hub: Hub, steps: seq<Step>,
                                         ui: Entities, s: nat, t: nat, j: nat)
    requires CE.TotalOrder(compare) && UuidLaw(config.rules) && Sound(hub) && AllPublish(config, hub, steps)
    requires s <= t <= j <= |steps|
    requires Mirrors(compare, Replay(compare, config, hub, steps, ui, s, t), HubAt(config, hub, steps, t))
    ensures Mirrors(compare, Replay(compare, config, hub, steps, ui, s, j), HubAt(config, hub, steps, j))
    decreases j
  {
    hide CE.TotalOrder, UuidLaw, Sound, AllPublish, HubAt, StepBatch, ApplyBatch, Mirrors, Publishes;
    if j > t {
      ReplayOnwards(compare, config, hub, steps, ui, s, t, j - 1);
      SoundAt(config, hub, steps, j - 1);
      PublishesAt(config, hub, steps, j - 1);
      NextHub(config, hub, steps, j - 1);
      StepMirrors(compare, config, HubAt(config, hub, steps, j - 1), steps[j - 1],
                  Replay(compare, config, hub, steps, ui, s, j - 1));
    }
  }

  /** At the snapshot's own step every key lasts and both bounds coincide. */
  lemma ReplayedToSnapshot(compare: CE.Collation, config: HubConfig, hub: Hub, steps: seq<Step>, ui: Entities, t: nat)
    requires t <= |steps| && Replaying(compare, config, hub, steps, ui, t, t)
    ensures Mirrors(compare, ui, HubAt(config, hub, steps, t))
  {
    hide HubAt, HubCell, CE.Keyed, CE.Precedes;
    assert forall key: string :: Lasts(config, hub, steps, t, t, key);
    assert Lasting(config, hub, steps, t, t) == ALL;
    AllSettled(compare, ui);
  }

  /**
   Lag-reset convergence. A subscriber reset with the snapshot at step `t` that then receives the
   buffered batches of steps `s` to `end`, with `s` no later than `t`, lists exactly the hub's
   summaries at `end`, in the hub's arrival order, whatever was evicted, arrived again or was cleared
   in between.
   */
  lemma LagResetConverges(compare: CE.Collation, config: HubConfig, hub: Hub, steps: seq<Step>, s: nat, t: nat,
                          end: nat)
    requires CE.TotalOrder(compare) && UuidLaw(config.rules) && Sound(hub) && AllPublish(config, hub, steps)
    requires s <= t <= end <= |steps|
    ensures forall k :: k in HubAt(config, hub, steps, t).arrivalOrder ==> k in HubAt(config, hub, steps, t).exchanges
    ensures var ui := Replay(compare, config, hub, steps, ResetUi(compare, HubAt(config, hub, steps, t)), s, end);
      var last := HubAt(config, hub, steps, end);
      && (forall key :: CE.Cell(ui, key) == HubCell(last, key))
      && ui.arrivalOrder == StoreKeys(last.arrivalOrder)
      && (forall k :: k in last.arrivalOrder ==> k in last.exchanges)
      && (forall k :: k in ui.arrivalOrder ==> k in ui.summaryById)
      && UiSnapshot(ui) == HubSnapshot(last)
  {
    hide CE.TotalOrder, UuidLaw, Sound, AllPublish, HubAt, StoreKeys, Replay, ResetUi, HubCell, CE.WellFormed,
         CE.Sorted, Replaying, UiSnapshot, HubSnapshot;
    var target := HubAt(config, hub, steps, t);
    SoundAt(config, hub, steps, t);
    SoundAt(config, hub, steps, end);
    ResetMirrors(compare, target);
    var start := ResetUi(compare, target);
    ReplayToSnapshot(compare, config, hub, steps, start, s, t, t);
    ReplayedToSnapshot(compare, config, hub, steps, Replay(compare, config, hub, steps, start, s, t), t);
    ReplayOnwards(compare, config, hub, steps, start, s, t, end);
    MirroredOrder(compare, Replay(compare, config, hub, steps, start, s, end), HubAt(config, hub, steps, end));
    MirroredSnapshot(compare, Replay(compare, config, hub, steps, start, s, end), HubAt(config, hub, steps, end));
  }
}
