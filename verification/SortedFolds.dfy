/** Exactly which deltas keep an interface in arrival order. */
module SortedFolds {
  import opened Wrappers
  import opened Sequences
  import opened CaptureModel
  import opened CaptureEntities
  import opened Coalescing

  /** If the upsert replaces a held entry, it stands to every other held entry as the one it replaces. */
  ghost predicate KeepsPlace(compare: Collation, state: Entities, exchange: HttpExchange)
    requires WellFormed(state)
  {
    var key, details := StoreKey(KeyOf(exchange)), state.detailById;
    key in details && details[key].revision < exchange.revision ==>
      forall other :: other in details && other != key ==>
        (Precedes(compare, details, other, key) <==> Precedes(compare, details[key := exchange], other, key))
  }

  /** An upsert leaves a sorted state sorted if and only if it keeps the place of the entry it replaces, if any. */
  lemma UpsertStaysSortedIff(compare: Collation, state: Entities, exchange: HttpExchange)
    requires TotalOrder(compare) && WellFormed(state) && Sorted(compare, state)
    ensures WellFormed(UpsertExchange(compare, state, exchange))
    ensures Sorted(compare, UpsertExchange(compare, state, exchange)) <==> KeepsPlace(compare, state, exchange)
  {
    hide TotalOrder, StoreKey, KeyOf, Keyed, KeepsPlace, Precedes, SortedOn, Sorted, UpsertExchange;
    UpsertWellFormed(compare, state, exchange);
    var key := StoreKey(KeyOf(exchange));
    HeldRevision(compare, state, exchange);
    if key in state.detailById && state.detailById[key].revision < exchange.revision {
      ReplaceStaysSortedIff(compare, state, key, exchange);
    } else if key !in state.detailById {
      AllSettled(compare, state);
      UpsertSettled(compare, state, exchange, ALL);
      AllSettled(compare, UpsertExchange(compare, state, exchange));
      assert KeepsPlace(compare, state, exchange) by { FreeKeepsPlace(compare, state, exchange); }
    } else {
      assert KeepsPlace(compare, state, exchange) by { FreeKeepsPlace(compare, state, exchange); }
    }
  }

  lemma FreeKeepsPlace(compare: Collation, state: Entities, exchange: HttpExchange)
    requires WellFormed(state)
    requires var key := StoreKey(KeyOf(exchange));
      key in state.detailById ==> state.detailById[key].revision >= exchange.revision
    ensures KeepsPlace(compare, state, exchange)
  {
    hide StoreKey, KeyOf, Precedes;
  }

  lemma HeldRevision(compare: Collation, state: Entities, exchange: HttpExchange)
    requires WellFormed(state)
    ensures var key, next := StoreKey(KeyOf(exchange)), UpsertExchange(compare, state, exchange);
      key in state.detailById ==>
        next == if state.detailById[key].revision < exchange.revision
                then Entities(state.summaryById[key := SummaryOf(exchange)], state.detailById[key := exchange],
                              state.arrivalOrder)
                else state
  {
    hide StoreKey, KeyOf, InsertArrival;
  }

  lemma ReplaceStaysSortedIff(compare: Collation, state: Entities, key: string, exchange: HttpExchange)
    requires TotalOrder(compare) && WellFormed(state) && Sorted(compare, state)
    requires key == StoreKey(KeyOf(exchange)) && key in state.detailById
      && state.detailById[key].revision < exchange.revision
    ensures var next := Entities(state.summaryById[key := SummaryOf(exchange)], state.detailById[key := exchange],
                                 state.arrivalOrder);
      Listed(next) && (Sorted(compare, next) <==> KeepsPlace(compare, state, exchange))
  {
    hide TotalOrder, StoreKey, KeyOf, Keyed, Precedes;
    var order, before, after := state.arrivalOrder, state.detailById, state.detailById[key := exchange];
    assert key in order;
    var at :| 0 <= at < |order| && order[at] == key;
    forall i | 0 <= i < |order| && i != at
      ensures order[i] in before && order[i] != key
      ensures Precedes(compare, before, order[i], key) <==> i < at
      ensures Precedes(compare, after, order[i], key) <==> !Precedes(compare, after, key, order[i])
    {
      assert order[i] in order;
      PrecedesEitherWay(compare, before, order[i], key);
      PrecedesEitherWay(compare, after, order[i], key);
    }
    SamePairs(compare, before, after, order, key);
    forall other | other in before && other != key ensures exists i :: 0 <= i < |order| && i != at && order[i] == other
    {
      assert other in order;
    }
  }

  lemma PrecedesEitherWay(compare: Collation, details: map<string, HttpExchange>, a: string, b: string)
    requires TotalOrder(compare) && a in details && b in details && a != b
    ensures Precedes(compare, details, a, b) <==> !Precedes(compare, details, b, a)
  {
  }

  lemma SamePairs(compare: Collation, before: map<string, HttpExchange>, after: map<string, HttpExchange>,
                  order: seq<string>, key: string)
    requires key in before && key in after && after == before[key := after[key]] && forall k :: k in order ==>
      k in before
    ensures forall i, j :: 0 <= i < j < |order| && order[i] != key && order[j] != key ==>
      (Precedes(compare, before, order[i], order[j]) <==> Precedes(compare, after, order[i], order[j]))
  {
    forall i, j | 0 <= i < j < |order| && order[i] != key && order[j] != key
      ensures Precedes(compare, before, order[i], order[j]) <==> Precedes(compare, after, order[i], order[j])
    {
      assert order[i] in order && order[j] in order;
    }
  }

  ghost predicate InOrder(compare: Collation, state: Entities) {
    WellFormed(state) && Sorted(compare, state)
  }

  /** The delta is no upsert, or one that keeps the place of the entry it replaces, if any. */
  ghost predicate InPlace(compare: Collation, state: Entities, delta: UiDelta) {
    WellFormed(state) && (delta.Upsert? ==> KeepsPlace(compare, state, delta.exchange))
  }

  lemma DeltaStaysSortedIff(compare: Collation, state: Entities, delta: UiDelta)
    requires TotalOrder(compare) && InOrder(compare, state) && !delta.Reset?
    ensures InOrder(compare, Reduce(compare, state, delta)) <==> InPlace(compare, state, delta)
  {
    hide TotalOrder, Keyed, Sorted, SortedOn, KeepsPlace, UpsertExchange, RemoveExchange, StoreKey;
    ReduceWellFormed(compare, state, delta);
    if delta.Upsert? {
      UpsertStaysSortedIff(compare, state, delta.exchange);
    } else if delta.Remove? {
      AllSettled(compare, state);
      RemoveSettled(compare, state, StoreKey(delta.key), ALL);
      AllSettled(compare, RemoveExchange(state, StoreKey(delta.key)));
    }
  }

  lemma FoldOneMore(compare: Collation, state: Entities, deltas: seq<UiDelta>, n: nat)
    requires n < |deltas|
    ensures Fold(compare, state, deltas[..n + 1]) == Reduce(compare, Fold(compare, state, deltas[..n]), deltas[n])
  {
    hide Reduce;
    assert deltas[..n + 1][..n] == deltas[..n];
  }

  lemma {:induction false} InPlaceStaysSorted(compare: Collation, state: Entities, deltas: seq<UiDelta>, n: nat)
    requires TotalOrder(compare) && InOrder(compare, state) && ResetFree(deltas) && n <= |deltas|
    requires forall i :: 0 <= i < n ==> InPlace(compare, Fold(compare, state, deltas[..i]), deltas[i])
    ensures InOrder(compare, Fold(compare, state, deltas[..n]))
  {
    hide TotalOrder, InOrder, InPlace, Reduce;
    if n > 0 {
      InPlaceStaysSorted(compare, state, deltas, n - 1);
      FoldOneMore(compare, state, deltas, n - 1);
      DeltaStaysSortedIff(compare, Fold(compare, state, deltas[..n - 1]), deltas[n - 1]);
    }
  }

  /**
   Exactly which deltas keep an interface in arrival order. Fold deltas without resets into a sorted state:
   it is sorted after every one of them if and only if each upsert keeps the place of the entry it replaces.
   */
  lemma FoldStaysSortedIff(compare: Collation, state: Entities, deltas: seq<UiDelta>)
    requires TotalOrder(compare) && InOrder(compare, state) && ResetFree(deltas)
    ensures (forall n :: 0 <= n <= |deltas| ==> InOrder(compare, Fold(compare, state, deltas[..n])))
       <==> (forall n :: 0 <= n < |deltas| ==> InPlace(compare, Fold(compare, state, deltas[..n]), deltas[n]))
  {
    hide TotalOrder, InOrder, InPlace, Reduce, Fold;
    if forall n :: 0 <= n < |deltas| ==> InPlace(compare, Fold(compare, state, deltas[..n]), deltas[n]) {
      forall n | 0 <= n <= |deltas| ensures InOrder(compare, Fold(compare, state, deltas[..n])) {
        InPlaceStaysSorted(compare, state, deltas, n);
      }
    } else {
      var n :| 0 <= n < |deltas| && !InPlace(compare, Fold(compare, state, deltas[..n]), deltas[n]);
      if InOrder(compare, Fold(compare, state, deltas[..n])) {
        DeltaStaysSortedIff(compare, Fold(compare, state, deltas[..n]), deltas[n]);
        FoldOneMore(compare, state, deltas, n);
      }
    }
  }
}
