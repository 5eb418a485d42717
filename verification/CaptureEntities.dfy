/**
 The user interface's copy of the capture: summaries, details and arrival order, as the reducer
 changes them delta by delta. `compare` stands for the locale comparison of store keys.
 */
module CaptureEntities {
  import opened Wrappers
  import opened Sequences
  import opened CaptureModel

  type Collation = (string, string) -> int

  datatype UiDelta =
    | Upsert(exchange: HttpExchange)
    | Remove(key: ExchangeKey, reason: string)
    | Reset(sessionId: string, exchanges: seq<HttpExchange>)
    | Status(status: string)
    | DetailInvalidated(key: ExchangeKey, revision: nat)

  datatype Entities = Entities(
    summaryById: map<string, HttpExchangeSummary>,
    detailById: map<string, HttpExchange>,
    arrivalOrder: seq<string>)

  const NO_ENTITIES := Entities(map[], map[], [])

  function StoreKey(key: ExchangeKey): string {
    key.sourceInstanceId + "::" + key.exchangeId
  }

  /** The interface's own projection of a full exchange; it is the one the hub publishes. */
  function SummaryFromExchange(exchange: HttpExchange): (summary: HttpExchangeSummary)
    ensures summary == SummaryOf(exchange)
  {
    HttpExchangeSummary(
      ExchangeKey(exchange.source.instanceId, exchange.id), exchange.revision, exchange.arrivalSequence,
      exchange.lifecycle,
      exchange.request.httpMethod, exchange.request.url, exchange.request.scheme, exchange.request.host,
      exchange.request.port, exchange.request.path,
      match exchange.response case Some(response) => Some(response.statusCode) case None => None,
      exchange.source.applicationName, exchange.timing.totalMs, exchange.sizes.totalBytes, exchange.tags,
      match exchange.failure case Some(failure) => Some(failure.message) case None => None)
  }

  function CompareArrival(compare: Collation, left: HttpExchangeSummary, right: Option<HttpExchangeSummary>): int {
    if right.None? then -1
    else if left.arrivalSequence != right.value.arrivalSequence then left.arrivalSequence - right.value.arrivalSequence
    else compare(StoreKey(left.key), StoreKey(right.value.key))
  }

  function SummaryAt(summaries: map<string, HttpExchangeSummary>, key: string): Option<HttpExchangeSummary> {
    if key in summaries then Some(summaries[key]) else None
  }

  /** The first place in the order whose occupant the summary comes before; the end when there is none. */
  function InsertionIndex(compare: Collation, order: seq<string>, summary: HttpExchangeSummary,
                          summaries: map<string, HttpExchangeSummary>): (i: nat)
    ensures i <= |order|
    ensures forall j :: 0 <= j < i ==> CompareArrival(compare, summary, SummaryAt(summaries, order[j])) >= 0
    ensures i < |order| ==> CompareArrival(compare, summary, SummaryAt(summaries, order[i])) < 0
  {
    if order == [] || CompareArrival(compare, summary, SummaryAt(summaries, order[0])) < 0 then 0
    else 1 + InsertionIndex(compare, order[1..], summary, summaries)
  }

  function InsertArrival(compare: Collation, order: seq<string>, key: string, summary: HttpExchangeSummary,
                         summaries: map<string, HttpExchangeSummary>): seq<string> {
    var i := InsertionIndex(compare, order, summary, summaries);
    order[..i] + [key] + order[i..]
  }

  function UpsertExchange(compare: Collation, state: Entities, exchange: HttpExchange): Entities {
    var key := StoreKey(KeyOf(exchange));
    var summary := SummaryFromExchange(exchange);
    if key in state.summaryById && state.summaryById[key].revision >= exchange.revision then state
    else Entities(
           state.summaryById[key := summary],
           state.detailById[key := exchange],
           if key in state.summaryById then state.arrivalOrder
           else InsertArrival(compare, state.arrivalOrder, key, summary, state.summaryById))
  }

  function RemoveExchange(state: Entities, key: string): Entities {
    if key !in state.summaryById then state
    else Entities(state.summaryById - {key}, state.detailById - {key}, Without(state.arrivalOrder, {key}))
  }

  /** A stable sort by arrival, as an insertion of each exchange after those it does not precede. */
  function SortByArrival(compare: Collation, exchanges: seq<HttpExchange>): seq<HttpExchange> {
    if exchanges == [] then []
    else
      var sorted := SortByArrival(compare, exchanges[..|exchanges| - 1]);
      InsertSorted(compare, sorted, exchanges[|exchanges| - 1])
  }

  function InsertSorted(compare: Collation, sorted: seq<HttpExchange>, exchange: HttpExchange): seq<HttpExchange> {
    if sorted == [] || CompareArrival(compare, SummaryFromExchange(sorted[|sorted| - 1]),
                                      Some(SummaryFromExchange(exchange))) <= 0
    then sorted + [exchange]
    else InsertSorted(compare, sorted[..|sorted| - 1], exchange) + [sorted[|sorted| - 1]]
  }

  function UpsertAll(compare: Collation, state: Entities, exchanges: seq<HttpExchange>): Entities {
    if exchanges == [] then state
    else UpsertExchange(compare, UpsertAll(compare, state, exchanges[..|exchanges| - 1]), exchanges[|exchanges| - 1])
  }

  function FromExchanges(compare: Collation, exchanges: seq<HttpExchange>): Entities {
    UpsertAll(compare, NO_ENTITIES, SortByArrival(compare, exchanges))
  }

  function Reduce(compare: Collation, state: Entities, delta: UiDelta): Entities {
    match delta
    case Upsert(exchange) => UpsertExchange(compare, state, exchange)
    case Remove(key, _) => RemoveExchange(state, StoreKey(key))
    case Reset(_, exchanges) => FromExchanges(compare, exchanges)
    case Status(_) => state
    case DetailInvalidated(_, _) => state
  }

  function Fold(compare: Collation, state: Entities, deltas: seq<UiDelta>): Entities {
    if deltas == [] then state
    else Reduce(compare, Fold(compare, state, deltas[..|deltas| - 1]), deltas[|deltas| - 1])
  }

  lemma {:induction false} FoldConcat(compare: Collation, state: Entities, a: seq<UiDelta>, b: seq<UiDelta>)
    ensures Fold(compare, state, a + b) == Fold(compare, Fold(compare, state, a), b)
  {
    hide Reduce;
    if b == [] {
      assert a + b == a;
    } else {
      FoldConcat(compare, state, a, b[..|b| - 1]);
      assert (a + b)[..|a + b| - 1] == a + b[..|b| - 1];
    }
  }

  // ---- shape of a state

  ghost predicate TotalOrder(compare: Collation) {
    && (forall a, b :: compare(a, b) == 0 <==> a == b)
    && (forall a, b :: compare(a, b) < 0 <==> compare(b, a) > 0)
    && (forall a, b, c :: compare(a, b) < 0 && compare(b, c) < 0 ==> compare(a, c) < 0)
  }

  /** Where each key belongs in the arrival order: by sequence, then by key. */
  ghost predicate Precedes(compare: Collation, details: map<string, HttpExchange>, a: string, b: string)
    requires a in details && b in details
  {
    || details[a].arrivalSequence < details[b].arrivalSequence
    || (details[a].arrivalSequence == details[b].arrivalSequence && compare(a, b) < 0)
  }

  /** Every entry sits under its own store key, and the summaries are those of the details. */
  ghost predicate Keyed(state: Entities) {
    && state.summaryById.Keys == state.detailById.Keys
    && (forall k :: k in state.detailById ==>
          k == StoreKey(KeyOf(state.detailById[k])) && state.summaryById[k] == SummaryOf(state.detailById[k]))
  }

  ghost predicate Listed(state: Entities) {
    && NoDup(state.arrivalOrder)
    && (forall k :: k in state.arrivalOrder <==> k in state.detailById)
  }

  ghost predicate WellFormed(state: Entities) {
    Keyed(state) && Listed(state)
  }

  ghost predicate Sorted(compare: Collation, state: Entities)
    requires Listed(state)
  {
    forall i, j :: 0 <= i < j < |state.arrivalOrder| ==>
      Precedes(compare, state.detailById, state.arrivalOrder[i], state.arrivalOrder[j])
  }

  lemma InsertListed(order: seq<string>, i: nat, key: string)
    requires NoDup(order) && i <= |order| && key !in order
    ensures NoDup(order[..i] + [key] + order[i..])
    ensures forall k :: k in order[..i] + [key] + order[i..] <==> k in order || k == key
  {
    var longer := order[..i] + [key] + order[i..];
    assert order == order[..i] + order[i..];
    forall a, b | 0 <= a < b < |longer| ensures longer[a] != longer[b] {
      assert longer[a] == if a < i then order[a] else if a == i then key else order[a - 1];
      assert longer[b] == if b < i then order[b] else if b == i then key else order[b - 1];
    }
  }

  lemma UpsertWellFormed(compare: Collation, state: Entities, exchange: HttpExchange)
    requires WellFormed(state)
    ensures WellFormed(UpsertExchange(compare, state, exchange))
  {
    hide SummaryOf, KeyOf, StoreKey, InsertArrival, WellFormed;
    var key := StoreKey(KeyOf(exchange));
    SameRevision(exchange);
    if key in state.summaryById {
      ReplaceWellFormed(state, key, exchange);
    } else {
      InsertWellFormed(compare, state, key, exchange);
    }
  }

  lemma SameRevision(exchange: HttpExchange)
    ensures SummaryOf(exchange).revision == exchange.revision
    ensures SummaryOf(exchange).arrivalSequence == exchange.arrivalSequence
    ensures SummaryOf(exchange).key == KeyOf(exchange)
  {
  }

  lemma ReplaceWellFormed(state: Entities, key: string, exchange: HttpExchange)
    requires WellFormed(state) && key in state.summaryById && key == StoreKey(KeyOf(exchange))
    ensures WellFormed(Entities(state.summaryById[key := SummaryOf(exchange)], state.detailById[key := exchange],
                                state.arrivalOrder))
  {
    hide SummaryOf, KeyOf, StoreKey;
  }

  lemma InsertWellFormed(compare: Collation, state: Entities, key: string, exchange: HttpExchange)
    requires WellFormed(state) && key !in state.summaryById && key == StoreKey(KeyOf(exchange))
    ensures WellFormed(Entities(state.summaryById[key := SummaryOf(exchange)], state.detailById[key := exchange],
                                InsertArrival(compare, state.arrivalOrder, key, SummaryOf(exchange),
                                              state.summaryById)))
  {
    hide SummaryOf, KeyOf, StoreKey, InsertionIndex;
    assert key !in state.detailById;
    InsertListed(state.arrivalOrder,
                 InsertionIndex(compare, state.arrivalOrder, SummaryOf(exchange), state.summaryById), key);
  }

  lemma RemoveWellFormed(state: Entities, key: string)
    requires WellFormed(state)
    ensures WellFormed(RemoveExchange(state, key))
  {
    hide SummaryOf, KeyOf, StoreKey;
    WithoutNoDup(state.arrivalOrder, {key});
    forall k ensures k in Without(state.arrivalOrder, {key}) <==> k in state.arrivalOrder && k != key {
      WithoutMembers(state.arrivalOrder, {key}, k);
    }
  }

  lemma {:induction false} UpsertAllWellFormed(compare: Collation, state: Entities, exchanges: seq<HttpExchange>)
    requires WellFormed(state)
    ensures WellFormed(UpsertAll(compare, state, exchanges))
  {
    hide UpsertExchange, WellFormed;
    if exchanges != [] {
      UpsertAllWellFormed(compare, state, exchanges[..|exchanges| - 1]);
      UpsertWellFormed(compare, UpsertAll(compare, state, exchanges[..|exchanges| - 1]), exchanges[|exchanges| - 1]);
    }
  }

  lemma NothingWellFormed(compare: Collation)
    ensures WellFormed(NO_ENTITIES) && Sorted(compare, NO_ENTITIES)
  {
  }

  lemma ReduceWellFormed(compare: Collation, state: Entities, delta: UiDelta)
    requires WellFormed(state)
    ensures WellFormed(Reduce(compare, state, delta))
  {
    hide WellFormed, UpsertExchange, RemoveExchange, StoreKey;
    NothingWellFormed(compare);
    match delta
    case Upsert(exchange) => UpsertWellFormed(compare, state, exchange);
    case Remove(key, _) => RemoveWellFormed(state, StoreKey(key));
    case Reset(_, exchanges) => UpsertAllWellFormed(compare, NO_ENTITIES, SortByArrival(compare, exchanges));
    case Status(_) =>
    case DetailInvalidated(_, _) =>
  }

  lemma {:induction false} FoldWellFormed(compare: Collation, state: Entities, deltas: seq<UiDelta>)
    requires WellFormed(state)
    ensures WellFormed(Fold(compare, state, deltas))
  {
    hide WellFormed, Reduce;
    if deltas != [] {
      FoldWellFormed(compare, state, deltas[..|deltas| - 1]);
      ReduceWellFormed(compare, Fold(compare, state, deltas[..|deltas| - 1]), deltas[|deltas| - 1]);
    }
  }

  // ---- one key at a time

  function Cell(state: Entities, key: string): Option<HttpExchange> {
    if key in state.detailById then Some(state.detailById[key]) else None
  }

  function DeltaKey(delta: UiDelta): Option<string> {
    match delta
    case Upsert(exchange) => Some(StoreKey(KeyOf(exchange)))
    case Remove(key, _) => Some(StoreKey(key))
    case DetailInvalidated(key, _) => Some(StoreKey(key))
    case Reset(_, _) => None
    case Status(_) => None
  }

  /** What a delta does to the one entry it names: the revision guard, the removal, or nothing. */
  function StepCell(cell: Option<HttpExchange>, delta: UiDelta): Option<HttpExchange> {
    match delta
    case Upsert(exchange) => if cell.Some? && cell.value.revision >= exchange.revision then cell else Some(exchange)
    case Remove(_, _) => None
    case _ => cell
  }

  lemma ReduceCell(compare: Collation, state: Entities, delta: UiDelta, key: string)
    requires WellFormed(state) && !delta.Reset?
    ensures Cell(Reduce(compare, state, delta), key) ==
      if DeltaKey(delta) == Some(key) then StepCell(Cell(state, key), delta) else Cell(state, key)
  {
    hide KeyOf, StoreKey, InsertArrival;
  }

  /** Two sorted states with the same details are the same state. */
  lemma SortedStatesAgree(compare: Collation, a: Entities, b: Entities)
    requires TotalOrder(compare)
    requires WellFormed(a) && WellFormed(b) && Sorted(compare, a) && Sorted(compare, b)
    requires forall k :: Cell(a, k) == Cell(b, k)
    ensures a == b
  {
    hide SummaryOf, KeyOf, StoreKey;
    SameDetails(a, b);
    SortedListsAgree(compare, a.detailById, a.arrivalOrder, b.arrivalOrder);
    assert forall k :: k in a.summaryById ==> a.summaryById[k] == b.summaryById[k];
    assert a.summaryById == b.summaryById;
  }

  lemma SameDetails(a: Entities, b: Entities)
    requires forall k :: Cell(a, k) == Cell(b, k)
    ensures a.detailById == b.detailById
  {
    forall k ensures k in a.detailById <==> k in b.detailById {
      assert Cell(a, k) == Cell(b, k);
    }
    forall k | k in a.detailById ensures a.detailById[k] == b.detailById[k] {
      assert Cell(a, k) == Cell(b, k);
    }
  }

  ghost predicate SortedList(compare: Collation, details: map<string, HttpExchange>, order: seq<string>)
    requires forall k :: k in order ==> k in details
  {
    forall i, j :: 0 <= i < j < |order| ==> Precedes(compare, details, order[i], order[j])
  }

  lemma {:induction false} SortedListsAgree(compare: Collation, details: map<string, HttpExchange>, a: seq<string>,
                                            b: seq<string>)
    requires TotalOrder(compare) && NoDup(a) && NoDup(b)
    requires forall k :: k in a ==> k in details
    requires forall k :: k in a <==> k in b
    requires SortedList(compare, details, a) && SortedList(compare, details, b)
    ensures a == b
  {
    if b != [] {
      assert b[0] in b;
    }
    if a != [] {
      assert a[0] in b;
      assert b[0] in a;
      FirstIsLeast(compare, details, a, b[0]);
      FirstIsLeast(compare, details, b, a[0]);
      assert a[0] == b[0];
      forall k ensures k in a[1..] <==> k in b[1..] {
        assert k in a[1..] <==> k in a && k != a[0];
        assert k in b[1..] <==> k in b && k != b[0];
      }
      SortedListsAgree(compare, details, a[1..], b[1..]);
      assert a == [a[0]] + a[1..] && b == [b[0]] + b[1..];
    }
  }

  lemma FirstIsLeast(compare: Collation, details: map<string, HttpExchange>, order: seq<string>, key: string)
    requires forall k :: k in order ==> k in details
    requires SortedList(compare, details, order) && key in order
    ensures key == order[0] || Precedes(compare, details, order[0], key)
  {
  }
}
