/** Coalescing a batch: one delta per key, the last, and when that is as good as applying them all. */
module Coalescing {
  import opened Wrappers
  import opened Sequences
  import opened CaptureModel
  import opened CaptureEntities

  datatype Slot = KeySlot(key: string) | StatusSlot | ResetSlot

  /** Deltas of one slot replace each other. */
  function SlotOf(delta: UiDelta): Slot {
    match delta
    case Reset(_, _) => ResetSlot
    case Status(_) => StatusSlot
    case Upsert(exchange) => KeySlot(StoreKey(KeyOf(exchange)))
    case Remove(key, _) => KeySlot(StoreKey(key))
    case DetailInvalidated(key, _) => KeySlot(StoreKey(key))
  }

  function IndexOf(deltas: seq<UiDelta>, slot: Slot): (r: Option<nat>)
    ensures r.Some? ==> r.value < |deltas| && SlotOf(deltas[r.value]) == slot
    ensures r.None? ==> forall i :: 0 <= i < |deltas| ==> SlotOf(deltas[i]) != slot
  {
    if deltas == [] then None
    else if SlotOf(deltas[0]) == slot then Some(0)
    else
      var rest := IndexOf(deltas[1..], slot);
      if rest.Some? then Some(rest.value + 1) else None
  }

  /** Adds one delta to a coalesced batch: a reset drops it all, another takes its slot's place or the end. */
  function Coalesced(result: seq<UiDelta>, delta: UiDelta): seq<UiDelta> {
    if delta.Reset? then [delta]
    else
      var at := IndexOf(result, SlotOf(delta));
      if at.Some? then result[at.value := delta] else result + [delta]
  }

  function Coalesce(deltas: seq<UiDelta>): seq<UiDelta> {
    if deltas == [] then [] else Coalesced(Coalesce(deltas[..|deltas| - 1]), deltas[|deltas| - 1])
  }

  predicate ResetFree(deltas: seq<UiDelta>) {
    forall i :: 0 <= i < |deltas| ==> !deltas[i].Reset?
  }

  ghost predicate Distinct(deltas: seq<UiDelta>) {
    forall i, j :: 0 <= i < j < |deltas| ==> SlotOf(deltas[i]) != SlotOf(deltas[j])
  }

  /** The last delta of a batch in a slot. */
  function Last(deltas: seq<UiDelta>, slot: Slot): Option<UiDelta> {
    if deltas == [] then None
    else if SlotOf(deltas[|deltas| - 1]) == slot then Some(deltas[|deltas| - 1])
    else Last(deltas[..|deltas| - 1], slot)
  }

  lemma {:induction false} LastOfDistinct(deltas: seq<UiDelta>, i: nat)
    requires Distinct(deltas) && i < |deltas|
    ensures Last(deltas, SlotOf(deltas[i])) == Some(deltas[i])
  {
    if i < |deltas| - 1 {
      LastOfDistinct(deltas[..|deltas| - 1], i);
    }
  }

  lemma {:induction false} LastOfAbsent(deltas: seq<UiDelta>, slot: Slot)
    requires forall i :: 0 <= i < |deltas| ==> SlotOf(deltas[i]) != slot
    ensures Last(deltas, slot).None?
  {
    if deltas != [] {
      LastOfAbsent(deltas[..|deltas| - 1], slot);
    }
  }

  lemma LastOf(deltas: seq<UiDelta>, slot: Slot)
    requires Distinct(deltas)
    ensures Last(deltas, slot) == match IndexOf(deltas, slot) case Some(i) => Some(deltas[i]) case None => None
  {
    hide SlotOf;
    match IndexOf(deltas, slot)
    case Some(i) => LastOfDistinct(deltas, i);
    case None => LastOfAbsent(deltas, slot);
  }

  /**
   What coalescing keeps: after a batch without resets every slot occurs once, filled by the slot's
   last delta of the batch.
   */
  lemma {:induction false} CoalesceKeepsLast(deltas: seq<UiDelta>, slot: Slot)
    requires ResetFree(deltas)
    ensures Distinct(Coalesce(deltas)) && ResetFree(Coalesce(deltas))
    ensures Last(Coalesce(deltas), slot) == Last(deltas, slot)
  {
    hide SlotOf;
    if deltas != [] {
      var front, delta := deltas[..|deltas| - 1], deltas[|deltas| - 1];
      CoalesceKeepsLast(front, slot);
      var result := Coalesce(front);
      var next := Coalesced(result, delta);
      LastOf(result, slot);
      CoalescedDistinct(result, delta);
      LastOf(next, slot);
    }
  }

  lemma CoalescedDistinct(result: seq<UiDelta>, delta: UiDelta)
    requires Distinct(result) && ResetFree(result) && !delta.Reset?
    ensures var next := Coalesced(result, delta);
      && Distinct(next) && ResetFree(next)
      && (forall i :: 0 <= i < |result| ==> i < |next| && SlotOf(next[i]) == SlotOf(result[i]))
      && (forall slot :: Last(next, slot) == if slot == SlotOf(delta) then Some(delta) else Last(result, slot))
  {
    hide SlotOf, Last;
    var next := Coalesced(result, delta);
    assert Distinct(next);
    forall slot ensures Last(next, slot) == if slot == SlotOf(delta) then Some(delta) else Last(result, slot) {
      LastOf(result, slot);
      LastOf(next, slot);
      var i, j, at := IndexOf(result, slot), IndexOf(next, slot), IndexOf(result, SlotOf(delta));
      var place := if at.Some? then at.value else |result|;
      assert next[place] == delta;
      assert forall m :: 0 <= m < |next| && m != place ==> m < |result| && next[m] == result[m];
      if slot == SlotOf(delta) {
        assert j.Some? && SlotOf(next[j.value]) == SlotOf(next[place]);
      } else if i.Some? {
        assert next[i.value] == result[i.value];
        assert j.Some? && SlotOf(next[j.value]) == SlotOf(next[i.value]);
      }
    }
  }

  /** A reset starts the coalesced batch over. */
  lemma {:induction false} CoalesceAfterReset(before: seq<UiDelta>, reset: UiDelta, after: seq<UiDelta>)
    requires reset.Reset? && ResetFree(after)
    ensures Coalesce(before + [reset] + after) == [reset] + Coalesce(after)
  {
    hide SlotOf, Coalesced;
    var all := before + [reset] + after;
    if after == [] {
      assert all == before + [reset];
      assert all[..|all| - 1] == before;
      ResetStartsOver(Coalesce(before), reset);
      assert [reset] + Coalesce([]) == [reset];
    } else {
      var n := |after| - 1;
      assert all[..|all| - 1] == before + [reset] + after[..n] && all[|all| - 1] == after[n];
      CoalesceAfterReset(before, reset, after[..n]);
      IndexAfter(reset, Coalesce(after[..n]), SlotOf(after[n]), after[n]);
    }
  }

  lemma ResetStartsOver(result: seq<UiDelta>, reset: UiDelta)
    requires reset.Reset?
    ensures Coalesced(result, reset) == [reset]
  {
  }

  lemma IndexAfter(reset: UiDelta, result: seq<UiDelta>, slot: Slot, delta: UiDelta)
    requires reset.Reset? && !delta.Reset? && slot == SlotOf(delta)
    ensures Coalesced([reset] + result, delta) == [reset] + Coalesced(result, delta)
  {
    var all := [reset] + result;
    assert SlotOf(all[0]) == ResetSlot != slot;
    assert all[1..] == result;
  }

  // ---- the fold of a batch, one key at a time

  function FoldCell(cell: Option<HttpExchange>, deltas: seq<UiDelta>, key: string): Option<HttpExchange> {
    if deltas == [] then cell
    else
      var before := FoldCell(cell, deltas[..|deltas| - 1], key);
      var delta := deltas[|deltas| - 1];
      if SlotOf(delta) == KeySlot(key) then StepCell(before, delta) else before
  }

  lemma {:induction false} FoldIsCellwise(compare: Collation, state: Entities, deltas: seq<UiDelta>, key: string)
    requires WellFormed(state) && ResetFree(deltas)
    ensures Cell(Fold(compare, state, deltas), key) == FoldCell(Cell(state, key), deltas, key)
  {
    hide WellFormed, Reduce, StepCell;
    if deltas != [] {
      var front, delta := deltas[..|deltas| - 1], deltas[|deltas| - 1];
      FoldIsCellwise(compare, state, front, key);
      FoldWellFormed(compare, state, front);
      ReduceCell(compare, Fold(compare, state, front), delta, key);
    }
  }

  lemma {:induction false} UntouchedCell(cell: Option<HttpExchange>, deltas: seq<UiDelta>, key: string)
    requires forall i :: 0 <= i < |deltas| ==> SlotOf(deltas[i]) != KeySlot(key)
    ensures FoldCell(cell, deltas, key) == cell
  {
    if deltas != [] {
      UntouchedCell(cell, deltas[..|deltas| - 1], key);
    }
  }

  function StepLast(cell: Option<HttpExchange>, deltas: seq<UiDelta>, key: string): Option<HttpExchange> {
    match Last(deltas, KeySlot(key))
    case None => cell
    case Some(delta) => StepCell(cell, delta)
  }

  /** In a batch with one delta per slot, folding a key is applying its one delta. */
  lemma {:induction false} DistinctFold(cell: Option<HttpExchange>, deltas: seq<UiDelta>, key: string)
    requires Distinct(deltas)
    ensures FoldCell(cell, deltas, key) == StepLast(cell, deltas, key)
  {
    hide SlotOf, StepCell;
    if deltas != [] {
      var front, delta := deltas[..|deltas| - 1], deltas[|deltas| - 1];
      if SlotOf(delta) == KeySlot(key) {
        UntouchedCell(cell, front, key);
      } else {
        DistinctFold(cell, front, key);
      }
    }
  }

  /** So for any batch without resets, the coalesced fold of a key is its last delta alone. */
  lemma CoalescedCell(compare: Collation, state: Entities, deltas: seq<UiDelta>, key: string)
    requires WellFormed(state) && ResetFree(deltas)
    ensures Cell(Fold(compare, state, Coalesce(deltas)), key) == StepLast(Cell(state, key), deltas, key)
  {
    hide WellFormed, SlotOf, StepCell;
    CoalesceKeepsLast(deltas, KeySlot(key));
    FoldIsCellwise(compare, state, Coalesce(deltas), key);
    DistinctFold(Cell(state, key), Coalesce(deltas), key);
  }

  // ---- when one delta is enough

  /** The first upsert of a key at a revision. */
  function FirstAt(deltas: seq<UiDelta>, key: string, revision: nat): (first: Option<HttpExchange>)
    ensures first.Some? ==> first.value.revision == revision
  {
    if deltas == [] then None
    else if SlotOf(deltas[0]) == KeySlot(key) && deltas[0].Upsert? && deltas[0].exchange.revision == revision
      then Some(deltas[0].exchange)
    else FirstAt(deltas[1..], key, revision)
  }

  /** Nothing for the key before an upsert takes it away or outranks it, and what ties with it is it. */
  predicate Outranks(front: seq<UiDelta>, key: string, exchange: HttpExchange) {
    && (forall i :: 0 <= i < |front| && SlotOf(front[i]) == KeySlot(key) ==>
          !front[i].Remove? && (front[i].Upsert? ==> front[i].exchange.revision <= exchange.revision))
    && FirstAt(front, key, exchange.revision) in {None, Some(exchange)}
  }

  predicate OnlyInvalidated(front: seq<UiDelta>, key: string) {
    forall i :: 0 <= i < |front| && SlotOf(front[i]) == KeySlot(key) ==> front[i].DetailInvalidated?
  }

  /** The last delta of a key says all that the deltas before it of the same key did. */
  predicate Stands(front: seq<UiDelta>, delta: UiDelta, key: string) {
    match delta
    case Remove(_, _) => true
    case DetailInvalidated(_, _) => OnlyInvalidated(front, key)
    case Upsert(exchange) => Outranks(front, key, exchange)
    case _ => true
  }

  predicate LastWordStands(deltas: seq<UiDelta>, key: string) {
    if deltas == [] then true
    else
      var front, delta := deltas[..|deltas| - 1], deltas[|deltas| - 1];
      if SlotOf(delta) == KeySlot(key) then Stands(front, delta, key) else LastWordStands(front, key)
  }

  lemma {:induction false} FirstAtAppends(deltas: seq<UiDelta>, delta: UiDelta, key: string, revision: nat)
    ensures FirstAt(deltas + [delta], key, revision) ==
      if FirstAt(deltas, key, revision).Some? then FirstAt(deltas, key, revision)
      else if SlotOf(delta) == KeySlot(key) && delta.Upsert? && delta.exchange.revision == revision
        then Some(delta.exchange)
      else None
  {
    hide SlotOf;
    if deltas == [] {
      assert [delta][1..] == [];
    } else {
      assert (deltas + [delta])[1..] == deltas[1..] + [delta];
      FirstAtAppends(deltas[1..], delta, key, revision);
    }
  }

  /** Nothing for the key in the batch takes it away or exceeds a revision. */
  predicate Capped(deltas: seq<UiDelta>, key: string, revision: nat) {
    forall i :: 0 <= i < |deltas| && SlotOf(deltas[i]) == KeySlot(key) ==>
      !deltas[i].Remove? && (deltas[i].Upsert? ==> deltas[i].exchange.revision <= revision)
  }

  /**
   What a capped batch leaves of a key: an entry that already reached the revision, the batch's first
   upsert at that revision, or something older.
   */
  lemma {:induction false} CappedFold(cell: Option<HttpExchange>, deltas: seq<UiDelta>, key: string, revision: nat)
    requires ResetFree(deltas) && Capped(deltas, key, revision)
    ensures var after := FoldCell(cell, deltas, key);
      if cell.Some? && cell.value.revision >= revision then after == cell
      else if FirstAt(deltas, key, revision).Some? then after == FirstAt(deltas, key, revision)
      else after.None? || after.value.revision < revision
  {
    hide SlotOf;
    if deltas != [] {
      var front, delta := deltas[..|deltas| - 1], deltas[|deltas| - 1];
      assert deltas == front + [delta];
      CappedFold(cell, front, key, revision);
      FirstAtAppends(front, delta, key, revision);
    }
  }

  lemma {:induction false} IdleCell(cell: Option<HttpExchange>, deltas: seq<UiDelta>, key: string)
    requires ResetFree(deltas) && OnlyInvalidated(deltas, key)
    ensures FoldCell(cell, deltas, key) == cell
  {
    hide SlotOf;
    if deltas != [] {
      IdleCell(cell, deltas[..|deltas| - 1], key);
    }
  }

  /** Where the last word of a key stands, folding the key is applying its last delta. */
  lemma {:induction false} StandingFold(cell: Option<HttpExchange>, deltas: seq<UiDelta>, key: string)
    requires ResetFree(deltas) && LastWordStands(deltas, key)
    ensures FoldCell(cell, deltas, key) == StepLast(cell, deltas, key)
  {
    hide SlotOf;
    if deltas != [] {
      var front, delta := deltas[..|deltas| - 1], deltas[|deltas| - 1];
      if SlotOf(delta) != KeySlot(key) {
        StandingFold(cell, front, key);
      } else {
        NamedKeyIs(delta, key);
        if delta.Upsert? {
          CappedFold(cell, front, key, delta.exchange.revision);
        } else if delta.DetailInvalidated? {
          IdleCell(cell, front, key);
        }
      }
    }
  }

  // ---- and when it is not

  /** A batch with a removal of the key leaves the same whatever the key held. */
  lemma {:induction false} RemovalForgets(a: Option<HttpExchange>, b: Option<HttpExchange>, deltas: seq<UiDelta>,
                                          key: string, at: nat)
    requires ResetFree(deltas) && at < |deltas| && SlotOf(deltas[at]) == KeySlot(key) && deltas[at].Remove?
    ensures FoldCell(a, deltas, key) == FoldCell(b, deltas, key)
  {
    hide SlotOf;
    if at < |deltas| - 1 {
      RemovalForgets(a, b, deltas[..|deltas| - 1], key, at);
    }
  }

  /** Without removals a key never falls below an upsert it has seen. */
  lemma {:induction false} NeverBelow(cell: Option<HttpExchange>, deltas: seq<UiDelta>, key: string, at: nat)
    requires ResetFree(deltas) && at < |deltas| && SlotOf(deltas[at]) == KeySlot(key) && deltas[at].Upsert?
    requires forall i :: 0 <= i < |deltas| && SlotOf(deltas[i]) == KeySlot(key) ==> !deltas[i].Remove?
    ensures var after := FoldCell(cell, deltas, key);
      after.Some? && deltas[at].exchange.revision <= after.value.revision
  {
    hide SlotOf;
    if at < |deltas| - 1 {
      NeverBelow(cell, deltas[..|deltas| - 1], key, at);
    }
  }

  /** An exchange that the interface could hold under the key. */
  function SampleExchange(key: ExchangeKey, revision: nat, sequence: nat): (e: HttpExchange)
    ensures KeyOf(e) == key && e.revision == revision && e.arrivalSequence == sequence
  {
    HttpExchange(1, key.exchangeId, "", revision, sequence, Source(key.sourceInstanceId, "", 1, ""), None,
                 Lifecycle(InFlight, "", "", ""), HttpRequest("", "", None, None, None, None, ""), None,
                 Timing(None, ""),
                 Sizes(None, ""), None, None, "", [], map[])
  }

  function NamedKey(delta: UiDelta): ExchangeKey
    requires delta.Upsert? || delta.Remove? || delta.DetailInvalidated?
  {
    if delta.Upsert? then KeyOf(delta.exchange) else delta.key
  }

  lemma NamedKeyIs(delta: UiDelta, key: string)
    requires SlotOf(delta) == KeySlot(key)
    ensures (delta.Upsert? || delta.Remove? || delta.DetailInvalidated?) && StoreKey(NamedKey(delta)) == key
  {
  }

  /** Two entries of a key at a revision or above, which no single outcome can both be. */
  lemma OneOfTwoDiffers(outcome: Option<HttpExchange>, key: ExchangeKey, revision: nat, sequence: nat)
    returns (cell: Option<HttpExchange>)
    ensures cell.Some? && KeyOf(cell.value) == key && cell.value.revision >= revision
      && cell.value.arrivalSequence == sequence
    ensures outcome != cell
  {
    var one, two := SampleExchange(key, revision, sequence), SampleExchange(key, revision + 1, sequence);
    cell := if outcome == Some(one) then Some(two) else Some(one);
  }

  /** The cell is empty or holds an entry of the key, at the given sequence. */
  ghost predicate Fitting(cell: Option<HttpExchange>, key: string, sequence: nat) {
    cell.Some? ==> StoreKey(KeyOf(cell.value)) == key && cell.value.arrivalSequence == sequence
  }

  lemma InvalidationFails(front: seq<UiDelta>, key: string, sequence: nat) returns (cell: Option<HttpExchange>)
    requires ResetFree(front) && !OnlyInvalidated(front, key)
    ensures Fitting(cell, key, sequence) && FoldCell(cell, front, key) != cell
    decreases |front|
  {
    hide SlotOf, StoreKey, KeyOf;
    var n := |front| - 1;
    var before, delta := front[..n], front[n];
    assert front == before + [delta];
    if SlotOf(delta) == KeySlot(key) && delta.Upsert? {
      cell := None;
    } else if SlotOf(delta) == KeySlot(key) && delta.Remove? {
      NamedKeyIs(delta, key);
      cell := Some(SampleExchange(NamedKey(delta), 0, sequence));
    } else {
      if SlotOf(delta) == KeySlot(key) {
        NamedKeyIs(delta, key);
      }
      assert forall i :: 0 <= i < n ==> before[i] == front[i];
      assert !OnlyInvalidated(before, key);
      cell := InvalidationFails(before, key, sequence);
    }
  }

  lemma UpsertFails(front: seq<UiDelta>, key: string, exchange: HttpExchange, sequence: nat)
    returns (cell: Option<HttpExchange>)
    requires ResetFree(front) && !Outranks(front, key, exchange) && StoreKey(KeyOf(exchange)) == key
    ensures Fitting(cell, key, sequence)
    ensures StepCell(FoldCell(cell, front, key), Upsert(exchange)) != StepCell(cell, Upsert(exchange))
  {
    hide SlotOf, StoreKey, KeyOf;
    if i :| 0 <= i < |front| && SlotOf(front[i]) == KeySlot(key) && front[i].Remove? {
      var outcome := StepCell(FoldCell(None, front, key), Upsert(exchange));
      cell := OneOfTwoDiffers(outcome, KeyOf(exchange), exchange.revision, sequence);
      RemovalForgets(cell, None, front, key, i);
    } else if i :| 0 <= i < |front| && SlotOf(front[i]) == KeySlot(key)
                   && front[i].Upsert? && front[i].exchange.revision > exchange.revision {
      cell := None;
      NeverBelow(cell, front, key, i);
    } else {
      cell := None;
      CappedFold(cell, front, key, exchange.revision);
    }
  }

  /** Where the last word of a key does not stand, some entry of the key is folded differently. */
  lemma {:induction false} Disagreement(deltas: seq<UiDelta>, key: string, sequence: nat)
    returns (cell: Option<HttpExchange>)
    requires ResetFree(deltas) && !LastWordStands(deltas, key)
    ensures Fitting(cell, key, sequence) && FoldCell(cell, deltas, key) != StepLast(cell, deltas, key)
  {
    hide SlotOf, Outranks, OnlyInvalidated;
    var front, delta := deltas[..|deltas| - 1], deltas[|deltas| - 1];
    if SlotOf(delta) != KeySlot(key) {
      cell := Disagreement(front, key, sequence);
    } else {
      NamedKeyIs(delta, key);
      if delta.Upsert? {
        cell := UpsertFails(front, key, delta.exchange, sequence);
      } else {
        cell := InvalidationFails(front, key, sequence);
      }
    }
  }

  /** Exactly when the last delta of a key is as good as all of its deltas, whatever the key held. */
  lemma LastWordIff(deltas: seq<UiDelta>, key: string)
    requires ResetFree(deltas)
    ensures (forall cell :: FoldCell(cell, deltas, key) == StepLast(cell, deltas, key)) <==> LastWordStands(deltas, key)
  {
    hide LastWordStands, FoldCell, StepLast;
    if LastWordStands(deltas, key) {
      forall cell ensures FoldCell(cell, deltas, key) == StepLast(cell, deltas, key) {
        StandingFold(cell, deltas, key);
      }
    } else {
      var cell := Disagreement(deltas, key, 0);
    }
  }

  /**
   Per key: upserts carry increasing revisions, none follows a removal, and no detail invalidation
   follows an upsert or a removal.
   */
  ghost predicate Progressive(deltas: seq<UiDelta>) {
    forall i, j :: 0 <= i < j < |deltas| && SlotOf(deltas[i]) == SlotOf(deltas[j]) ==>
      && (deltas[j].Upsert? ==>
          !deltas[i].Remove? && (deltas[i].Upsert? ==> deltas[i].exchange.revision < deltas[j].exchange.revision))
      && (deltas[j].DetailInvalidated? ==> deltas[i].DetailInvalidated?)
  }

  lemma {:induction false} NothingAt(deltas: seq<UiDelta>, key: string, revision: nat)
    requires forall i :: 0 <= i < |deltas| && SlotOf(deltas[i]) == KeySlot(key) && deltas[i].Upsert? ==>
      deltas[i].exchange.revision < revision
    ensures FirstAt(deltas, key, revision).None?
  {
    hide SlotOf;
    if deltas != [] {
      NothingAt(deltas[1..], key, revision);
    }
  }

  /** In a progressive batch the last word of every key stands. */
  lemma {:induction false} ProgressiveStands(deltas: seq<UiDelta>, key: string)
    requires ResetFree(deltas) && Progressive(deltas)
    ensures LastWordStands(deltas, key)
  {
    hide StoreKey, KeyOf;
    if deltas != [] {
      var front, delta := deltas[..|deltas| - 1], deltas[|deltas| - 1];
      if SlotOf(delta) != KeySlot(key) {
        ProgressiveStands(front, key);
      } else if delta.Upsert? {
        NothingAt(front, key, delta.exchange.revision);
      }
    }
  }

  /** So folding a key of a progressive batch is applying its last delta. */
  lemma ProgressiveFold(cell: Option<HttpExchange>, deltas: seq<UiDelta>, key: string)
    requires ResetFree(deltas) && Progressive(deltas)
    ensures FoldCell(cell, deltas, key) == StepLast(cell, deltas, key)
  {
    ProgressiveStands(deltas, key);
    StandingFold(cell, deltas, key);
  }

  /** Per key one arrival sequence, shared by all its upserts and any entry already held. */
  ghost predicate OneSequence(details: map<string, HttpExchange>, deltas: seq<UiDelta>) {
    && (forall i, j :: 0 <= i < j < |deltas| && deltas[i].Upsert? && deltas[j].Upsert?
                       && SlotOf(deltas[i]) == SlotOf(deltas[j]) ==>
          deltas[i].exchange.arrivalSequence == deltas[j].exchange.arrivalSequence)
    && (forall i :: 0 <= i < |deltas| && deltas[i].Upsert? && StoreKey(KeyOf(deltas[i].exchange)) in details ==>
          details[StoreKey(KeyOf(deltas[i].exchange))].arrivalSequence == deltas[i].exchange.arrivalSequence)
  }

  // ---- arrival order under a fold

  /**
   The arrival order restricted to what is settled: whatever stands before a settled key precedes it.
   With every key settled this is the order being sorted.
   */
  ghost predicate SortedOn(compare: Collation, details: map<string, HttpExchange>, order: seq<string>,
                           settled: iset<string>)
    requires forall k :: k in order ==> k in details
  {
    forall i, j :: 0 <= i < j < |order| && order[j] in settled ==> Precedes(compare, details, order[i], order[j])
  }

  ghost predicate Settled(compare: Collation, state: Entities, settled: iset<string>)
    requires Listed(state)
  {
    SortedOn(compare, state.detailById, state.arrivalOrder, settled)
  }

  ghost const ALL := iset k: string | true

  lemma AllSettled(compare: Collation, state: Entities)
    requires Listed(state)
    ensures Sorted(compare, state) <==> Settled(compare, state, ALL)
  {
    hide Precedes;
  }

  /**
   An upsert may replace a held entry by one that arrived no later, and a settled one only by one at the
   same sequence.
   */
  ghost predicate MovesBack(held: Option<HttpExchange>, exchange: HttpExchange, isSettled: bool) {
    held.Some? ==>
      && exchange.arrivalSequence <= held.value.arrivalSequence
      && (isSettled ==> exchange.arrivalSequence == held.value.arrivalSequence)
  }

  lemma UpsertSettled(compare: Collation, state: Entities, exchange: HttpExchange, settled: iset<string>)
    requires TotalOrder(compare) && WellFormed(state) && Settled(compare, state, settled)
    requires var key := StoreKey(KeyOf(exchange)); MovesBack(Cell(state, key), exchange, key in settled)
    ensures WellFormed(UpsertExchange(compare, state, exchange))
    ensures Settled(compare, UpsertExchange(compare, state, exchange), settled)
  {
    UpsertWellFormed(compare, state, exchange);
    var key := StoreKey(KeyOf(exchange));
    var next := UpsertExchange(compare, state, exchange);
    SameRevision(exchange);
    hide WellFormed, StoreKey, KeyOf, TotalOrder;
    if key in state.detailById {
      SameOrderSettled(compare, state, key, exchange, settled);
    } else {
      InsertSettledOrder(compare, state, key, exchange, settled);
    }
  }

  lemma SameOrderSettled(compare: Collation, state: Entities, key: string, exchange: HttpExchange,
                         settled: iset<string>)
    requires WellFormed(state) && Settled(compare, state, settled) && key in state.detailById
    requires MovesBack(Cell(state, key), exchange, key in settled)
    ensures SortedOn(compare, state.detailById[key := exchange], state.arrivalOrder, settled)
  {
  }

  lemma InsertSettledOrder(compare: Collation, state: Entities, key: string, exchange: HttpExchange,
                           settled: iset<string>)
    requires TotalOrder(compare) && WellFormed(state) && Settled(compare, state, settled) && key !in state.detailById
    requires key == StoreKey(KeyOf(exchange))
    ensures var order := InsertArrival(compare, state.arrivalOrder, key, SummaryOf(exchange), state.summaryById);
      && (forall k :: k in order ==> k in state.detailById[key := exchange])
      && SortedOn(compare, state.detailById[key := exchange], order, settled)
  {
    hide StoreKey, KeyOf, SummaryOf, TotalOrder, Precedes;
    var order, details := state.arrivalOrder, state.detailById[key := exchange];
    var i := InsertionIndex(compare, order, SummaryOf(exchange), state.summaryById);
    InsertListed(order, i, key);
    forall j | 0 <= j < |order|
      ensures order[j] in details
      ensures j < i ==> Precedes(compare, details, order[j], key)
      ensures j == i ==> Precedes(compare, details, key, order[j])
    {
      InsertionSplits(compare, state, key, exchange, j);
    }
    SettledElsewhere(compare, state, key, exchange, settled);
    InsertKeepsSettled(compare, details, order, i, key, settled);
  }

  lemma SettledElsewhere(compare: Collation, state: Entities, key: string, exchange: HttpExchange,
                         settled: iset<string>)
    requires Listed(state) && Settled(compare, state, settled) && key !in state.detailById
    ensures forall k :: k in state.arrivalOrder ==> k in state.detailById[key := exchange]
    ensures SortedOn(compare, state.detailById[key := exchange], state.arrivalOrder, settled)
  {
    forall a, b | 0 <= a < b < |state.arrivalOrder| && state.arrivalOrder[b] in settled
      ensures Precedes(compare, state.detailById[key := exchange], state.arrivalOrder[a], state.arrivalOrder[b])
    {
      assert state.arrivalOrder[a] in state.detailById && state.arrivalOrder[b] in state.detailById;
      assert Precedes(compare, state.detailById, state.arrivalOrder[a], state.arrivalOrder[b]);
    }
  }

  /** The insertion index separates the occupants that precede the new exchange from the first it precedes. */
  lemma InsertionSplits(compare: Collation, state: Entities, key: string, exchange: HttpExchange, j: nat)
    requires TotalOrder(compare) && WellFormed(state) && key !in state.detailById && j < |state.arrivalOrder|
    requires key == StoreKey(KeyOf(exchange))
    ensures var order, details := state.arrivalOrder, state.detailById[key := exchange];
      var i := InsertionIndex(compare, order, SummaryOf(exchange), state.summaryById);
      && order[j] in details
      && (j < i ==> Precedes(compare, details, order[j], key))
      && (j == i ==> Precedes(compare, details, key, order[j]))
  {
    hide StoreKey, KeyOf, SummaryOf;
    var order := state.arrivalOrder;
    assert order[j] in state.detailById;
    SameRevision(exchange);
    SameRevision(state.detailById[order[j]]);
    assert state.summaryById[order[j]] == SummaryOf(state.detailById[order[j]]);
    assert order[j] == StoreKey(KeyOf(state.detailById[order[j]]));
  }

  lemma InsertKeepsSettled(compare: Collation, details: map<string, HttpExchange>, order: seq<string>, i: nat,
                           key: string, settled: iset<string>)
    requires TotalOrder(compare) && i <= |order| && key in details
    requires forall k :: k in order ==> k in details
    requires SortedOn(compare, details, order, settled)
    requires forall j :: 0 <= j < i ==> Precedes(compare, details, order[j], key)
    requires i < |order| ==> Precedes(compare, details, key, order[i])
    ensures forall k :: k in order[..i] + [key] + order[i..] ==> k in details
    ensures SortedOn(compare, details, order[..i] + [key] + order[i..], settled)
  {
    hide TotalOrder, Precedes;
    var longer := order[..i] + [key] + order[i..];
    forall j | 0 <= j < |longer|
      ensures longer[j] == if j < i then order[j] else if j == i then key else order[j - 1]
    {
    }
    forall a, b | 0 <= a < b < |longer| && longer[b] in settled ensures Precedes(compare, details, longer[a], longer[b])
    {
      if a == i && b > i + 1 {
        assert Precedes(compare, details, order[i], order[b - 1]);
        PrecedesTransitive(compare, details, key, order[i], order[b - 1]);
      }
    }
  }

  lemma PrecedesTransitive(compare: Collation, details: map<string, HttpExchange>, a: string, b: string, c: string)
    requires TotalOrder(compare) && a in details && b in details && c in details
    requires Precedes(compare, details, a, b) && Precedes(compare, details, b, c)
    ensures Precedes(compare, details, a, c)
  {
  }

  lemma RemoveSettled(compare: Collation, state: Entities, key: string, settled: iset<string>)
    requires WellFormed(state) && Settled(compare, state, settled)
    ensures WellFormed(RemoveExchange(state, key))
    ensures Settled(compare, RemoveExchange(state, key), settled)
  {
    hide Keyed, StoreKey, KeyOf, SummaryOf, NoDup, Without;
    RemoveWellFormed(state, key);
    var next := RemoveExchange(state, key);
    forall i, j | 0 <= i < j < |next.arrivalOrder| && next.arrivalOrder[j] in settled
      ensures Precedes(compare, next.detailById, next.arrivalOrder[i], next.arrivalOrder[j])
    {
      if key in state.summaryById {
        WithoutIsSubsequence(state.arrivalOrder, {key}, i, j);
      }
    }
  }

  /** In a batch with one delta per slot, each upsert meets the entry that was held before the batch. */
  lemma {:induction false} FoldSettled(compare: Collation, state: Entities, deltas: seq<UiDelta>, settled: iset<string>)
    requires TotalOrder(compare) && WellFormed(state) && Settled(compare, state, settled)
    requires ResetFree(deltas) && Distinct(deltas)
    requires forall i :: 0 <= i < |deltas| && deltas[i].Upsert? ==>
      var key := StoreKey(KeyOf(deltas[i].exchange)); MovesBack(Cell(state, key), deltas[i].exchange, key in settled)
    ensures WellFormed(Fold(compare, state, deltas)) && Settled(compare, Fold(compare, state, deltas), settled)
  {
    hide TotalOrder, Keyed, UpsertExchange, RemoveExchange, StoreKey, KeyOf, SortedOn, MovesBack;
    if deltas != [] {
      var n := |deltas| - 1;
      var front, delta := deltas[..n], deltas[n];
      FoldSettled(compare, state, front, settled);
      var before := Fold(compare, state, front);
      if delta.Upsert? {
        var key := StoreKey(KeyOf(delta.exchange));
        FoldIsCellwise(compare, state, front, key);
        UntouchedCell(Cell(state, key), front, key);
        UpsertSettled(compare, before, delta.exchange, settled);
      } else if delta.Remove? {
        RemoveSettled(compare, before, StoreKey(delta.key), settled);
      }
    }
  }

  /** An entry after a fold was held before it or comes from one of its upserts. */
  lemma {:induction false} CellOrigin(cell: Option<HttpExchange>, deltas: seq<UiDelta>, key: string)
    requires ResetFree(deltas)
    ensures var after := FoldCell(cell, deltas, key);
      after.None? || after == cell || exists i :: 0 <= i < |deltas| && deltas[i] == Upsert(after.value)
                                                  && SlotOf(deltas[i]) == KeySlot(key)
  {
    hide SlotOf;
    if deltas != [] {
      var n := |deltas| - 1;
      CellOrigin(cell, deltas[..n], key);
      var before := FoldCell(cell, deltas[..n], key);
      if before.Some? && before != cell {
        var i :| 0 <= i < n && deltas[..n][i] == Upsert(before.value) && SlotOf(deltas[..n][i]) == KeySlot(key);
        assert deltas[i] == deltas[..n][i];
      }
    }
  }

  lemma {:induction false} FoldSorted(compare: Collation, state: Entities, deltas: seq<UiDelta>)
    requires TotalOrder(compare) && WellFormed(state) && Sorted(compare, state)
    requires ResetFree(deltas) && OneSequence(state.detailById, deltas)
    ensures WellFormed(Fold(compare, state, deltas)) && Sorted(compare, Fold(compare, state, deltas))
  {
    hide TotalOrder, Keyed, UpsertExchange, RemoveExchange, StoreKey, KeyOf, Sorted, SortedOn;
    if deltas != [] {
      var n := |deltas| - 1;
      var front, delta := deltas[..n], deltas[n];
      FoldSorted(compare, state, front);
      var before := Fold(compare, state, front);
      AllSettled(compare, before);
      if delta.Upsert? {
        HeldSequence(compare, state, deltas);
        UpsertSettled(compare, before, delta.exchange, ALL);
      } else if delta.Remove? {
        RemoveSettled(compare, before, StoreKey(delta.key), ALL);
      }
      AllSettled(compare, Fold(compare, state, deltas));
    }
  }

  lemma HeldSequence(compare: Collation, state: Entities, deltas: seq<UiDelta>)
    requires WellFormed(state) && ResetFree(deltas) && OneSequence(state.detailById, deltas)
    requires deltas != [] && deltas[|deltas| - 1].Upsert?
    ensures var exchange := deltas[|deltas| - 1].exchange;
      var before := Fold(compare, state, deltas[..|deltas| - 1]);
      var key := StoreKey(KeyOf(exchange));
      key in before.detailById ==> before.detailById[key].arrivalSequence == exchange.arrivalSequence
  {
    hide WellFormed, StoreKey, KeyOf, Fold;
    var n := |deltas| - 1;
    var front, exchange := deltas[..n], deltas[n].exchange;
    var key := StoreKey(KeyOf(exchange));
    FoldIsCellwise(compare, state, front, key);
    CellOrigin(Cell(state, key), front, key);
    var after := FoldCell(Cell(state, key), front, key);
    if after.Some? && after != Cell(state, key) {
      var i :| 0 <= i < n && front[i] == Upsert(after.value) && SlotOf(front[i]) == KeySlot(key);
      assert deltas[i] == front[i];
    }
  }

  lemma {:induction false} CoalescedFromBatch(deltas: seq<UiDelta>)
    ensures forall i :: 0 <= i < |Coalesce(deltas)| ==> Coalesce(deltas)[i] in deltas
  {
    hide SlotOf;
    if deltas != [] {
      CoalescedFromBatch(deltas[..|deltas| - 1]);
      assert forall d :: d in deltas[..|deltas| - 1] ==> d in deltas;
    }
  }

  lemma CoalescedOneSequence(details: map<string, HttpExchange>, deltas: seq<UiDelta>)
    requires OneSequence(details, deltas) && ResetFree(deltas)
    ensures OneSequence(details, Coalesce(deltas))
  {
    hide SlotOf, StoreKey, KeyOf;
    CoalescedFromBatch(deltas);
    CoalesceKeepsLast(deltas, StatusSlot);
  }

  /**
   Coalescing soundness. When the last word of every key stands and each key keeps one arrival
   sequence, the coalesced fold and the delta-by-delta fold end in the same summaries, details and
   arrival order.
   */
  lemma CoalescingSound(compare: Collation, state: Entities, deltas: seq<UiDelta>)
    requires TotalOrder(compare) && WellFormed(state) && Sorted(compare, state)
    requires ResetFree(deltas) && OneSequence(state.detailById, deltas) && forall key :: LastWordStands(deltas, key)
    ensures Fold(compare, state, Coalesce(deltas)) == Fold(compare, state, deltas)
  {
    hide TotalOrder, WellFormed, Sorted, LastWordStands, OneSequence, SlotOf, StepCell;
    FoldSorted(compare, state, deltas);
    CoalescedOneSequence(state.detailById, deltas);
    CoalesceKeepsLast(deltas, StatusSlot);
    FoldSorted(compare, state, Coalesce(deltas));
    forall key ensures Cell(Fold(compare, state, Coalesce(deltas)), key) == Cell(Fold(compare, state, deltas), key) {
      CoalescedCell(compare, state, deltas, key);
      FoldIsCellwise(compare, state, deltas, key);
      StandingFold(Cell(state, key), deltas, key);
    }
    SortedStatesAgree(compare, Fold(compare, state, Coalesce(deltas)), Fold(compare, state, deltas));
  }

  /** The batch means the same coalesced or not, for this state, if its entries share the batch's sequences. */
  ghost predicate CoalescesFrom(compare: Collation, state: Entities, deltas: seq<UiDelta>) {
    WellFormed(state) && Sorted(compare, state) && OneSequence(state.detailById, deltas) ==>
      Fold(compare, state, Coalesce(deltas)) == Fold(compare, state, deltas)
  }

  /** The state that holds one entry, or none. */
  function Holding(cell: Option<HttpExchange>): Entities {
    match cell
    case None => NO_ENTITIES
    case Some(e) =>
      var key := StoreKey(KeyOf(e));
      Entities(map[key := SummaryOf(e)], map[key := e], [key])
  }

  lemma HoldingIs(compare: Collation, cell: Option<HttpExchange>, key: string, sequence: nat)
    requires Fitting(cell, key, sequence)
    ensures WellFormed(Holding(cell)) && Sorted(compare, Holding(cell)) && Cell(Holding(cell), key) == cell
    ensures forall k :: k in Holding(cell).detailById ==>
      k == key && Holding(cell).detailById[k].arrivalSequence == sequence
  {
    hide SummaryOf, KeyOf, StoreKey;
  }

  /** The sequence of a key's upserts in a batch. */
  lemma SharedSequence(deltas: seq<UiDelta>, key: string) returns (sequence: nat)
    requires OneSequence(map[], deltas)
    ensures forall i :: 0 <= i < |deltas| && deltas[i].Upsert? && StoreKey(KeyOf(deltas[i].exchange)) == key ==>
      deltas[i].exchange.arrivalSequence == sequence
  {
    hide StoreKey, KeyOf;
    sequence := 0;
    if i :| 0 <= i < |deltas| && deltas[i].Upsert? && StoreKey(KeyOf(deltas[i].exchange)) == key {
      sequence := deltas[i].exchange.arrivalSequence;
    }
  }

  /**
   Exactly which batches coalescing leaves alone. Take a batch without resets that keeps one arrival
   sequence per key. It means the same coalesced or not, from every sorted state that shares its
   sequences, if and only if the last word of every key stands.
   */
  lemma CoalescingSoundIff(compare: Collation, deltas: seq<UiDelta>)
    requires TotalOrder(compare) && ResetFree(deltas) && OneSequence(map[], deltas)
    ensures (forall state :: CoalescesFrom(compare, state, deltas)) <==> (forall key :: LastWordStands(deltas, key))
  {
    hide TotalOrder, Keyed, Sorted, LastWordStands, OneSequence, Fold, Coalesce;
    if forall key :: LastWordStands(deltas, key) {
      forall state ensures CoalescesFrom(compare, state, deltas) {
        if WellFormed(state) && Sorted(compare, state) && OneSequence(state.detailById, deltas) {
          CoalescingSound(compare, state, deltas);
        }
      }
    } else {
      var key :| !LastWordStands(deltas, key);
      var state := CoalescingFails(compare, deltas, key);
      assert !CoalescesFrom(compare, state, deltas);
    }
  }

  lemma CoalescingFails(compare: Collation, deltas: seq<UiDelta>, key: string) returns (state: Entities)
    requires ResetFree(deltas) && OneSequence(map[], deltas) && !LastWordStands(deltas, key)
    ensures WellFormed(state) && Sorted(compare, state) && OneSequence(state.detailById, deltas)
    ensures Fold(compare, state, Coalesce(deltas)) != Fold(compare, state, deltas)
  {
    hide WellFormed, Sorted, LastWordStands, SlotOf, StepCell, Fold, Coalesce, StoreKey, KeyOf, StepLast, FoldCell,
         Cell, Holding;
    var sequence := SharedSequence(deltas, key);
    var cell := Disagreement(deltas, key, sequence);
    state := Holding(cell);
    HoldingIs(compare, cell, key, sequence);
    CoalescedCell(compare, state, deltas, key);
    FoldIsCellwise(compare, state, deltas, key);
  }

  /** A batch that coalescing changes: an exchange arrives and its detail is invalidated, so it is lost. */
  lemma InvalidationLosesArrival(compare: Collation, e: HttpExchange, revision: nat)
    ensures var key, batch := StoreKey(KeyOf(e)), [Upsert(e), DetailInvalidated(KeyOf(e), revision)];
      && Cell(Fold(compare, NO_ENTITIES, batch), key) == Some(e)
      && Cell(Fold(compare, NO_ENTITIES, Coalesce(batch)), key) == None
  {
    hide StoreKey, KeyOf, Fold, Coalesce;
    var key, batch := StoreKey(KeyOf(e)), [Upsert(e), DetailInvalidated(KeyOf(e), revision)];
    NothingWellFormed(compare);
    CoalescedCell(compare, NO_ENTITIES, batch, key);
    FoldIsCellwise(compare, NO_ENTITIES, batch, key);
    assert batch[..1] == [Upsert(e)] && batch[..1][..0] == [];
    assert FoldCell(None, batch[..1], key) == StepCell(FoldCell(None, [], key), Upsert(e));
  }

  // ---- a reset in the batch

  /** No two exchanges share a store key. */
  ghost predicate KeysDiffer(exchanges: seq<HttpExchange>) {
    forall i, j :: 0 <= i < j < |exchanges| ==> StoreKey(KeyOf(exchanges[i])) != StoreKey(KeyOf(exchanges[j]))
  }

  /** Upserting exchanges of pairwise different keys into an empty state holds each of them, sorted. */
  lemma {:induction false} UpsertAllHolds(compare: Collation, exchanges: seq<HttpExchange>)
    requires TotalOrder(compare)
    requires KeysDiffer(exchanges)
    ensures var ui := UpsertAll(compare, NO_ENTITIES, exchanges);
      && WellFormed(ui) && Sorted(compare, ui)
      && (forall i :: 0 <= i < |exchanges| ==> Cell(ui, StoreKey(KeyOf(exchanges[i]))) == Some(exchanges[i]))
      && (forall key :: Cell(ui, key).Some? ==>
            exists i :: 0 <= i < |exchanges| && StoreKey(KeyOf(exchanges[i])) == key)
  {
    hide TotalOrder, StoreKey, KeyOf, Keyed, SortedOn, UpsertExchange, Precedes;
    NothingWellFormed(compare);
    if exchanges != [] {
      var n := |exchanges| - 1;
      var front, last := exchanges[..n], exchanges[n];
      UpsertAllHolds(compare, front);
      var ui := UpsertAll(compare, NO_ENTITIES, front);
      var key := StoreKey(KeyOf(last));
      assert Cell(ui, key).None?;
      AllSettled(compare, ui);
      UpsertSettled(compare, ui, last, ALL);
      AllSettled(compare, UpsertExchange(compare, ui, last));
      forall k
        ensures Cell(UpsertExchange(compare, ui, last), k) == if k == key then Some(last) else Cell(ui, k)
      {
        ReduceCell(compare, ui, Upsert(last), k);
      }
      forall k | Cell(UpsertExchange(compare, ui, last), k).Some?
        ensures exists i :: 0 <= i < |exchanges| && StoreKey(KeyOf(exchanges[i])) == k
      {
        if k == key {
          assert StoreKey(KeyOf(exchanges[n])) == k;
        } else {
          var i :| 0 <= i < |front| && StoreKey(KeyOf(front[i])) == k;
          assert StoreKey(KeyOf(exchanges[i])) == k;
        }
      }
    }
  }

  lemma AppendDiffers(front: seq<HttpExchange>, last: HttpExchange)
    requires KeysDiffer(front) && forall x :: x in front ==> StoreKey(KeyOf(x)) != StoreKey(KeyOf(last))
    ensures KeysDiffer(front + [last])
  {
    hide StoreKey, KeyOf;
    assert forall i :: 0 <= i < |front| ==> front[i] in front;
  }

  lemma FrontDiffers(exchanges: seq<HttpExchange>)
    requires exchanges != [] && KeysDiffer(exchanges)
    ensures var front, last := exchanges[..|exchanges| - 1], exchanges[|exchanges| - 1];
      && KeysDiffer(front) && exchanges == front + [last]
      && forall x :: x in front ==> StoreKey(KeyOf(x)) != StoreKey(KeyOf(last))
  {
    hide StoreKey, KeyOf;
  }

  /** Inserting an exchange of a new key keeps keys different and loses nothing. */
  lemma {:induction false} InsertDiffers(compare: Collation, sorted: seq<HttpExchange>, exchange: HttpExchange)
    requires KeysDiffer(sorted) && forall x :: x in sorted ==> StoreKey(KeyOf(x)) != StoreKey(KeyOf(exchange))
    ensures KeysDiffer(InsertSorted(compare, sorted, exchange))
    ensures forall x :: x in InsertSorted(compare, sorted, exchange) <==> x in sorted || x == exchange
  {
    hide CompareArrival, SummaryOf, KeysDiffer, StoreKey, KeyOf;
    AppendDiffers(sorted, exchange);
    if sorted != [] {
      var front, last := sorted[..|sorted| - 1], sorted[|sorted| - 1];
      FrontDiffers(sorted);
      assert forall x :: x in sorted <==> x in front || x == last;
      InsertDiffers(compare, front, exchange);
      AppendDiffers(InsertSorted(compare, front, exchange), last);
    }
  }

  lemma {:induction false} SortDiffers(compare: Collation, exchanges: seq<HttpExchange>)
    requires KeysDiffer(exchanges)
    ensures KeysDiffer(SortByArrival(compare, exchanges))
    ensures forall x :: x in SortByArrival(compare, exchanges) <==> x in exchanges
  {
    hide InsertSorted, KeysDiffer, StoreKey, KeyOf;
    if exchanges != [] {
      var front, last := exchanges[..|exchanges| - 1], exchanges[|exchanges| - 1];
      FrontDiffers(exchanges);
      assert forall x :: x in exchanges <==> x in front || x == last;
      SortDiffers(compare, front);
      InsertDiffers(compare, SortByArrival(compare, front), last);
    } else {
      assert KeysDiffer(SortByArrival(compare, exchanges)) by { NothingDiffers(); }
    }
  }

  lemma NothingDiffers()
    ensures KeysDiffer([])
  {
  }

  /** A reset holds exactly its exchanges, each under its key, in arrival order. */
  lemma ResetHolds(compare: Collation, exchanges: seq<HttpExchange>)
    requires TotalOrder(compare) && KeysDiffer(exchanges)
    ensures var restarted := FromExchanges(compare, exchanges);
      && WellFormed(restarted) && Sorted(compare, restarted)
      && (forall x :: x in exchanges ==> Cell(restarted, StoreKey(KeyOf(x))) == Some(x))
      && (forall key :: Cell(restarted, key).Some? ==> Cell(restarted, key).value in exchanges)
  {
    hide TotalOrder, StoreKey, KeyOf, KeysDiffer, WellFormed, UpsertAll, SortByArrival, Cell;
    SortDiffers(compare, exchanges);
    var sorted := SortByArrival(compare, exchanges);
    UpsertAllHolds(compare, sorted);
    var restarted := UpsertAll(compare, NO_ENTITIES, sorted);
    forall x | x in exchanges ensures Cell(restarted, StoreKey(KeyOf(x))) == Some(x) {
      var i :| 0 <= i < |sorted| && sorted[i] == x;
    }
    forall key | Cell(restarted, key).Some? ensures Cell(restarted, key).value in exchanges {
      var i :| 0 <= i < |sorted| && StoreKey(KeyOf(sorted[i])) == key;
      assert sorted[i] in sorted;
    }
  }

  /**
   Coalescing soundness with a reset. When after the last reset the last word of every key stands and
   each key keeps one arrival sequence, shared with the reset's own exchanges, the coalesced fold and the
   delta-by-delta fold end in the same state, whatever came before the reset.
   */
  lemma CoalescingSoundAfterReset(compare: Collation, state: Entities, before: seq<UiDelta>, reset: UiDelta,
                                  after: seq<UiDelta>)
    requires TotalOrder(compare) && reset.Reset? && KeysDiffer(reset.exchanges)
    requires ResetFree(after) && OneSequence(FromExchanges(compare, reset.exchanges).detailById, after)
    requires forall key :: LastWordStands(after, key)
    ensures Fold(compare, state, Coalesce(before + [reset] + after)) == Fold(compare, state, before + [reset] + after)
  {
    hide TotalOrder, WellFormed, Sorted, LastWordStands, OneSequence, SlotOf, FromExchanges, Coalesce, KeysDiffer,
         ResetFree, Cell;
    var restarted := FromExchanges(compare, reset.exchanges);
    ResetHolds(compare, reset.exchanges);
    CoalesceAfterReset(before, reset, after);
    FoldConcat(compare, state, before + [reset], after);
    FoldConcat(compare, state, [reset], Coalesce(after));
    assert (before + [reset])[..|before|] == before;
    assert Fold(compare, state, before + [reset]) == restarted;
    assert [reset][..0] == [];
    assert Fold(compare, state, [reset]) == restarted;
    CoalescingSound(compare, restarted, after);
  }
}
