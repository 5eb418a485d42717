/**
 Late reads and overtaking. The interface applies a batch when its own reads are done, so one whose reads
 are quick may come before one published earlier. Updates of a key may overtake each other freely: the
 revision guard keeps the newest. What must stay in turn is a removal of the key, and a reset.
 */
module Overtaking {
  import opened Wrappers
  import opened Sequences
  import opened CaptureModel
  import opened HubState
  import opened HubRuns
  import CE = CaptureEntities
  import opened Coalescing
  import opened Publication
  import opened Replication
  import opened LagReset
  import opened LateFetch

  /** A run of the hub whose batches an interface follows, and when each detail is read. */
  datatype Feed = Feed(config: HubConfig, hub: Hub, steps: seq<Step>, fetchedAt: Schedule)

  ghost predicate Valid(f: Feed) {
    && UuidLaw(f.config.rules) && Sound(f.hub)
    && AllPublish(f.config, f.hub, f.steps)
    && Causal(f.fetchedAt, |f.steps|)
  }

  function HubBefore(f: Feed, i: nat): Hub
    requires i <= |f.steps|
  {
    HubAt(f.config, f.hub, f.steps, i)
  }

  /** The hub's entry for a store key, before step `i`. */
  function CellAt(f: Feed, i: nat, key: string): Option<HttpExchange>
    requires i <= |f.steps|
  {
    HubCell(HubBefore(f, i), key)
  }

  function PublishedAt(f: Feed, j: nat): seq<HubDelta>
    requires j < |f.steps|
  {
    Published(f.config, HubBefore(f, j), f.steps[j])
  }

  function BatchAt(f: Feed, j: nat): seq<CE.UiDelta>
    requires j < |f.steps|
  {
    LateBatch(f.config, f.hub, f.steps, f.fetchedAt, j)
  }

  ghost predicate AllBelow(order: seq<nat>, n: nat) {
    forall i :: 0 <= i < |order| ==> order[i] < n
  }

  /** The batches of the steps in `order`, applied one after the other. */
  function ApplyInTurn(compare: CE.Collation, f: Feed, ui: Entities, order: seq<nat>): Entities
    requires AllBelow(order, |f.steps|)
  {
    if order == [] then ui
    else
      var n := |order| - 1;
      ApplyBatch(compare, ApplyInTurn(compare, f, ui, order[..n]), BatchAt(f, order[n]))
  }

  // ---- what a batch says about a key

  /** The batch of step `j` has a delta for the key. */
  ghost predicate Names(f: Feed, j: nat, key: string)
    requires j < |f.steps|
  {
    exists i :: 0 <= i < |PublishedAt(f, j)| && PublishedSlot(PublishedAt(f, j)[i]) == KeySlot(key)
  }

  ghost predicate LastWordAt(f: Feed, j: nat, i: nat, key: string)
    requires j < |f.steps|
  {
    && i < |PublishedAt(f, j)| && PublishedSlot(PublishedAt(f, j)[i]) == KeySlot(key)
    && forall k :: i < k < |PublishedAt(f, j)| ==> PublishedSlot(PublishedAt(f, j)[k]) != KeySlot(key)
  }

  /** The last delta of the batch for the key is a removal. */
  ghost predicate Removes(f: Feed, j: nat, key: string)
    requires j < |f.steps|
  {
    exists i: nat :: LastWordAt(f, j, i, key) && PublishedAt(f, j)[i].Remove?
  }

  /** The batch takes the key from the interface, by a removal or a reset. */
  ghost predicate Ends(f: Feed, j: nat, key: string)
    requires j < |f.steps|
  {
    f.steps[j].SessionCleared? || Removes(f, j, key)
  }

  /** One of the two batches is a reset, or one removes a key that the other names. */
  ghost predicate Conflict(f: Feed, i: nat, j: nat)
    requires i < |f.steps| && j < |f.steps|
  {
    || f.steps[i].SessionCleared? || f.steps[j].SessionCleared?
    || exists key :: Names(f, i, key) && Names(f, j, key) && (Removes(f, i, key) || Removes(f, j, key))
  }

  /** Two last words on a key that may change places: not a removal and an upsert, nor two contents at one revision. */
  predicate SwapsWell(first: Option<CE.UiDelta>, second: Option<CE.UiDelta>) {
    match (first, second)
    case (Some(Upsert(e)), Some(Upsert(other))) => e.revision != other.revision || e == other
    case (Some(Upsert(_)), Some(Remove(_, _))) => false
    case (Some(Remove(_, _)), Some(Upsert(_))) => false
    case _ => true
  }

  /** Exactly when two batches applied one after the other mean the same for a key in either order. */
  lemma BatchesSwapIff(a: seq<CE.UiDelta>, b: seq<CE.UiDelta>, key: string)
    ensures (forall cell :: StepLast(StepLast(cell, a, key), b, key) == StepLast(StepLast(cell, b, key), a, key))
       <==> SwapsWell(Last(a, KeySlot(key)), Last(b, KeySlot(key)))
  {
    hide Last;
    if !SwapsWell(Last(a, KeySlot(key)), Last(b, KeySlot(key))) {
      assert StepLast(StepLast(None, a, key), b, key) != StepLast(StepLast(None, b, key), a, key);
    }
  }

  ghost predicate NoConflictOvertakes(f: Feed, order: seq<nat>)
    requires AllBelow(order, |f.steps|)
  {
    forall a, b :: 0 <= a < b < |order| && Conflict(f, order[a], order[b]) ==> order[a] < order[b]
  }

  /** Every batch from step `s` on, each once, and no two that conflict the wrong way round. */
  ghost predicate InTurn(f: Feed, s: nat, order: seq<nat>) {
    && AllBelow(order, |f.steps|)
    && NoDup(order)
    && (forall j: nat :: j in order <==> s <= j < |f.steps|)
    && NoConflictOvertakes(f, order)
  }

  // ---- what a batch does to an entry

  /** The last word of a batch on a key: none, a removal, or a detail asked for and read at step `u`. */
  datatype Word = Silent | Removed | Asked(u: nat, i: nat)

  lemma WordOf(f: Feed, j: nat, key: string) returns (word: Word)
    requires Valid(f) && j < |f.steps| && !f.steps[j].SessionCleared?
    ensures var now, next, late := CellAt(f, j, key), CellAt(f, j + 1, key), Last(BatchAt(f, j), KeySlot(key));
      match word
      case Silent => !Names(f, j, key) && next == now && late.None?
      case Removed => Names(f, j, key) && next.None? && late.Some? && late.value.Remove?
      case Asked(u, i) =>
        && Names(f, j, key) && j < u <= |f.steps| && u == f.fetchedAt(j, i)
        && i < |PublishedAt(f, j)| && PublishedAt(f, j)[i].Upsert?
           && CE.StoreKey(PublishedAt(f, j)[i].summary.key) == key
        && next.Some?
        && (now.Some? ==> now.value.revision < next.value.revision
                          && now.value.arrivalSequence == next.value.arrivalSequence)
        && late.Some? && match CellAt(f, u, key)
                         case Some(exchange) => late.value == CE.Upsert(exchange)
                         case None => late.value.Remove?
    ensures word.Removed? <==> Removes(f, j, key)
  {
    hide UuidLaw, Sound, AllPublish, HubAt, StepBatch, HubCell, Translate, LateBatch, Published, Last, UpsertsStand,
         CE.StoreKey, Delivers, Publishes;
    var now, next, published := HubBefore(f, j), HubBefore(f, j + 1), PublishedAt(f, j);
    var at := LateLast(f.config, f.hub, f.steps, f.fetchedAt, j, key);
    assert CellEvent(HubCell(now, key), HubCell(next, key), Last(StepBatch(f.config, now, f.steps[j]), KeySlot(key))) by
    {
      DeliversAt(f.config, f.hub, f.steps, j);
      DeliveredEvent(now, next, StepBatch(f.config, now, f.steps[j]), key);
    }
    if at == |published| {
      word := Silent;
      assert !Removes(f, j, key);
    } else {
      var u := f.fetchedAt(j, at);
      assert LastWordAt(f, j, at, key);
      LateTranslation(f.config, f.hub, f.steps, j, published, at, u, key);
      word := if published[at].Remove? then Removed else Asked(u, at);
      assert forall i: nat :: LastWordAt(f, j, i, key) ==> i == at;
    }
  }

  lemma BatchEffect(compare: CE.Collation, f: Feed, ui: Entities, j: nat, key: string)
    requires Valid(f) && j < |f.steps| && CE.WellFormed(ui)
    ensures var next := ApplyBatch(compare, ui, BatchAt(f, j));
      && CE.WellFormed(next)
      && CE.Cell(next, key) == if f.steps[j].SessionCleared? then None
         else StepLast(CE.Cell(ui, key), BatchAt(f, j), key)
  {
    hide UuidLaw, Sound, AllPublish, HubAt, ApplyBatch, LateBatch, CE.WellFormed, Causal, StepLast;
    BatchWellFormed(compare, ui, BatchAt(f, j));
    if f.steps[j].SessionCleared? {
      LateClear(compare, f.config, f.hub, f.steps, f.fetchedAt, j, ui);
    } else {
      LateBatchResetFree(f.config, f.hub, f.steps, f.fetchedAt, j);
      BatchCell(compare, ui, BatchAt(f, j), key);
    }
  }

  // ---- the hub while a key stays

  /** No step from `u` up to `v` takes the key away. */
  ghost predicate Steady(f: Feed, u: nat, v: nat, key: string)
    requires v <= |f.steps|
  {
    forall j :: u <= j < v ==> !Ends(f, j, key)
  }

  /** While a key stays, its sequence is the same, its revision rises, and the revision tells its entry. */
  lemma {:induction false} SteadyRise(f: Feed, u: nat, v: nat, key: string)
    requires Valid(f) && u <= v <= |f.steps| && Steady(f, u, v, key) && CellAt(f, u, key).Some?
    ensures var early, late := CellAt(f, u, key), CellAt(f, v, key);
      && late.Some?
      && early.value.arrivalSequence == late.value.arrivalSequence
      && early.value.revision <= late.value.revision
      && (early.value.revision == late.value.revision ==> early == late)
    decreases v
  {
    hide Valid, CellAt, Removes;
    if u < v {
      SteadyRise(f, u, v - 1, key);
      assert !Ends(f, v - 1, key);
      var word := WordOf(f, v - 1, key);
    }
  }

  /** A key that no step names keeps its entry. */
  lemma {:induction false} UnnamedStays(f: Feed, u: nat, v: nat, key: string)
    requires Valid(f) && u <= v <= |f.steps|
    requires forall j :: u <= j < v ==> !f.steps[j].SessionCleared? && !Names(f, j, key)
    ensures CellAt(f, u, key) == CellAt(f, v, key)
    decreases v
  {
    hide Valid, CellAt, Names;
    if u < v {
      UnnamedStays(f, u, v - 1, key);
      var word := WordOf(f, v - 1, key);
    }
  }

  // ---- turns

  /** The batch of step `j` is among the first `p` in turn, or still to come. */
  ghost predicate Done(order: seq<nat>, p: nat, j: nat)
    requires p <= |order|
  {
    exists a :: 0 <= a < p && order[a] == j
  }

  ghost predicate Upcoming(f: Feed, s: nat, order: seq<nat>, p: nat, j: nat)
    requires p <= |order|
  {
    s <= j < |f.steps| && !Done(order, p, j)
  }

  /** No batch still to come takes the key away. */
  ghost predicate Kept(f: Feed, s: nat, order: seq<nat>, p: nat, key: string)
    requires p <= |order|
  {
    forall j: nat :: Upcoming(f, s, order, p, j) ==> !Ends(f, j, key)
  }

  /** A batch that ends a key is in turn with every batch that names it. */
  lemma EndsInTurn(f: Feed, s: nat, order: seq<nat>, p: nat, j: nat, key: string)
    requires InTurn(f, s, order) && p < |order| && s <= j < |f.steps| && j != order[p]
    requires (Ends(f, order[p], key) && (Names(f, j, key) || Ends(f, j, key)))
      || (Names(f, order[p], key) && Ends(f, j, key))
    ensures Done(order, p, j) <==> j < order[p]
  {
    hide Names, Removes;
    RemovesNames(f, j, key);
    RemovesNames(f, order[p], key);
    assert Conflict(f, j, order[p]) && Conflict(f, order[p], j);
    hide Conflict;
    assert j in order;
    var a :| 0 <= a < |order| && order[a] == j;
  }

  lemma RemovesNames(f: Feed, j: nat, key: string)
    requires j < |f.steps|
    ensures Removes(f, j, key) ==> Names(f, j, key)
  {
    hide PublishedAt, PublishedSlot;
  }

  lemma OneMoreDone(f: Feed, s: nat, order: seq<nat>, p: nat)
    requires p < |order|
    ensures forall j :: Done(order, p + 1, j) <==> Done(order, p, j) || j == order[p]
    ensures forall j :: Upcoming(f, s, order, p + 1, j) <==> Upcoming(f, s, order, p, j) && j != order[p]
  {
  }

  lemma DoneAt(order: seq<nat>, p: nat, a: nat)
    requires a < p <= |order|
    ensures Done(order, p, order[a])
  {
  }

  lemma DoneInOrder(f: Feed, s: nat, order: seq<nat>, p: nat, j: nat)
    requires InTurn(f, s, order) && p <= |order| && Done(order, p, j)
    ensures s <= j < |f.steps| && j in order
  {
    hide NoConflictOvertakes;
    var a :| 0 <= a < p && order[a] == j;
    assert order[a] in order;
  }

  /** A key kept from the batch that names it on is not ended by any later step. */
  lemma KeptIsSteady(f: Feed, s: nat, order: seq<nat>, p: nat, key: string)
    requires InTurn(f, s, order) && p < |order|
    requires Names(f, order[p], key) || Ends(f, order[p], key)
    requires Kept(f, s, order, p + 1, key)
    ensures s <= order[p] < |f.steps| && Steady(f, order[p] + 1, |f.steps|, key)
  {
    hide Names, Ends, InTurn, Done;
    DoneAt(order, p + 1, p);
    OneMoreDone(f, s, order, p);
    DoneInOrder(f, s, order, p + 1, order[p]);
    forall j | order[p] < j < |f.steps| ensures !Ends(f, j, key) {
      if Ends(f, j, key) {
        assert Done(order, p, j) by { assert !Upcoming(f, s, order, p + 1, j); }
        EndsInTurn(f, s, order, p, j, key);
        assert false;
      }
    }
  }

  // ---- entries

  /**
   The entry is the hub's of step `u`, which is past every batch applied for the key and after which the key
   stays.
   */
  ghost predicate Follows(f: Feed, s: nat, order: seq<nat>, p: nat, key: string, cell: Option<HttpExchange>, u: nat)
    requires p <= |order| && AllBelow(order, |f.steps|)
  {
    && s <= u <= |f.steps| && cell == CellAt(f, u, key)
    && Steady(f, u, |f.steps|, key)
    && forall a :: 0 <= a < p && Names(f, order[a], key) ==> order[a] < u
  }

  /** The entry of a key that nothing to come takes away. */
  ghost predicate Tracks(f: Feed, s: nat, order: seq<nat>, p: nat, key: string, cell: Option<HttpExchange>)
    requires p <= |order| && AllBelow(order, |f.steps|)
  {
    Kept(f, s, order, p, key) ==> exists u: nat :: Follows(f, s, order, p, key, cell, u)
  }

  /** What the batch of step `j` makes of an entry. */
  function CellEffect(f: Feed, cell: Option<HttpExchange>, j: nat, key: string): Option<HttpExchange>
    requires j < |f.steps|
  {
    if f.steps[j].SessionCleared? then None else StepLast(cell, BatchAt(f, j), key)
  }

  lemma EndedEntry(f: Feed, s: nat, order: seq<nat>, p: nat, key: string, cell: Option<HttpExchange>)
    requires Valid(f) && InTurn(f, s, order) && p < |order| && Ends(f, order[p], key) && Kept(f, s, order, p + 1, key)
    ensures Follows(f, s, order, p + 1, key, CellEffect(f, cell, order[p], key), order[p] + 1)
  {
    hide Valid, Names, Removes, HubBefore, BatchAt, Kept, Steady, Last, Done;
    var b := order[p];
    KeptIsSteady(f, s, order, p, key);
    if f.steps[b].SessionCleared? {
      ClearedEntry(f, b, key);
    } else {
      var word := WordOf(f, b, key);
    }
    forall a | 0 <= a < p && Names(f, order[a], key) ensures order[a] < b {
      DoneAt(order, p, a);
      DoneInOrder(f, s, order, p, order[a]);
      EndsInTurn(f, s, order, p, order[a], key);
    }
  }

  lemma ClearedEntry(f: Feed, j: nat, key: string)
    requires j < |f.steps| && f.steps[j].SessionCleared?
    ensures CellAt(f, j + 1, key).None?
  {
    hide HubAt;
    ClearedCells(f.config, f.hub, f.steps, j, key);
  }

  /** Of two entries of a key that stays, an upsert with the one leaves the later. */
  lemma LaterStays(f: Feed, u: nat, v: nat, key: string)
    requires Valid(f) && u <= |f.steps| && v <= |f.steps| && CellAt(f, v, key).Some?
    requires Steady(f, u, |f.steps|, key) && Steady(f, v, |f.steps|, key)
    ensures CE.StepCell(CellAt(f, u, key), CE.Upsert(CellAt(f, v, key).value))
      == CellAt(f, if u <= v then v else u, key)
  {
    hide Valid, CellAt, Ends;
    if v < u {
      SteadyRise(f, v, u, key);
    } else if CellAt(f, u, key).Some? {
      SteadyRise(f, u, v, key);
    }
  }

  lemma NamedEntry(f: Feed, s: nat, order: seq<nat>, p: nat, key: string, cell: Option<HttpExchange>, u: nat)
    returns (m: nat)
    requires Valid(f) && InTurn(f, s, order) && p < |order| && Kept(f, s, order, p + 1, key)
    requires !Ends(f, order[p], key) && Names(f, order[p], key) && Follows(f, s, order, p, key, cell, u)
    ensures Follows(f, s, order, p + 1, key, CellEffect(f, cell, order[p], key), m)
  {
    hide Valid, Names, Removes, CellAt, BatchAt, Kept, Last, Done, NoConflictOvertakes, NoDup, PublishedAt, CE.StepCell;
    var b := order[p];
    KeptIsSteady(f, s, order, p, key);
    var word := WordOf(f, b, key);
    SteadyRise(f, b + 1, word.u, key);
    LaterStays(f, u, word.u, key);
    m := if u <= word.u then word.u else u;
  }

  /** Whatever the turn, one batch keeps every entry on track. */
  lemma EntryTurn(f: Feed, s: nat, order: seq<nat>, p: nat, key: string, cell: Option<HttpExchange>)
    requires Valid(f) && InTurn(f, s, order) && p < |order| && Tracks(f, s, order, p, key, cell)
    ensures Tracks(f, s, order, p + 1, key, CellEffect(f, cell, order[p], key))
  {
    hide Valid, Names, Ends, NoConflictOvertakes, NoDup, Done, Follows, CellEffect;
    if Kept(f, s, order, p + 1, key) {
      if Ends(f, order[p], key) {
        EndedEntry(f, s, order, p, key, cell);
      } else {
        OneMoreDone(f, s, order, p);
        assert Kept(f, s, order, p, key);
        var u: nat :| Follows(f, s, order, p, key, cell, u);
        if Names(f, order[p], key) {
          var m := NamedEntry(f, s, order, p, key, cell, u);
        } else {
          UnnamedEntry(f, s, order, p, key, cell, u);
        }
      }
    }
  }

  lemma UnnamedEntry(f: Feed, s: nat, order: seq<nat>, p: nat, key: string, cell: Option<HttpExchange>, u: nat)
    requires Valid(f) && InTurn(f, s, order) && p < |order|
    requires !Ends(f, order[p], key) && !Names(f, order[p], key) && Follows(f, s, order, p, key, cell, u)
    ensures Follows(f, s, order, p + 1, key, CellEffect(f, cell, order[p], key), u)
  {
    hide Valid, Names, Removes, CellAt, BatchAt, Last, Steady, NoConflictOvertakes;
    var word := WordOf(f, order[p], key);
  }

  lemma {:induction false} EntryOnTrack(compare: CE.Collation, f: Feed, ui: Entities, s: nat, order: seq<nat>, p: nat,
                                        key: string)
    requires Valid(f) && InTurn(f, s, order) && p <= |order| && CE.WellFormed(ui)
      && SeenFrom(f, s, key, CE.Cell(ui, key))
    ensures AllBelow(order[..p], |f.steps|)
    ensures var now := ApplyInTurn(compare, f, ui, order[..p]);
      CE.WellFormed(now) && Tracks(f, s, order, p, key, CE.Cell(now, key))
    decreases p
  {
    hide Valid, Names, Ends, CellAt, BatchAt, CE.WellFormed, CE.Cell, ApplyBatch, StepLast, NoConflictOvertakes, NoDup;
    if p == 0 {
      NothingDone(f, s, order, key, CE.Cell(ui, key));
    } else {
      EntryOnTrack(compare, f, ui, s, order, p - 1, key);
      var before := ApplyInTurn(compare, f, ui, order[..p - 1]);
      assert order[..p][..p - 1] == order[..p - 1];
      BatchEffect(compare, f, before, order[p - 1], key);
      EntryTurn(f, s, order, p - 1, key, CE.Cell(before, key));
    }
  }

  /** The entry was read from the hub at some step from `s` on. */
  ghost predicate SeenFrom(f: Feed, s: nat, key: string, cell: Option<HttpExchange>) {
    exists u :: s <= u <= |f.steps| && cell == CellAt(f, u, key)
  }

  lemma NothingDone(f: Feed, s: nat, order: seq<nat>, key: string, cell: Option<HttpExchange>)
    requires InTurn(f, s, order) && SeenFrom(f, s, key, cell)
    ensures Tracks(f, s, order, 0, key, cell)
  {
    hide CellAt, Names, Ends, NoConflictOvertakes;
    if Kept(f, s, order, 0, key) {
      var u :| s <= u <= |f.steps| && cell == CellAt(f, u, key);
      forall j | u <= j < |f.steps| ensures !Ends(f, j, key) {
        assert Upcoming(f, s, order, 0, j);
      }
      assert Follows(f, s, order, 0, key, cell, u);
    }
  }

  lemma AllDone(f: Feed, s: nat, order: seq<nat>, key: string, cell: Option<HttpExchange>)
    requires Valid(f) && InTurn(f, s, order) && Tracks(f, s, order, |order|, key, cell)
    ensures cell == CellAt(f, |f.steps|, key)
  {
    hide Valid, CellAt, Names, Removes, NoConflictOvertakes;
    forall j: nat | s <= j < |f.steps| ensures Done(order, |order|, j) {
      assert j in order;
    }
    assert Kept(f, s, order, |order|, key);
    var u: nat :| Follows(f, s, order, |order|, key, cell, u);
    forall j | u <= j < |f.steps| ensures !f.steps[j].SessionCleared? && !Names(f, j, key) {
      assert Done(order, |order|, j) && !Ends(f, j, key);
    }
    UnnamedStays(f, u, |f.steps|, key);
  }

  /** Every entry of an interface was read from the hub at some step from `s` on, as after a slow reset. */
  ghost predicate ReadFrom(f: Feed, s: nat, ui: Entities) {
    CE.WellFormed(ui) && forall key :: SeenFrom(f, s, key, CE.Cell(ui, key))
  }

  /**
   Convergence with late reads and overtaking. Start from entries read anywhere between step `s` and the
   end and apply the batches of every step from `s` on, each detail read at any time after its publication.
   Batches may overtake each other in any way, short of crossing a reset, or a removal of a key they name:
   the interface ends with exactly the hub's entries.
   */
  lemma OvertakingConverges(compare: CE.Collation, f: Feed, ui: Entities, s: nat, order: seq<nat>)
    requires Valid(f) && ReadFrom(f, s, ui) && InTurn(f, s, order)
    ensures var last := ApplyInTurn(compare, f, ui, order);
      forall key :: CE.Cell(last, key) == HubCell(Run(f.config, f.hub, f.steps), key)
  {
    hide Valid, CE.WellFormed, CE.Cell, ApplyInTurn, SeenFrom, Tracks, HubCell, Run, NoConflictOvertakes, NoDup;
    assert order[..|order|] == order && f.steps[..|f.steps|] == f.steps;
    forall key ensures CE.Cell(ApplyInTurn(compare, f, ui, order), key) == HubCell(Run(f.config, f.hub, f.steps), key) {
      EntryOnTrack(compare, f, ui, s, order, |order|, key);
      AllDone(f, s, order, key, CE.Cell(ApplyInTurn(compare, f, ui, order), key));
    }
  }

  // ---- the order of publication

  function LateReplay(compare: CE.Collation, f: Feed, ui: Entities, first: nat, limit: nat): Entities
    requires first <= limit <= |f.steps|
  {
    if first == limit then ui
      else ApplyBatch(compare, LateReplay(compare, f, ui, first, limit - 1), BatchAt(f, limit - 1))
  }

  function Range(first: nat, limit: nat): (order: seq<nat>)
    requires first <= limit
    ensures |order| == limit - first && forall i :: 0 <= i < |order| ==> order[i] == first + i
  {
    seq(limit - first, i requires 0 <= i < limit - first => first + i)
  }

  lemma {:induction false} RangeIsLateReplay(compare: CE.Collation, f: Feed, ui: Entities, first: nat, limit: nat)
    requires first <= limit <= |f.steps|
    ensures AllBelow(Range(first, limit), |f.steps|)
    ensures ApplyInTurn(compare, f, ui, Range(first, limit)) == LateReplay(compare, f, ui, first, limit)
    decreases limit
  {
    hide ApplyBatch, BatchAt;
    if first < limit {
      RangeIsLateReplay(compare, f, ui, first, limit - 1);
      assert Range(first, limit)[..limit - 1 - first] == Range(first, limit - 1);
    }
  }

  /** The order of publication is one in which nothing overtakes. */
  lemma RangeInTurn(f: Feed, s: nat)
    requires s <= |f.steps|
    ensures InTurn(f, s, Range(s, |f.steps|))
  {
    hide Conflict;
    forall j: nat ensures j in Range(s, |f.steps|) <==> s <= j < |f.steps| {
      if s <= j < |f.steps| {
        assert Range(s, |f.steps|)[j - s] == j;
      }
    }
  }

  /** With the batches in the order of publication the entries converge under every schedule. */
  lemma LateFetchConverges(compare: CE.Collation, f: Feed, ui: Entities, s: nat)
    requires Valid(f) && s <= |f.steps| && ReadFrom(f, s, ui)
    ensures var last := LateReplay(compare, f, ui, s, |f.steps|);
      forall key :: CE.Cell(last, key) == HubCell(Run(f.config, f.hub, f.steps), key)
  {
    hide Valid, ReadFrom, CE.Cell, ApplyInTurn, LateReplay, HubCell, Run, NoConflictOvertakes, NoDup, Range;
    RangeInTurn(f, s);
    RangeIsLateReplay(compare, f, ui, s, |f.steps|);
    OvertakingConverges(compare, f, ui, s, Range(s, |f.steps|));
  }

  // ---- after a lag reset

  lemma ResetIsRead(compare: CE.Collation, f: Feed, s: nat, t: nat)
    requires CE.TotalOrder(compare) && Valid(f) && s <= t <= |f.steps|
    ensures forall k :: k in HubBefore(f, t).arrivalOrder ==> k in HubBefore(f, t).exchanges
    ensures Mirrors(compare, ResetUi(compare, HubBefore(f, t)), HubBefore(f, t))
    ensures ReadFrom(f, s, ResetUi(compare, HubBefore(f, t)))
  {
    hide CE.TotalOrder, UuidLaw, Sound, AllPublish, Causal, HubAt, CE.WellFormed, CE.Sorted, HubCell, CE.Cell, ResetUi;
    SoundAt(f.config, f.hub, f.steps, t);
    ResetMirrors(compare, HubBefore(f, t));
    var ui := ResetUi(compare, HubBefore(f, t));
    forall key ensures SeenFrom(f, s, key, CE.Cell(ui, key)) {
      assert CE.Cell(ui, key) == CellAt(f, t, key);
    }
  }

  /**
   In particular after a lag reset with the snapshot of step `t`, whatever the subscriber still buffers from
   `s` on.
   */
  lemma LateLagResetConverges(compare: CE.Collation, f: Feed, s: nat, t: nat, order: seq<nat>)
    requires CE.TotalOrder(compare) && Valid(f) && s <= t <= |f.steps| && InTurn(f, s, order)
    ensures forall k :: k in HubBefore(f, t).arrivalOrder ==> k in HubBefore(f, t).exchanges
    ensures var last := ApplyInTurn(compare, f, ResetUi(compare, HubBefore(f, t)), order);
      forall key :: CE.Cell(last, key) == HubCell(Run(f.config, f.hub, f.steps), key)
  {
    hide CE.TotalOrder, Valid, ReadFrom, NoConflictOvertakes, NoDup, HubBefore, ApplyInTurn, HubCell, CE.Cell, ResetUi,
         Run, Mirrors;
    ResetIsRead(compare, f, s, t);
    OvertakingConverges(compare, f, ResetUi(compare, HubBefore(f, t)), s, order);
  }
}
