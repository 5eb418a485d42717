/**
 The arrival order under late reads. A detail that is read after its key was taken away and stored again
 shows the later arrival. That is harmless while the interface does not hold the key; an update that
 finds a later arrival replaces a held entry in place, and can leave the order unsorted.
 */
module LateOrder {
  import opened Wrappers
  import opened Sequences
  import opened CaptureModel
  import opened HubState
  import opened HubRuns
  import CE = CaptureEntities
  import opened Coalescing
  import opened Publication
  import opened Replication
  import opened LagReset
  import opened LateFetch
  import opened Overtaking
  import SortedFolds

  /**
   The interface may hold the key when the `p`-th batch comes: the hub holds it then, the snapshot of a
   later step `t` does, or a batch published later came before.
   */
  ghost predicate Expected(f: Feed, t: nat, order: seq<nat>, p: nat, key: string)
    requires AllBelow(order, |f.steps|) && p < |order| && t <= |f.steps|
  {
    || CellAt(f, order[p], key).Some?
    || (order[p] < t && CellAt(f, t, key).Some?)
    || exists a :: 0 <= a < p && order[p] < order[a] && Names(f, order[a], key)
  }

  /** Read at step `u`, the key is not under a later arrival of the same session than when step `j` published it. */
  ghost predicate OwnArrival(f: Feed, j: nat, u: nat, key: string)
    requires j < u <= |f.steps|
  {
    var published, read := CellAt(f, j + 1, key), CellAt(f, u, key);
    NoClear(f.steps, j, u) && published.Some? && read.Some? ==>
      read.value.arrivalSequence <= published.value.arrivalSequence
  }

  /** No update finds its key under a later arrival. */
  ghost predicate OwnArrivals(f: Feed, t: nat, order: seq<nat>)
    requires AllBelow(order, |f.steps|) && t <= |f.steps| && Causal(f.fetchedAt, |f.steps|)
  {
    forall p: nat, i: nat :: p < |order| && i < |PublishedAt(f, order[p])| && PublishedAt(f, order[p])[i].Upsert? ==>
      var key := CE.StoreKey(PublishedAt(f, order[p])[i].summary.key);
      Expected(f, t, order, p, key) ==> OwnArrival(f, order[p], f.fetchedAt(order[p], i), key)
  }

  // ---- the sequence an entry carries

  /**
   The entry goes back to the `a`-th batch, which the hub published at the same or an earlier arrival, and
   no removal came since.
   */
  ghost predicate Source(f: Feed, order: seq<nat>, p: nat, a: nat, key: string, cell: HttpExchange)
    requires AllBelow(order, |f.steps|) && p <= |order|
  {
    && a < p && Names(f, order[a], key)
    && CellAt(f, order[a] + 1, key).Some? && CellAt(f, order[a] + 1, key).value.arrivalSequence <= cell.arrivalSequence
    && forall c :: 0 <= c < p && Removes(f, order[c], key) ==> order[c] < order[a]
  }

  /** The entry goes back to the snapshot of step `t`. */
  ghost predicate FromSnapshot(f: Feed, t: nat, order: seq<nat>, p: nat, key: string, cell: HttpExchange)
    requires AllBelow(order, |f.steps|) && p <= |order| && t <= |f.steps|
  {
    && CellAt(f, t, key).Some? && CellAt(f, t, key).value.arrivalSequence == cell.arrivalSequence
    && forall c :: 0 <= c < p ==> !Removes(f, order[c], key)
  }

  ghost predicate Dated(f: Feed, t: nat, order: seq<nat>, p: nat, key: string, cell: Option<HttpExchange>)
    requires AllBelow(order, |f.steps|) && p <= |order| && t <= |f.steps|
  {
    cell.Some? ==> FromSnapshot(f, t, order, p, key, cell.value) || exists a :: Source(f, order, p, a, key, cell.value)
  }

  /** Removals already applied for a key that the next batch names were published before it. */
  lemma RemovalsBefore(f: Feed, s: nat, order: seq<nat>, p: nat, key: string)
    requires InTurn(f, s, order) && p < |order| && Names(f, order[p], key)
    ensures forall c :: 0 <= c < p && Removes(f, order[c], key) ==> order[c] < order[p]
  {
    hide Names, Removes, Done, NoConflictOvertakes;
    forall c | 0 <= c < p && Removes(f, order[c], key) ensures order[c] < order[p] {
      DoneAt(order, p, c);
      DoneInOrder(f, s, order, p, order[c]);
      EndsInTurn(f, s, order, p, order[c], key);
    }
  }

  lemma ReadLater(f: Feed, i: nat, u: nat, key: string)
    requires Valid(f) && i <= u <= |f.steps| && NoClear(f.steps, i, |f.steps|) && CellAt(f, i, key).Some?
    ensures CellAt(f, u, key).Some? ==>
      CellAt(f, i, key).value.arrivalSequence <= CellAt(f, u, key).value.arrivalSequence
  {
    hide UuidLaw, Sound, AllPublish, Causal, HubAt, HubCell, Lasting;
    assert NoClear(f.steps, i, u);
    SequencesRise(f.config, f.hub, f.steps, i, u, key);
  }

  lemma DatedTurn(f: Feed, s: nat, t: nat, order: seq<nat>, p: nat, key: string, cell: Option<HttpExchange>)
    requires Valid(f) && InTurn(f, s, order) && p < |order| && s <= order[p] && t <= |f.steps|
      && NoClear(f.steps, s, |f.steps|)
    requires Dated(f, t, order, p, key, cell)
    ensures Dated(f, t, order, p + 1, key, CellEffect(f, cell, order[p], key))
  {
    hide Valid, CellAt, BatchAt, Last, Names, Removes, NoConflictOvertakes, NoDup, PublishedAt;
    var b, next := order[p], CellEffect(f, cell, order[p], key);
    var word := WordOf(f, b, key);
    if word.Asked? && CellAt(f, word.u, key).Some? {
      ReadLater(f, b + 1, word.u, key);
      RemovalsBefore(f, s, order, p, key);
      assert Source(f, order, p + 1, p, key, CellAt(f, word.u, key).value);
    }
    if next.Some? && next == cell && !word.Removed? {
      if FromSnapshot(f, t, order, p, key, cell.value) {
        assert FromSnapshot(f, t, order, p + 1, key, cell.value);
      } else {
        var a :| Source(f, order, p, a, key, cell.value);
        assert Source(f, order, p + 1, a, key, cell.value);
      }
    }
  }

  // ---- what an upsert meets

  /** No removal lies between the batch an entry goes back to and the next batch for its key. */
  lemma SameStay(f: Feed, s: nat, order: seq<nat>, p: nat, a: nat, key: string, cell: HttpExchange)
    requires Valid(f) && InTurn(f, s, order) && p < |order| && NoClear(f.steps, s, |f.steps|)
    requires Source(f, order, p, a, key, cell) && Names(f, order[p], key) && !Removes(f, order[p], key)
    ensures s <= order[a] && s <= order[p] && order[a] != order[p]
    ensures order[a] < order[p] ==> Steady(f, order[a] + 1, order[p] + 1, key)
    ensures order[p] < order[a] ==> Steady(f, order[p] + 1, order[a] + 1, key)
  {
    hide Valid, Names, Removes, NoConflictOvertakes, Done, CellAt;
    DoneAt(order, p + 1, p);
    DoneInOrder(f, s, order, p + 1, order[p]);
    DoneAt(order, p, a);
    DoneInOrder(f, s, order, p, order[a]);
    forall r | order[a] < r < order[p] ensures !Removes(f, r, key) {
      if Removes(f, r, key) {
        EndsInTurn(f, s, order, p, r, key);
        DoneWhere(order, p, r);
        assert false;
      }
    }
    forall r | order[p] < r < order[a] ensures !Removes(f, r, key) {
      if Removes(f, r, key) {
        EndsInTurn(f, s, order, p, r, key);
        EndsInTurn(f, s, order, a, r, key);
        DoneLonger(order, a, p, r);
        assert false;
      }
    }
  }

  lemma DoneWhere(order: seq<nat>, p: nat, r: nat)
    requires p <= |order| && Done(order, p, r)
    ensures exists c :: 0 <= c < p && order[c] == r
  {
  }

  lemma DoneLonger(order: seq<nat>, a: nat, p: nat, r: nat)
    requires a <= p <= |order| && Done(order, a, r)
    ensures Done(order, p, r)
  {
  }

  lemma SourceMovesBack(f: Feed, s: nat, t: nat, order: seq<nat>, p: nat, a: nat, key: string, cell: HttpExchange,
                        word: Word)
    requires Valid(f) && InTurn(f, s, order) && p < |order| && t <= |f.steps| && NoClear(f.steps, s, |f.steps|)
      && OwnArrivals(f, t, order)
    requires Source(f, order, p, a, key, cell) && Names(f, order[p], key) && !Removes(f, order[p], key)
    requires Reads(f, order[p], key, word)
    ensures CellAt(f, word.u, key).value.arrivalSequence <= cell.arrivalSequence
  {
    hide Valid, Names, Removes, NoConflictOvertakes, Done, CellAt, CE.StoreKey, PublishedAt, NoDup;
    var b := order[p];
    SameStay(f, s, order, p, a, key, cell);
    assert NoClear(f.steps, b, word.u);
    if order[a] < b {
      SteadyRise(f, order[a] + 1, b + 1, key);
      SteadyRise(f, order[a] + 1, b, key);
    } else {
      SteadyRise(f, b + 1, order[a] + 1, key);
    }
    assert Expected(f, t, order, p, key);
  }

  /** The batch asked for the key's detail and found one. */
  ghost predicate Reads(f: Feed, j: nat, key: string, word: Word)
    requires j < |f.steps|
  {
    && word.Asked? && j < word.u <= |f.steps| && word.u == f.fetchedAt(j, word.i)
    && word.i < |PublishedAt(f, j)| && PublishedAt(f, j)[word.i].Upsert?
       && CE.StoreKey(PublishedAt(f, j)[word.i].summary.key) == key
    && CellAt(f, j + 1, key).Some? && CellAt(f, word.u, key).Some?
    && (CellAt(f, j, key).Some? ==>
        CellAt(f, j, key).value.arrivalSequence == CellAt(f, j + 1, key).value.arrivalSequence)
  }

  lemma SnapshotMovesBack(f: Feed, s: nat, t: nat, order: seq<nat>, p: nat, key: string, cell: HttpExchange, word: Word)
    requires Valid(f) && InTurn(f, s, order) && p < |order| && s <= t <= |f.steps| && NoClear(f.steps, s, |f.steps|)
      && OwnArrivals(f, t, order)
    requires FromSnapshot(f, t, order, p, key, cell) && Names(f, order[p], key) && !Removes(f, order[p], key)
    requires Reads(f, order[p], key, word)
    ensures CellAt(f, word.u, key).value.arrivalSequence <= cell.arrivalSequence
  {
    hide Valid, Names, Removes, NoConflictOvertakes, Done, CellAt, CE.StoreKey, PublishedAt, NoDup;
    var b := order[p];
    DoneAt(order, p + 1, p);
    DoneInOrder(f, s, order, p + 1, b);
    assert NoClear(f.steps, b, word.u);
    if b < t {
      ReadLater(f, b + 1, t, key);
    } else {
      forall r | t <= r < b ensures !Ends(f, r, key) {
        if Removes(f, r, key) {
          EndsInTurn(f, s, order, p, r, key);
          DoneWhere(order, p, r);
          assert false;
        }
      }
      SteadyRise(f, t, b, key);
    }
    assert Expected(f, t, order, p, key);
  }

  /** A key that is kept has one sequence from here on. */
  lemma KeptMovesBack(f: Feed, s: nat, order: seq<nat>, p: nat, key: string, cell: Option<HttpExchange>, word: Word)
    requires Valid(f) && InTurn(f, s, order) && p < |order| && Tracks(f, s, order, p, key, cell)
      && Kept(f, s, order, p, key)
    requires Names(f, order[p], key) && Reads(f, order[p], key, word) && cell.Some?
    ensures CellAt(f, word.u, key).value.arrivalSequence == cell.value.arrivalSequence
  {
    hide Valid, Names, Ends, NoConflictOvertakes, NoDup, Done, CellAt, CE.StoreKey, PublishedAt;
    var n := |f.steps|;
    OneMoreDone(f, s, order, p);
    KeptIsSteady(f, s, order, p, key);
    var u: nat :| Follows(f, s, order, p, key, cell, u);
    SteadyRise(f, u, n, key);
    SteadyRise(f, word.u, n, key);
  }

  lemma TurnMovesBack(f: Feed, s: nat, t: nat, order: seq<nat>, p: nat, key: string, cell: Option<HttpExchange>,
                      exchange: HttpExchange)
    requires Valid(f) && InTurn(f, s, order) && p < |order| && s <= t <= |f.steps| && NoClear(f.steps, s, |f.steps|)
      && OwnArrivals(f, t, order)
    requires Tracks(f, s, order, p, key, cell) && Dated(f, t, order, p, key, cell)
    requires Last(BatchAt(f, order[p]), KeySlot(key)) == Some(CE.Upsert(exchange))
    ensures MovesBack(cell, exchange, Kept(f, s, order, p, key))
  {
    hide Valid, Names, Removes, NoConflictOvertakes, NoDup, Done, CellAt, CE.StoreKey, PublishedAt, BatchAt, Last,
         OwnArrivals, Kept, Tracks, Source,
         FromSnapshot;
    DoneAt(order, p + 1, p);
    DoneInOrder(f, s, order, p + 1, order[p]);
    var word := WordOf(f, order[p], key);
    if cell.Some? {
      assert Reads(f, order[p], key, word);
      if FromSnapshot(f, t, order, p, key, cell.value) {
        SnapshotMovesBack(f, s, t, order, p, key, cell.value, word);
      } else {
        var a :| Source(f, order, p, a, key, cell.value);
        SourceMovesBack(f, s, t, order, p, a, key, cell.value, word);
      }
      if Kept(f, s, order, p, key) {
        KeptMovesBack(f, s, order, p, key, cell, word);
      }
    }
  }

  // ---- turns

  /** What holds of the interface after the first `p` batches: entries on track, kept keys in order. */
  ghost predicate Ordered(compare: CE.Collation, f: Feed, s: nat, t: nat, order: seq<nat>, p: nat, now: Entities)
    requires AllBelow(order, |f.steps|) && p <= |order| && t <= |f.steps|
  {
    && CE.WellFormed(now)
    && Settled(compare, now, KeptKeys(f, s, order, p))
    && forall key :: Tracks(f, s, order, p, key, CE.Cell(now, key)) && Dated(f, t, order, p, key, CE.Cell(now, key))
  }

  ghost function KeptKeys(f: Feed, s: nat, order: seq<nat>, p: nat): iset<string>
    requires p <= |order|
  {
    iset key: string | Kept(f, s, order, p, key)
  }

  lemma TurnSettled(compare: CE.Collation, f: Feed, s: nat, t: nat, order: seq<nat>, p: nat, now: Entities)
    requires CE.TotalOrder(compare) && Valid(f) && InTurn(f, s, order) && p < |order| && s <= t <= |f.steps|
    requires NoClear(f.steps, s, |f.steps|) && OwnArrivals(f, t, order)
    requires Ordered(compare, f, s, t, order, p, now)
    ensures var next := ApplyBatch(compare, now, BatchAt(f, order[p]));
      CE.WellFormed(next) && Settled(compare, next, KeptKeys(f, s, order, p))
  {
    hide CE.TotalOrder, UuidLaw, Sound, AllPublish, Causal, CE.Keyed, LateBatch, CE.Cell, OwnArrivals,
         NoConflictOvertakes, NoDup, SortedOn, Kept,
         MovesBack, CE.StoreKey, KeyOf, Coalesce, Tracks, Dated;
    DoneAt(order, p + 1, p);
    DoneInOrder(f, s, order, p + 1, order[p]);
    var batch, kept := BatchAt(f, order[p]), KeptKeys(f, s, order, p);
    LateBatchResetFree(f.config, f.hub, f.steps, f.fetchedAt, order[p]);
    CoalesceKeepsLast(batch, StatusSlot);
    forall i | 0 <= i < |Coalesce(batch)| && Coalesce(batch)[i].Upsert?
      ensures var key := CE.StoreKey(KeyOf(Coalesce(batch)[i].exchange));
        MovesBack(CE.Cell(now, key), Coalesce(batch)[i].exchange, key in kept)
    {
      var key := CE.StoreKey(KeyOf(Coalesce(batch)[i].exchange));
      LastOfDistinct(Coalesce(batch), i);
      CoalesceKeepsLast(batch, KeySlot(key));
      TurnMovesBack(f, s, t, order, p, key, CE.Cell(now, key), Coalesce(batch)[i].exchange);
    }
    FoldSettled(compare, now, Coalesce(batch), kept);
  }

  /** A key the batch was the last to take away is not listed after it. */
  lemma TurnKeeps(compare: CE.Collation, f: Feed, s: nat, order: seq<nat>, p: nat, now: Entities)
    requires Valid(f) && InTurn(f, s, order) && p < |order| && !f.steps[order[p]].SessionCleared? && CE.WellFormed(now)
    requires var next := ApplyBatch(compare, now, BatchAt(f, order[p]));
      CE.WellFormed(next) && Settled(compare, next, KeptKeys(f, s, order, p))
    ensures Settled(compare, ApplyBatch(compare, now, BatchAt(f, order[p])), KeptKeys(f, s, order, p + 1))
  {
    hide Valid, CE.Keyed, ApplyBatch, BatchAt, NoConflictOvertakes, Last, CE.Precedes, Removes, Names, NoDup, Done,
         PublishedAt, CellAt;
    var b, next := order[p], ApplyBatch(compare, now, BatchAt(f, order[p]));
    OneMoreDone(f, s, order, p);
    forall key | key in next.arrivalOrder && key in KeptKeys(f, s, order, p + 1) ensures key in KeptKeys(f, s, order, p)
    {
      BatchEffect(compare, f, now, b, key);
      var word := WordOf(f, b, key);
      assert !Ends(f, b, key);
    }
  }

  lemma Turn(compare: CE.Collation, f: Feed, s: nat, t: nat, order: seq<nat>, p: nat, now: Entities)
    requires CE.TotalOrder(compare) && Valid(f) && InTurn(f, s, order) && p < |order| && s <= t <= |f.steps|
    requires NoClear(f.steps, s, |f.steps|) && OwnArrivals(f, t, order)
    requires Ordered(compare, f, s, t, order, p, now)
    ensures Ordered(compare, f, s, t, order, p + 1, ApplyBatch(compare, now, BatchAt(f, order[p])))
  {
    hide CE.TotalOrder, Valid, CE.Keyed, BatchAt, CE.Cell, OwnArrivals, NoConflictOvertakes, NoDup, SortedOn, KeptKeys,
         Tracks, Dated, ApplyBatch, StepLast;
    DoneAt(order, p + 1, p);
    DoneInOrder(f, s, order, p + 1, order[p]);
    TurnSettled(compare, f, s, t, order, p, now);
    TurnKeeps(compare, f, s, order, p, now);
    var next := ApplyBatch(compare, now, BatchAt(f, order[p]));
    forall key ensures Tracks(f, s, order, p + 1, key, CE.Cell(next, key))
      && Dated(f, t, order, p + 1, key, CE.Cell(next, key)) {
      BatchEffect(compare, f, now, order[p], key);
      EntryTurn(f, s, order, p, key, CE.Cell(now, key));
      DatedTurn(f, s, t, order, p, key, CE.Cell(now, key));
    }
  }

  lemma MirrorOrdered(compare: CE.Collation, f: Feed, s: nat, t: nat, order: seq<nat>, ui: Entities)
    requires InTurn(f, s, order) && s <= t <= |f.steps| && Mirrors(compare, ui, HubBefore(f, t))
    ensures Ordered(compare, f, s, t, order, 0, ui)
  {
    hide CE.Keyed, NoConflictOvertakes, NoDup, CE.Precedes, Tracks, HubBefore, Names, Removes, CE.Cell;
    forall key ensures Tracks(f, s, order, 0, key, CE.Cell(ui, key)) && Dated(f, t, order, 0, key, CE.Cell(ui, key)) {
      assert CE.Cell(ui, key) == CellAt(f, t, key);
      NothingDone(f, s, order, key, CE.Cell(ui, key));
      if CE.Cell(ui, key).Some? {
        assert FromSnapshot(f, t, order, 0, key, CE.Cell(ui, key).value);
      }
    }
  }

  lemma {:induction false} TurnsOrdered(compare: CE.Collation, f: Feed, s: nat, t: nat, order: seq<nat>, p: nat,
                                        ui: Entities)
    requires CE.TotalOrder(compare) && Valid(f) && InTurn(f, s, order) && p <= |order| && s <= t <= |f.steps|
    requires NoClear(f.steps, s, |f.steps|) && OwnArrivals(f, t, order) && Mirrors(compare, ui, HubBefore(f, t))
    ensures AllBelow(order[..p], |f.steps|)
    ensures Ordered(compare, f, s, t, order, p, ApplyInTurn(compare, f, ui, order[..p]))
    decreases p
  {
    hide CE.TotalOrder, Valid, BatchAt, OwnArrivals, NoConflictOvertakes, NoDup, ApplyBatch, Ordered, Mirrors,
         HubBefore;
    if p == 0 {
      MirrorOrdered(compare, f, s, t, order, ui);
    } else {
      TurnsOrdered(compare, f, s, t, order, p - 1, ui);
      Turn(compare, f, s, t, order, p - 1, ApplyInTurn(compare, f, ui, order[..p - 1]));
      assert order[..p][..p - 1] == order[..p - 1];
    }
  }

  lemma NothingUpcoming(f: Feed, s: nat, order: seq<nat>)
    requires InTurn(f, s, order)
    ensures KeptKeys(f, s, order, |order|) == ALL
  {
    hide Ends, NoConflictOvertakes;
    forall j: nat | s <= j < |f.steps| ensures Done(order, |order|, j) {
      assert j in order;
    }
    assert forall key: string :: Kept(f, s, order, |order|, key);
  }

  /** Without a clear on the way. */
  lemma UnclearedConverges(compare: CE.Collation, f: Feed, ui: Entities, s: nat, t: nat, order: seq<nat>)
    requires CE.TotalOrder(compare) && Valid(f) && InTurn(f, s, order) && s <= t <= |f.steps|
    requires NoClear(f.steps, s, |f.steps|) && OwnArrivals(f, t, order) && Mirrors(compare, ui, HubBefore(f, t))
    ensures Mirrors(compare, ApplyInTurn(compare, f, ui, order), Run(f.config, f.hub, f.steps))
  {
    hide CE.TotalOrder, Valid, CE.Keyed, OwnArrivals, NoConflictOvertakes, NoDup, ApplyInTurn, CellAt, SortedOn,
         CE.Sorted, Run, KeptKeys, CE.Cell,
         Tracks, Dated, HubCell;
    assert order[..|order|] == order && f.steps[..|f.steps|] == f.steps;
    var last := ApplyInTurn(compare, f, ui, order);
    TurnsOrdered(compare, f, s, t, order, |order|, ui);
    NothingUpcoming(f, s, order);
    AllSettled(compare, last);
    forall key ensures CE.Cell(last, key) == HubCell(Run(f.config, f.hub, f.steps), key) {
      AllDone(f, s, order, key, CE.Cell(last, key));
      LastCell(f, key);
    }
  }

  lemma LastCell(f: Feed, key: string)
    ensures CellAt(f, |f.steps|, key) == HubCell(Run(f.config, f.hub, f.steps), key)
  {
    hide Run, HubCell;
    assert f.steps[..|f.steps|] == f.steps;
  }

  // ---- clears

  lemma {:induction false} TurnsConcat(compare: CE.Collation, f: Feed, ui: Entities, first: seq<nat>, second: seq<nat>)
    requires AllBelow(first, |f.steps|) && AllBelow(second, |f.steps|)
    ensures AllBelow(first + second, |f.steps|)
    ensures ApplyInTurn(compare, f, ui, first + second)
      == ApplyInTurn(compare, f, ApplyInTurn(compare, f, ui, first), second)
    decreases |second|
  {
    hide ApplyBatch, BatchAt;
    if second == [] {
      assert first + second == first;
    } else {
      var n := |second| - 1;
      TurnsConcat(compare, f, ui, first, second[..n]);
      assert (first + second)[..|first| + n] == first + second[..n];
    }
  }

  lemma {:induction false} LastClear(steps: seq<Step>, s: nat, n: nat) returns (c: nat)
    requires s <= n <= |steps|
    ensures s <= c <= n && (c < n ==> steps[c].SessionCleared? && NoClear(steps, c + 1, n))
            && (c == n ==> NoClear(steps, s, n))
    decreases n - s
  {
    if s == n {
      c := n;
    } else {
      c := LastClear(steps, s + 1, n);
      if c == n && steps[s].SessionCleared? {
        c := s;
      }
    }
  }

  /** What comes after a reset was published after it. */
  lemma AfterReset(f: Feed, s: nat, order: seq<nat>, p: nat)
    requires InTurn(f, s, order) && p < |order| && f.steps[order[p]].SessionCleared?
    ensures s <= order[p] && InTurn(f, order[p] + 1, order[p + 1..])
  {
    hide Names, Removes;
    var c, rest := order[p], order[p + 1..];
    assert c in order;
    forall j: nat ensures j in rest <==> c + 1 <= j < |f.steps| {
      if j in order {
        var a :| 0 <= a < |order| && order[a] == j;
        assert Conflict(f, order[a], order[p]) && Conflict(f, order[p], order[a]);
        assert a > p ==> rest[a - p - 1] == j;
      }
    }
    hide Conflict;
    assert AllBelow(rest, |f.steps|) && NoDup(rest);
  }

  lemma ResetEmpties(compare: CE.Collation, f: Feed, ui: Entities, order: seq<nat>, p: nat)
    requires AllBelow(order, |f.steps|) && p < |order| && f.steps[order[p]].SessionCleared?
    ensures AllBelow(order[..p + 1], |f.steps|) && AllBelow(order[p + 1..], |f.steps|)
    ensures ApplyInTurn(compare, f, ui, order) == ApplyInTurn(compare, f, CE.NO_ENTITIES, order[p + 1..])
  {
    hide ApplyBatch, LateBatch;
    assert order == order[..p + 1] + order[p + 1..];
    assert order[..p + 1][..p] == order[..p];
    TurnsConcat(compare, f, ui, order[..p + 1], order[p + 1..]);
    LateClear(compare, f.config, f.hub, f.steps, f.fetchedAt, order[p], ApplyInTurn(compare, f, ui, order[..p]));
  }

  lemma MirrorsCleared(compare: CE.Collation, f: Feed, c: nat)
    requires c < |f.steps| && f.steps[c].SessionCleared?
    ensures Mirrors(compare, CE.NO_ENTITIES, HubBefore(f, c + 1))
  {
    hide HubAt, Mirrors;
    NextHub(f.config, f.hub, f.steps, c);
    ClearedBatch(compare, f.config, HubBefore(f, c), f.steps[c], CE.NO_ENTITIES);
    NothingMirrorsEmpty(compare, HubBefore(f, c + 1));
  }

  lemma ExpectedAfter(f: Feed, t: nat, order: seq<nat>, p: nat, a: nat, key: string)
    requires AllBelow(order, |f.steps|) && p < |order| && t <= |f.steps| && AllBelow(order[p + 1..], |f.steps|)
    requires a < |order[p + 1..]| && order[p] < order[p + 1..][a]
    ensures Expected(f, order[p] + 1, order[p + 1..], a, key) ==> Expected(f, t, order, p + 1 + a, key)
  {
    hide CellAt, Names;
    var rest := order[p + 1..];
    if exists b :: 0 <= b < a && rest[a] < rest[b] && Names(f, rest[b], key) {
      var b :| 0 <= b < a && rest[a] < rest[b] && Names(f, rest[b], key);
      assert order[p + 1 + b] == rest[b];
    }
  }

  lemma OwnArrivalsAfter(f: Feed, t: nat, order: seq<nat>, p: nat)
    requires Valid(f) && AllBelow(order, |f.steps|) && p < |order| && t <= |f.steps| && OwnArrivals(f, t, order)
    requires AllBelow(order[p + 1..], |f.steps|) && forall a :: p < a < |order| ==> order[p] < order[a]
    ensures OwnArrivals(f, order[p] + 1, order[p + 1..])
  {
    hide UuidLaw, Sound, AllPublish, CellAt, OwnArrival, PublishedAt, CE.StoreKey, Expected;
    var rest := order[p + 1..];
    forall a: nat, i: nat | a < |rest| && i < |PublishedAt(f, rest[a])| && PublishedAt(f, rest[a])[i].Upsert?
      ensures var key := CE.StoreKey(PublishedAt(f, rest[a])[i].summary.key);
        Expected(f, order[p] + 1, rest, a, key) ==> OwnArrival(f, rest[a], f.fetchedAt(rest[a], i), key)
    {
      assert rest[a] == order[p + 1 + a];
      ExpectedAfter(f, t, order, p, a, CE.StoreKey(PublishedAt(f, rest[a])[i].summary.key));
    }
  }

  /** The interface lists the hub's summaries in the hub's arrival order. */
  ghost predicate Shows(ui: Entities, hub: Hub) {
    && ui.arrivalOrder == StoreKeys(hub.arrivalOrder)
    && (forall k :: k in hub.arrivalOrder ==> k in hub.exchanges)
    && (forall k :: k in ui.arrivalOrder ==> k in ui.summaryById)
    && UiSnapshot(ui) == HubSnapshot(hub)
  }

  lemma MirrorShows(compare: CE.Collation, f: Feed, ui: Entities)
    requires CE.TotalOrder(compare) && Valid(f) && Mirrors(compare, ui, Run(f.config, f.hub, f.steps))
    ensures Shows(ui, Run(f.config, f.hub, f.steps))
  {
    hide CE.TotalOrder, UuidLaw, Sound, AllPublish, Causal, Mirrors, UiSnapshot, HubSnapshot, StoreKeys, Run;
    RunKeepsSound(f.config, f.hub, f.steps);
    MirroredOrder(compare, ui, Run(f.config, f.hub, f.steps));
    MirroredSnapshot(compare, ui, Run(f.config, f.hub, f.steps));
  }

  /**
   Order under late reads and overtaking. Start from a mirror of the hub at step `t` and apply the batches
   of every step from `s` on, `s` no later than `t`, every detail read late and the batches in any order
   without conflicts. If no update finds its key under a later arrival, the interface mirrors the hub at
   the end: the same entries in the same order.
   */
  lemma LateOrderConverges(compare: CE.Collation, f: Feed, ui: Entities, s: nat, t: nat, order: seq<nat>)
    requires CE.TotalOrder(compare) && Valid(f) && InTurn(f, s, order) && s <= t <= |f.steps|
    requires OwnArrivals(f, t, order) && Mirrors(compare, ui, HubBefore(f, t))
    ensures Mirrors(compare, ApplyInTurn(compare, f, ui, order), Run(f.config, f.hub, f.steps))
    ensures Shows(ApplyInTurn(compare, f, ui, order), Run(f.config, f.hub, f.steps))
  {
    hide CE.TotalOrder, Valid, ApplyInTurn, HubBefore, NoConflictOvertakes, NoDup, Run, Mirrors, OwnArrivals, Shows;
    var c := LastClear(f.steps, s, |f.steps|);
    if c == |f.steps| {
      UnclearedConverges(compare, f, ui, s, t, order);
    } else {
      assert c in order;
      var p :| 0 <= p < |order| && order[p] == c;
      AfterReset(f, s, order, p);
      ResetEmpties(compare, f, ui, order, p);
      MirrorsCleared(compare, f, c);
      forall a | p < a < |order| ensures order[p] < order[a] {
        assert order[p + 1..][a - p - 1] in order[p + 1..];
      }
      OwnArrivalsAfter(f, t, order, p);
      UnclearedConverges(compare, f, CE.NO_ENTITIES, c + 1, c + 1, order[p + 1..]);
    }
    MirrorShows(compare, f, ApplyInTurn(compare, f, ui, order));
  }

  // ---- special cases

  /** No key that a batch took away is stored again before the next clear. */
  ghost predicate NothingReturns(f: Feed) {
    forall i: nat, j: nat, key :: i < j <= |f.steps| && NoClear(f.steps, i, j) && Ends(f, i, key) ==>
      CellAt(f, j, key).None?
  }

  /** Then every read finds its own arrival, whatever the schedule. */
  lemma NothingReturnsOwnArrivals(f: Feed, t: nat, order: seq<nat>)
    requires Valid(f) && t <= |f.steps| && AllBelow(order, |f.steps|) && NothingReturns(f)
    ensures OwnArrivals(f, t, order)
  {
    hide UuidLaw, Sound, AllPublish, CellAt, Expected, PublishedAt, CE.StoreKey, Removes;
    forall j: nat, u: nat, key | j < u <= |f.steps| ensures OwnArrival(f, j, u, key) {
      if NoClear(f.steps, j, u) && CellAt(f, j + 1, key).Some? && CellAt(f, u, key).Some? {
        forall r | j + 1 <= r < u ensures !Ends(f, r, key) {
          assert NoClear(f.steps, r, u);
        }
        SteadyRise(f, j + 1, u, key);
      }
    }
  }

  /** So without returns, order and entries converge under every schedule and every order without conflicts. */
  lemma NothingReturnsConverges(compare: CE.Collation, f: Feed, ui: Entities, s: nat, t: nat, order: seq<nat>)
    requires CE.TotalOrder(compare) && Valid(f) && InTurn(f, s, order) && s <= t <= |f.steps|
    requires NothingReturns(f) && Mirrors(compare, ui, HubBefore(f, t))
    ensures Shows(ApplyInTurn(compare, f, ui, order), Run(f.config, f.hub, f.steps))
  {
    hide CE.TotalOrder, UuidLaw, Sound, AllPublish, Causal, NothingReturns, OwnArrivals, NoConflictOvertakes, NoDup,
         Mirrors, Shows, ApplyInTurn, Run, HubBefore;
    NothingReturnsOwnArrivals(f, t, order);
    LateOrderConverges(compare, f, ui, s, t, order);
  }

  /** The batches in the order of publication. */
  lemma LateReplayShows(compare: CE.Collation, f: Feed, ui: Entities, s: nat, t: nat)
    requires CE.TotalOrder(compare) && Valid(f) && s <= t <= |f.steps| && OwnArrivals(f, t, Range(s, |f.steps|))
    requires Mirrors(compare, ui, HubBefore(f, t))
    ensures Shows(LateReplay(compare, f, ui, s, |f.steps|), Run(f.config, f.hub, f.steps))
  {
    hide CE.TotalOrder, UuidLaw, Sound, AllPublish, Causal, OwnArrivals, NoConflictOvertakes, NoDup, Mirrors, Shows,
         ApplyInTurn, Run, HubBefore, LateReplay, Range;
    RangeInTurn(f, s);
    RangeIsLateReplay(compare, f, ui, s, |f.steps|);
    LateOrderConverges(compare, f, ui, s, t, Range(s, |f.steps|));
  }

  /** After a lag reset with the snapshot of step `t`, whatever the subscriber still buffers from `s` on. */
  lemma LateLagResetShows(compare: CE.Collation, f: Feed, s: nat, t: nat, order: seq<nat>)
    requires CE.TotalOrder(compare) && Valid(f) && InTurn(f, s, order) && s <= t <= |f.steps|
      && OwnArrivals(f, t, order)
    ensures forall k :: k in HubBefore(f, t).arrivalOrder ==> k in HubBefore(f, t).exchanges
    ensures Shows(ApplyInTurn(compare, f, ResetUi(compare, HubBefore(f, t)), order), Run(f.config, f.hub, f.steps))
  {
    hide CE.TotalOrder, Valid, OwnArrivals, NoConflictOvertakes, NoDup, Mirrors, Shows, ApplyInTurn, Run, HubBefore,
         ResetUi, ReadFrom;
    ResetIsRead(compare, f, s, t);
    LateOrderConverges(compare, f, ResetUi(compare, HubBefore(f, t)), s, t, order);
  }

  // ---- in order throughout

  /** The deltas an interface folds in, batch by batch, in the order the batches are applied. */
  function Stream(f: Feed, order: seq<nat>): seq<CE.UiDelta>
    requires AllBelow(order, |f.steps|)
  {
    if order == [] then [] else Stream(f, order[..|order| - 1]) + Coalesce(BatchAt(f, order[|order| - 1]))
  }

  lemma {:induction false} StreamFolds(compare: CE.Collation, f: Feed, ui: Entities, s: nat, order: seq<nat>)
    requires Valid(f) && AllBelow(order, |f.steps|) && NoClear(f.steps, s, |f.steps|)
             && forall i :: 0 <= i < |order| ==> s <= order[i]
    ensures ApplyInTurn(compare, f, ui, order) == CE.Fold(compare, ui, Stream(f, order))
    ensures ResetFree(Stream(f, order))
  {
    hide UuidLaw, Sound, AllPublish, Causal, LateBatch, CE.Fold, Coalesce;
    if order == [] {
      assert CE.Fold(compare, ui, []) == ui by { NothingFolded(compare, ui); }
    } else {
      var n := |order| - 1;
      StreamFolds(compare, f, ui, s, order[..n]);
      CE.FoldConcat(compare, ui, Stream(f, order[..n]), Coalesce(BatchAt(f, order[n])));
      LateBatchResetFree(f.config, f.hub, f.steps, f.fetchedAt, order[n]);
      CoalesceKeepsLast(BatchAt(f, order[n]), StatusSlot);
    }
  }

  lemma NothingFolded(compare: CE.Collation, ui: Entities)
    ensures CE.Fold(compare, ui, []) == ui
  {
  }

  /**
   Exactly when an interface is in arrival order all the way: it starts in order, no clear intervenes, and
   each upsert, as it is read, keeps the place of the entry it replaces.
   */
  lemma InOrderThroughoutIff(compare: CE.Collation, f: Feed, ui: Entities, s: nat, order: seq<nat>)
    requires CE.TotalOrder(compare) && Valid(f) && InTurn(f, s, order) && NoClear(f.steps, s, |f.steps|)
    requires SortedFolds.InOrder(compare, ui)
    ensures ApplyInTurn(compare, f, ui, order) == CE.Fold(compare, ui, Stream(f, order))
    ensures var deltas := Stream(f, order);
      (forall n :: 0 <= n <= |deltas| ==> SortedFolds.InOrder(compare, CE.Fold(compare, ui, deltas[..n])))
      <==> (forall n :: 0 <= n < |deltas| ==>
            SortedFolds.InPlace(compare, CE.Fold(compare, ui, deltas[..n]), deltas[n]))
  {
    hide CE.TotalOrder, Valid, NoConflictOvertakes, NoDup, Stream, CE.Fold, SortedFolds.InOrder, SortedFolds.InPlace,
         ApplyInTurn;
    forall i | 0 <= i < |order| ensures s <= order[i] {
      assert order[i] in order;
    }
    StreamFolds(compare, f, ui, s, order);
    SortedFolds.FoldStaysSortedIff(compare, ui, Stream(f, order));
  }
}
