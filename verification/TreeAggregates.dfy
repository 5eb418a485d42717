/** Running totals over a set of exchanges, kept by adding and subtracting one contribution at a time. */
module TreeAggregates {
  import opened Wrappers
  import opened CaptureModel
  import opened MapSums

  type Summary = HttpExchangeSummary

  datatype Aggregate = Aggregate(
    exchangeCount: int,
    inFlightCount: int,
    errorCount: int,
    knownDurationTotalMs: int,
    knownDurationCount: int,
    knownTotalBytes: int,
    sourceCounts: map<string, int>)

  const EMPTY := Aggregate(0, 0, 0, 0, 0, 0, map[])

  predicate IsError(summary: Summary) {
    summary.lifecycle.state.Failed? || (summary.statusCode.Some? && summary.statusCode.value >= 400)
  }

  function Change(aggregate: Aggregate, summary: Summary, direction: int): Aggregate {
    var name := summary.sourceName;
    var nextSourceCount := (if name in aggregate.sourceCounts then aggregate.sourceCounts[name] else 0) + direction;
    Aggregate(
      aggregate.exchangeCount + direction,
      aggregate.inFlightCount + (if summary.lifecycle.state.InFlight? then direction else 0),
      aggregate.errorCount + (if IsError(summary) then direction else 0),
      aggregate.knownDurationTotalMs + summary.durationMs.UnwrapOr(0) * direction,
      aggregate.knownDurationCount + (if summary.durationMs.None? then 0 else 1) * direction,
      aggregate.knownTotalBytes + summary.totalBytes.UnwrapOr(0) * direction,
      if nextSourceCount > 0 then aggregate.sourceCounts[name := nextSourceCount] else aggregate.sourceCounts - {name})
  }

  // ---- what an aggregate measures

  datatype Measure = Exchanges | InFlights | Errors | DurationMs | Durations | Bytes | FromSource(name: string)

  function Weight(measure: Measure, summary: Summary): nat {
    match measure
    case Exchanges => 1
    case InFlights => if summary.lifecycle.state.InFlight? then 1 else 0
    case Errors => if summary.lifecycle.state == Failed || summary.statusCode.UnwrapOr(0) >= 400 then 1 else 0
    case DurationMs => summary.durationMs.UnwrapOr(0)
    case Durations => if summary.durationMs.Some? then 1 else 0
    case Bytes => summary.totalBytes.UnwrapOr(0)
    case FromSource(name) => if summary.sourceName == name then 1 else 0
  }

  function Reading(aggregate: Aggregate, measure: Measure): int {
    match measure
    case Exchanges => aggregate.exchangeCount
    case InFlights => aggregate.inFlightCount
    case Errors => aggregate.errorCount
    case DurationMs => aggregate.knownDurationTotalMs
    case Durations => aggregate.knownDurationCount
    case Bytes => aggregate.knownTotalBytes
    case FromSource(name) => if name in aggregate.sourceCounts then aggregate.sourceCounts[name] else 0
  }

  /** The sum of a measure over a set of exchanges. */
  ghost function Total(entries: map<string, Summary>, measure: Measure): nat {
    Sum(entries, (k, summary) => Weight(measure, summary))
  }

  lemma TotalWithout(entries: map<string, Summary>, k: string, measure: Measure)
    requires k in entries
    ensures Total(entries, measure) == Weight(measure, entries[k]) + Total(entries - {k}, measure)
  {
    SumWithout(entries, k, (k, summary) => Weight(measure, summary));
  }

  lemma TotalWith(entries: map<string, Summary>, k: string, summary: Summary, measure: Measure)
    requires k !in entries
    ensures Total(entries[k := summary], measure) == Weight(measure, summary) + Total(entries, measure)
  {
    TotalWithout(entries[k := summary], k, measure);
    assert entries[k := summary] - {k} == entries;
  }

  /** Every reading is the sum of its weights, and no source is listed at zero. */
  ghost predicate Sums(aggregate: Aggregate, entries: map<string, Summary>) {
    && (forall measure :: Reading(aggregate, measure) == Total(entries, measure))
    && (forall name :: name in aggregate.sourceCounts ==> aggregate.sourceCounts[name] > 0)
  }

  lemma EmptySums()
    ensures Sums(EMPTY, map[])
  {
  }

  /** A change moves every reading by the weight of the summary, as long as no source count goes negative. */
  lemma ChangeReading(aggregate: Aggregate, summary: Summary, direction: int, measure: Measure)
    requires direction == 1 || direction == -1
    requires Reading(aggregate, FromSource(summary.sourceName)) + direction >= 0
    ensures Reading(Change(aggregate, summary, direction), measure) == Reading(aggregate, measure)
      + Weight(measure, summary) * direction
  {
  }

  lemma AddSums(aggregate: Aggregate, entries: map<string, Summary>, k: string, summary: Summary)
    requires Sums(aggregate, entries) && k !in entries
    ensures Sums(Change(aggregate, summary, 1), entries[k := summary])
  {
    hide Weight, Reading, Total;
    var next := Change(aggregate, summary, 1);
    assert Reading(aggregate, FromSource(summary.sourceName)) >= 0;
    forall measure ensures Reading(next, measure) == Total(entries[k := summary], measure) {
      ChangeReading(aggregate, summary, 1, measure);
      TotalWith(entries, k, summary, measure);
    }
  }

  lemma SubtractSums(aggregate: Aggregate, entries: map<string, Summary>, k: string)
    requires Sums(aggregate, entries) && k in entries
    ensures Sums(Change(aggregate, entries[k], -1), entries - {k})
  {
    hide Reading, Total;
    var next := Change(aggregate, entries[k], -1);
    TotalWithout(entries, k, FromSource(entries[k].sourceName));
    forall measure ensures Reading(next, measure) == Total(entries - {k}, measure) {
      ChangeReading(aggregate, entries[k], -1, measure);
      TotalWithout(entries, k, measure);
    }
  }

  /** A set of exchanges has one aggregate. */
  lemma SumsDetermine(a: Aggregate, b: Aggregate, entries: map<string, Summary>)
    requires Sums(a, entries) && Sums(b, entries)
    ensures a == b
  {
    hide Total;
    assert Reading(a, Exchanges) == Reading(b, Exchanges) && Reading(a, InFlights) == Reading(b, InFlights);
    assert Reading(a, Errors) == Reading(b, Errors) && Reading(a, DurationMs) == Reading(b, DurationMs);
    assert Reading(a, Durations) == Reading(b, Durations) && Reading(a, Bytes) == Reading(b, Bytes);
    forall name
      ensures name in a.sourceCounts <==> name in b.sourceCounts
      ensures name in a.sourceCounts ==> a.sourceCounts[name] == b.sourceCounts[name]
    {
      assert Reading(a, FromSource(name)) == Total(entries, FromSource(name)) == Reading(b, FromSource(name));
    }
    assert a.sourceCounts == b.sourceCounts;
  }

  lemma {:induction false} ExchangesTotal(entries: map<string, Summary>)
    ensures Total(entries, Exchanges) == |entries|
    decreases |entries|
  {
    if entries != map[] {
      var k := Pick(entries);
      Shrinks(entries, k);
      ExchangesTotal(entries - {k});
      TotalWithout(entries, k, Exchanges);
    }
  }
}
