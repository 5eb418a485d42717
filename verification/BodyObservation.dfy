/**
 Watching a body go by in chunks: the observer keeps what fits, and reports once, either everything
 it saw or nothing.
 */
module BodyObservation {
  import opened Wrappers

  newtype byte = x: int | 0 <= x < 256

  type Bytes = seq<byte>

  /**
   A declared length only counts against bytes that are not content-encoded, unless a request body is
   watched.
   */
  datatype Settings = Settings(declaredByteLength: Option<nat>, encoded: bool, captureResponseBody: bool,
                               maximumBodyBytes: nat)

  datatype Body = CapturedBody(bytes: Bytes) | EmptyBody | UnavailableBody

  datatype Report = Completed(body: Body) | Failed(body: Body, error: string)

  datatype Call = Observe(chunk: Bytes) | Complete | Fail(error: string) | Dispose

  /** The declared length that the observed length is compared with. */
  function Comparable(settings: Settings): Option<nat> {
    if !settings.captureResponseBody || !settings.encoded then settings.declaredByteLength else None
  }

  // ---- what each call does

  /** Everything seen so far and the reports made; nothing happens after the first report. */
  datatype Watch = Watch(seen: Bytes, reports: seq<Report>, terminal: bool)

  const START := Watch([], [], false)

  function Reported(w: Watch, report: Report): Watch {
    w.(reports := w.reports + [report], terminal := true)
  }

  function Reaches(settings: Settings, seen: Bytes): bool {
    Comparable(settings).Some? && |seen| >= Comparable(settings).value
  }

  function Whole(settings: Settings, seen: Bytes): Body {
    if |seen| <= settings.maximumBodyBytes then CapturedBody(seen) else UnavailableBody
  }

  function CompletedBody(settings: Settings, seen: Bytes): Body {
    if |seen| > settings.maximumBodyBytes || (Comparable(settings).Some? && Comparable(settings).value != |seen|)
      then UnavailableBody
    else if seen == [] then EmptyBody
    else CapturedBody(seen)
  }

  function DisposedBody(settings: Settings, seen: Bytes): Body {
    if seen == [] && settings.declaredByteLength == Some(0) then EmptyBody else UnavailableBody
  }

  function AfterCall(settings: Settings, w: Watch, call: Call): Watch {
    if w.terminal then w
    else
      match call
      case Observe(chunk) =>
        if chunk == [] then w
        else
          var longer := w.(seen := w.seen + chunk);
          if Reaches(settings, longer.seen) then
            Reported(longer, Completed(if Comparable(settings) == Some(|longer.seen|) then Whole(settings, longer.seen)
                                       else UnavailableBody))
          else longer
      case Complete => Reported(w, Completed(CompletedBody(settings, w.seen)))
      case Fail(error) => Reported(w, Failed(UnavailableBody, error))
      case Dispose => Reported(w, Completed(DisposedBody(settings, w.seen)))
  }

  function Run(settings: Settings, w: Watch, calls: seq<Call>): Watch {
    if calls == [] then w else AfterCall(settings, Run(settings, w, calls[..|calls| - 1]), calls[|calls| - 1])
  }

  /** The observer as the source keeps it: a buffer that is dropped for good once it would grow too large. */
  class Observer {
    const settings: Settings
    var buffer: Option<Bytes>
    var observedByteLength: nat
    var terminal: bool
    var reports: seq<Report>
    ghost var seen: Bytes

    ghost predicate Valid()
      reads this
    {
      && (!terminal ==> observedByteLength == |seen|)
      && (!terminal ==> buffer == if |seen| <= settings.maximumBodyBytes then Some(seen) else None)
      && (terminal ==> buffer.None?)
    }

    ghost function View(): Watch
      reads this
    {
      Watch(seen, reports, terminal)
    }

    constructor (settings: Settings)
      ensures Valid() && View() == START && this.settings == settings
    {
      this.settings := settings;
      buffer, observedByteLength, terminal, reports, seen := Some([]), 0, false, [], [];
    }

    method Finish(body: Body) returns (finished: Option<Body>)
      requires Valid()
      modifies this`terminal, this`buffer
      ensures Valid() && terminal
      ensures finished == if old(terminal) then None else Some(body)
    {
      if terminal {
        return None;
      }
      terminal, buffer := true, None;
      finished := Some(body);
    }

    method ObserveBytes(bytes: Bytes)
      requires Valid()
      modifies this
      ensures Valid() && View() == AfterCall(settings, old(View()), Observe(bytes))
    {
      if terminal || bytes == [] {
        return;
      }
      observedByteLength := observedByteLength + |bytes|;
      seen := seen + bytes;
      if buffer.Some? {
        if observedByteLength <= settings.maximumBodyBytes {
          buffer := Some(buffer.value + bytes);
        } else {
          buffer := None;
        }
      }
      var comparable := Comparable(settings);
      if comparable.Some? && observedByteLength >= comparable.value {
        var finished := Finish(if observedByteLength == comparable.value && buffer.Some? then CapturedBody(buffer.value)
                               else UnavailableBody);
        if finished.Some? {
          reports := reports + [Completed(finished.value)];
        }
      }
    }

    method CompleteBody()
      requires Valid()
      modifies this
      ensures Valid() && View() == AfterCall(settings, old(View()), Complete)
    {
      var comparable := Comparable(settings);
      var finished := Finish(
        if buffer.None? then UnavailableBody
        else if comparable.Some? && observedByteLength != comparable.value then UnavailableBody
        else if observedByteLength == 0 then EmptyBody
        else CapturedBody(buffer.value));
      if finished.Some? {
        reports := reports + [Completed(finished.value)];
      }
    }

    method FailBody(error: string)
      requires Valid()
      modifies this
      ensures Valid() && View() == AfterCall(settings, old(View()), Fail(error))
    {
      var finished := Finish(UnavailableBody);
      if finished.Some? {
        reports := reports + [Failed(finished.value, error)];
      }
    }

    method DisposeObservation()
      requires Valid()
      modifies this
      ensures Valid() && View() == AfterCall(settings, old(View()), Dispose)
    {
      var finished := Finish(if observedByteLength == 0 && settings.declaredByteLength == Some(0) then EmptyBody
                             else UnavailableBody);
      if finished.Some? {
        reports := reports + [Completed(finished.value)];
      }
    }
  }

  // ---- all or nothing

  /** The chunks observed by the first `n` calls, joined. */
  function Joined(calls: seq<Call>): Bytes {
    if calls == [] then []
    else Joined(calls[..|calls| - 1]) + match calls[|calls| - 1] case Observe(chunk) => chunk case _ => []
  }

  /** One report at most, made exactly when the watch ends. */
  lemma {:induction false} AtMostOneReport(settings: Settings, calls: seq<Call>)
    ensures var w := Run(settings, START, calls);
      |w.reports| == if w.terminal then 1 else 0
  {
    hide Reaches, Whole, CompletedBody, DisposedBody;
    if calls != [] {
      AtMostOneReport(settings, calls[..|calls| - 1]);
    }
  }

  lemma {:induction false} SeenIsJoined(settings: Settings, calls: seq<Call>)
    ensures var w := Run(settings, START, calls);
      !w.terminal ==> w.seen == Joined(calls) && forall i :: 0 <= i < |calls| ==> calls[i].Observe?
  {
    hide Reaches, Whole, CompletedBody, DisposedBody;
    if calls != [] {
      SeenIsJoined(settings, calls[..|calls| - 1]);
    }
  }

  /** The first `n` calls ended the watch, the last of them alone, having observed `bytes`. */
  ghost predicate EndedAfter(calls: seq<Call>, n: nat, bytes: Bytes) {
    0 < n <= |calls| && bytes == Joined(calls[..n]) && forall i :: 0 <= i < n - 1 ==> calls[i].Observe?
  }

  lemma EndedEarlier(calls: seq<Call>, m: nat, n: nat, bytes: Bytes)
    requires m <= |calls| && EndedAfter(calls[..m], n, bytes)
    ensures EndedAfter(calls, n, bytes)
  {
    assert calls[..m][..n] == calls[..n];
    assert forall i :: 0 <= i < m ==> calls[..m][i] == calls[i];
  }

  /** A call that makes a captured report reports everything seen, the call's own chunk included. */
  lemma CapturingCall(settings: Settings, w: Watch, call: Call, bytes: Bytes)
    requires !w.terminal && w.reports == []
    requires Completed(CapturedBody(bytes)) in AfterCall(settings, w, call).reports
    ensures bytes == w.seen + (match call case Observe(chunk) => chunk case _ => [])
    ensures bytes != [] && |bytes| <= settings.maximumBodyBytes
    ensures Comparable(settings).Some? ==> |bytes| == Comparable(settings).value
  {
    hide Comparable;
    assert w.seen + [] == w.seen;
  }

  /**
   A captured body is exactly what was observed up to the call that ended the watch: every chunk in
   order and nothing else, within the maximum, and of the comparable declared length if there is one.
   */
  lemma {:induction false} CapturedIsEverything(settings: Settings, calls: seq<Call>, bytes: Bytes)
    requires Completed(CapturedBody(bytes)) in Run(settings, START, calls).reports
    ensures exists n :: EndedAfter(calls, n, bytes)
    ensures bytes != [] && |bytes| <= settings.maximumBodyBytes
    ensures Comparable(settings).Some? ==> |bytes| == Comparable(settings).value
  {
    hide Comparable, EndedAfter;
    var n := |calls| - 1;
    var before := Run(settings, START, calls[..n]);
    if before.terminal {
      CapturedIsEverything(settings, calls[..n], bytes);
      var m :| EndedAfter(calls[..n], m, bytes);
      EndedEarlier(calls, n, m, bytes);
    } else {
      hide AfterCall;
      AtMostOneReport(settings, calls[..n]);
      SeenIsJoined(settings, calls[..n]);
      CapturingCall(settings, before, calls[n], bytes);
      assert EndedAfter(calls, |calls|, bytes) by { EndsNow(calls, bytes); }
    }
  }

  lemma EndsNow(calls: seq<Call>, bytes: Bytes)
    requires calls != [] && bytes == Joined(calls)
    requires forall c :: c in calls[..|calls| - 1] ==> c.Observe?
    ensures EndedAfter(calls, |calls|, bytes)
  {
    assert calls[..|calls|] == calls;
    assert forall i :: 0 <= i < |calls| - 1 ==> calls[i] in calls[..|calls| - 1];
  }

  // ---- chunking

  function Chunks(chunks: seq<Bytes>): seq<Call> {
    seq(|chunks|, i requires 0 <= i < |chunks| => Observe(chunks[i]))
  }

  function Flat(chunks: seq<Bytes>): Bytes {
    if chunks == [] then [] else Flat(chunks[..|chunks| - 1]) + chunks[|chunks| - 1]
  }

  lemma ChunksStep(settings: Settings, chunks: seq<Bytes>)
    requires chunks != []
    ensures Run(settings, START, Chunks(chunks))
         == AfterCall(settings, Run(settings, START, Chunks(chunks[..|chunks| - 1])), Observe(chunks[|chunks| - 1]))
  {
    assert Chunks(chunks)[..|chunks| - 1] == Chunks(chunks[..|chunks| - 1]);
  }

  /** The state after a stream, as far as it does not depend on where its chunks are cut. */
  function Outcome(settings: Settings, total: Bytes): Option<Report> {
    if total == [] || !Reaches(settings, total) then None
    else if Comparable(settings) == Some(|total|) then Some(Completed(Whole(settings, total)))
    else Some(Completed(UnavailableBody))
  }

  /** A stream longer than a comparable declared length that some chunking would cut exactly there. */
  predicate Overruns(settings: Settings, total: Bytes) {
    && Comparable(settings).Some?
    && 0 < Comparable(settings).value < |total|
    && Comparable(settings).value <= settings.maximumBodyBytes
  }

  lemma {:induction false} ChunksOutcome(settings: Settings, chunks: seq<Bytes>)
    requires !Overruns(settings, Flat(chunks))
    ensures var w := Run(settings, START, Chunks(chunks));
      match Outcome(settings, Flat(chunks))
      case None => w == Watch(Flat(chunks), [], false)
      case Some(report) => w.terminal && w.reports == [report]
  {
    if chunks != [] {
      ChunksStep(settings, chunks);
      ChunksOutcome(settings, chunks[..|chunks| - 1]);
      var front, chunk := Flat(chunks[..|chunks| - 1]), chunks[|chunks| - 1];
      assert chunk == [] ==> front + chunk == front;
      assert forall report: Report :: [] + [report] == [report];
    }
  }

  /** What the caller learns from a stream cut into chunks and then ended. */
  function Learned(settings: Settings, chunks: seq<Bytes>, end: Call): seq<Report> {
    AfterCall(settings, Run(settings, START, Chunks(chunks)), end).reports
  }

  /**
   Chunking independence, exactly. The reports for a stream are the same however it is cut if and only
   if it does not overrun a comparable declared length that lies within the maximum. In particular
   they are for every stream no longer than the declared length.
   */
  lemma ChunkingIrrelevantIff(settings: Settings, total: Bytes, end: Call)
    ensures (forall a, b :: Flat(a) == total && Flat(b) == total ==>
             Learned(settings, a, end) == Learned(settings, b, end))
       <==> !Overruns(settings, total)
  {
    if Overruns(settings, total) {
      var d := Comparable(settings).value;
      var whole, cut := [total], [total[..d], total[d..]];
      CutStreams(total, d);
      WholeChunk(settings, total, end);
      CutChunks(settings, total, d, end);
      assert Learned(settings, whole, end) != Learned(settings, cut, end);
    } else {
      forall a, b | Flat(a) == total && Flat(b) == total ensures Learned(settings, a, end) == Learned(settings, b, end)
      {
        ChunksOutcome(settings, a);
        ChunksOutcome(settings, b);
      }
    }
  }

  lemma CutStreams(total: Bytes, d: nat)
    requires d <= |total|
    ensures Flat([total]) == total && Flat([total[..d], total[d..]]) == total
  {
    FlatOne(total);
    FlatOne(total[..d]);
    var cut := [total[..d], total[d..]];
    assert cut[..1] == [total[..d]];
    assert Flat(cut) == Flat(cut[..1]) + total[d..];
  }

  lemma FlatOne(chunk: Bytes)
    ensures Flat([chunk]) == chunk
  {
    assert [chunk][..0] == [];
    assert Flat([chunk]) == [] + chunk;
  }

  lemma WholeChunk(settings: Settings, total: Bytes, end: Call)
    requires Overruns(settings, total)
    ensures Learned(settings, [total], end) == [Completed(UnavailableBody)]
  {
    assert Chunks([total]) == [Observe(total)];
    assert [Observe(total)][..0] == [];
    assert [] + total == total;
    assert Run(settings, START, [Observe(total)]) == AfterCall(settings, START, Observe(total));
  }

  lemma CutChunks(settings: Settings, total: Bytes, d: nat, end: Call)
    requires Overruns(settings, total) && d == Comparable(settings).value
    ensures Learned(settings, [total[..d], total[d..]], end) == [Completed(CapturedBody(total[..d]))]
  {
    var calls := [Observe(total[..d]), Observe(total[d..])];
    assert Chunks([total[..d], total[d..]]) == calls;
    assert calls[..1] == [Observe(total[..d])] && calls[..1][..0] == [];
    assert [] + total[..d] == total[..d];
    var first := AfterCall(settings, START, Observe(total[..d]));
    assert Run(settings, START, calls[..1]) == first && first.terminal;
    assert Run(settings, START, calls) == AfterCall(settings, first, Observe(total[d..]));
  }

  // ---- what the reports are

  /** The length the body was declared to have, unless it is a response watched in its encoded form. */
  function Declared(settings: Settings): Option<nat> {
    if settings.captureResponseBody && settings.encoded then None else settings.declaredByteLength
  }

  /** The bytes reach the declared length, which ends the watch by itself. */
  predicate Full(settings: Settings, bytes: Bytes) {
    bytes != [] && Declared(settings).Some? && Declared(settings).value <= |bytes|
  }

  /** Some chunk ends where the declared length does. */
  ghost predicate CutAt(observes: seq<Call>, d: nat) {
    0 < d && exists n :: 0 <= n <= |observes| && |Joined(observes[..n])| == d
  }

  lemma {:induction false} JoinedGrows(observes: seq<Call>, n: nat)
    requires n <= |observes|
    ensures Joined(observes[..n]) <= Joined(observes)
    decreases |observes| - n
  {
    if n == |observes| {
      assert observes[..n] == observes;
    } else {
      JoinedGrows(observes, n + 1);
      assert observes[..n + 1][..n] == observes[..n];
    }
  }

  /** A cut at the declared length, with one more chunk: an earlier one, or the new end. */
  lemma CutLater(observes: seq<Call>, d: nat)
    requires observes != []
    ensures CutAt(observes, d) <==> CutAt(observes[..|observes| - 1], d) || (0 < d && |Joined(observes)| == d)
  {
    hide Joined;
    var n := |observes| - 1;
    assert forall m :: 0 <= m <= n ==> observes[..n][..m] == observes[..m];
    assert observes[..|observes|] == observes;
  }

  lemma NoLaterCut(observes: seq<Call>, d: nat)
    requires |Joined(observes)| < d
    ensures !CutAt(observes, d)
  {
    if CutAt(observes, d) {
      var n :| 0 <= n <= |observes| && |Joined(observes[..n])| == d;
      JoinedGrows(observes, n);
    }
  }

  lemma FullIff(settings: Settings, bytes: Bytes)
    ensures bytes != [] ==> (Full(settings, bytes) <==> Reaches(settings, bytes))
    ensures Declared(settings) == Comparable(settings)
  {
  }

  /** The report that the declared length makes by itself: the body up to there, if a chunk ends there and it fits. */
  function EndReport(settings: Settings, cut: bool, bytes: Bytes, d: nat): Report
    requires d <= |bytes|
  {
    Completed(if cut && d <= settings.maximumBodyBytes then CapturedBody(bytes[..d]) else UnavailableBody)
  }

  ghost predicate WatchIs(settings: Settings, observes: seq<Call>, w: Watch) {
    var bytes := Joined(observes);
    if Full(settings, bytes) then
      w.terminal && w.reports == [EndReport(settings, CutAt(observes, Declared(settings).value), bytes,
                                            Declared(settings).value)]
    else w == Watch(bytes, [], false)
  }

  lemma ObservedOneMore(settings: Settings, front: seq<Call>, chunk: Bytes, w: Watch)
    requires WatchIs(settings, front, w)
    ensures WatchIs(settings, front + [Observe(chunk)], AfterCall(settings, w, Observe(chunk)))
  {
    hide CutAt, CompletedBody, DisposedBody, Joined;
    var observes := front + [Observe(chunk)];
    var before, bytes := Joined(front), Joined(observes);
    assert bytes == before + chunk by { JoinedSnoc(front, chunk); }
    FullIff(settings, before);
    FullIff(settings, bytes);
    if Declared(settings).Some? {
      var d := Declared(settings).value;
      assert observes[..|observes| - 1] == front;
      CutLater(observes, d);
      if |before| < d {
        NoLaterCut(front, d);
      }
      if before != [] {
        CutAtEnd(front);
      }
      NoCutAtNothing(observes);
      assert chunk == [] ==> bytes == before;
      assert d <= |before| ==> bytes[..d] == before[..d];
      assert d == |bytes| ==> bytes[..d] == bytes;
    }
  }

  lemma JoinedSnoc(front: seq<Call>, chunk: Bytes)
    ensures Joined(front + [Observe(chunk)]) == Joined(front) + chunk
  {
    assert (front + [Observe(chunk)])[..|front|] == front;
  }

  /** The watch after observing: still open with everything seen, or ended by the declared length. */
  lemma {:induction false} Observed(settings: Settings, observes: seq<Call>)
    requires forall c :: c in observes ==> c.Observe?
    ensures WatchIs(settings, observes, Run(settings, START, observes))
  {
    hide WatchIs, AfterCall;
    if observes == [] {
      assert WatchIs(settings, [], START) by { NothingObserved(settings); }
    } else {
      var n := |observes| - 1;
      var front := observes[..n];
      assert forall c :: c in front ==> c in observes;
      Observed(settings, front);
      assert observes[n] in observes;
      ObservedOneMore(settings, front, observes[n].chunk, Run(settings, START, front));
      assert front + [Observe(observes[n].chunk)] == observes;
    }
  }

  lemma NothingObserved(settings: Settings)
    ensures WatchIs(settings, [], START)
  {
  }

  function Reports(settings: Settings, observes: seq<Call>, end: Call): seq<Report> {
    Run(settings, START, observes + [end]).reports
  }

  lemma ReportsOfEnd(settings: Settings, observes: seq<Call>, end: Call)
    ensures Reports(settings, observes, end) == AfterCall(settings, Run(settings, START, observes), end).reports
  {
    hide AfterCall;
    assert (observes + [end])[..|observes|] == observes;
  }

  /**
   What completion reports. The whole body exactly when it is not empty, within the maximum, and of its
   declared length if that counts; an empty body exactly when nothing came and no other length was declared;
   a body longer than declared is reported up to there exactly when a chunk ends there; else none.
   */
  lemma CompletionReports(settings: Settings, observes: seq<Call>)
    requires forall c :: c in observes ==> c.Observe?
    ensures var r, bytes, declared := Reports(settings, observes, Complete), Joined(observes), Declared(settings);
      && |r| == 1 && r[0].Completed?
      && (r[0].body == CapturedBody(bytes) <==>
            bytes != [] && |bytes| <= settings.maximumBodyBytes && (declared.Some? ==> declared.value == |bytes|))
      && (r[0].body == EmptyBody <==> bytes == [] && (declared.Some? ==> declared.value == 0))
      && (r[0].body.CapturedBody? && r[0].body.bytes != bytes <==>
            declared.Some? && declared.value < |bytes| && declared.value <= settings.maximumBodyBytes
            && CutAt(observes, declared.value))
      && (r[0].body.CapturedBody? && r[0].body.bytes != bytes ==> r[0].body.bytes == bytes[..declared.value])
  {
    hide CutAt, DisposedBody, Joined;
    Observed(settings, observes);
    ReportsOfEnd(settings, observes, Complete);
    var bytes := Joined(observes);
    FullIff(settings, bytes);
    if Full(settings, bytes) {
      var d := Declared(settings).value;
      assert |bytes[..d]| == d;
      assert d == |bytes| ==> bytes[..d] == bytes && CutAt(observes, d) by { CutAtEnd(observes); }
      assert d == 0 ==> !CutAt(observes, d) by { NoCutAtNothing(observes); }
    }
  }

  lemma CutAtEnd(observes: seq<Call>)
    ensures Joined(observes) != [] ==> CutAt(observes, |Joined(observes)|)
  {
    assert observes[..|observes|] == observes;
  }

  lemma NoCutAtNothing(observes: seq<Call>)
    ensures !CutAt(observes, 0)
  {
  }

  /**
   What a failure or a disposal reports: after the declared length was reached, what completion would;
   before it, a failure says its error and no body, a disposal an empty body only where none was declared to come.
   */
  lemma OtherEndsReport(settings: Settings, observes: seq<Call>, error: string)
    requires forall c :: c in observes ==> c.Observe?
    ensures var bytes := Joined(observes);
      if Full(settings, bytes) then
        Reports(settings, observes, Fail(error)) == Reports(settings, observes, Dispose)
        == Reports(settings, observes, Complete)
      else
        && Reports(settings, observes, Fail(error)) == [Failed(UnavailableBody, error)]
        && Reports(settings, observes, Dispose)
           == [Completed(if bytes == [] && settings.declaredByteLength == Some(0) then EmptyBody else UnavailableBody)]
  {
    hide CutAt, CompletedBody, Joined;
    Observed(settings, observes);
    ReportsOfEnd(settings, observes, Fail(error));
    ReportsOfEnd(settings, observes, Dispose);
    ReportsOfEnd(settings, observes, Complete);
  }
}
