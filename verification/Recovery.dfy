/**
 The adapter and the hub together. The hub may receive any message the adapter ever accepted, at any
 time and any number of times, and may see the source disconnect at any moment; after a reconnect the
 adapter sends a recovery snapshot of every exchange it still tracks.
 */
module Recovery {
  import opened Wrappers
  import opened Sequences
  import opened CaptureModel
  import opened HubState
  import HubRuns
  import HubInvariant
  import Publication
  import State = OutboundState

  datatype World = World(outbox: State.Outbox, hub: Hub)

  datatype Event = AtAdapter(move: State.Move) | AtHub(step: HubRuns.Step)

  function Advance(config: HubConfig, w: World, event: Event): World {
    match event
    case AtAdapter(move) => w.(outbox := State.Apply(w.outbox, move))
    case AtHub(step) => w.(hub := HubRuns.After(config, w.hub, step))
  }

  function Run(config: HubConfig, w: World, events: seq<Event>): World {
    if events == [] then w else Advance(config, Run(config, w, events[..|events| - 1]), events[|events| - 1])
  }

  /** The adapter accepted a message about exchange `x` at this revision. */
  ghost predicate Spoke(o: State.Outbox, x: nat, revision: nat) {
    exists m :: m in o.accepted && m.exchangeId == Some(x) && m.revision == Some(revision)
  }

  /** Whatever reaches the hub for `key` is a message the adapter accepted for its exchange `x`. */
  ghost predicate Genuine(w: World, event: Event, x: nat, key: ExchangeKey) {
    event.AtHub? && HubRuns.Targets(w.hub, event.step, key) ==> Spoke(w.outbox, x, event.step.message.payload.revision)
  }

  /** The exchange finishes, if it does, before its first recovery snapshot. */
  ghost predicate FinishesFirst(w: World, event: Event, x: nat) {
    event.AtAdapter? && event.move.Finishes? && event.move.handle.exchangeId == x && x in w.outbox.exchanges ==>
      w.outbox.exchanges[x].revision == 1
  }

  /**
   How far the hub's entry may be ahead of the adapter: by the one revision a disconnect adds, and then not
   in flight.
   */
  predicate Within(entry: HttpExchange, revision: nat) {
    entry.revision <= revision + 1 && (entry.lifecycle.state.InFlight? ==> entry.revision <= revision)
  }

  /** Nothing accepted for the exchange is newer than what the adapter tracks. */
  ghost predicate Spoken(o: State.Outbox, x: nat) {
    x in o.exchanges ==> forall m :: m in o.accepted && m.exchangeId == Some(x) ==>
      m.revision.Some? && m.revision.value <= o.exchanges[x].revision
  }

  ghost predicate Ahead(w: World, x: nat, key: ExchangeKey) {
    && Consistent(w.hub)
    && State.Lifecycles(w.outbox)
    && Spoken(w.outbox, x)
    && (x >= w.outbox.nextId ==> key !in w.hub.exchanges)
    && (x in w.outbox.exchanges && key in w.hub.exchanges ==>
        Within(w.hub.exchanges[key], w.outbox.exchanges[x].revision))
  }

  // ---- the hub's side

  /** A hub step takes the entry from the message, interrupts it, or leaves it. */
  lemma EntryMoves(config: HubConfig, hub: Hub, step: HubRuns.Step, key: ExchangeKey)
    requires Consistent(hub) && key in HubRuns.After(config, hub, step).exchanges
    ensures var entry := HubRuns.After(config, hub, step).exchanges[key];
      || (HubRuns.Targets(hub, step, key) && entry.revision == step.message.payload.revision)
      || (key in hub.exchanges && entry == hub.exchanges[key])
      || (key in hub.exchanges && hub.exchanges[key].lifecycle.state.InFlight? && !entry.lifecycle.state.InFlight?
          && entry.revision == hub.exchanges[key].revision + 1)
  {
    hide Consistent, Ingest, Disconnect;
    match step
    case IngestMessage(_, _, _, _) =>
      HubRuns.IngestCell(config, hub, step, key);
      HubInvariant.AppliedExchange(config, hub, step.source, step.receivedAt, step.message.payload);
      hide HubRuns.After, MergedExchange;
    case SourceDisconnected(sourceInstanceId, at) =>
      Publication.DisconnectKeys(config, hub, sourceInstanceId, at);
      HubRuns.DisconnectCell(config, hub, sourceInstanceId, at, key);
    case _ =>
  }

  lemma HubKeepsAhead(config: HubConfig, w: World, step: HubRuns.Step, x: nat, key: ExchangeKey)
    requires Ahead(w, x, key) && Genuine(w, AtHub(step), x, key)
    ensures Ahead(Advance(config, w, AtHub(step)), x, key)
  {
    hide Consistent, HubRuns.After, HubRuns.Targets, State.Begun;
    HubRuns.StepKeepsConsistent(config, w.hub, step);
    if key in HubRuns.After(config, w.hub, step).exchanges {
      EntryMoves(config, w.hub, step, key);
    }
  }

  // ---- the adapter's side

  /** What a move does to a tracked exchange: it stays with a revision that never falls, or it is new. */
  ghost predicate Progress(o: State.Outbox, next: State.Outbox, x: nat) {
    && o.nextId <= next.nextId
    && Spoken(next, x)
    && (x in next.exchanges ==>
          || (x in o.exchanges && o.exchanges[x].revision <= next.exchanges[x].revision)
          || (x >= o.nextId && x < next.nextId))
  }

  lemma StartProgress(o: State.Outbox, capturable: bool, x: nat)
    requires State.Lifecycles(o) && Spoken(o, x)
    ensures Progress(o, State.AfterStart(o, capturable), x)
  {
    hide State.Begun;
  }

  lemma FinishProgress(o: State.Outbox, handle: State.Handle, outcome: LifecycleState, x: nat)
    requires Spoken(o, x)
    requires handle.exchangeId == x && x in o.exchanges ==> o.exchanges[x].revision == 1
    ensures Progress(o, State.AfterTerminal(o, handle, outcome), x)
  {
    hide State.Enqueued;
    var id := handle.exchangeId;
    if handle.captured && id !in o.terminalQueued && !o.stopped && id in o.exchanges {
      EnqueueSpeaks(o.(terminalQueued := o.terminalQueued + {id}, nextId := o.nextId + 1),
                    State.TerminalMessage(o.nextId, id, outcome));
    }
  }

  /** Accepting a message adds it to what was said and changes nothing that is tracked. */
  lemma EnqueueSpeaks(o: State.Outbox, message: State.Outbound)
    ensures var next := State.Enqueued(o, message);
      && next.exchanges == o.exchanges && next.nextId == o.nextId
      && forall m :: m in next.accepted ==> m in o.accepted || m == message
  {
  }

  lemma RecoveryProgress(o: State.Outbox, id: nat, x: nat)
    requires Spoken(o, x)
    ensures Progress(o, State.AfterRecovery(o, id), x)
    ensures x == id && x in o.exchanges ==>
      x in State.AfterRecovery(o, id).exchanges && State.AfterRecovery(o, id).exchanges[x].revision
        == o.exchanges[x].revision + 2
    ensures State.AfterRecovery(o, id).exchanges.Keys == o.exchanges.Keys
  {
    hide State.Enqueued;
    if id in o.exchanges {
      var tracked := o.exchanges[id].(revision := o.exchanges[id].revision + 2);
      EnqueueSpeaks(o.(nextId := o.nextId + 1, exchanges := o.exchanges[id := tracked]),
                    State.RecoveryMessage(o.nextId, id, tracked));
    }
  }

  /** Everything accepted for the exchange beyond the first `n` messages is newer than `revision`. */
  ghost predicate NewerFrom(o: State.Outbox, n: nat, x: nat, revision: nat) {
    && n <= |o.accepted|
    && forall i :: n <= i < |o.accepted| && o.accepted[i].exchangeId == Some(x) ==>
         o.accepted[i].content.Recovery? && o.accepted[i].revision.Some? && revision < o.accepted[i].revision.value
  }

  lemma RecoveryNewer(o: State.Outbox, id: nat, n: nat, x: nat, revision: nat)
    requires NewerFrom(o, n, x, revision)
    requires x in o.exchanges ==> revision <= o.exchanges[x].revision + 1
    ensures NewerFrom(State.AfterRecovery(o, id), n, x, revision)
  {
  }

  lemma {:induction false} RecoveriesProgress(o: State.Outbox, order: seq<nat>, x: nat, revision: nat)
    requires Spoken(o, x)
    requires x in o.exchanges ==> x < o.nextId && revision <= o.exchanges[x].revision + 1
    ensures Progress(o, State.AfterRecoveries(o, order), x)
    ensures State.AfterRecoveries(o, order).exchanges.Keys == o.exchanges.Keys
    ensures NewerFrom(State.AfterRecoveries(o, order), |o.accepted|, x, revision)
    ensures x in o.exchanges && x in order ==> revision < State.AfterRecoveries(o, order).exchanges[x].revision
  {
    hide State.AfterRecovery;
    if order != [] {
      var n := |order| - 1;
      RecoveriesProgress(o, order[..n], x, revision);
      var before := State.AfterRecoveries(o, order[..n]);
      assert x in before.exchanges <==> x in o.exchanges.Keys;
      RecoveryProgress(before, order[n], x);
      RecoveryNewer(before, order[n], |o.accepted|, x, revision);
      assert x in order <==> x in order[..n] || x == order[n];
      assert x in State.AfterRecovery(before, order[n]).exchanges <==> x in before.exchanges.Keys;
    }
  }

  lemma MoveProgress(o: State.Outbox, move: State.Move, x: nat)
    requires State.Lifecycles(o) && Spoken(o, x)
    requires move.Finishes? && move.handle.exchangeId == x && x in o.exchanges ==> o.exchanges[x].revision == 1
    ensures Progress(o, State.Apply(o, move), x)
  {
    hide State.AfterStart, State.AfterTerminal, State.AfterRecoveries, State.Lifecycles, State.Begun,
         State.AfterHeartbeat, Progress, Spoken,
         State.AfterReply, State.AfterDispatch, State.AfterShutdown;
    if x in o.exchanges {
      State.TrackedBegun(o, x);
    }
    match move
    case Starts(capturable) => StartProgress(o, capturable, x);
    case Finishes(handle, outcome) => FinishProgress(o, handle, outcome, x);
    case Beats => HeartbeatProgress(o, x);
    case Connects(order) =>
      var connected := o.(connected := true, faulted := false);
      QuietProgress(o, connected, x);
      SpokenIsProgress(o, connected, x);
      RecoveriesProgress(connected, order, x, 0);
      var next := if o.hasConnected then State.AfterRecoveries(connected, order) else connected;
      ConnectedProgress(o, connected, next, x);
    case _ =>
      State.QuietMoves(o, move);
      QuietProgress(o, State.Apply(o, move), x);
  }

  lemma SpokenIsProgress(o: State.Outbox, next: State.Outbox, x: nat)
    requires Progress(o, next, x)
    ensures Spoken(next, x)
  {
  }

  lemma ConnectedProgress(o: State.Outbox, connected: State.Outbox, next: State.Outbox, x: nat)
    requires connected.exchanges == o.exchanges && connected.nextId == o.nextId && Progress(connected, next, x)
    ensures Progress(o, next.(hasConnected := true), x)
  {
  }

  /** Moves that accept nothing and change no tracked revision. */
  lemma QuietProgress(o: State.Outbox, next: State.Outbox, x: nat)
    requires Spoken(o, x) && next.accepted == o.accepted && next.nextId == o.nextId
    requires x in next.exchanges ==> x in o.exchanges && next.exchanges[x] == o.exchanges[x]
    ensures Progress(o, next, x)
  {
  }

  lemma HeartbeatProgress(o: State.Outbox, x: nat)
    requires Spoken(o, x)
    ensures Progress(o, State.AfterHeartbeat(o), x)
  {
  }

  lemma AdapterKeepsAhead(config: HubConfig, w: World, move: State.Move, x: nat, key: ExchangeKey)
    requires Ahead(w, x, key) && FinishesFirst(w, AtAdapter(move), x)
    ensures Ahead(Advance(config, w, AtAdapter(move)), x, key)
  {
    hide Consistent, State.Lifecycles, State.Apply, Spoken;
    State.ApplyLifecycles(w.outbox, move);
    MoveProgress(w.outbox, move, x);
  }

  // ---- runs

  ghost predicate GenuineRun(config: HubConfig, w: World, events: seq<Event>, x: nat, key: ExchangeKey) {
    forall i :: 0 <= i < |events| ==> Genuine(Run(config, w, events[..i]), events[i], x, key)
  }

  ghost predicate FinishesFirstRun(config: HubConfig, w: World, events: seq<Event>, x: nat) {
    forall i :: 0 <= i < |events| ==> FinishesFirst(Run(config, w, events[..i]), events[i], x)
  }

  lemma {:induction false} RunKeepsAhead(config: HubConfig, w: World, events: seq<Event>, x: nat, key: ExchangeKey)
    requires Ahead(w, x, key) && GenuineRun(config, w, events, x, key) && FinishesFirstRun(config, w, events, x)
    ensures Ahead(Run(config, w, events), x, key)
  {
    hide Ahead, Genuine, FinishesFirst, Advance;
    if events != [] {
      var n := |events| - 1;
      assert forall i :: 0 <= i < n ==> events[..n][i] == events[i] && events[..n][..i] == events[..i];
      RunKeepsAhead(config, w, events[..n], x, key);
      match events[n]
      case AtAdapter(move) => AdapterKeepsAhead(config, Run(config, w, events[..n]), move, x, key);
      case AtHub(step) => HubKeepsAhead(config, Run(config, w, events[..n]), step, x, key);
    }
  }

  lemma StartAhead(capacity: nat, sessionId: string, x: nat, key: ExchangeKey)
    ensures Ahead(World(State.Fresh(capacity), HubState.Fresh(sessionId)), x, key)
  {
    HubInvariant.ClearedConsistent(HubState.Fresh(sessionId), sessionId);
  }

  /**
   Recovery dominance. In every run of adapter and hub in which the exchange finished, if at all, before
   its first recovery snapshot, each snapshot a reconnect creates for it is strictly newer than the
   hub's entry, whatever was delivered, retried, interrupted, evicted or cleared before.
   */
  lemma RecoveryDominates(config: HubConfig, capacity: nat, sessionId: string, events: seq<Event>, order: seq<nat>,
                          x: nat, key: ExchangeKey)
    requires var start := World(State.Fresh(capacity), HubState.Fresh(sessionId));
      && GenuineRun(config, start, events, x, key)
      && FinishesFirstRun(config, start, events, x)
      && Run(config, start, events).outbox.hasConnected
      && x in Run(config, start, events).outbox.exchanges
      && key in Run(config, start, events).hub.exchanges
    ensures var w := Run(config, World(State.Fresh(capacity), HubState.Fresh(sessionId)), events);
      var next := State.Apply(w.outbox, State.Connects(order));
      && NewerFrom(next, |w.outbox.accepted|, x, w.hub.exchanges[key].revision)
      && (x in order ==> x in next.exchanges && w.hub.exchanges[key].revision < next.exchanges[x].revision)
  {
    hide Run, GenuineRun, FinishesFirstRun, Consistent, State.Lifecycles, State.AfterRecoveries;
    var start := World(State.Fresh(capacity), HubState.Fresh(sessionId));
    StartAhead(capacity, sessionId, x, key);
    RunKeepsAhead(config, start, events, x, key);
    var w := Run(config, start, events);
    State.TrackedBegun(w.outbox, x);
    RecoveriesProgress(w.outbox.(connected := true, faulted := false), order, x, w.hub.exchanges[key].revision);
  }

  // ---- when the terminal comes too late

  /**
   Why the terminal must come first. Let the hub hold the exchange in flight at the revision the adapter
   tracks, and see the source disconnect; then let the adapter finish the exchange and reconnect. The
   recovery snapshot is newer than the hub's entry if and only if the adapter had not yet recovered it.
   */
  lemma LateTerminalLoses(config: HubConfig, w: World, x: nat, key: ExchangeKey, outcome: LifecycleState, at: string)
    requires Consistent(w.hub) && key in w.hub.exchanges && w.hub.exchanges[key].lifecycle.state.InFlight?
    requires x in w.outbox.exchanges && w.outbox.exchanges[x].revision == w.hub.exchanges[key].revision
    requires x !in w.outbox.terminalQueued && !w.outbox.stopped && !State.Full(w.outbox)
    requires Disconnect(config, w.hub, key.sourceInstanceId, at).result.Success?
    ensures var interrupted := Disconnect(config, w.hub, key.sourceInstanceId, at).hub;
      var recovered := State.AfterRecovery(State.AfterTerminal(w.outbox, State.Handle(x, true), outcome), x);
      && key in interrupted.exchanges && x in recovered.exchanges
      && (interrupted.exchanges[key].revision < recovered.exchanges[x].revision <==> w.outbox.exchanges[x].revision < 3)
  {
    hide Consistent, Disconnect, KeyOf, Interrupted;
    Publication.DisconnectDeltas(config, w.hub, key.sourceInstanceId, at);
    HitExactly(w.hub, key);
    Publication.InterruptedKey(w.hub.exchanges[key], at);
    assert CurrentExchange(Disconnect(config, w.hub, key.sourceInstanceId, at).hub, key)
      == Some(Interrupted(w.hub.exchanges[key], at));
  }

  /**
   The terminal goes out at revision two. Once the hub's entry has come that far, by an interruption or
   a snapshot, the terminal is stale whenever it arrives, for as long as the entry stays stored.
   */
  lemma LateTerminalIgnored(config: HubConfig, hub: Hub, steps: seq<HubRuns.Step>, terminal: HubRuns.Step,
                            key: ExchangeKey)
    requires Consistent(hub) && key in hub.exchanges && 2 <= hub.exchanges[key].revision
    requires forall i :: 0 <= i < |steps| ==> !steps[i].SessionCleared?
    requires forall i :: 0 <= i <= |steps| ==> key in HubRuns.Run(config, hub, steps[..i]).exchanges
    requires HubRuns.Targets(HubRuns.Run(config, hub, steps), terminal, key) && terminal.message.payload.revision == 2
    ensures var last := HubRuns.Run(config, hub, steps);
      && HubRuns.StepOutcome(config, last, terminal) == Outcome(last, Success(UNCHANGED))
      && last.exchanges[key].revision >= 2
  {
    hide Consistent, HubRuns.Run, HubRuns.StepOutcome;
    HubRuns.RunAdvances(config, hub, steps, key);
    HubRuns.NotNewerChangesNothing(config, HubRuns.Run(config, hub, steps), terminal, key);
  }

  lemma HitExactly(hub: Hub, key: ExchangeKey)
    requires Consistent(hub) && key in hub.exchanges && hub.exchanges[key].lifecycle.state.InFlight?
    ensures key in ExchangeHits(hub, key.sourceInstanceId)
  {
    HubRuns.StoredIsOrdered(hub, key);
    Publication.StoredUnderKey(hub, key);
    OnlyMembers(hub.arrivalOrder, InFlightExchanges(hub.exchanges, key.sourceInstanceId), key);
  }
}
