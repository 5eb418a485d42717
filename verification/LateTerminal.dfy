/**
 A run of adapter and hub in which an exchange completes only after a reconnect resent it, and its
 outcome never reaches the hub although every message the adapter accepted is delivered and acknowledged.
 */
module LateTerminal {
  import opened Wrappers
  import opened CaptureModel
  import opened MapSums
  import opened HubState
  import HubRuns
  import LifecycleMerger
  import opened Samples
  import State = OutboundState
  import opened Recovery

  // ---- runs, piece by piece

  /** The events lead from one world to the other, and bring the hub nothing but what the adapter accepted. */
  ghost predicate Leads(config: HubConfig, w: World, events: seq<Event>, target: World) {
    Run(config, w, events) == target && GenuineRun(config, w, events, 0, KEY)
  }

  lemma Single(config: HubConfig, w: World, event: Event)
    requires Genuine(w, event, 0, KEY)
    ensures Leads(config, w, [event], Advance(config, w, event))
  {
    hide Advance, Genuine;
    assert [event][..0] == [];
    assert Run(config, w, []) == w;
  }

  lemma {:induction false} RunConcat(config: HubConfig, w: World, first: seq<Event>, second: seq<Event>)
    ensures Run(config, w, first + second) == Run(config, Run(config, w, first), second)
  {
    hide Advance;
    if second == [] {
      assert first + second == first;
    } else {
      var n := |second| - 1;
      assert (first + second)[..|first| + n] == first + second[..n];
      RunConcat(config, w, first, second[..n]);
    }
  }

  lemma Joined(config: HubConfig, w: World, first: seq<Event>, middle: World, second: seq<Event>, target: World)
    requires Leads(config, w, first, middle) && Leads(config, middle, second, target)
    ensures Leads(config, w, first + second, target)
  {
    hide Run, Genuine;
    RunConcat(config, w, first, second);
    var all := first + second;
    forall i | 0 <= i < |all| ensures Genuine(Run(config, w, all[..i]), all[i], 0, KEY) {
      if i < |first| {
        assert all[..i] == first[..i] && all[i] == first[i];
      } else {
        assert all[..i] == first + second[..i - |first|] && all[i] == second[i - |first|];
        RunConcat(config, w, first, second[..i - |first|]);
      }
    }
  }

  // ---- the adapter

  /** An adapter with room for ten that has connected before and awaits no acknowledgement. */
  function Box(queue: seq<State.Outbound>, exchanges: map<nat, State.Tracked>, finished: set<nat>, nextId: nat,
               connected: bool,
               accepted: seq<State.Outbound>, settled: set<nat>, firstSends: nat): State.Outbox
  {
    State.Outbox(10, queue, map[], exchanges, finished, 0, nextId, connected, true, false, false, accepted, settled,
                 firstSends)
  }

  const START := State.StartMessage(0)
  const FIRST_SNAPSHOT := State.RecoveryMessage(2, 0, State.Tracked(3, InFlight))
  const TERMINAL := State.TerminalMessage(3, 0, Completed)
  const LAST_SNAPSHOT := State.RecoveryMessage(4, 0, State.Tracked(4, Completed))

  /** The head of the queue is sent, the hub takes it, and the adapter has its acknowledgement. */
  function Delivery(messageId: nat, step: HubRuns.Step): seq<Event> {
    [AtAdapter(State.Dispatches)] + [AtHub(step)]
      + [AtAdapter(State.Replies(messageId, State.Acknowledged(Some(messageId), true, false)))]
  }

  /** The adapter after its only unsent messages, those in the queue, lost their head to a delivery. */
  function Delivered(o: State.Outbox): State.Outbox
    requires o.queue != []
  {
    var message := o.queue[0];
    o.(queue := o.queue[1..], settled := o.settled + {message.messageId}, firstSends := o.firstSends + 1,
       exchanges := if message.releasesExchange && message.exchangeId.Some?
       then o.exchanges - {message.exchangeId.value} else o.exchanges)
  }

  lemma DeliveryLeads(config: HubConfig, w: World, step: HubRuns.Step)
    requires var o := w.outbox;
      && o.queue != [] && o.pending == map[] && o.connected && !o.faulted
      && |o.queue| <= |o.accepted| - o.firstSends
      && o.queue[0] in o.accepted && o.queue[0].exchangeId == Some(0) && o.queue[0].revision.Some?
      && step.IngestMessage? && step.message.payload.Http? && step.message.payload.revision == o.queue[0].revision.value
    ensures Leads(config, w, Delivery(w.outbox.queue[0].messageId, step),
                  World(Delivered(w.outbox), HubRuns.After(config, w.hub, step)))
  {
    hide HubRuns.After, Leads, GenuineRun, HubRuns.Targets, Run;
    var id := w.outbox.queue[0].messageId;
    var dispatch, reply := AtAdapter(State.Dispatches),
      AtAdapter(State.Replies(id, State.Acknowledged(Some(id), true, false)));
    var sent := Advance(config, w, dispatch);
    var taken := Advance(config, sent, AtHub(step));
    Single(config, w, dispatch);
    Single(config, sent, AtHub(step));
    Single(config, taken, reply);
    Joined(config, w, [dispatch], sent, [AtHub(step)], taken);
    Joined(config, w, [dispatch] + [AtHub(step)], taken, [reply], Advance(config, taken, reply));
    assert w.outbox.pending[id := w.outbox.queue[0]] - {id} == w.outbox.pending;
  }

  const PARTING := [AtAdapter(State.Disconnects)] + [AtHub(GONE)]

  lemma PartingLeads(config: HubConfig, w: World)
    ensures Leads(config, w, PARTING, World(w.outbox.(connected := false), HubRuns.After(config, w.hub, GONE)))
  {
    hide HubRuns.After, Leads, GenuineRun, Run;
    var parted := Advance(config, w, AtAdapter(State.Disconnects));
    Single(config, w, AtAdapter(State.Disconnects));
    Single(config, parted, AtHub(GONE));
    Joined(config, w, [AtAdapter(State.Disconnects)], parted, [AtHub(GONE)], Advance(config, parted, AtHub(GONE)));
  }

  // ---- the hub

  const OPEN := StartedExchange(map[])

  /** The exchange as the adapter resends it, still in flight. */
  const RESENT := OPEN.(revision := 3)

  /** What the hub makes of the resent exchange. */
  const REOPENED := RESENT.(lifecycle := RESENT.lifecycle.(receivedAt := LATE, lastUpdatedAt := LATE))

  const START_STEP := HttpStep(EARLY, 1, StartEvent(map[]))
  const RESENT_STEP := HttpStep(LATE, 3, Snapshot(RESENT))

  /** The exchange's outcome, with the response it got. */
  const RESPONSE := HttpResponse(200, "")
  const TERMINAL_STEP := HttpStep(LATE, 2,
                                  CompletedWith(RESPONSE, Timing(Some(1_000), ""), Sizes(None, "unavailable"),
                                                "complete", None))
  const COMPLETED := OPEN.(revision := 4, response := Some(RESPONSE), lifecycle := OPEN.lifecycle.(state := Completed))
  const LAST_STEP := HttpStep(LATE, 4, Snapshot(COMPLETED))

  lemma OpenInterruptible(e: HttpExchange)
    requires e == OPEN || e == REOPENED
    ensures forall frame :: ExchangeError(Defaults(frame).rules, Interrupted(e, LATE)).None?
  {
    hide IsUuid;
    var name, value := "capture.incompleteReason", Text("source disconnected");
    SumWith(map[], name, value, (n, v) => EntryBytes(n, v));
    assert Interrupted(e, LATE).metadata == map[name := value];
  }

  lemma ResentMerged(frame: nat, hub: Hub)
    requires Holds(hub, Interrupted(OPEN, LATE))
    ensures MergedExchange(Defaults(frame), hub, SOURCE, LATE, RESENT_STEP.message.payload)
      == Success(LifecycleMerger.Applied(REOPENED))
  {
    hide IsUuid, MetadataBytes;
    assert MetadataBytes(map[]) == 2 by { NoMetadata(); }
  }

  // ---- the run

  const BEGINNING := [AtAdapter(State.Starts(true))] + [AtAdapter(State.Connects([]))]
  const SENDING := BEGINNING + Delivery(1, START_STEP)
  const LEAVING := SENDING + PARTING
  const RESUMING := LEAVING + [AtAdapter(State.Connects([0]))]
  const RESENDING := RESUMING + Delivery(2, RESENT_STEP)
  const LOSING := RESENDING + PARTING
  const FINISHING := LOSING + [AtAdapter(State.Finishes(State.Handle(0, true), Completed))]
  const RECONNECTING := FINISHING + [AtAdapter(State.Connects([0]))]
  const REPORTING := RECONNECTING + Delivery(3, TERMINAL_STEP)
  const SETTLING := REPORTING + Delivery(4, LAST_STEP)

  ghost predicate Reaches(frame: nat, events: seq<Event>, outbox: State.Outbox, hub: Hub) {
    Leads(Defaults(frame), World(State.Fresh(10), Fresh(SESSION)), events, World(outbox, hub))
  }

  lemma ThenMoves(frame: nat, events: seq<Event>, outbox: State.Outbox, hub: Hub, move: State.Move)
    requires Reaches(frame, events, outbox, hub)
    ensures Reaches(frame, events + [AtAdapter(move)], State.Apply(outbox, move), hub)
  {
    hide State.Apply, Leads;
    var w := World(outbox, hub);
    Single(Defaults(frame), w, AtAdapter(move));
    Joined(Defaults(frame), World(State.Fresh(10), Fresh(SESSION)), events, w, [AtAdapter(move)],
           Advance(Defaults(frame), w, AtAdapter(move)));
  }

  lemma ThenParts(frame: nat, events: seq<Event>, outbox: State.Outbox, hub: Hub)
    requires Reaches(frame, events, outbox, hub)
    ensures Reaches(frame, events + PARTING, outbox.(connected := false), HubRuns.After(Defaults(frame), hub, GONE))
  {
    hide Leads, HubRuns.After;
    var w := World(outbox, hub);
    PartingLeads(Defaults(frame), w);
    Joined(Defaults(frame), World(State.Fresh(10), Fresh(SESSION)), events, w, PARTING,
           World(outbox.(connected := false), HubRuns.After(Defaults(frame), hub, GONE)));
  }

  lemma ThenDelivers(frame: nat, events: seq<Event>, o: State.Outbox, hub: Hub, step: HubRuns.Step)
    requires Reaches(frame, events, o, hub)
    requires o.queue != [] && o.pending == map[] && o.connected && !o.faulted
      && |o.queue| <= |o.accepted| - o.firstSends
    requires o.queue[0] in o.accepted && o.queue[0].exchangeId == Some(0) && o.queue[0].revision.Some?
    requires step.IngestMessage? && step.message.payload.Http?
      && step.message.payload.revision == o.queue[0].revision.value
    ensures Reaches(frame, events + Delivery(o.queue[0].messageId, step), Delivered(o),
                    HubRuns.After(Defaults(frame), hub, step))
  {
    hide Leads, HubRuns.After, Delivered;
    var w := World(o, hub);
    DeliveryLeads(Defaults(frame), w, step);
    Joined(Defaults(frame), World(State.Fresh(10), Fresh(SESSION)), events, w, Delivery(o.queue[0].messageId, step),
           World(Delivered(o), HubRuns.After(Defaults(frame), hub, step)));
  }

  // The adapter at the end of each part of the run.
  const STARTED := Box([START], map[0 := State.Tracked(1, InFlight)], {}, 2, true, [START], {}, 0)
  const SENT := Box([], map[0 := State.Tracked(1, InFlight)], {}, 2, true, [START], {1}, 1)
  const RECOVERING := Box([FIRST_SNAPSHOT], map[0 := State.Tracked(3, InFlight)], {}, 3, true, [START, FIRST_SNAPSHOT],
                          {1}, 1)
  const RECOVERED := Box([], map[0 := State.Tracked(3, InFlight)], {}, 3, true, [START, FIRST_SNAPSHOT], {1, 2}, 2)
  const FINISHED := Box([TERMINAL], map[0 := State.Tracked(2, Completed)], {0}, 4, false,
                        [START, FIRST_SNAPSHOT, TERMINAL], {1, 2}, 2)
  const ACCEPTED := [START, FIRST_SNAPSHOT, TERMINAL, LAST_SNAPSHOT]
  const RECONNECTED := Box([TERMINAL, LAST_SNAPSHOT], map[0 := State.Tracked(4, Completed)], {0}, 5, true, ACCEPTED,
                           {1, 2}, 2)
  const REPORTED := Box([LAST_SNAPSHOT], map[], {0}, 5, true, ACCEPTED, {1, 2, 3}, 3)
  const SETTLED := Box([], map[], {0}, 5, true, ACCEPTED, {1, 2, 3, 4}, 4)

  lemma AdapterStarts()
    ensures State.Apply(State.Apply(State.Fresh(10), State.Starts(true)), State.Connects([])) == STARTED
    ensures Delivered(STARTED) == SENT
  {
  }

  lemma AdapterRecovers()
    ensures State.Apply(SENT.(connected := false), State.Connects([0])) == RECOVERING
    ensures Delivered(RECOVERING) == RECOVERED
  {
    RecoversOne(SENT.(connected := true));
  }

  lemma RecoversOne(o: State.Outbox)
    ensures State.AfterRecoveries(o, [0]) == State.AfterRecovery(o, 0)
  {
    assert [0][..0] == [];
    assert State.AfterRecoveries(o, []) == o;
  }

  lemma AdapterFinishes()
    ensures State.Apply(RECOVERED.(connected := false), State.Finishes(State.Handle(0, true), Completed)) == FINISHED
  {
  }

  lemma AdapterReconnects()
    ensures State.Apply(FINISHED, State.Connects([0])) == RECONNECTED
  {
    RecoversOne(FINISHED.(connected := true));
  }

  lemma AdapterSettles()
    ensures Delivered(RECONNECTED) == REPORTED && Delivered(REPORTED) == SETTLED
  {
  }

  /** The start reaches the hub, and the connection is lost. */
  lemma Leaves(frame: nat) returns (hub: Hub)
    ensures Reaches(frame, LEAVING, SENT.(connected := false), hub) && Holds(hub, Interrupted(OPEN, LATE))
  {
    hide Reaches, Holds, HubRuns.After, StartedExchange, Interrupted, Delivered, State.Apply, MetadataBytes,
         ExchangeError;
    var config, empty := Defaults(frame), Fresh(SESSION);
    StartReaches(frame);
    NoMetadata();
    StartTaken(frame, map[]);
    hub := HubRuns.After(config, empty, START_STEP);
    OpenInterruptible(OPEN);
    OpenInFlight();
    SourceGone(frame, hub, OPEN, LATE);
    ThenParts(frame, SENDING, SENT, hub);
    hub := HubRuns.After(config, hub, GONE);
  }

  lemma OpenInFlight()
    ensures OPEN.lifecycle.state == InFlight && REOPENED.lifecycle.state == InFlight && REOPENED.revision == 3
    ensures KeyOf(REOPENED) == KEY && REOPENED.arrivalSequence == 1
    ensures Interrupted(REOPENED, LATE).revision == 4 && Interrupted(REOPENED, LATE).lifecycle.state == Incomplete
  {
  }

  lemma StartReaches(frame: nat)
    ensures Reaches(frame, SENDING, SENT, HubRuns.After(Defaults(frame), Fresh(SESSION), START_STEP))
  {
    hide Reaches, HubRuns.After, State.Apply, Delivered;
    var empty := Fresh(SESSION);
    Nowhere(frame);
    ThenMoves(frame, [], State.Fresh(10), empty, State.Starts(true));
    assert [] + [AtAdapter(State.Starts(true))] == [AtAdapter(State.Starts(true))];
    ThenMoves(frame, [AtAdapter(State.Starts(true))], State.Apply(State.Fresh(10), State.Starts(true)), empty,
              State.Connects([]));
    AdapterStarts();
    ThenDelivers(frame, BEGINNING, STARTED, empty, START_STEP);
  }

  lemma Nowhere(frame: nat)
    ensures Reaches(frame, [], State.Fresh(10), Fresh(SESSION))
  {
  }

  /** The adapter reconnects and resends the exchange, which the hub takes at revision three. */
  lemma Resends(frame: nat) returns (hub: Hub)
    ensures Reaches(frame, RESENDING, RECOVERED, hub) && Holds(hub, REOPENED)
  {
    hide Reaches, Holds, HubRuns.After, Interrupted, Delivered, State.Apply, MergedExchange;
    hub := Leaves(frame);
    ThenMoves(frame, LEAVING, SENT.(connected := false), hub, State.Connects([0]));
    AdapterRecovers();
    ThenDelivers(frame, RESUMING, RECOVERING, hub, RESENT_STEP);
    ResentMerged(frame, hub);
    OpenInFlight();
    MessageTaken(frame, hub, LATE, 3, Snapshot(RESENT), REOPENED);
    hub := HubRuns.After(Defaults(frame), hub, RESENT_STEP);
  }

  /** The connection is lost again, and only then does the exchange complete. */
  lemma Reconnects(frame: nat) returns (hub: Hub)
    ensures Reaches(frame, RECONNECTING, RECONNECTED, hub) && Holds(hub, Interrupted(REOPENED, LATE))
  {
    hide Reaches, Holds, HubRuns.After, Interrupted, State.Apply, ExchangeError;
    hub := Resends(frame);
    OpenInterruptible(REOPENED);
    OpenInFlight();
    SourceGone(frame, hub, REOPENED, LATE);
    ThenParts(frame, RESENDING, RECOVERED, hub);
    hub := HubRuns.After(Defaults(frame), hub, GONE);
    ThenMoves(frame, LOSING, RECOVERED.(connected := false), hub, State.Finishes(State.Handle(0, true), Completed));
    AdapterFinishes();
    ThenMoves(frame, FINISHING, FINISHED, hub, State.Connects([0]));
    AdapterReconnects();
  }

  /** Terminal and snapshot both arrive, and the hub takes neither. */
  lemma Settles(frame: nat) returns (hub: Hub)
    ensures Reaches(frame, SETTLING, SETTLED, hub) && Holds(hub, Interrupted(REOPENED, LATE))
  {
    hide Reaches, Holds, HubRuns.After, Interrupted, Delivered;
    hub := Reconnects(frame);
    AdapterSettles();
    OpenInFlight();
    ThenDelivers(frame, RECONNECTING, RECONNECTED, hub, TERMINAL_STEP);
    MessageStale(frame, hub, Interrupted(REOPENED, LATE), LATE, 2, TERMINAL_STEP.message.payload.event);
    ThenDelivers(frame, REPORTING, REPORTED, hub, LAST_STEP);
    MessageStale(frame, hub, Interrupted(REOPENED, LATE), LATE, 4, Snapshot(COMPLETED));
  }

  const NOWHERE := World(State.Fresh(10), Fresh(SESSION))

  /**
   The world in which a late terminal loses is reached: the hub holds the exchange in flight at revision
   three, the revision the adapter tracks.
   */
  lemma LossIsReachable(frame: nat)
    ensures var w := Run(Defaults(frame), NOWHERE, RESENDING);
      && GenuineRun(Defaults(frame), NOWHERE, RESENDING, 0, KEY)
      && Consistent(w.hub) && KEY in w.hub.exchanges && w.hub.exchanges[KEY].lifecycle.state.InFlight?
      && 0 in w.outbox.exchanges && w.outbox.exchanges[0].revision == w.hub.exchanges[KEY].revision == 3
      && 0 !in w.outbox.terminalQueued && !w.outbox.stopped && !State.Full(w.outbox)
      && Disconnect(Defaults(frame), w.hub, KEY.sourceInstanceId, LATE).result.Success?
  {
    hide Run, GenuineRun, Consistent, ExchangeError, Disconnect;
    var hub := Resends(frame);
    OpenInterruptible(REOPENED);
    OpenInFlight();
    HoldsConsistent(hub, REOPENED);
    SourceGone(frame, hub, REOPENED, LATE);
  }

  /**
   The run in which the outcome is lost. Every message the adapter accepted was delivered and
   acknowledged, none is left to send, and the exchange is forgotten; the hub shows it incomplete.
   */
  lemma OutcomeIsLost(frame: nat)
    ensures var w := Run(Defaults(frame), NOWHERE, SETTLING);
      && GenuineRun(Defaults(frame), NOWHERE, SETTLING, 0, KEY)
      && (exists m :: m in w.outbox.accepted && m.exchangeId == Some(0) && m.content == State.Terminal(Completed))
      && (forall m :: m in w.outbox.accepted ==> m.messageId in w.outbox.settled)
      && w.outbox.queue == [] && w.outbox.pending == map[] && 0 !in w.outbox.exchanges && w.outbox.droppedCount == 0
      && KEY in w.hub.exchanges && w.hub.exchanges[KEY].lifecycle.state == Incomplete
         && w.hub.exchanges[KEY].response.None?
  {
    hide Run, GenuineRun;
    var hub := Settles(frame);
    OpenInFlight();
    assert SETTLED.accepted[2] == TERMINAL;
  }
}
