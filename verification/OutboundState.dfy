/**
 The adapter's bounded outbound queue as a value: what waits, what is in flight, which exchanges are
 tracked, and, as history, every message ever accepted and every one finally settled.
 Message and exchange ids are drawn from one counter, so they never repeat.
 */
module OutboundState {
  import opened Wrappers
  import opened Sequences
  import opened CaptureModel

  datatype Content = Beat | Start | Terminal(outcome: LifecycleState) | Recovery(state: LifecycleState)

  datatype Outbound = Outbound(messageId: nat, exchangeId: Option<nat>, revision: Option<nat>, content: Content,
                               releasesExchange: bool)

  /** What the adapter keeps of an exchange until its terminal is acknowledged. */
  datatype Tracked = Tracked(revision: nat, state: LifecycleState)

  datatype Handle = Handle(exchangeId: nat, captured: bool)

  /** How sending one message ended. */
  datatype Reply =
    | Acknowledged(messageId: Option<nat>, accepted: bool, retryable: bool)
    | TransportFailed(retryable: bool)
    | Failed
    | Cancelled

  datatype Outbox = Outbox(
    capacity: nat,
    queue: seq<Outbound>,
    pending: map<nat, Outbound>,
    exchanges: map<nat, Tracked>,
    terminalQueued: set<nat>,
    droppedCount: nat,
    nextId: nat,
    connected: bool,
    hasConnected: bool,
    faulted: bool,
    stopped: bool,
    accepted: seq<Outbound>,
    settled: set<nat>,
    firstSends: nat)

  function Fresh(capacity: nat): Outbox {
    Outbox(capacity, [], map[], map[], {}, 0, 0, false, false, false, false, [], {}, 0)
  }

  predicate Full(o: Outbox) {
    |o.queue| + |o.pending| >= o.capacity
  }

  function Enqueued(o: Outbox, message: Outbound): Outbox {
    if Full(o) then o.(droppedCount := o.droppedCount + 1)
    else o.(queue := o.queue + [message], accepted := o.accepted + [message])
  }

  function StartMessage(id: nat): Outbound {
    Outbound(id + 1, Some(id), Some(1), Start, false)
  }

  function AfterStart(o: Outbox, capturable: bool): Outbox {
    if !capturable then o
    else
      var next := o.(nextId := o.nextId + 2);
      if o.stopped then next
      else if Full(o) then next.(droppedCount := o.droppedCount + 1)
      else Enqueued(next, StartMessage(o.nextId)).(exchanges := o.exchanges[o.nextId := Tracked(1, InFlight)])
  }

  function StartHandle(o: Outbox, capturable: bool): Handle {
    Handle(if capturable then o.nextId else 0, capturable && !o.stopped && !Full(o))
  }

  function TerminalMessage(messageId: nat, exchangeId: nat, outcome: LifecycleState): Outbound {
    Outbound(messageId, Some(exchangeId), Some(2), Terminal(outcome), true)
  }

  function AfterTerminal(o: Outbox, handle: Handle, outcome: LifecycleState): Outbox {
    var id := handle.exchangeId;
    if !handle.captured || id in o.terminalQueued then o
    else
      var flagged := o.(terminalQueued := o.terminalQueued + {id});
      if o.stopped || id !in o.exchanges then flagged
      else AfterFinish(flagged, id, outcome)
  }

  /** The terminal of a tracked exchange: queued at revision two, or dropped with the exchange. */
  function AfterFinish(o: Outbox, id: nat, outcome: LifecycleState): Outbox {
    var next := Enqueued(o.(nextId := o.nextId + 1), TerminalMessage(o.nextId, id, outcome));
    next.(exchanges := if Full(o) then o.exchanges - {id} else o.exchanges[id := Tracked(2, outcome)])
  }

  function AfterHeartbeat(o: Outbox): Outbox {
    if o.stopped || !o.connected then o
    else Enqueued(o.(nextId := o.nextId + 1), Outbound(o.nextId, None, None, Beat, false))
  }

  function RecoveryMessage(messageId: nat, exchangeId: nat, tracked: Tracked): Outbound {
    Outbound(messageId, Some(exchangeId), Some(tracked.revision), Recovery(tracked.state), IsTerminal(tracked.state))
  }

  /** One recovery snapshot: the revision rises by two whether or not the snapshot finds room. */
  function AfterRecovery(o: Outbox, id: nat): Outbox {
    if id !in o.exchanges then o
    else
      var tracked := o.exchanges[id].(revision := o.exchanges[id].revision + 2);
      Enqueued(o.(nextId := o.nextId + 1, exchanges := o.exchanges[id := tracked]),
               RecoveryMessage(o.nextId, id, tracked))
  }

  function AfterRecoveries(o: Outbox, order: seq<nat>): Outbox {
    if order == [] then o else AfterRecovery(AfterRecoveries(o, order[..|order| - 1]), order[|order| - 1])
  }

  /** A new connection; every one but the first resends the tracked exchanges, in some order. */
  function AfterConnect(o: Outbox, order: seq<nat>): Outbox {
    var connected := o.(connected := true, faulted := false);
    (if o.hasConnected then AfterRecoveries(connected, order) else connected).(hasConnected := true)
  }

  /** The first queued message goes out; its acknowledgement is now awaited. */
  function AfterDispatch(o: Outbox): Outbox {
    if o.faulted || !o.connected || o.queue == [] then o
    else
      var untried := |o.accepted| - o.firstSends;
      o.(queue := o.queue[1..],
         pending := o.pending[o.queue[0].messageId := o.queue[0]],
         firstSends := if |o.queue| <= untried then o.firstSends + 1 else o.firstSends)
  }

  function Requeued(o: Outbox, message: Outbound): Outbox {
    var taken := o.(pending := o.pending - {message.messageId});
    if o.stopped then taken else taken.(queue := [message] + o.queue)
  }

  function Settled(o: Outbox, message: Outbound, accepted: bool): Outbox {
    o.(pending := o.pending - {message.messageId},
       settled := o.settled + {message.messageId},
       exchanges := if accepted && message.releasesExchange && message.exchangeId.Some?
                    then o.exchanges - {message.exchangeId.value} else o.exchanges)
  }

  /** The outcome of one send: settled, back to the front for another try, or left waiting. */
  function AfterReply(o: Outbox, messageId: nat, reply: Reply): Outbox {
    if messageId !in o.pending then o
    else
      var message := o.pending[messageId];
      match reply
      case Acknowledged(id, accepted, retryable) =>
        if id != Some(message.messageId) then Requeued(o, message).(faulted := true)
        else if !accepted && retryable then Requeued(o, message)
        else Settled(o, message, accepted)
      case TransportFailed(retryable) => if retryable then Requeued(o, message).(faulted := true) else o
      case Failed => Requeued(o, message).(faulted := true)
      case Cancelled => o
  }

  function AfterStop(o: Outbox): Outbox {
    o.(stopped := true)
  }

  function AfterShutdown(o: Outbox): Outbox {
    if !o.stopped then o else o.(queue := [], pending := map[], exchanges := map[], connected := false)
  }

  // ---- runs

  datatype Move =
    | Starts(capturable: bool)
    | Finishes(handle: Handle, outcome: LifecycleState)
    | Beats
    | Connects(order: seq<nat>)
    | Disconnects
    | Dispatches
    | Replies(messageId: nat, reply: Reply)
    | BeginsStop
    | ShutsDown

  function Apply(o: Outbox, move: Move): Outbox {
    match move
    case Starts(capturable) => AfterStart(o, capturable)
    case Finishes(handle, outcome) => AfterTerminal(o, handle, outcome)
    case Beats => AfterHeartbeat(o)
    case Connects(order) => AfterConnect(o, order)
    case Disconnects => o.(connected := false)
    case Dispatches => AfterDispatch(o)
    case Replies(messageId, reply) => AfterReply(o, messageId, reply)
    case BeginsStop => AfterStop(o)
    case ShutsDown => AfterShutdown(o)
  }

  function Run(o: Outbox, moves: seq<Move>): Outbox {
    if moves == [] then o else Apply(Run(o, moves[..|moves| - 1]), moves[|moves| - 1])
  }

  // ---- conservation

  /** Ids rise in the order of acceptance and stay below the counter. */
  ghost predicate Numbered(o: Outbox) {
    && (forall i, j :: 0 <= i < j < |o.accepted| ==> o.accepted[i].messageId < o.accepted[j].messageId)
    && Issued(o, o.nextId)
  }

  /** Every message id in the books is below `id`. */
  ghost predicate Issued(o: Outbox, id: nat) {
    && (forall m :: m in o.accepted ==> m.messageId < id)
    && (forall settled :: settled in o.settled ==> settled < id)
  }

  /** Every accepted message waits, is in flight or is settled: exactly one of the three. */
  ghost predicate Conserved(o: Outbox) {
    && (forall i, j :: 0 <= i < j < |o.queue| ==> o.queue[i].messageId != o.queue[j].messageId)
    && (forall m :: m in o.queue ==> m in o.accepted && m.messageId !in o.pending && m.messageId !in o.settled)
    && (forall id :: id in o.pending ==> o.pending[id].messageId == id && o.pending[id] in o.accepted
                                         && id !in o.settled)
    && (forall m :: m in o.accepted ==> m in o.queue || (m.messageId in o.pending && o.pending[m.messageId] == m)
                                        || m.messageId in o.settled)
  }

  /** Never-sent messages form the end of the queue, in the order they were accepted; the rest were sent before. */
  ghost predicate FirstInFirstOut(o: Outbox) {
    && o.firstSends <= |o.accepted|
    && |o.accepted| - o.firstSends <= |o.queue|
    && o.queue[|o.queue| - (|o.accepted| - o.firstSends)..] == o.accepted[o.firstSends..]
  }

  ghost predicate Bounded(o: Outbox) {
    |o.queue| + |o.pending| <= o.capacity
  }

  ghost predicate PendingKeyed(o: Outbox) {
    && (forall m :: m in o.queue ==> m.messageId < o.nextId)
    && (forall id :: id in o.pending ==> o.pending[id].messageId == id && id < o.nextId)
  }

  ghost predicate Orderly(o: Outbox) {
    && Numbered(o) && Bounded(o) && PendingKeyed(o)
    && (!o.stopped ==> Conserved(o) && FirstInFirstOut(o))
  }

  lemma FreshOrderly(capacity: nat)
    ensures Orderly(Fresh(capacity))
  {
  }

  lemma EnqueueConserved(o: Outbox, message: Outbound)
    requires Issued(o, message.messageId) && Conserved(o)
    ensures Conserved(Enqueued(o, message))
  {
    if !Full(o) {
      var next := Enqueued(o, message);
      assert forall m :: m in next.accepted <==> m in o.accepted || m == message;
      assert forall m :: m in next.queue <==> m in o.queue || m == message;
      assert forall i :: 0 <= i < |o.queue| ==> o.queue[i] in o.queue;
      assert forall id :: id in o.pending ==> o.pending[id] in o.accepted && id < message.messageId;
    }
  }

  lemma EnqueueNumbered(o: Outbox, message: Outbound)
    requires Numbered(o) && message.messageId < o.nextId && Issued(o, message.messageId)
    ensures Numbered(Enqueued(o, message))
  {
    if !Full(o) {
      var next := Enqueued(o, message);
      assert forall i :: 0 <= i < |o.accepted| ==> o.accepted[i] in o.accepted;
      assert Issued(next, next.nextId) by {
        assert forall m :: m in next.accepted <==> m in o.accepted || m == message;
      }
    }
  }

  lemma EnqueueFirstInFirstOut(o: Outbox, message: Outbound)
    requires FirstInFirstOut(o)
    ensures FirstInFirstOut(Enqueued(o, message))
  {
    if !Full(o) {
      var next := Enqueued(o, message);
      var from := |o.queue| - (|o.accepted| - o.firstSends);
      assert next.queue[from..] == o.queue[from..] + [message];
      assert next.accepted[o.firstSends..] == o.accepted[o.firstSends..] + [message];
    }
  }

  lemma EnqueueKnown(o: Outbox, message: Outbound)
    requires PendingKeyed(o) && message.messageId < o.nextId
    ensures PendingKeyed(Enqueued(o, message))
  {
    assert forall m :: m in (o.queue + [message]) <==> m in o.queue || m == message;
  }

  lemma EnqueueOrderly(o: Outbox, message: Outbound)
    requires Orderly(o) && message.messageId < o.nextId && Issued(o, message.messageId)
    ensures Orderly(Enqueued(o, message))
  {
    hide Conserved, FirstInFirstOut, Numbered, Issued, PendingKeyed;
    EnqueueNumbered(o, message);
    EnqueueKnown(o, message);
    if !o.stopped {
      EnqueueConserved(o, message);
      EnqueueFirstInFirstOut(o, message);
    }
  }

  /** Changes beside the message books leave them in order. */
  lemma SameBooks(o: Outbox, next: Outbox)
    requires Orderly(o) && o.nextId <= next.nextId && (o.stopped ==> next.stopped)
    requires next == o.(droppedCount := next.droppedCount, nextId := next.nextId, exchanges := next.exchanges,
                        terminalQueued := next.terminalQueued,
                        connected := next.connected, hasConnected := next.hasConnected, faulted := next.faulted,
                        stopped := next.stopped)
    ensures Orderly(next)
  {
  }

  lemma StartOrderly(o: Outbox, capturable: bool)
    requires Orderly(o)
    ensures Orderly(AfterStart(o, capturable))
  {
    hide Conserved, FirstInFirstOut;
    if capturable {
      var next := o.(nextId := o.nextId + 2);
      SameBooks(o, next);
      SameBooks(o, next.(droppedCount := o.droppedCount + 1));
      assert Issued(next, o.nextId + 1);
      EnqueueOrderly(next, StartMessage(o.nextId));
      var queued := Enqueued(next, StartMessage(o.nextId));
      SameBooks(queued, queued.(exchanges := o.exchanges[o.nextId := Tracked(1, InFlight)]));
    }
  }

  lemma TerminalOrderly(o: Outbox, handle: Handle, outcome: LifecycleState)
    requires Orderly(o)
    ensures Orderly(AfterTerminal(o, handle, outcome))
  {
    hide Conserved, FirstInFirstOut, Numbered, Orderly, Issued;
    var flagged := o.(terminalQueued := o.terminalQueued + {handle.exchangeId});
    SameBooks(o, flagged);
    var numbered := flagged.(nextId := o.nextId + 1);
    SameBooks(o, numbered);
    assert Issued(numbered, o.nextId) by { StillIssued(o, numbered); }
    var message := TerminalMessage(o.nextId, handle.exchangeId, outcome);
    EnqueueOrderly(numbered, message);
    var next := AfterTerminal(o, handle, outcome);
    if next != o && next != flagged {
      SameBooks(Enqueued(numbered, message), next);
    }
  }

  lemma StillIssued(o: Outbox, next: Outbox)
    requires Orderly(o) && next.accepted == o.accepted && next.settled == o.settled
    ensures Issued(next, o.nextId)
  {
  }

  lemma HeartbeatOrderly(o: Outbox)
    requires Orderly(o)
    ensures Orderly(AfterHeartbeat(o))
  {
    hide Conserved, FirstInFirstOut;
    var numbered := o.(nextId := o.nextId + 1);
    SameBooks(o, numbered);
    assert Issued(numbered, o.nextId);
    EnqueueOrderly(numbered, Outbound(o.nextId, None, None, Beat, false));
  }

  lemma RecoveryOrderly(o: Outbox, id: nat)
    requires Orderly(o)
    ensures Orderly(AfterRecovery(o, id))
    ensures AfterRecovery(o, id).stopped == o.stopped
  {
    hide Conserved, FirstInFirstOut;
    if id in o.exchanges {
      var tracked := o.exchanges[id].(revision := o.exchanges[id].revision + 2);
      var numbered := o.(nextId := o.nextId + 1, exchanges := o.exchanges[id := tracked]);
      SameBooks(o, numbered);
      assert Issued(numbered, o.nextId);
      EnqueueOrderly(numbered, RecoveryMessage(o.nextId, id, tracked));
    }
  }

  lemma {:induction false} RecoveriesOrderly(o: Outbox, order: seq<nat>)
    requires Orderly(o)
    ensures Orderly(AfterRecoveries(o, order))
  {
    hide Orderly, AfterRecovery;
    if order != [] {
      RecoveriesOrderly(o, order[..|order| - 1]);
      RecoveryOrderly(AfterRecoveries(o, order[..|order| - 1]), order[|order| - 1]);
    }
  }

  lemma ConnectOrderly(o: Outbox, order: seq<nat>)
    requires Orderly(o)
    ensures Orderly(AfterConnect(o, order))
  {
    hide Conserved, FirstInFirstOut, AfterRecoveries;
    var connected := o.(connected := true, faulted := false);
    SameBooks(o, connected);
    RecoveriesOrderly(connected, order);
    var next := if o.hasConnected then AfterRecoveries(connected, order) else connected;
    SameBooks(next, next.(hasConnected := true));
  }

  lemma DispatchConserved(o: Outbox)
    requires Conserved(o)
    ensures Conserved(AfterDispatch(o))
  {
    if !o.faulted && o.connected && o.queue != [] {
      var first, rest := o.queue[0], o.queue[1..];
      assert first in o.queue;
      assert forall m :: m in o.queue <==> m == first || m in rest;
      assert forall i :: 0 <= i < |rest| ==> rest[i] == o.queue[i + 1] && rest[i].messageId != first.messageId;
    }
  }

  lemma DispatchOrderly(o: Outbox)
    requires Orderly(o)
    ensures Orderly(AfterDispatch(o))
  {
    hide Conserved, Numbered;
    var next := AfterDispatch(o);
    assert Numbered(next) by { SameNumbers(o, next); }
    if next != o {
      assert o.queue[0] in o.queue;
      assert |next.pending| <= |o.pending| + 1 by { AddedCard(o.pending, o.queue[0].messageId, o.queue[0]); }
      if !o.stopped {
        DispatchConserved(o);
        var untried := |o.accepted| - o.firstSends;
        var from := |o.queue| - untried;
        if from == 0 {
          assert next.queue == o.accepted[o.firstSends..][1..];
        } else {
          assert next.queue[from - 1..] == o.queue[from..];
        }
      }
    }
  }

  lemma SameNumbers(o: Outbox, next: Outbox)
    requires Numbered(o) && next.accepted == o.accepted && next.settled == o.settled && next.nextId == o.nextId
    ensures Numbered(next)
  {
  }

  lemma AddedCard(pending: map<nat, Outbound>, id: nat, message: Outbound)
    ensures |pending[id := message]| <= |pending| + 1
  {
    assert pending[id := message].Keys == pending.Keys + {id};
    assert |pending[id := message]| == |pending[id := message].Keys|;
  }

  lemma RemovedCard(pending: map<nat, Outbound>, id: nat)
    requires id in pending
    ensures |pending - {id}| == |pending| - 1
  {
    assert (pending - {id}).Keys == pending.Keys - {id};
    assert |pending - {id}| == |(pending - {id}).Keys|;
  }

  lemma RequeueConserved(o: Outbox, message: Outbound)
    requires Conserved(o) && Numbered(o) && !o.stopped && message.messageId in o.pending
      && o.pending[message.messageId] == message
    ensures Conserved(Requeued(o, message))
  {
    var next := Requeued(o, message);
    assert next.queue[1..] == o.queue;
    assert forall m :: m in next.queue <==> m == message || m in o.queue;
    assert forall i :: 0 <= i < |o.queue| ==> o.queue[i] in o.queue;
  }

  lemma RequeueOrderly(o: Outbox, message: Outbound)
    requires Orderly(o) && message.messageId in o.pending && o.pending[message.messageId] == message
    ensures Orderly(Requeued(o, message))
  {
    hide Conserved, Numbered;
    var next := Requeued(o, message);
    assert Numbered(next) by { SameNumbers(o, next); }
    RemovedCard(o.pending, message.messageId);
    if !o.stopped {
      RequeueConserved(o, message);
      var from := |o.queue| - (|o.accepted| - o.firstSends);
      assert next.queue[from + 1..] == o.queue[from..];
    }
  }

  lemma SettleConserved(o: Outbox, message: Outbound, accepted: bool)
    requires Conserved(o) && message.messageId in o.pending && o.pending[message.messageId] == message
    ensures Conserved(Settled(o, message, accepted))
  {
    var next := Settled(o, message, accepted);
    assert forall m :: m in o.queue ==> m.messageId != message.messageId;
  }

  lemma SettleOrderly(o: Outbox, message: Outbound, accepted: bool)
    requires Orderly(o) && message.messageId in o.pending && o.pending[message.messageId] == message
    ensures Orderly(Settled(o, message, accepted))
  {
    hide Conserved;
    RemovedCard(o.pending, message.messageId);
    if !o.stopped {
      SettleConserved(o, message, accepted);
    }
  }

  lemma ReplyOrderly(o: Outbox, messageId: nat, reply: Reply)
    requires Orderly(o)
    ensures Orderly(AfterReply(o, messageId, reply))
  {
    hide Conserved, FirstInFirstOut, Numbered, Requeued, Settled;
    if messageId in o.pending {
      var message := o.pending[messageId];
      assert message.messageId == messageId;
      RequeueOrderly(o, message);
      SameBooks(Requeued(o, message), Requeued(o, message).(faulted := true));
      SettleOrderly(o, message, reply.Acknowledged? && reply.accepted);
    }
  }

  lemma ApplyOrderly(o: Outbox, move: Move)
    requires Orderly(o)
    ensures Orderly(Apply(o, move))
  {
    hide Orderly, AfterStart, AfterTerminal, AfterHeartbeat, AfterConnect, AfterDispatch, AfterReply;
    match move
    case Starts(capturable) => StartOrderly(o, capturable);
    case Finishes(handle, outcome) => TerminalOrderly(o, handle, outcome);
    case Beats => HeartbeatOrderly(o);
    case Connects(order) => ConnectOrderly(o, order);
    case Disconnects => SameBooks(o, o.(connected := false));
    case Dispatches => DispatchOrderly(o);
    case Replies(messageId, reply) => ReplyOrderly(o, messageId, reply);
    case BeginsStop => SameBooks(o, o.(stopped := true));
    case ShutsDown => ShutdownOrderly(o);
  }

  lemma ShutdownOrderly(o: Outbox)
    requires Orderly(o)
    ensures Orderly(AfterShutdown(o))
  {
  }

  /**
   Outbound conservation over every run. The queue and the messages in flight never exceed the
   capacity; until stop every accepted message is in exactly one of queue, in flight and settled;
   and messages leave for the first time in the order they were accepted, retries or not.
   */
  lemma {:induction false} RunOrderly(o: Outbox, moves: seq<Move>)
    requires Orderly(o)
    ensures Orderly(Run(o, moves))
  {
    hide Orderly, Apply;
    if moves != [] {
      RunOrderly(o, moves[..|moves| - 1]);
      ApplyOrderly(Run(o, moves[..|moves| - 1]), moves[|moves| - 1]);
    }
  }

  /** The number of places, of the queue, the messages in flight and the settled ones, that hold a message. */
  function Places(o: Outbox, m: Outbound): nat {
    (if m in o.queue then 1 else 0) + (if m.messageId in o.pending then 1 else 0)
      + (if m.messageId in o.settled then 1 else 0)
  }

  lemma AcceptedInOnePlace(capacity: nat, moves: seq<Move>, m: Outbound)
    requires m in Run(Fresh(capacity), moves).accepted && !Run(Fresh(capacity), moves).stopped
    ensures Places(Run(Fresh(capacity), moves), m) == 1
  {
    hide Run, Numbered, FirstInFirstOut;
    FreshOrderly(capacity);
    RunOrderly(Fresh(capacity), moves);
  }

  // ---- lifecycle messages of one exchange

  /**
   Exchange ids below the counter; an exchange is started once, before anything else about it is
   accepted, and finished at most once.
   */
  ghost predicate Lifecycles(o: Outbox) {
    && (forall x :: x in o.exchanges ==> Begun(o.accepted, |o.accepted|, x))
    && (forall i: nat {:trigger InPlace(o, i)} {:trigger o.accepted[i]} :: i < |o.accepted| ==> InPlace(o, i))
    && NoRepeats(o.accepted)
  }

  /** An accepted message is about a known exchange, comes after its start, and flags it when it ends it. */
  ghost predicate InPlace(o: Outbox, i: nat)
    requires i < |o.accepted|
  {
    var m := o.accepted[i];
    m.exchangeId.Some? ==>
      && m.exchangeId.value < o.nextId
      && (m.content.Terminal? ==> m.exchangeId.value in o.terminalQueued)
      && (!m.content.Start? ==> Begun(o.accepted, i, m.exchangeId.value))
  }

  ghost predicate NoRepeats(accepted: seq<Outbound>) {
    forall i, j :: 0 <= i < j < |accepted| && accepted[i].exchangeId.Some?
                   && accepted[i].exchangeId == accepted[j].exchangeId ==>
      && !(accepted[i].content.Start? && accepted[j].content.Start?)
      && !(accepted[i].content.Terminal? && accepted[j].content.Terminal?)
  }

  /** A start of the exchange is among the first `n` accepted messages. */
  ghost predicate Begun(accepted: seq<Outbound>, n: nat, x: nat)
    requires n <= |accepted|
  {
    exists i :: 0 <= i < n && accepted[i].exchangeId == Some(x) && accepted[i].content.Start?
  }

  /** What accepting one more message needs, so that lifecycles stay in order. */
  ghost predicate Follows(o: Outbox, m: Outbound) {
    m.exchangeId.Some? ==>
      var x := m.exchangeId.value;
      && x < o.nextId
      && (m.content.Start? ==> forall a :: a in o.accepted ==> a.exchangeId != Some(x))
      && (!m.content.Start? ==> Begun(o.accepted, |o.accepted|, x))
      && (m.content.Terminal? ==> x in o.terminalQueued && forall a :: a in o.accepted ==>
          !(a.exchangeId == Some(x) && a.content.Terminal?))
  }

  lemma BegunLater(accepted: seq<Outbound>, m: Outbound, n: nat, x: nat)
    requires n <= |accepted|
    ensures Begun(accepted, n, x) ==> Begun(accepted + [m], n, x) && Begun(accepted + [m], |accepted| + 1, x)
    ensures m.content.Start? && m.exchangeId == Some(x) ==> Begun(accepted + [m], |accepted| + 1, x)
  {
    var longer := accepted + [m];
    if Begun(accepted, n, x) {
      var i :| 0 <= i < n && accepted[i].exchangeId == Some(x) && accepted[i].content.Start?;
      assert longer[i] == accepted[i];
    }
    assert longer[|accepted|] == m;
  }

  lemma EnqueueInPlace(o: Outbox, m: Outbound, i: nat)
    requires i < |o.accepted| && InPlace(o, i) && !Full(o)
    ensures InPlace(Enqueued(o, m), i)
  {
    assert Enqueued(o, m).accepted[i] == o.accepted[i];
    if o.accepted[i].exchangeId.Some? {
      BegunLater(o.accepted, m, i, o.accepted[i].exchangeId.value);
    }
  }

  lemma EnqueueLast(o: Outbox, m: Outbound)
    requires NoRepeats(o.accepted) && Follows(o, m) && !Full(o)
    ensures NoRepeats(Enqueued(o, m).accepted) && InPlace(Enqueued(o, m), |o.accepted|)
    ensures m.content.Start? && m.exchangeId.Some? ==>
      Begun(Enqueued(o, m).accepted, |o.accepted| + 1, m.exchangeId.value)
  {
    var next := Enqueued(o, m);
    assert forall i :: 0 <= i < |o.accepted| ==> next.accepted[i] == o.accepted[i] && o.accepted[i] in o.accepted;
    assert next.accepted[|o.accepted|] == m;
    if m.exchangeId.Some? {
      BegunLater(o.accepted, m, |o.accepted|, m.exchangeId.value);
    }
  }

  lemma EnqueueLifecycles(o: Outbox, m: Outbound)
    requires Lifecycles(o) && Follows(o, m)
    ensures Lifecycles(Enqueued(o, m))
    ensures !Full(o) && m.content.Start? && m.exchangeId.Some? ==>
      Begun(Enqueued(o, m).accepted, |o.accepted| + 1, m.exchangeId.value)
  {
    hide Begun, InPlace, NoRepeats, Follows;
    if !Full(o) {
      EnqueueLast(o, m);
      var next := Enqueued(o, m);
      forall i: nat | i < |next.accepted| ensures InPlace(next, i) {
        if i < |o.accepted| {
          EnqueueInPlace(o, m, i);
        }
      }
      forall x | x in o.exchanges ensures Begun(Enqueued(o, m).accepted, |o.accepted| + 1, x) {
        BegunLater(o.accepted, m, |o.accepted|, x);
      }
    } else {
      SameLifecycles(o, Enqueued(o, m));
    }
  }

  /**
   Changes beside accepted messages keep lifecycles, as long as only begun exchanges are tracked and no flag
   is lost.
   */
  lemma SameLifecycles(o: Outbox, next: Outbox)
    requires Lifecycles(o) && next.accepted == o.accepted && o.nextId <= next.nextId
      && o.terminalQueued <= next.terminalQueued
    requires forall x :: x in next.exchanges ==> x in o.exchanges || Begun(next.accepted, |next.accepted|, x)
    ensures Lifecycles(next)
  {
    hide Begun;
  }

  lemma StartLifecycles(o: Outbox, capturable: bool)
    requires Lifecycles(o)
    ensures Lifecycles(AfterStart(o, capturable))
  {
    hide Lifecycles, Begun;
    if capturable {
      var next := o.(nextId := o.nextId + 2);
      var message := StartMessage(o.nextId);
      SameLifecycles(o, next);
      SameLifecycles(o, next.(droppedCount := o.droppedCount + 1));
      NewExchange(o);
      EnqueueLifecycles(next, message);
      if !o.stopped && !Full(o) {
        SameLifecycles(Enqueued(next, message), AfterStart(o, capturable));
      }
    }
  }

  lemma NewExchange(o: Outbox)
    requires Lifecycles(o)
    ensures forall a :: a in o.accepted ==> a.exchangeId != Some(o.nextId)
  {
    hide Begun;
  }

  lemma EnqueuedBooks(o: Outbox, m: Outbound)
    ensures var next := Enqueued(o, m);
      next == o.(queue := next.queue, accepted := next.accepted, droppedCount := next.droppedCount)
      && (forall n: nat, x: nat :: n <= |o.accepted| && Begun(o.accepted, n, x) ==>
          n <= |next.accepted| && Begun(next.accepted, |next.accepted|, x))
  {
    forall n: nat, x: nat | n <= |o.accepted| && Begun(o.accepted, n, x)
      ensures Begun(Enqueued(o, m).accepted, |Enqueued(o, m).accepted|, x) {
      BegunLater(o.accepted, m, n, x);
    }
  }

  lemma FinishLifecycles(o: Outbox, x: nat, outcome: LifecycleState)
    requires Lifecycles(o) && x in o.exchanges && x in o.terminalQueued
    requires forall a :: a in o.accepted ==> !(a.exchangeId == Some(x) && a.content.Terminal?)
    ensures Lifecycles(AfterFinish(o, x, outcome))
  {
    hide Lifecycles, Begun, Enqueued;
    var numbered := o.(nextId := o.nextId + 1);
    var message := TerminalMessage(o.nextId, x, outcome);
    SameLifecycles(o, numbered);
    TrackedBegun(o, x);
    EnqueueLifecycles(numbered, message);
    EnqueuedBooks(numbered, message);
    SameLifecycles(Enqueued(numbered, message), AfterFinish(o, x, outcome));
  }

  lemma TerminalLifecycles(o: Outbox, handle: Handle, outcome: LifecycleState)
    requires Lifecycles(o)
    ensures Lifecycles(AfterTerminal(o, handle, outcome))
  {
    hide Lifecycles, Begun, AfterFinish;
    var x := handle.exchangeId;
    var flagged := o.(terminalQueued := o.terminalQueued + {x});
    SameLifecycles(o, flagged);
    if handle.captured && x !in o.terminalQueued && !o.stopped && x in o.exchanges {
      TrackedBegun(o, x);
      FinishLifecycles(flagged, x, outcome);
    }
  }

  lemma TrackedBegun(o: Outbox, x: nat)
    requires Lifecycles(o) && x in o.exchanges
    ensures Begun(o.accepted, |o.accepted|, x) && x < o.nextId
    ensures x !in o.terminalQueued ==> forall a :: a in o.accepted ==> !(a.exchangeId == Some(x) && a.content.Terminal?)
  {
    var i :| 0 <= i < |o.accepted| && o.accepted[i].exchangeId == Some(x) && o.accepted[i].content.Start?;
  }

  lemma RecoveryLifecycles(o: Outbox, x: nat)
    requires Lifecycles(o)
    ensures Lifecycles(AfterRecovery(o, x))
  {
    hide Lifecycles, Begun;
    if x in o.exchanges {
      var tracked := o.exchanges[x].(revision := o.exchanges[x].revision + 2);
      var numbered := o.(nextId := o.nextId + 1, exchanges := o.exchanges[x := tracked]);
      SameLifecycles(o, numbered);
      TrackedBegun(o, x);
      EnqueueLifecycles(numbered, RecoveryMessage(o.nextId, x, tracked));
    }
  }

  lemma {:induction false} RecoveriesLifecycles(o: Outbox, order: seq<nat>)
    requires Lifecycles(o)
    ensures Lifecycles(AfterRecoveries(o, order))
  {
    hide Lifecycles, AfterRecovery;
    if order != [] {
      RecoveriesLifecycles(o, order[..|order| - 1]);
      RecoveryLifecycles(AfterRecoveries(o, order[..|order| - 1]), order[|order| - 1]);
    }
  }

  lemma ApplyLifecycles(o: Outbox, move: Move)
    requires Lifecycles(o)
    ensures Lifecycles(Apply(o, move))
  {
    hide Lifecycles, AfterStart, AfterTerminal, AfterHeartbeat, AfterConnect, AfterReply, AfterDispatch, AfterShutdown;
    match move
    case Starts(capturable) => StartLifecycles(o, capturable);
    case Finishes(handle, outcome) => TerminalLifecycles(o, handle, outcome);
    case Beats => HeartbeatLifecycles(o);
    case Connects(order) => ConnectLifecycles(o, order);
    case _ =>
      QuietMoves(o, move);
      SameLifecycles(o, Apply(o, move));
  }

  /** A move that only moves messages, or ends the connection or the adapter. */
  predicate IsQuiet(move: Move) {
    move.Disconnects? || move.Dispatches? || move.Replies? || move.BeginsStop? || move.ShutsDown?
  }

  /** Such a move accepts no message and changes no tracked exchange, except that it may let one go. */
  lemma QuietMoves(o: Outbox, move: Move)
    requires IsQuiet(move)
    ensures var next := Apply(o, move);
      && next.accepted == o.accepted && next.nextId == o.nextId && next.terminalQueued == o.terminalQueued
      && forall x :: x in next.exchanges ==> x in o.exchanges && next.exchanges[x] == o.exchanges[x]
  {
    if move.Replies? && move.messageId in o.pending {
      RequeueQuiet(o, o.pending[move.messageId]);
    }
  }

  lemma RequeueQuiet(o: Outbox, message: Outbound)
    ensures var next := Requeued(o, message);
      next.accepted == o.accepted && next.nextId == o.nextId && next.terminalQueued == o.terminalQueued
        && next.exchanges == o.exchanges
  {
  }

  lemma HeartbeatLifecycles(o: Outbox)
    requires Lifecycles(o)
    ensures Lifecycles(AfterHeartbeat(o))
  {
    hide Lifecycles, Enqueued;
    var numbered := o.(nextId := o.nextId + 1);
    SameLifecycles(o, numbered);
    EnqueueLifecycles(numbered, Outbound(o.nextId, None, None, Beat, false));
  }

  lemma ConnectLifecycles(o: Outbox, order: seq<nat>)
    requires Lifecycles(o)
    ensures Lifecycles(AfterConnect(o, order))
  {
    hide Lifecycles, AfterRecoveries;
    var connected := o.(connected := true, faulted := false);
    SameLifecycles(o, connected);
    RecoveriesLifecycles(connected, order);
    var next := if o.hasConnected then AfterRecoveries(connected, order) else connected;
    SameLifecycles(next, next.(hasConnected := true));
  }

  lemma {:induction false} RunLifecycles(o: Outbox, moves: seq<Move>)
    requires Lifecycles(o)
    ensures Lifecycles(Run(o, moves))
  {
    hide Lifecycles, Apply;
    if moves != [] {
      RunLifecycles(o, moves[..|moves| - 1]);
      ApplyLifecycles(Run(o, moves[..|moves| - 1]), moves[|moves| - 1]);
    }
  }

  /** In every run from a fresh adapter each exchange starts once, first, and queues at most one terminal. */
  lemma StartedOnceFinishedOnce(capacity: nat, moves: seq<Move>, i: nat, j: nat)
    requires var accepted := Run(Fresh(capacity), moves).accepted;
      i < j < |accepted| && accepted[i].exchangeId.Some? && accepted[i].exchangeId == accepted[j].exchangeId
    ensures var accepted := Run(Fresh(capacity), moves).accepted;
      && !accepted[j].content.Start?
      && !(accepted[i].content.Terminal? && accepted[j].content.Terminal?)
      && exists s :: 0 <= s <= i && accepted[s].exchangeId == accepted[i].exchangeId && accepted[s].content.Start?
  {
    hide Run;
    RunLifecycles(Fresh(capacity), moves);
  }

  // ---- when an exchange is let go

  /** A message that releases its exchange is its terminal, or a snapshot of it finished. */
  predicate ReleasesRightly(m: Outbound) {
    m.releasesExchange ==> m.exchangeId.Some?
                           && (m.content.Terminal? || (m.content.Recovery? && IsTerminal(m.content.state)))
  }

  ghost predicate AllReleaseRightly(o: Outbox) {
    && (forall m :: m in o.queue ==> ReleasesRightly(m))
    && (forall id :: id in o.pending ==> ReleasesRightly(o.pending[id]))
  }

  lemma EnqueueReleases(o: Outbox, m: Outbound)
    requires AllReleaseRightly(o) && ReleasesRightly(m)
    ensures AllReleaseRightly(Enqueued(o, m))
  {
    hide ReleasesRightly;
    assert forall x :: x in o.queue + [m] <==> x in o.queue || x == m;
  }

  lemma {:induction false} RecoveriesRelease(o: Outbox, order: seq<nat>)
    requires AllReleaseRightly(o)
    ensures AllReleaseRightly(AfterRecoveries(o, order))
  {
    hide Enqueued, AllReleaseRightly;
    if order != [] {
      RecoveriesRelease(o, order[..|order| - 1]);
      RecoveryReleases(AfterRecoveries(o, order[..|order| - 1]), order[|order| - 1]);
    }
  }

  lemma RecoveryReleases(o: Outbox, x: nat)
    requires AllReleaseRightly(o)
    ensures AllReleaseRightly(AfterRecovery(o, x))
  {
    hide Enqueued;
    if x in o.exchanges {
      var tracked := o.exchanges[x].(revision := o.exchanges[x].revision + 2);
      EnqueueReleases(o.(nextId := o.nextId + 1, exchanges := o.exchanges[x := tracked]),
                      RecoveryMessage(o.nextId, x, tracked));
    }
  }

  lemma FinishReleases(o: Outbox, handle: Handle, outcome: LifecycleState)
    requires AllReleaseRightly(o)
    ensures AllReleaseRightly(AfterTerminal(o, handle, outcome))
  {
    hide Enqueued, AllReleaseRightly;
    var id := handle.exchangeId;
    var flagged := o.(terminalQueued := o.terminalQueued + {id});
    var numbered := flagged.(nextId := o.nextId + 1);
    SameMessages(o, flagged);
    SameMessages(o, numbered);
    EnqueueReleases(numbered, TerminalMessage(o.nextId, id, outcome));
    var next := AfterTerminal(o, handle, outcome);
    if next != o && next != flagged {
      SameMessages(Enqueued(numbered, TerminalMessage(o.nextId, id, outcome)), next);
    }
  }

  lemma SameMessages(o: Outbox, next: Outbox)
    requires AllReleaseRightly(o) && next.queue == o.queue && next.pending == o.pending
    ensures AllReleaseRightly(next)
  {
  }

  lemma StartReleases(o: Outbox, capturable: bool)
    requires AllReleaseRightly(o)
    ensures AllReleaseRightly(AfterStart(o, capturable))
  {
    hide Enqueued;
    EnqueueReleases(o.(nextId := o.nextId + 2), StartMessage(o.nextId));
  }

  lemma HeartbeatReleases(o: Outbox)
    requires AllReleaseRightly(o)
    ensures AllReleaseRightly(AfterHeartbeat(o))
  {
    hide Enqueued;
    EnqueueReleases(o.(nextId := o.nextId + 1), Outbound(o.nextId, None, None, Beat, false));
  }

  lemma QuietReleases(o: Outbox, move: Move)
    requires AllReleaseRightly(o) && IsQuiet(move)
    ensures AllReleaseRightly(Apply(o, move))
  {
    hide ReleasesRightly;
    if move.Replies? && move.messageId in o.pending {
      RequeueReleases(o, o.pending[move.messageId]);
    } else if move.Dispatches? && o.queue != [] {
      assert o.queue[0] in o.queue && forall m :: m in o.queue[1..] ==> m in o.queue;
    }
  }

  lemma RequeueReleases(o: Outbox, m: Outbound)
    requires AllReleaseRightly(o) && ReleasesRightly(m)
    ensures AllReleaseRightly(Requeued(o, m))
  {
    hide ReleasesRightly;
    assert forall x :: x in [m] + o.queue <==> x == m || x in o.queue;
  }

  lemma ApplyReleases(o: Outbox, move: Move)
    requires AllReleaseRightly(o)
    ensures AllReleaseRightly(Apply(o, move))
  {
    hide AllReleaseRightly, AfterStart, AfterTerminal, AfterHeartbeat, AfterRecoveries, AfterReply, AfterDispatch,
         AfterShutdown;
    match move
    case Starts(capturable) => StartReleases(o, capturable);
    case Finishes(handle, outcome) => FinishReleases(o, handle, outcome);
    case Beats => HeartbeatReleases(o);
    case Connects(order) => ConnectReleases(o, order);
    case _ => QuietReleases(o, move);
  }

  lemma ConnectReleases(o: Outbox, order: seq<nat>)
    requires AllReleaseRightly(o)
    ensures AllReleaseRightly(AfterConnect(o, order))
  {
    hide AfterRecoveries;
    RecoveriesRelease(o.(connected := true, faulted := false), order);
  }

  lemma {:induction false} RunReleases(o: Outbox, moves: seq<Move>)
    requires AllReleaseRightly(o)
    ensures AllReleaseRightly(Run(o, moves))
  {
    hide AllReleaseRightly, Apply;
    if moves != [] {
      RunReleases(o, moves[..|moves| - 1]);
      ApplyReleases(Run(o, moves[..|moves| - 1]), moves[|moves| - 1]);
    }
  }

  /**
   In every run an exchange is let go for one of three reasons only: the adapter shut down, its terminal
   found no room, or the listener accepted its terminal or a snapshot of it finished.
   */
  lemma LetGoOnlyWhenFinished(capacity: nat, moves: seq<Move>, move: Move, x: nat)
    requires var o := Run(Fresh(capacity), moves); x in o.exchanges && x !in Apply(o, move).exchanges
    ensures var o := Run(Fresh(capacity), moves);
      || (move.ShutsDown? && o.stopped)
      || (move.Finishes? && move.handle.exchangeId == x && Full(o))
      || (move.Replies? && move.messageId in o.pending
          && move.reply == Acknowledged(Some(o.pending[move.messageId].messageId), true, move.reply.retryable)
          && o.pending[move.messageId].exchangeId == Some(x)
          && ReleasesRightly(o.pending[move.messageId]) && o.pending[move.messageId].releasesExchange)
  {
    hide Run, AllReleaseRightly, Apply;
    assert AllReleaseRightly(Fresh(capacity)) by { FreshReleases(capacity); }
    RunReleases(Fresh(capacity), moves);
    LetGo(Run(Fresh(capacity), moves), move, x);
  }

  lemma FreshReleases(capacity: nat)
    ensures AllReleaseRightly(Fresh(capacity))
  {
  }

  lemma LetGo(o: Outbox, move: Move, x: nat)
    requires AllReleaseRightly(o) && x in o.exchanges && x !in Apply(o, move).exchanges
    ensures
      || (move.ShutsDown? && o.stopped)
      || (move.Finishes? && move.handle.exchangeId == x && Full(o))
      || (move.Replies? && move.messageId in o.pending
          && move.reply == Acknowledged(Some(o.pending[move.messageId].messageId), true, move.reply.retryable)
          && o.pending[move.messageId].exchangeId == Some(x)
          && ReleasesRightly(o.pending[move.messageId]) && o.pending[move.messageId].releasesExchange)
  {
    hide AfterStart, AfterTerminal, AfterHeartbeat, AfterRecoveries, AfterDispatch, ReleasesRightly, Requeued, Full;
    match move
    case Starts(capturable) => StartKeeps(o, capturable);
    case Connects(order) => RecoveriesKeep(o.(connected := true, faulted := false), order);
    case Finishes(handle, outcome) => FinishLetsGo(o, handle, outcome, x);
    case Beats => HeartbeatKeeps(o);
    case Dispatches => DispatchKeeps(o);
    case Replies(id, _) =>
      if id in o.pending {
        RequeueQuiet(o, o.pending[id]);
      }
    case _ =>
  }

  lemma FinishLetsGo(o: Outbox, handle: Handle, outcome: LifecycleState, x: nat)
    requires x in o.exchanges && x !in AfterTerminal(o, handle, outcome).exchanges
    ensures handle.exchangeId == x && Full(o)
  {
    hide Enqueued;
    var id := handle.exchangeId;
    EnqueuedBooks(o.(terminalQueued := o.terminalQueued + {id}, nextId := o.nextId + 1),
                  TerminalMessage(o.nextId, id, outcome));
  }

  lemma HeartbeatKeeps(o: Outbox)
    ensures AfterHeartbeat(o).exchanges == o.exchanges
  {
  }

  lemma DispatchKeeps(o: Outbox)
    ensures AfterDispatch(o).exchanges == o.exchanges
  {
  }

  lemma StartKeeps(o: Outbox, capturable: bool)
    ensures forall x :: x in o.exchanges ==> x in AfterStart(o, capturable).exchanges
  {
  }

  lemma {:induction false} RecoveriesKeep(o: Outbox, order: seq<nat>)
    ensures forall x :: x in o.exchanges ==> x in AfterRecoveries(o, order).exchanges
  {
    hide AfterRecovery;
    if order != [] {
      RecoveriesKeep(o, order[..|order| - 1]);
      RecoveryKeeps(AfterRecoveries(o, order[..|order| - 1]), order[|order| - 1]);
    }
  }

  lemma RecoveryKeeps(o: Outbox, id: nat)
    ensures forall x :: x in o.exchanges ==> x in AfterRecovery(o, id).exchanges
  {
  }
}
