/** What each move of the adapter's outbox does to its messages, and over runs what may become of a message. */
module OutboundLaws {
  import opened Wrappers
  import opened Sequences
  import opened CaptureModel
  import opened OutboundState

  // ---- replies

  /** The reply is the final word on message `id`: the hub took it, or refused it for good. */
  predicate IsFinal(id: nat, reply: Reply) {
    reply.Acknowledged? && reply.messageId == Some(id) && (reply.accepted || !reply.retryable)
  }

  /** The reply is a refusal that asks for another try. */
  predicate IsRefusal(id: nat, reply: Reply) {
    reply.Acknowledged? && reply.messageId == Some(id) && !reply.accepted && reply.retryable
  }

  /** The connection is at fault: an acknowledgement of another message, a failure, a transport error to retry. */
  predicate IsFault(id: nat, reply: Reply) {
    (reply.Acknowledged? && reply.messageId != Some(id)) || reply.Failed? || (reply.TransportFailed? && reply.retryable)
  }

  /**
   What a reply does: a final one settles its message, a refusal or a fault puts it back first, anything
   else leaves it waiting.
   */
  lemma ReplyOutcome(o: Outbox, id: nat, reply: Reply)
    requires PendingKeyed(o)
    ensures var next := Apply(o, Replies(id, reply));
      && next == o.(queue := next.queue, pending := next.pending, settled := next.settled, exchanges := next.exchanges,
                    faulted := next.faulted)
      && (id !in o.pending ==> next == o)
      && (id in o.pending && IsFinal(id, reply) ==>
            && next.settled == o.settled + {id} && next.pending == o.pending - {id} && next.queue == o.queue
            && next.faulted == o.faulted
            && next.exchanges ==
               if reply.accepted && o.pending[id].releasesExchange && o.pending[id].exchangeId.Some?
               then o.exchanges - {o.pending[id].exchangeId.value} else o.exchanges)
      && (id in o.pending && (IsRefusal(id, reply) || IsFault(id, reply)) ==>
            && next.settled == o.settled && next.pending == o.pending - {id} && next.exchanges == o.exchanges
            && next.queue == (if o.stopped then o.queue else [o.pending[id]] + o.queue)
            && next.faulted == (o.faulted || IsFault(id, reply)))
      && (id in o.pending && !IsFinal(id, reply) && !IsRefusal(id, reply) && !IsFault(id, reply) ==> next == o)
  {
    hide Requeued, Settled;
    if id in o.pending {
      SettledIs(o, o.pending[id], reply.Acknowledged? && reply.accepted);
      RequeuedIs(o, o.pending[id]);
    }
  }

  lemma SettledIs(o: Outbox, m: Outbound, accepted: bool)
    ensures var next := Settled(o, m, accepted);
      && next == o.(pending := o.pending - {m.messageId}, settled := o.settled + {m.messageId},
                    exchanges := next.exchanges)
      && next.exchanges == if accepted && m.releasesExchange && m.exchangeId.Some?
                           then o.exchanges - {m.exchangeId.value} else o.exchanges
  {
  }

  lemma RequeuedIs(o: Outbox, m: Outbound)
    ensures var next := Requeued(o, m);
      && next == o.(pending := o.pending - {m.messageId}, queue := next.queue)
      && next.queue == if o.stopped then o.queue else [m] + o.queue
  {
  }

  /** Only a reply settles a message, and only a final one to a message in flight. */
  lemma OnlyFinalSettles(o: Outbox, move: Move)
    requires PendingKeyed(o)
    ensures o.settled <= Apply(o, move).settled
    ensures forall id :: id in Apply(o, move).settled && id !in o.settled ==>
      move.Replies? && move.messageId == id && id in o.pending && IsFinal(id, move.reply)
    ensures move.Replies? && move.messageId in o.pending && IsFinal(move.messageId, move.reply) ==>
      move.messageId in Apply(o, move).settled
  {
    hide AfterStart, AfterTerminal, AfterHeartbeat, AfterConnect, AfterReply, IsFinal, IsRefusal, IsFault;
    match move
    case Starts(capturable) => StartKeepsSettled(o, capturable);
    case Finishes(handle, outcome) => FinishKeepsSettled(o, handle, outcome);
    case Beats => BeatKeepsSettled(o);
    case Connects(order) => ConnectKeepsSettled(o, order);
    case Replies(id, reply) => ReplyOutcome(o, id, reply);
    case _ =>
  }

  lemma StartKeepsSettled(o: Outbox, capturable: bool)
    ensures AfterStart(o, capturable).settled == o.settled
  {
  }

  lemma FinishKeepsSettled(o: Outbox, handle: Handle, outcome: LifecycleState)
    ensures AfterTerminal(o, handle, outcome).settled == o.settled
  {
  }

  lemma BeatKeepsSettled(o: Outbox)
    ensures AfterHeartbeat(o).settled == o.settled
  {
  }

  lemma {:induction false} RecoveriesKeepSettled(o: Outbox, order: seq<nat>)
    ensures AfterRecoveries(o, order).settled == o.settled
  {
    if order != [] {
      RecoveriesKeepSettled(o, order[..|order| - 1]);
    }
  }

  lemma ConnectKeepsSettled(o: Outbox, order: seq<nat>)
    ensures AfterConnect(o, order).settled == o.settled
  {
    RecoveriesKeepSettled(o.(connected := true, faulted := false), order);
  }

  /** Some move of the run was the final reply to message `id` while it was in flight. */
  ghost predicate Answered(o: Outbox, moves: seq<Move>, id: nat) {
    exists i :: 0 <= i < |moves| && moves[i].Replies? && moves[i].messageId == id && IsFinal(id, moves[i].reply)
                && id in Run(o, moves[..i]).pending
  }

  lemma AnsweredEarlier(o: Outbox, moves: seq<Move>, id: nat)
    requires moves != []
    ensures Answered(o, moves, id) <==>
      || Answered(o, moves[..|moves| - 1], id)
      || (var last := moves[|moves| - 1];
          last.Replies? && last.messageId == id && IsFinal(id, last.reply)
          && id in Run(o, moves[..|moves| - 1]).pending)
  {
    hide Run;
    var n := |moves| - 1;
    assert forall i :: 0 <= i < n ==> moves[..n][i] == moves[i] && moves[..n][..i] == moves[..i];
  }

  /** In every run a message is settled exactly when it got its final reply while in flight. */
  lemma {:induction false} SettledIffAnswered(capacity: nat, moves: seq<Move>, id: nat)
    ensures id in Run(Fresh(capacity), moves).settled <==> Answered(Fresh(capacity), moves, id)
  {
    hide Apply, Orderly, Answered, IsFinal;
    var o := Fresh(capacity);
    if moves == [] {
      assert !Answered(o, moves, id) by { NothingAnswered(o, id); }
    } else {
      var front := moves[..|moves| - 1];
      SettledIffAnswered(capacity, front, id);
      AnsweredEarlier(o, moves, id);
      FreshOrderly(capacity);
      RunOrderly(o, front);
      OrderlyKeyed(Run(o, front));
      OnlyFinalSettles(Run(o, front), moves[|moves| - 1]);
    }
  }

  lemma NothingAnswered(o: Outbox, id: nat)
    ensures !Answered(o, [], id)
  {
  }

  lemma OrderlyKeyed(o: Outbox)
    requires Orderly(o)
    ensures PendingKeyed(o)
  {
    hide Conserved, FirstInFirstOut, Numbered, Bounded;
  }

  // ---- sending

  /** A dispatch sends the head of the queue whenever the connection is up and not at fault, and nothing otherwise. */
  lemma DispatchSends(o: Outbox)
    ensures var next := Apply(o, Dispatches);
      && (o.connected && !o.faulted && o.queue != [] ==>
            && next.pending == o.pending[o.queue[0].messageId := o.queue[0]] && next.queue == o.queue[1..])
      && (!o.connected || o.faulted || o.queue == [] ==> next == o)
      && next == o.(queue := next.queue, pending := next.pending, firstSends := next.firstSends)
  {
  }

  /** After a fault nothing is sent until the next connection. */
  lemma {:induction false} FaultHolds(o: Outbox, moves: seq<Move>)
    requires Orderly(o) && o.faulted && forall m :: m in moves ==> !m.Connects?
    ensures Run(o, moves).faulted && Run(o, moves).pending.Keys <= o.pending.Keys
    ensures Run(o, moves).firstSends == o.firstSends
  {
    hide Apply, Orderly, PendingKeyed;
    if moves != [] {
      var n := |moves| - 1;
      assert forall m :: m in moves[..n] ==> m in moves;
      FaultHolds(o, moves[..n]);
      RunOrderly(o, moves[..n]);
      OrderlyKeyed(Run(o, moves[..n]));
      FaultHoldsOnce(Run(o, moves[..n]), moves[n]);
    }
  }

  lemma FaultHoldsOnce(o: Outbox, move: Move)
    requires PendingKeyed(o) && o.faulted && !move.Connects?
    ensures var next := Apply(o, move);
      next.faulted && next.pending.Keys <= o.pending.Keys && next.firstSends == o.firstSends
  {
    hide AfterStart, AfterTerminal, AfterHeartbeat, AfterReply, AfterDispatch, AfterShutdown, IsFinal, IsRefusal,
         IsFault,
         PendingKeyed;
    match move
    case Starts(capturable) => StartTracks(o, capturable);
    case Finishes(handle, outcome) => FinishQueues(o, handle, outcome);
    case Beats => BeatQueues(o);
    case Dispatches => DispatchSends(o);
    case Replies(id, reply) => ReplyOutcome(o, id, reply);
    case ShutsDown => StopsThenShuts(o);
    case _ =>
  }

  // ---- accepting

  /** The move took one more message, at the end of the queue. */
  ghost predicate Takes(o: Outbox, next: Outbox, m: Outbound) {
    next.queue == o.queue + [m] && next.accepted == o.accepted + [m] && next.droppedCount == o.droppedCount
  }

  ghost predicate Drops(o: Outbox, next: Outbox) {
    next.queue == o.queue && next.accepted == o.accepted && next.droppedCount == o.droppedCount + 1
  }

  ghost predicate TakesNothing(o: Outbox, next: Outbox) {
    next.queue == o.queue && next.accepted == o.accepted && next.droppedCount == o.droppedCount
  }

  ghost predicate KeepsConnection(o: Outbox, next: Outbox) {
    && next.capacity == o.capacity && next.pending == o.pending && next.settled == o.settled
    && next.firstSends == o.firstSends && next.connected == o.connected && next.hasConnected == o.hasConnected
    && next.faulted == o.faulted && next.stopped == o.stopped
  }

  predicate HasRoom(o: Outbox) {
    |o.queue| + |o.pending| < o.capacity
  }

  /** A start is tracked and sent, or dropped and counted when there is no room; a stopped adapter ignores it. */
  lemma StartTracks(o: Outbox, capturable: bool)
    ensures var next, id := Apply(o, Starts(capturable)), o.nextId;
      && KeepsConnection(o, next) && next.terminalQueued == o.terminalQueued
      && (capturable && !o.stopped && HasRoom(o) ==>
            && next.nextId > id && next.exchanges == o.exchanges[id := Tracked(1, InFlight)]
            && exists m :: Takes(o, next, m) && m.exchangeId == Some(id) && m.revision == Some(1) && m.content.Start?
                           && id < m.messageId < next.nextId && !m.releasesExchange)
      && (capturable && !o.stopped && !HasRoom(o) ==> Drops(o, next) && next.exchanges == o.exchanges)
      && (!capturable || o.stopped ==> TakesNothing(o, next) && next.exchanges == o.exchanges)
  {
    if capturable && !o.stopped && HasRoom(o) {
      assert Takes(o, Apply(o, Starts(capturable)), StartMessage(o.nextId));
    }
  }

  /** The first finish of a tracked exchange is sent as its terminal, or dropped together with the exchange. */
  lemma FinishQueues(o: Outbox, handle: Handle, outcome: LifecycleState)
    ensures var next, id := Apply(o, Finishes(handle, outcome)), handle.exchangeId;
      var first := handle.captured && id !in o.terminalQueued;
      && KeepsConnection(o, next)
      && next.terminalQueued == (if first then o.terminalQueued + {id} else o.terminalQueued)
      && (first && !o.stopped && id in o.exchanges && HasRoom(o) ==>
            && next.exchanges == o.exchanges[id := Tracked(2, outcome)]
            && exists m :: Takes(o, next, m) && m.exchangeId == Some(id) && m.revision == Some(2)
                           && m.content == Terminal(outcome) && m.releasesExchange
                           && o.nextId <= m.messageId < next.nextId)
      && (first && !o.stopped && id in o.exchanges && !HasRoom(o) ==>
          Drops(o, next) && next.exchanges == o.exchanges - {id})
      && (!first || o.stopped || id !in o.exchanges ==> TakesNothing(o, next) && next.exchanges == o.exchanges)
  {
    hide AfterFinish, Takes, Drops;
    var id := handle.exchangeId;
    if handle.captured && id !in o.terminalQueued && !o.stopped && id in o.exchanges {
      FinishOutcome(o.(terminalQueued := o.terminalQueued + {id}), id, outcome);
      TakesSame(o, o.(terminalQueued := o.terminalQueued + {id}));
    }
  }

  lemma FinishOutcome(o: Outbox, id: nat, outcome: LifecycleState)
    requires id in o.exchanges
    ensures var next := AfterFinish(o, id, outcome);
      && KeepsConnection(o, next) && next.terminalQueued == o.terminalQueued
      && (HasRoom(o) ==>
            && next.exchanges == o.exchanges[id := Tracked(2, outcome)]
            && exists m :: Takes(o, next, m) && m.exchangeId == Some(id) && m.revision == Some(2)
                           && m.content == Terminal(outcome) && m.releasesExchange
                           && o.nextId <= m.messageId < next.nextId)
      && (!HasRoom(o) ==> Drops(o, next) && next.exchanges == o.exchanges - {id})
  {
    if HasRoom(o) {
      assert Takes(o, AfterFinish(o, id, outcome), TerminalMessage(o.nextId, id, outcome));
    }
  }

  lemma TakesSame(o: Outbox, flagged: Outbox)
    requires flagged.queue == o.queue && flagged.accepted == o.accepted && flagged.droppedCount == o.droppedCount
    ensures forall next, m :: Takes(flagged, next, m) <==> Takes(o, next, m)
    ensures forall next :: Drops(flagged, next) <==> Drops(o, next)
  {
  }

  /** A heartbeat is sent, or dropped and counted, while a connection is up and the adapter runs. */
  lemma BeatQueues(o: Outbox)
    ensures var next := Apply(o, Beats);
      && KeepsConnection(o, next) && next.exchanges == o.exchanges && next.terminalQueued == o.terminalQueued
      && (!o.stopped && o.connected && HasRoom(o) ==>
            exists m :: Takes(o, next, m) && m.exchangeId == None && m.content.Beat? && !m.releasesExchange)
      && (!o.stopped && o.connected && !HasRoom(o) ==> Drops(o, next))
      && (o.stopped || !o.connected ==> next == o)
  {
    if !o.stopped && o.connected && HasRoom(o) {
      assert Takes(o, Apply(o, Beats), Outbound(o.nextId, None, None, Beat, false));
    }
  }

  /** A stop only sets its flag; a shutdown after it empties queue, flight and tracking and ends the connection. */
  lemma StopsThenShuts(o: Outbox)
    ensures Apply(o, BeginsStop) == o.(stopped := true) && Apply(o, Disconnects) == o.(connected := false)
    ensures var next := Apply(o, ShutsDown);
      && next == o.(queue := next.queue, pending := next.pending, exchanges := next.exchanges,
                    connected := next.connected)
      && (o.stopped ==> next.queue == [] && next.pending == map[] && next.exchanges == map[] && !next.connected)
      && (!o.stopped ==> next == o)
  {
  }

  // ---- reconnecting

  /** The snapshot of a tracked exchange: two revisions on, in its state, and its last word when it is finished. */
  ghost predicate IsSnapshotOf(o: Outbox, x: nat, m: Outbound) {
    && x in o.exchanges && m.exchangeId == Some(x) && m.revision == Some(o.exchanges[x].revision + 2)
    && m.content == Recovery(o.exchanges[x].state) && (m.releasesExchange <==> IsTerminal(o.exchanges[x].state))
  }

  /** How many of the listed exchanges are tracked. */
  function TrackedIn(o: Outbox, order: seq<nat>): nat {
    if order == [] then 0
    else TrackedIn(o, order[..|order| - 1]) + if order[|order| - 1] in o.exchanges then 1 else 0
  }

  /** `sent` went to the end of the queue, snapshots of exchanges in `order`; what found no room was counted. */
  ghost predicate Resends(o: Outbox, next: Outbox, order: seq<nat>, sent: seq<Outbound>) {
    && next.queue == o.queue + sent && next.accepted == o.accepted + sent
    && o.droppedCount <= next.droppedCount && |sent| + next.droppedCount - o.droppedCount == TrackedIn(o, order)
    && (forall m :: m in sent ==> exists x :: x in order && IsSnapshotOf(o, x, m))
    && (o.droppedCount < next.droppedCount ==> !HasRoom(next))
    && next.exchanges.Keys == o.exchanges.Keys
    && (forall x :: x in o.exchanges ==>
          next.exchanges[x] == if x in order then Tracked(o.exchanges[x].revision + 2, o.exchanges[x].state)
          else o.exchanges[x])
  }

  lemma OneResend(o: Outbox, mid: Outbox, order: seq<nat>, x: nat, sent: seq<Outbound>) returns (more: seq<Outbound>)
    requires Resends(o, mid, order, sent) && KeepsConnection(o, mid) && x !in order
    ensures Resends(o, AfterRecovery(mid, x), order + [x], more) && KeepsConnection(o, AfterRecovery(mid, x))
  {
    hide IsSnapshotOf;
    assert (order + [x])[..|order|] == order;
    assert forall y :: y in order + [x] <==> y in order || y == x;
    more := sent;
    if x in o.exchanges {
      var tracked := Tracked(o.exchanges[x].revision + 2, o.exchanges[x].state);
      var m := RecoveryMessage(mid.nextId, x, tracked);
      RecoveredOne(mid, x);
      if HasRoom(mid) {
        more := sent + [m];
        SnapshotMade(o, mid.nextId, x);
        SentOneMore(o, order, x, sent, m);
      } else {
        SentNoMore(o, order, x, sent);
      }
    }
  }

  lemma RecoveredOne(o: Outbox, x: nat)
    requires x in o.exchanges
    ensures var next := AfterRecovery(o, x);
      var tracked := Tracked(o.exchanges[x].revision + 2, o.exchanges[x].state);
      && KeepsConnection(o, next) && next.exchanges == o.exchanges[x := tracked]
      && (if HasRoom(o) then Takes(o, next, RecoveryMessage(o.nextId, x, tracked)) else Drops(o, next))
  {
  }

  lemma SnapshotMade(o: Outbox, messageId: nat, x: nat)
    requires x in o.exchanges
    ensures IsSnapshotOf(o, x,
                         RecoveryMessage(messageId, x, Tracked(o.exchanges[x].revision + 2, o.exchanges[x].state)))
  {
  }

  lemma SentOneMore(o: Outbox, order: seq<nat>, x: nat, sent: seq<Outbound>, m: Outbound)
    requires IsSnapshotOf(o, x, m) && forall s :: s in sent ==> exists y :: y in order && IsSnapshotOf(o, y, s)
    ensures forall s :: s in sent + [m] ==> exists y :: y in order + [x] && IsSnapshotOf(o, y, s)
  {
    hide IsSnapshotOf;
    assert x in order + [x] && forall y :: y in order ==> y in order + [x];
    assert forall s :: s in sent + [m] <==> s in sent || s == m;
  }

  lemma SentNoMore(o: Outbox, order: seq<nat>, x: nat, sent: seq<Outbound>)
    requires forall s :: s in sent ==> exists y :: y in order && IsSnapshotOf(o, y, s)
    ensures forall s :: s in sent ==> exists y :: y in order + [x] && IsSnapshotOf(o, y, s)
  {
    hide IsSnapshotOf;
    assert forall y :: y in order ==> y in order + [x];
  }

  lemma {:induction false} RecoveriesResend(o: Outbox, order: seq<nat>) returns (sent: seq<Outbound>)
    requires NoDup(order)
    ensures Resends(o, AfterRecoveries(o, order), order, sent) && KeepsConnection(o, AfterRecoveries(o, order))
  {
    hide Resends, AfterRecovery, KeepsConnection;
    if order == [] {
      sent := [];
      NothingResent(o);
    } else {
      var n := |order| - 1;
      var front := RecoveriesResend(o, order[..n]);
      sent := OneResend(o, AfterRecoveries(o, order[..n]), order[..n], order[n], front);
      assert order[..n] + [order[n]] == order;
    }
  }

  lemma NothingResent(o: Outbox)
    ensures Resends(o, o, [], []) && KeepsConnection(o, o)
  {
  }

  /**
   A connection clears the fault. The first resends nothing; every later one raises each listed exchange by
   two revisions and resends it, as far as there is room.
   */
  lemma ConnectResends(o: Outbox, order: seq<nat>) returns (sent: seq<Outbound>)
    requires NoDup(order)
    ensures var next := Apply(o, Connects(order));
      && next.connected && !next.faulted && next.hasConnected
      && next.pending == o.pending && next.settled == o.settled && next.stopped == o.stopped
      && next.terminalQueued == o.terminalQueued && next.firstSends == o.firstSends
      && (!o.hasConnected ==> TakesNothing(o, next) && next.exchanges == o.exchanges)
      && (o.hasConnected ==> Resends(o, next, order, sent))
  {
    hide AfterRecoveries, IsSnapshotOf;
    var connected := o.(connected := true, faulted := false);
    sent := RecoveriesResend(connected, order);
    RecoveriesKeepFlags(connected, order);
    SameTracked(o, connected, order);
    assert forall x, m :: IsSnapshotOf(connected, x, m) <==> IsSnapshotOf(o, x, m) by { SameSnapshots(o, connected); }
  }

  lemma SameSnapshots(o: Outbox, connected: Outbox)
    requires connected.exchanges == o.exchanges
    ensures forall x, m :: IsSnapshotOf(connected, x, m) <==> IsSnapshotOf(o, x, m)
  {
  }

  lemma {:induction false} SameTracked(o: Outbox, connected: Outbox, order: seq<nat>)
    requires connected.exchanges == o.exchanges
    ensures TrackedIn(connected, order) == TrackedIn(o, order)
  {
    if order != [] {
      SameTracked(o, connected, order[..|order| - 1]);
    }
  }

  lemma {:induction false} RecoveriesKeepFlags(o: Outbox, order: seq<nat>)
    ensures AfterRecoveries(o, order).terminalQueued == o.terminalQueued
  {
    if order != [] {
      RecoveriesKeepFlags(o, order[..|order| - 1]);
    }
  }
}
