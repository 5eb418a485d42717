/**
 The adapter as the source keeps it: a queue, a pending table and an exchange table updated in place,
 each method one locked section, proved against OutboundState.
 */
module OutboundAdapter {
  import opened Wrappers
  import opened Sequences
  import opened CaptureModel
  import State = OutboundState

  class Adapter {
    const capacity: nat
    var queue: seq<State.Outbound>
    var pending: map<nat, State.Outbound>
    var exchanges: map<nat, State.Tracked>
    var terminalQueued: set<nat>
    var droppedCount: nat
    var nextId: nat
    var connected: bool
    var hasConnected: bool
    var faulted: bool
    var stopped: bool
    ghost var accepted: seq<State.Outbound>
    ghost var settled: set<nat>
    ghost var firstSends: nat

    ghost function View(): State.Outbox
      reads this
    {
      State.Outbox(capacity, queue, pending, exchanges, terminalQueued, droppedCount, nextId, connected, hasConnected,
                   faulted, stopped,
                   accepted, settled, firstSends)
    }

    constructor (capacity: nat)
      ensures View() == State.Fresh(capacity)
    {
      this.capacity := capacity;
      queue, pending, exchanges, terminalQueued, droppedCount, nextId := [], map[], map[], {}, 0, 0;
      connected, hasConnected, faulted, stopped := false, false, false, false;
      accepted, settled, firstSends := [], {}, 0;
    }

    method TryEnqueue(message: State.Outbound) returns (enqueued: bool)
      modifies this
      ensures enqueued == !State.Full(old(View()))
      ensures View() == State.Enqueued(old(View()), message)
    {
      if |queue| + |pending| >= capacity {
        droppedCount := droppedCount + 1;
        return false;
      }
      queue := queue + [message];
      accepted := accepted + [message];
      enqueued := true;
    }

    method NextUuid() returns (id: nat)
      modifies this`nextId
      ensures id == old(nextId) && nextId == id + 1
    {
      id := nextId;
      nextId := nextId + 1;
    }

    method CaptureStarted(capturable: bool) returns (handle: State.Handle)
      modifies this
      ensures View() == State.AfterStart(old(View()), capturable)
      ensures handle == State.StartHandle(old(View()), capturable)
    {
      if !capturable {
        return State.Handle(0, false);
      }
      var exchangeId := NextUuid();
      var messageId := NextUuid();
      if stopped {
        return State.Handle(exchangeId, false);
      }
      var enqueued := TryEnqueue(State.StartMessage(exchangeId));
      if !enqueued {
        return State.Handle(exchangeId, false);
      }
      exchanges := exchanges[exchangeId := State.Tracked(1, InFlight)];
      handle := State.Handle(exchangeId, true);
    }

    method QueueTerminal(handle: State.Handle, outcome: LifecycleState)
      requires IsTerminal(outcome)
      modifies this
      ensures View() == State.AfterTerminal(old(View()), handle, outcome)
    {
      if !handle.captured || handle.exchangeId in terminalQueued {
        return;
      }
      terminalQueued := terminalQueued + {handle.exchangeId};
      if !stopped && handle.exchangeId in exchanges {
        Finish(handle.exchangeId, outcome);
      }
    }

    method Finish(exchangeId: nat, outcome: LifecycleState)
      modifies this
      ensures View() == State.AfterFinish(old(View()), exchangeId, outcome)
    {
      var messageId := NextUuid();
      var enqueued := TryEnqueue(State.TerminalMessage(messageId, exchangeId, outcome));
      if !enqueued {
        exchanges := exchanges - {exchangeId};
        return;
      }
      ApplyTerminal(exchangeId, outcome);
    }

    /** A finished exchange always stands at revision two. */
    method ApplyTerminal(exchangeId: nat, outcome: LifecycleState)
      modifies this`exchanges
      ensures exchanges == old(exchanges)[exchangeId := State.Tracked(2, outcome)]
    {
      exchanges := exchanges[exchangeId := State.Tracked(2, outcome)];
    }

    method Heartbeat()
      modifies this
      ensures View() == State.AfterHeartbeat(old(View()))
    {
      if stopped || !connected {
        return;
      }
      var messageId := NextUuid();
      var enqueued := TryEnqueue(State.Outbound(messageId, None, None, State.Beat, false));
    }

    method RecoverOne(exchangeId: nat)
      requires exchangeId in exchanges
      modifies this
      ensures View() == State.AfterRecovery(old(View()), exchangeId)
    {
      var tracked := exchanges[exchangeId].(revision := exchanges[exchangeId].revision + 2);
      exchanges := exchanges[exchangeId := tracked];
      var messageId := NextUuid();
      var enqueued := TryEnqueue(State.RecoveryMessage(messageId, exchangeId, tracked));
    }

    method QueueRecoverySnapshots(order: seq<nat>)
      requires NoDup(order) && forall x :: x in order <==> x in exchanges
      modifies this
      ensures View() == State.AfterRecoveries(old(View()), order)
    {
      for i := 0 to |order|
        invariant View() == State.AfterRecoveries(old(View()), order[..i])
        invariant exchanges.Keys == old(exchanges).Keys
      {
        assert order[..i + 1][..i] == order[..i];
        assert order[i] in order;
        RecoverOne(order[i]);
      }
      assert order[..|order|] == order;
    }

    method Connect(order: seq<nat>)
      requires NoDup(order) && forall x :: x in order <==> x in exchanges
      modifies this
      ensures View() == State.AfterConnect(old(View()), order)
    {
      connected, faulted := true, false;
      if hasConnected {
        QueueRecoverySnapshots(order);
      }
      hasConnected := true;
    }

    method ConnectionEnded()
      modifies this
      ensures View() == old(View()).(connected := false)
    {
      connected := false;
    }

    /** Takes the next message off the queue and awaits its acknowledgement. */
    method DispatchNext() returns (sent: Option<State.Outbound>)
      modifies this
      ensures View() == State.AfterDispatch(old(View()))
      ensures sent == if old(View()) == View() then None else Some(old(queue)[0])
    {
      if faulted || !connected || queue == [] {
        return None;
      }
      var message := queue[0];
      firstSends := if |queue| <= |accepted| - firstSends then firstSends + 1 else firstSends;
      queue := queue[1..];
      pending := pending[message.messageId := message];
      sent := Some(message);
    }

    /** Puts a message back at the front: it is queued first, then everything that waited, in order. */
    method RequeueForRetry(message: State.Outbound)
      modifies this
      ensures View() == State.Requeued(old(View()), message)
    {
      pending := pending - {message.messageId};
      if stopped {
        return;
      }
      ghost var waiting := queue;
      var retryQueue := [message];
      while |queue| > 0
        invariant retryQueue + queue == [message] + waiting
        invariant View() == State.Requeued(old(View()), message).(queue := queue)
        decreases |queue|
      {
        retryQueue, queue := retryQueue + [queue[0]], queue[1..];
      }
      while |retryQueue| > 0
        invariant queue + retryQueue == [message] + waiting
        invariant View() == State.Requeued(old(View()), message).(queue := queue)
        decreases |retryQueue|
      {
        queue, retryQueue := queue + [retryQueue[0]], retryQueue[1..];
      }
    }

    method ObserveAcknowledgement(messageId: nat, reply: State.Reply)
      requires messageId in pending && pending[messageId].messageId == messageId
      modifies this
      ensures View() == State.AfterReply(old(View()), messageId, reply)
    {
      var message := pending[messageId];
      match reply
      case Acknowledged(id, accepted, retryable) =>
        if id != Some(message.messageId) {
          RequeueForRetry(message);
          faulted := true;
        } else if !accepted && retryable {
          pending := pending - {message.messageId};
          RequeueForRetry(message);
        } else {
          Settle(message, accepted);
        }
      case TransportFailed(retryable) =>
        if retryable {
          RequeueForRetry(message);
          faulted := true;
        }
      case Failed =>
        RequeueForRetry(message);
        faulted := true;
      case Cancelled =>
    }

    method Settle(message: State.Outbound, accepted: bool)
      modifies this
      ensures View() == State.Settled(old(View()), message, accepted)
    {
      pending := pending - {message.messageId};
      settled := settled + {message.messageId};
      if accepted && message.releasesExchange && message.exchangeId.Some? {
        exchanges := exchanges - {message.exchangeId.value};
      }
    }

    method BeginStop()
      modifies this
      ensures View() == State.AfterStop(old(View()))
    {
      stopped := true;
    }

    method Shutdown()
      requires stopped
      modifies this
      ensures View() == State.AfterShutdown(old(View()))
    {
      queue, pending, exchanges, connected := [], map[], map[], false;
    }
  }
}
