/** What the turn of each handler of the message broker achieves, in every run: the handler
    can always go on, and this is what it does in terms of what has happened before. */
module SyncQueueTurns {
  import opened SyncQueue
  import opened Sequences
  import opened SyncQueueRuns

  /** A fresh Put is accepted, with its request, exactly when there is room; otherwise nothing
      changes and the producer is refused. */
  lemma PutInEveryRun(limit: nat, run: seq<State>, k: nat, i: nat, reply: Reply)
    requires IsRun(limit, false, run) && k < |run| && i < |run[k].handlers| && run[k].handlers[i].PutEnter?
    ensures Enabled(run[k], Turn(i, reply), true)
    ensures var (s, t) := (run[k], Apply(limit, run[k], Turn(i, reply)));
            var r := s.handlers[i].request;
            if limit == 0 || |s.broker.queue| < limit then
              && t.accepted == s.accepted + [r.id] && r.id !in s.accepted
              && t.requests == s.requests[r.id := r]
              && t.broker == Broker(s.broker.queue + [r.id], s.broker.locked, s.broker.messages[r.id := r])
              && t.handlers[i] == Done
            else
              t == s.(handlers := s.handlers[i := PutRefuse])
  {
    FifoInEveryRun(limit, run, k);
    hide IsRun;
    hide BaseInv;
    hide TurnOf;
    PutTurn(limit, run[k], i, reply);
  }

  /** A Get always hands out the oldest accepted id that was not handed out yet, and replies
      with the very request its Put carried, unless the id was erased while queued; it says
      that the queue is empty exactly when all accepted ids were handed out. */
  lemma GetInEveryRun(limit: nat, run: seq<State>, k: nat, i: nat, reply: Reply)
    requires IsRun(limit, false, run) && k < |run| && i < |run[k].handlers| && run[k].handlers[i] == GetEnter
    ensures Enabled(run[k], Turn(i, reply), true)
    ensures var (s, t) := (run[k], Apply(limit, run[k], Turn(i, reply)));
            if |s.popped| == |s.accepted| then
              s.broker.queue == [] && t == s.(handlers := s.handlers[i := GetReply(Empty)])
            else
              && |s.popped| < |s.accepted|
              && var id := s.accepted[|s.popped|];
              && id in s.requests && s.requests[id].id == id
              && t.popped == s.popped + [id]
              && s.broker.queue == [id] + t.broker.queue && t.broker.locked == s.broker.locked + {id}
              && t.broker.messages == s.broker.messages && t.accepted == s.accepted
              && t.handlers[i] == GetReply(if ErasedWhileQueued(limit, run, k, id) then Missing else Message(s.requests[id]))
  {
    var s := run[k];
    FifoInEveryRun(limit, run, k);
    if s.broker.queue != [] {
      LostMessages(limit, run, k, s.broker.queue[0]);
      FrontIsRecorded(limit, s);
    }
    hide IsRun;
    hide ErasedWhileQueued;
    hide HandlersInv;
    hide RequestsOk;
    hide Distinct;
    hide Elems;
    assert |s.accepted| == |s.popped| + |s.broker.queue|;
  }

  lemma FrontIsRecorded(limit: nat, s: State)
    requires BaseInv(limit, s) && s.broker.queue != []
    ensures var id := s.broker.queue[0];
            && s.accepted[|s.popped|] == id && id in s.requests && s.requests[id].id == id
            && (id in s.broker.messages ==> s.broker.messages[id] == s.requests[id])
  {
    QueuedIsAccepted(limit, s, s.broker.queue[0]);
    assert s.broker.queue[0] in Elems(s.accepted);
    hide HandlersInv;
  }

  /** The look-up of a Post on an id that was handed out: a replay is told so exactly when the
      id is answered; otherwise the answer goes to the producer whose Put had the id. */
  lemma PostInEveryRun(limit: nat, run: seq<State>, k: nat, i: nat, reply: Reply)
    requires IsRun(limit, true, run) && k < |run| && i < |run[k].handlers| && run[k].handlers[i].PostEnter?
    ensures Enabled(run[k], Turn(i, reply), true)
    ensures var (s, t) := (run[k], Apply(limit, run[k], Turn(i, reply)));
            var xid := s.handlers[i].xid;
            && xid in s.requests
            && t == s.(handlers := s.handlers[i := if xid in s.answered then PostReply(xid, 300) else PostForward(xid, s.requests[xid])])
  {
    var s := run[k];
    ConservedInEveryRun(limit, run, k);
    hide IsRun;
    assert PosterOk(s, s.handlers[i]);
    var xid := s.handlers[i].xid;
    assert xid in s.popped + s.broker.queue && xid in Elems(s.accepted);
    PoppedNotQueued(limit, s, xid);
    assert xid !in Elems(s.broker.queue);
    hide HandlersInv;
    hide Replied;
  }

  /** Forwarding: a 200 reply is on record for the producer of that id, and the erase follows;
      an undelivered one is reported with 499; and in no case does the broker change. */
  lemma ForwardInEveryRun(limit: nat, run: seq<State>, k: nat, i: nat, reply: Reply)
    requires IsRun(limit, false, run) && k < |run| && i < |run[k].handlers| && run[k].handlers[i].PostForward?
    ensures Enabled(run[k], Turn(i, reply), true)
    ensures var (s, t) := (run[k], Apply(limit, run[k], Turn(i, reply)));
            var xid := s.handlers[i].xid;
            && xid in s.requests && t.broker == s.broker && t.answered == s.answered
            && t.replies == (if reply.Sent? then s.replies + [(xid, s.requests[xid])] else s.replies)
            && t.handlers[i] == match reply
                                case Sent => PostErasing(xid)
                                case NotSent => PostReply(xid, 499)
                                case Threw => Done
  {
    FifoInEveryRun(limit, run, k);
    hide IsRun;
    assert HandlerOk(run[k], run[k].handlers[i]);
    hide BaseInv;
  }

  /** The erase: afterwards the id is answered, nothing of it is left in the broker, nothing
      else is touched, and the consumer is told 200. */
  lemma EraseInEveryRun(limit: nat, run: seq<State>, k: nat, i: nat, reply: Reply)
    requires IsRun(limit, true, run) && k < |run| && i < |run[k].handlers| && run[k].handlers[i].PostErasing?
    ensures Enabled(run[k], Turn(i, reply), true)
    ensures var (s, t) := (run[k], Apply(limit, run[k], Turn(i, reply)));
            var xid := s.handlers[i].xid;
            && t.answered == s.answered + {xid} && t.broker.queue == s.broker.queue
            && xid !in t.broker.queue && xid !in t.broker.locked && xid !in t.broker.messages
            && (forall id :: id != xid ==> (id in s.broker.locked <==> id in t.broker.locked))
            && (forall id :: id != xid && id in s.broker.messages ==>
                  id in t.broker.messages && t.broker.messages[id] == s.broker.messages[id])
            && t.handlers[i] == PostReply(xid, 200)
  {
    var s := run[k];
    ConservedInEveryRun(limit, run, k);
    hide IsRun;
    assert PosterOk(s, s.handlers[i]);
    PoppedNotQueued(limit, s, s.handlers[i].xid);
    if s.handlers[i].xid !in s.broker.messages {
      GoneIsAnswered(limit, s, s.handlers[i].xid);
    }
    hide BaseInv;
    hide Conserved;
    hide Replied;
  }

  /** Head reports the id that the next Get hands out, and 0 when all were handed out. */
  lemma HeadInEveryRun(limit: nat, run: seq<State>, k: nat, i: nat, reply: Reply)
    requires IsRun(limit, false, run) && k < |run| && i < |run[k].handlers| && run[k].handlers[i] == HeadEnter
    ensures Enabled(run[k], Turn(i, reply), true)
    ensures var (s, t) := (run[k], Apply(limit, run[k], Turn(i, reply)));
            && |s.popped| <= |s.accepted|
            && t == s.(handlers := s.handlers[i := HeadReply(if |s.popped| == |s.accepted| then 0 else s.accepted[|s.popped|])])
  {
    FifoInEveryRun(limit, run, k);
    hide IsRun;
    var s := run[k];
    assert |s.accepted| == |s.popped| + |s.broker.queue|;
    if s.broker.queue != [] {
      FrontIsRecorded(limit, s);
    }
    hide HandlersInv;
    hide RequestsOk;
  }

  /** Handlers of every kind can start at any time: a Put with a fresh id, a Post with an id
      that was handed out, a Get, and a Head. A start changes nothing else. */
  lemma StartInEveryRun(limit: nat, s: State, e: Event)
    requires match e
             case StartPut(r) => r.id !in s.issued
             case StartPost(xid) => xid in s.popped
             case Turn(_, _) => false
             case _ => true
    ensures Enabled(s, e, true)
    ensures var t := Apply(limit, s, e);
            && t == s.(handlers := s.handlers + [t.handlers[|s.handlers|]], issued := t.issued)
            && t.issued == (if e.StartPut? then s.issued + {e.request.id} else s.issued)
            && t.handlers[|s.handlers|] == match e
                                           case StartPut(r) => PutEnter(r)
                                           case StartPost(xid) => PostEnter(xid)
                                           case StartGet => GetEnter
                                           case _ => HeadEnter
  {
  }

  /** A Put with an id that is still stored, which fresh ids exclude: the producer is refused
      and the stored message stays, but the id is queued once more, if there is room. */
  lemma RepeatedPut(b: Broker, limit: nat, r: Request)
    requires r.id in b.messages
    ensures var (c, accepted) := PutSection(b, limit, r);
            && !accepted && c.messages == b.messages && c.locked == b.locked
            && c.queue == if limit == 0 || |b.queue| < limit then b.queue + [r.id] else b.queue
  {
  }
}
