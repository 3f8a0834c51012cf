/** Runs of the message broker: any number of Put, Get, Post and Head handlers, interleaved
    at the granularity of critical sections and replies. */
module SyncQueueRuns {
  import opened SyncQueue
  import opened Sequences

  /** How a reply ends: `ReplyWithCode` returns true or false, or the send throws. */
  datatype Reply = Sent | NotSent | Threw

  /** The codes with which Post answers a consumer. */
  const DELIVERED := 200
  const REPLAY := 300
  const UNDELIVERED := 499

  /** Where a handler stands: before a critical section, or before a reply. */
  datatype Pc =
    | PutEnter(request: Request)
    | PutRefuse
    | GetEnter
    | GetReply(taken: Taken)
    | PostEnter(xid: Id)
    | PostForward(xid: Id, client: Request)
    | PostErasing(xid: Id)
    | PostReply(xid: Id, code: nat)
    | HeadEnter
    | HeadReply(mid: Id)
    | Done

  /** The broker, its handlers, and what has happened so far: `issued` ids that some Put
      carries, `accepted` by a Put with its request, `popped` by a Get in that order, the 200
      replies that reached a producer (posted id and the producer answered), and `answered`
      ids, whose message was erased. */
  datatype State = State(
    broker: Broker, handlers: seq<Pc>,
    issued: set<Id>, accepted: seq<Id>, requests: map<Id, Request>, popped: seq<Id>,
    replies: seq<(Id, Request)>, answered: set<Id>)

  const INITIAL := State(Broker([], {}, map[]), [], {}, [], map[], [], [], {})

  datatype Event =
    | StartPut(request: Request)
    | StartGet
    | StartPost(xid: Id)
    | StartHead
    | Turn(handler: nat, reply: Reply)

  /** Events that can happen. Ids of Puts are fresh. With `disciplined`, consumers post only
      ids that a Get has handed out. */
  predicate Enabled(s: State, e: Event, disciplined: bool) {
    match e
    case StartPut(r) => r.id !in s.issued
    case StartPost(xid) => disciplined ==> xid in s.popped
    case Turn(i, _) => i < |s.handlers| && s.handlers[i] != Done
    case _ => true
  }

  /** One critical section or one reply of one handler. */
  function TurnOf(limit: nat, s: State, i: nat, reply: Reply): State
    requires i < |s.handlers| && s.handlers[i] != Done
  {
    match s.handlers[i]
    case PutEnter(r) =>
      var (b, accepted) := PutSection(s.broker, limit, r);
      s.(broker := b, handlers := s.handlers[i := if accepted then Done else PutRefuse],
         accepted := if accepted then s.accepted + [r.id] else s.accepted,
         requests := if accepted then s.requests[r.id := r] else s.requests)
    case GetEnter =>
      var (b, taken) := GetSection(s.broker);
      s.(broker := b, handlers := s.handlers[i := GetReply(taken)],
         popped := if taken.Empty? then s.popped else s.popped + [s.broker.queue[0]])
    case PostEnter(xid) =>
      (match PostLookup(s.broker, xid)
       case Found(client) => s.(handlers := s.handlers[i := PostForward(xid, client)])
       case NotFound => s.(handlers := s.handlers[i := PostReply(xid, REPLAY)]))
    case PostForward(xid, client) =>
      (match reply
       case Sent => s.(handlers := s.handlers[i := PostErasing(xid)], replies := s.replies + [(xid, client)])
       case NotSent => s.(handlers := s.handlers[i := PostReply(xid, UNDELIVERED)])
       case Threw => s.(handlers := s.handlers[i := Done]))
    case PostErasing(xid) =>
      s.(broker := PostErase(s.broker, xid), handlers := s.handlers[i := PostReply(xid, DELIVERED)],
         answered := if xid in s.broker.messages then s.answered + {xid} else s.answered)
    case HeadEnter =>
      s.(handlers := s.handlers[i := HeadReply(if s.broker.queue == [] then 0 else s.broker.queue[0])])
    case _ => s.(handlers := s.handlers[i := Done])
  }

  function Apply(limit: nat, s: State, e: Event): State
    requires Enabled(s, e, false)
  {
    match e
    case StartPut(r) => s.(handlers := s.handlers + [PutEnter(r)], issued := s.issued + {r.id})
    case StartGet => s.(handlers := s.handlers + [GetEnter])
    case StartPost(xid) => s.(handlers := s.handlers + [PostEnter(xid)])
    case StartHead => s.(handlers := s.handlers + [HeadEnter])
    case Turn(i, reply) => TurnOf(limit, s, i, reply)
  }

  /** `run` is a sequence of states from the initial one, each reached by an enabled event. */
  ghost predicate IsRun(limit: nat, disciplined: bool, run: seq<State>): (r: bool)
    ensures r ==> run != []
  {
    && run != [] && run[0] == INITIAL
    && forall k :: 0 < k < |run| ==> Follows(limit, disciplined, run[k - 1], run[k])
  }

  ghost predicate Follows(limit: nat, disciplined: bool, s: State, t: State) {
    exists e :: Enabled(s, e, disciplined) && t == Apply(limit, s, e)
  }

  // ----- without any discipline of the consumers -----

  /** The queue, the messages and the history, in every run with fresh ids, whatever ids the
      consumers post. */
  ghost predicate QueueInv(limit: nat, s: State) {
    var b := s.broker;
    && s.popped + b.queue == s.accepted
    && (limit != 0 ==> |b.queue| <= limit)
    && b.messages.Keys <= Elems(b.queue) + b.locked
    && b.locked <= Elems(s.popped)
    && Distinct(s.accepted)
    && Elems(s.accepted) <= s.issued
    && RequestsOk(s.requests, s.accepted, b.messages)
  }

  /** The requests of the accepted ids are on record, and the stored messages are among them. */
  ghost predicate RequestsOk(requests: map<Id, Request>, accepted: seq<Id>, messages: map<Id, Request>) {
    && requests.Keys == Elems(accepted)
    && (forall id :: id in requests ==> requests[id].id == id)
    && (forall id :: id in messages ==> id in requests && messages[id] == requests[id])
  }

  /** What a handler carries along agrees with the history. */
  predicate HandlerOk(s: State, pc: Pc) {
    match pc
    case PutEnter(r) => r.id in s.issued && r.id !in s.accepted
    case GetReply(Message(r)) => r.id in s.popped && r.id in s.requests && s.requests[r.id] == r
    case PostForward(xid, client) => xid in s.requests && s.requests[xid] == client
    case HeadReply(mid) => mid != 0 ==> mid in s.accepted
    case _ => true
  }

  ghost predicate HandlersInv(s: State) {
    && (forall i, j :: 0 <= i < j < |s.handlers| && s.handlers[i].PutEnter? && s.handlers[j].PutEnter?
          ==> s.handlers[i].request.id != s.handlers[j].request.id)
    && (forall i :: 0 <= i < |s.handlers| ==> HandlerOk(s, s.handlers[i]))
    && (forall k :: 0 <= k < |s.replies| ==>
          s.replies[k].0 in s.requests && s.replies[k].1 == s.requests[s.replies[k].0])
  }

  ghost predicate BaseInv(limit: nat, s: State) {
    QueueInv(limit, s) && HandlersInv(s)
  }

  /** There is room for another message. */
  predicate Room(limit: nat, b: Broker) {
    limit == 0 || |b.queue| < limit
  }

  /** Every Put whose turn comes while there is room is accepted with its request; without room
      nothing changes, and the producer is told so. */
  lemma PutTurn(limit: nat, s: State, i: nat, reply: Reply)
    requires BaseInv(limit, s) && i < |s.handlers| && s.handlers[i].PutEnter?
    ensures Enabled(s, Turn(i, reply), true)
    ensures var (r, t) := (s.handlers[i].request, TurnOf(limit, s, i, reply));
            if Room(limit, s.broker) then
              && t.accepted == s.accepted + [r.id] && r.id !in s.accepted
              && t.requests == s.requests[r.id := r]
              && t.broker == Broker(s.broker.queue + [r.id], s.broker.locked, s.broker.messages[r.id := r])
              && t.handlers[i] == Done
            else
              t == s.(handlers := s.handlers[i := PutRefuse])
    ensures var t := TurnOf(limit, s, i, reply);
            t.popped == s.popped && t.issued == s.issued && s.handlers[i].request.id in s.issued
  {
    assert HandlerOk(s, s.handlers[i]);
    assert s.handlers[i].request.id !in Elems(s.accepted);
  }

  lemma QueueInvPut(limit: nat, s: State, i: nat, reply: Reply)
    requires BaseInv(limit, s) && i < |s.handlers| && s.handlers[i].PutEnter?
    ensures QueueInv(limit, TurnOf(limit, s, i, reply))
  {
    var r := s.handlers[i].request;
    PutTurn(limit, s, i, reply);
    hide TurnOf;
    hide HandlersInv;
    ElemsAppend(s.broker.queue, r.id);
    ElemsAppend(s.accepted, r.id);
    RequestAdded(s.requests, s.accepted, s.broker.messages, r);
    hide Elems;
    hide Distinct;
    hide RequestsOk;
    assert s.popped + (s.broker.queue + [r.id]) == s.accepted + [r.id];
  }

  lemma RequestAdded(requests: map<Id, Request>, accepted: seq<Id>, messages: map<Id, Request>, r: Request)
    requires RequestsOk(requests, accepted, messages) && r.id !in accepted
    ensures RequestsOk(requests[r.id := r], accepted + [r.id], messages[r.id := r])
  {
    ElemsAppend(accepted, r.id);
    assert r.id !in Elems(accepted);
  }

  lemma QueueInvGet(limit: nat, s: State, i: nat, reply: Reply)
    requires QueueInv(limit, s) && i < |s.handlers| && s.handlers[i].GetEnter?
    ensures QueueInv(limit, TurnOf(limit, s, i, reply))
  {
    var q := s.broker.queue;
    if q != [] {
      ElemsTail(q);
      ElemsAppend(s.popped, q[0]);
      assert s.popped + [q[0]] + q[1..] == s.popped + q;
    }
  }

  /** The other turns touch neither the queue nor the accepted and popped sequences. */
  lemma QueueInvOther(limit: nat, s: State, i: nat, reply: Reply)
    requires QueueInv(limit, s) && i < |s.handlers| && s.handlers[i] != Done
    requires !s.handlers[i].PutEnter? && !s.handlers[i].GetEnter?
    ensures QueueInv(limit, TurnOf(limit, s, i, reply))
  {
    hide Elems;
    hide Distinct;
  }

  lemma QueueInvTurn(limit: nat, s: State, i: nat, reply: Reply)
    requires BaseInv(limit, s) && i < |s.handlers| && s.handlers[i] != Done
    ensures QueueInv(limit, TurnOf(limit, s, i, reply))
  {
    hide TurnOf;
    if s.handlers[i].PutEnter? {
      QueueInvPut(limit, s, i, reply);
    } else if s.handlers[i].GetEnter? {
      QueueInvGet(limit, s, i, reply);
    } else {
      QueueInvOther(limit, s, i, reply);
    }
    hide QueueInv;
    hide HandlersInv;
  }

  /** What the history has, it keeps. */
  predicate HistoryKept(s: State, t: State) {
    && s.issued <= t.issued
    && (forall id :: id in s.accepted ==> id in t.accepted) && (forall id :: id in s.popped ==> id in t.popped)
    && (forall id :: id in s.requests ==> id in t.requests && t.requests[id] == s.requests[id])
  }

  lemma TurnKeepsHistory(limit: nat, s: State, i: nat, reply: Reply)
    requires BaseInv(limit, s) && i < |s.handlers| && s.handlers[i] != Done
    ensures HistoryKept(s, TurnOf(limit, s, i, reply))
  {
    if s.handlers[i].PutEnter? {
      assert HandlerOk(s, s.handlers[i]);
      assert s.handlers[i].request.id !in Elems(s.accepted);
    }
    hide HandlersInv;
  }

  /** The handler that takes the turn carries what agrees with the history. */
  lemma TurnHandlerOk(limit: nat, s: State, i: nat, reply: Reply)
    requires BaseInv(limit, s) && i < |s.handlers| && s.handlers[i] != Done
    ensures var t := TurnOf(limit, s, i, reply);
            !t.handlers[i].PutEnter? && HandlerOk(t, t.handlers[i])
  {
    assert HandlerOk(s, s.handlers[i]);
    hide HandlersInv;
    assert s.broker.queue != [] ==> s.accepted[|s.popped|] == s.broker.queue[0];
  }

  lemma TurnRepliesOk(limit: nat, s: State, i: nat, reply: Reply, k: nat)
    requires BaseInv(limit, s) && i < |s.handlers| && s.handlers[i] != Done
    requires k < |TurnOf(limit, s, i, reply).replies|
    ensures var t := TurnOf(limit, s, i, reply);
            t.replies[k].0 in t.requests && t.replies[k].1 == t.requests[t.replies[k].0]
  {
    TurnKeepsHistory(limit, s, i, reply);
    assert HandlerOk(s, s.handlers[i]);
    hide QueueInv;
  }

  /** A handler that does not take the turn still agrees: its Put, if it is one, is another. */
  lemma BystanderOk(limit: nat, s: State, i: nat, reply: Reply, j: nat)
    requires BaseInv(limit, s) && i < |s.handlers| && s.handlers[i] != Done && j < |s.handlers| && j != i
    ensures HandlerOk(TurnOf(limit, s, i, reply), s.handlers[j])
  {
    TurnKeepsHistory(limit, s, i, reply);
    assert HandlerOk(s, s.handlers[j]) && HandlerOk(s, s.handlers[i]);
    hide QueueInv;
  }

  lemma BaseInvTurn(limit: nat, s: State, i: nat, reply: Reply)
    requires BaseInv(limit, s) && i < |s.handlers| && s.handlers[i] != Done
    ensures BaseInv(limit, TurnOf(limit, s, i, reply))
  {
    var t := TurnOf(limit, s, i, reply);
    QueueInvTurn(limit, s, i, reply);
    TurnHandlerOk(limit, s, i, reply);
    assert t.handlers == s.handlers[i := t.handlers[i]];
    forall j | 0 <= j < |t.handlers| ensures HandlerOk(t, t.handlers[j]) {
      if j != i {
        BystanderOk(limit, s, i, reply, j);
      }
    }
    forall k | 0 <= k < |t.replies|
      ensures t.replies[k].0 in t.requests && t.replies[k].1 == t.requests[t.replies[k].0]
    {
      TurnRepliesOk(limit, s, i, reply, k);
    }
    hide TurnOf;
    hide QueueInv;
    hide HandlerOk;
  }

  lemma BaseInvStep(limit: nat, s: State, e: Event)
    requires BaseInv(limit, s) && Enabled(s, e, false)
    ensures BaseInv(limit, Apply(limit, s, e))
  {
    if e.Turn? {
      hide BaseInv;
      hide TurnOf;
      BaseInvTurn(limit, s, e.handler, e.reply);
    } else {
      StartInv(limit, s, e);
    }
  }

  lemma StartInv(limit: nat, s: State, e: Event)
    requires BaseInv(limit, s) && Enabled(s, e, false) && !e.Turn?
    ensures BaseInv(limit, Apply(limit, s, e))
  {
    var t := Apply(limit, s, e);
    assert QueueInv(limit, t) by {
      hide HandlersInv;
    }
    hide QueueInv;
    forall i | 0 <= i < |t.handlers| ensures HandlerOk(t, t.handlers[i]) {
      if i < |s.handlers| {
        assert HandlerOk(s, s.handlers[i]);
      } else if e.StartPut? {
        assert e.request.id !in s.accepted by {
          FreshNotAccepted(limit, s, e.request.id);
        }
      }
    }
    forall i | 0 <= i < |s.handlers| && s.handlers[i].PutEnter? ensures s.handlers[i].request.id in s.issued {
      assert HandlerOk(s, s.handlers[i]);
    }
  }

  lemma FreshNotAccepted(limit: nat, s: State, id: Id)
    requires QueueInv(limit, s) && id !in s.issued
    ensures id !in s.accepted
  {
    assert id !in Elems(s.accepted);
  }

  /** In every run with fresh ids: the ids handed out, in order, followed by the queue are the
      accepted sequence, so delivery is first in, first out and nothing is handed out twice; a
      non-zero limit bounds the queue; a stored message belongs to a queued or a locked id; and
      a 200 reply for an id goes to the producer of that very id. */
  lemma {:induction false} FifoInEveryRun(limit: nat, run: seq<State>, k: nat)
    requires IsRun(limit, false, run) && k < |run|
    ensures BaseInv(limit, run[k])
  {
    if k > 0 {
      hide BaseInv;
      hide Apply;
      FifoInEveryRun(limit, run, k - 1);
      assert Follows(limit, false, run[k - 1], run[k]);
      var e :| Enabled(run[k - 1], e, false) && run[k] == Apply(limit, run[k - 1], e);
      BaseInvStep(limit, run[k - 1], e);
    }
  }

  /** An id that `Head` reports was accepted, also when it is reported only after the queue has
      moved on; and 0 stands for an empty queue unless 0 itself was accepted. */
  lemma HeadNamesAccepted(limit: nat, run: seq<State>, k: nat, i: nat, reply: Reply)
    requires IsRun(limit, false, run) && k < |run| && i < |run[k].handlers|
    ensures run[k].handlers[i].HeadReply? && run[k].handlers[i].mid != 0 ==> run[k].handlers[i].mid in run[k].accepted
    ensures run[k].handlers[i] == HeadEnter && 0 !in run[k].accepted ==>
              (TurnOf(limit, run[k], i, reply).handlers[i] == HeadReply(0) <==> run[k].broker.queue == [])
  {
    FifoInEveryRun(limit, run, k);
    hide IsRun;
    if run[k].broker.queue != [] {
      QueuedIsAccepted(limit, run[k], run[k].broker.queue[0]);
    }
  }

  // ----- with disciplined consumers -----

  /** The stored messages are those of the queued and the locked ids. */
  ghost predicate Tidy(b: Broker) {
    b.messages.Keys == Elems(b.queue) + b.locked
  }

  /** The ids accepted so far are split into queued, locked and answered ones. */
  ghost predicate Conserved(s: State) {
    var b := s.broker;
    && Elems(s.accepted) == Elems(b.queue) + b.locked + s.answered
    && Elems(b.queue) !! b.locked !! s.answered
    && Tidy(b)
  }

  /** A 200 reply for the id has reached a producer. */
  predicate Replied(s: State, id: Id) {
    exists k :: 0 <= k < |s.replies| && s.replies[k].0 == id
  }

  /** What a Post or a Get has reached, with consumers that post only ids handed out. */
  predicate PosterOk(s: State, pc: Pc) {
    match pc
    case PostEnter(xid) => xid in s.popped
    case PostForward(xid, _) => xid in s.popped
    case PostErasing(xid) => xid in s.popped && Replied(s, xid)
    case PostReply(xid, code) => code != UNDELIVERED ==> xid in s.answered
    case GetReply(taken) => taken != Missing
    case _ => true
  }

  ghost predicate Inv(limit: nat, s: State) {
    && BaseInv(limit, s)
    && Conserved(s)
    && (forall id :: id in s.answered ==> Replied(s, id))
    && (forall i :: 0 <= i < |s.handlers| ==> PosterOk(s, s.handlers[i]))
  }

  /** An id that was handed out is not queued any more. */
  lemma PoppedNotQueued(limit: nat, s: State, id: Id)
    requires BaseInv(limit, s) && id in s.popped
    ensures id !in s.broker.queue
  {
    var i :| 0 <= i < |s.popped| && s.popped[i] == id;
    forall j | 0 <= j < |s.broker.queue| ensures s.broker.queue[j] != id {
      assert s.accepted[i] == id && s.broker.queue[j] == s.accepted[|s.popped| + j];
    }
  }

  lemma QueueDistinct(limit: nat, s: State)
    requires BaseInv(limit, s)
    ensures Distinct(s.broker.queue)
  {
    var n, q := |s.popped|, s.broker.queue;
    forall i, j | 0 <= i < j < |q| ensures q[i] != q[j] {
      assert q[i] == s.accepted[n + i] && q[j] == s.accepted[n + j];
    }
  }

  lemma ConservedPut(limit: nat, s: State, i: nat, reply: Reply)
    requires BaseInv(limit, s) && Conserved(s) && i < |s.handlers| && s.handlers[i].PutEnter?
    ensures Conserved(TurnOf(limit, s, i, reply))
  {
    var r := s.handlers[i].request;
    ElemsAppend(s.broker.queue, r.id);
    ElemsAppend(s.accepted, r.id);
    assert r.id !in Elems(s.accepted);
  }

  lemma ConservedGet(limit: nat, s: State, i: nat, reply: Reply)
    requires BaseInv(limit, s) && Conserved(s) && i < |s.handlers| && s.handlers[i].GetEnter?
    ensures Conserved(TurnOf(limit, s, i, reply))
  {
    QueueDistinct(limit, s);
    if s.broker.queue != [] {
      ElemsTail(s.broker.queue);
    }
    hide BaseInv;
  }

  lemma ConservedErase(limit: nat, s: State, i: nat, reply: Reply)
    requires Conserved(s) && i < |s.handlers| && s.handlers[i].PostErasing? && s.handlers[i].xid !in s.broker.queue
    ensures Conserved(TurnOf(limit, s, i, reply))
  {
    assert s.handlers[i].xid !in Elems(s.broker.queue);
  }

  /** The turn of any handler but a Post that erases a queued id keeps the partition. */
  lemma ConservedTurn(limit: nat, s: State, i: nat, reply: Reply)
    requires BaseInv(limit, s) && Conserved(s) && i < |s.handlers| && s.handlers[i] != Done
    requires s.handlers[i].PostErasing? ==> s.handlers[i].xid !in s.broker.queue
    ensures Conserved(TurnOf(limit, s, i, reply))
  {
    hide BaseInv;
    if s.handlers[i].PutEnter? {
      ConservedPut(limit, s, i, reply);
    } else if s.handlers[i].GetEnter? {
      ConservedGet(limit, s, i, reply);
    } else if s.handlers[i].PostErasing? {
      ConservedErase(limit, s, i, reply);
    }
  }

  /** What was handed out, replied or answered stays so. */
  lemma TurnKeepsAnswers(limit: nat, s: State, i: nat, reply: Reply, id: Id)
    requires i < |s.handlers| && s.handlers[i] != Done
    ensures var t := TurnOf(limit, s, i, reply);
            && (id in s.popped ==> id in t.popped)
            && (id in s.answered ==> id in t.answered)
            && (Replied(s, id) ==> Replied(t, id))
  {
    var t := TurnOf(limit, s, i, reply);
    if Replied(s, id) {
      var k :| 0 <= k < |s.replies| && s.replies[k].0 == id;
      assert t.replies[k].0 == id;
    }
  }

  /** An id that was handed out and has no message is answered. */
  lemma GoneIsAnswered(limit: nat, s: State, id: Id)
    requires BaseInv(limit, s) && Conserved(s) && id in s.popped && id !in s.broker.messages
    ensures id in s.answered
  {
    assert id in s.popped + s.broker.queue;
    assert id in Elems(s.accepted);
  }

  /** The handler that takes the turn, when it was in order before. */
  lemma TurnPosterOk(limit: nat, s: State, i: nat, reply: Reply)
    requires Inv(limit, s) && i < |s.handlers| && s.handlers[i] != Done
    ensures var t := TurnOf(limit, s, i, reply);
            PosterOk(t, t.handlers[i])
  {
    var t, pc := TurnOf(limit, s, i, reply), s.handlers[i];
    assert PosterOk(s, pc);
    if pc.GetEnter? {
      TidyGet(s.broker);
    } else if (pc.PostEnter? || pc.PostErasing?) && pc.xid !in s.broker.messages {
      GoneIsAnswered(limit, s, pc.xid);
    } else if pc.PostForward? && reply.Sent? {
      assert t.replies[|s.replies|].0 == pc.xid;
    } else if pc.PostErasing? {
      TurnKeepsAnswers(limit, s, i, reply, pc.xid);
    }
    hide BaseInv;
    hide Conserved;
  }

  /** A newly answered id has had its reply. */
  lemma TurnAnswersReplied(limit: nat, s: State, i: nat, reply: Reply, id: Id)
    requires Inv(limit, s) && i < |s.handlers| && s.handlers[i] != Done
    requires id in TurnOf(limit, s, i, reply).answered
    ensures Replied(TurnOf(limit, s, i, reply), id)
  {
    assert PosterOk(s, s.handlers[i]);
    TurnKeepsAnswers(limit, s, i, reply, id);
    hide BaseInv;
    hide Conserved;
    hide Replied;
  }

  lemma InvTurn(limit: nat, s: State, i: nat, reply: Reply)
    requires Inv(limit, s) && i < |s.handlers| && s.handlers[i] != Done
    ensures Inv(limit, TurnOf(limit, s, i, reply))
  {
    var t := TurnOf(limit, s, i, reply);
    assert PosterOk(s, s.handlers[i]);
    assert t.handlers == s.handlers[i := t.handlers[i]];
    BaseInvTurn(limit, s, i, reply);
    TurnPosterOk(limit, s, i, reply);
    hide BaseInv;
    hide Conserved;
    hide TurnOf;
    if s.handlers[i].PostErasing? {
      PoppedNotQueued(limit, s, s.handlers[i].xid);
    }
    ConservedTurn(limit, s, i, reply);
    forall j | 0 <= j < |t.handlers| ensures PosterOk(t, t.handlers[j]) {
      if j != i {
        BystanderPosterOk(limit, s, i, reply, j);
      }
    }
    forall id | id in t.answered ensures Replied(t, id) {
      TurnAnswersReplied(limit, s, i, reply, id);
    }
    hide PosterOk;
    hide Replied;
  }

  lemma BystanderPosterOk(limit: nat, s: State, i: nat, reply: Reply, j: nat)
    requires i < |s.handlers| && s.handlers[i] != Done && j < |s.handlers| && PosterOk(s, s.handlers[j])
    ensures PosterOk(TurnOf(limit, s, i, reply), s.handlers[j])
  {
    hide TurnOf;
    hide Replied;
    match s.handlers[j] {
      case PostEnter(xid) => TurnKeepsAnswers(limit, s, i, reply, xid);
      case PostForward(xid, _) => TurnKeepsAnswers(limit, s, i, reply, xid);
      case PostErasing(xid) => TurnKeepsAnswers(limit, s, i, reply, xid);
      case PostReply(xid, _) => TurnKeepsAnswers(limit, s, i, reply, xid);
      case _ =>
    }
  }

  lemma InvStart(limit: nat, s: State, e: Event)
    requires Inv(limit, s) && Enabled(s, e, true) && !e.Turn?
    ensures Inv(limit, Apply(limit, s, e))
  {
    BaseInvStep(limit, s, e);
    hide BaseInv;
    var t := Apply(limit, s, e);
    assert t.broker == s.broker && t.replies == s.replies && t.popped == s.popped;
    hide Conserved;
    assert forall id :: Replied(s, id) == Replied(t, id);
    hide Replied;
    forall j | 0 <= j < |t.handlers| ensures PosterOk(t, t.handlers[j]) {
      assert j < |s.handlers| ==> PosterOk(s, s.handlers[j]);
    }
    assert Conserved(s) ==> Conserved(t) by {
      StartKeepsParts(limit, s, e);
    }
  }

  lemma StartKeepsParts(limit: nat, s: State, e: Event)
    requires Enabled(s, e, false) && !e.Turn?
    ensures Conserved(s) ==> Conserved(Apply(limit, s, e))
  {
  }

  lemma InvStep(limit: nat, s: State, e: Event)
    requires Inv(limit, s) && Enabled(s, e, true)
    ensures Inv(limit, Apply(limit, s, e))
  {
    if e.Turn? {
      hide Inv;
      hide TurnOf;
      InvTurn(limit, s, e.handler, e.reply);
    } else {
      InvStart(limit, s, e);
    }
  }

  /** In every run whose consumers post only ids handed out to them: accepted ids are exactly
      queued, locked or answered, never two of these; the stored messages are those of the
      queued and the locked ids, so the look-up in Get never fails; an id is answered only
      after a 200 reply reached its producer, even while several Posts on it overlap; and a
      consumer is told 200, or 300 for a replay, only about an answered id. */
  lemma {:induction false} ConservedInEveryRun(limit: nat, run: seq<State>, k: nat)
    requires IsRun(limit, true, run) && k < |run|
    ensures Inv(limit, run[k])
  {
    if k > 0 {
      hide Inv;
      hide Apply;
      ConservedInEveryRun(limit, run, k - 1);
      assert Follows(limit, true, run[k - 1], run[k]);
      var e :| Enabled(run[k - 1], e, true) && run[k] == Apply(limit, run[k - 1], e);
      InvStep(limit, run[k - 1], e);
    }
  }

  /** The counts every reply carries in its headers always add up. */
  lemma StatsAddUp(limit: nat, run: seq<State>, k: nat)
    requires IsRun(limit, true, run) && k < |run|
    ensures var b := run[k].broker;
            |b.messages| == |b.queue| + |b.locked|
  {
    ConservedInEveryRun(limit, run, k);
    var b := run[k].broker;
    QueueDistinct(limit, run[k]);
    DistinctSize(b.queue);
    assert |b.messages| == |b.messages.Keys|;
  }

  /** Once answered, an id stays answered: it is never queued, locked or stored again. */
  lemma {:induction false} AnsweredForGood(limit: nat, run: seq<State>, j: nat, k: nat, id: Id)
    requires IsRun(limit, true, run) && j <= k < |run| && id in run[j].answered
    ensures id in run[k].answered
    ensures id !in run[k].broker.queue && id !in run[k].broker.locked && id !in run[k].broker.messages
  {
    if j < k {
      AnsweredForGood(limit, run, j, k - 1, id);
      assert Follows(limit, true, run[k - 1], run[k]);
    }
    ConservedInEveryRun(limit, run, k);
    assert id !in Elems(run[k].broker.queue);
  }

  // ----- what goes wrong without the discipline -----

  /** Erasing keeps a broker tidy exactly when the erased id is not in the queue. */
  lemma EraseKeepsTidyIff(b: Broker, xid: Id)
    requires Tidy(b)
    ensures Tidy(PostErase(b, xid)) <==> xid !in b.queue
  {
    assert xid in b.queue <==> xid in Elems(b.queue);
  }

  /** The step from `s` to `t` is the erase of a Post whose id `x` is still in the queue. */
  ghost predicate ErasesQueued(limit: nat, s: State, t: State, x: Id) {
    exists e :: Enabled(s, e, false) && t == Apply(limit, s, e) && ErasesQueuedBy(s, e, x)
  }

  predicate ErasesQueuedBy(s: State, e: Event, x: Id)
    requires Enabled(s, e, false)
  {
    e.Turn? && s.handlers[e.handler] == PostErasing(x) && x in s.broker.queue
  }

  predicate ErasesSome(s: State, e: Event)
    requires Enabled(s, e, false)
  {
    e.Turn? && s.handlers[e.handler].PostErasing? && ErasesQueuedBy(s, e, s.handlers[e.handler].xid)
  }

  /** The step to state `k` of the run is such an erase. */
  ghost predicate ErasedAt(limit: nat, run: seq<State>, k: nat, x: Id)
    requires 0 < k < |run|
  {
    ErasesQueued(limit, run[k - 1], run[k], x)
  }

  /** No step of the run is such an erase. */
  ghost predicate NeverErasesQueued(limit: nat, run: seq<State>) {
    forall k: nat, x :: 0 < k < |run| ==> !ErasedAt(limit, run, k, x)
  }

  /** The step keeps the broker tidy exactly when it is no such erase. */
  lemma TidyStep(limit: nat, s: State, e: Event)
    requires BaseInv(limit, s) && Tidy(s.broker) && Enabled(s, e, false)
    ensures Tidy(Apply(limit, s, e).broker) <==> !ErasesSome(s, e)
  {
    if e.Turn? {
      var pc := s.handlers[e.handler];
      if pc.PutEnter? {
        assert HandlerOk(s, pc);
        assert pc.request.id !in Elems(s.accepted);
        ElemsAppend(s.broker.queue, pc.request.id);
      } else if pc.GetEnter? && s.broker.queue != [] {
        QueueDistinct(limit, s);
        ElemsTail(s.broker.queue);
      } else if pc.PostErasing? {
        EraseKeepsTidyIff(s.broker, pc.xid);
      }
    }
    hide HandlersInv;
    hide QueueInv;
  }

  /** Any other step keeps the whole partition. */
  lemma ConservedStep(limit: nat, s: State, e: Event)
    requires BaseInv(limit, s) && Conserved(s) && Enabled(s, e, false) && !ErasesSome(s, e)
    ensures Conserved(Apply(limit, s, e))
  {
    hide BaseInv;
    if e.Turn? {
      hide TurnOf;
      ConservedTurn(limit, s, e.handler, e.reply);
    } else {
      StartKeepsParts(limit, s, e);
    }
  }

  lemma {:induction false} ConservedUpTo(limit: nat, run: seq<State>, k: nat)
    requires IsRun(limit, false, run) && NeverErasesQueued(limit, run) && k < |run|
    ensures Conserved(run[k])
  {
    if k > 0 {
      hide BaseInv;
      hide Apply;
      ConservedUpTo(limit, run, k - 1);
      FifoInEveryRun(limit, run, k - 1);
      assert Follows(limit, false, run[k - 1], run[k]);
      var e :| Enabled(run[k - 1], e, false) && run[k] == Apply(limit, run[k - 1], e);
      assert ErasesSome(run[k - 1], e) ==> ErasedAt(limit, run, k, run[k - 1].handlers[e.handler].xid);
      hide Conserved;
      ConservedStep(limit, run[k - 1], e);
    }
  }

  /** A run whose messages stay in step with queue and locked set erases no queued id. */
  lemma TidyRunErasesNoneQueued(limit: nat, run: seq<State>)
    requires IsRun(limit, false, run) && forall k: nat :: k < |run| ==> Tidy(run[k].broker)
    ensures NeverErasesQueued(limit, run)
  {
    hide BaseInv;
    hide Apply;
    hide Tidy;
    forall k: nat, x | 0 < k < |run| ensures !ErasedAt(limit, run, k, x) {
      if ErasedAt(limit, run, k, x) {
        var e :| Enabled(run[k - 1], e, false) && run[k] == Apply(limit, run[k - 1], e) && ErasesQueuedBy(run[k - 1], e, x);
        FifoInEveryRun(limit, run, k - 1);
        TidyStep(limit, run[k - 1], e);
      }
    }
  }

  /** Whatever ids the consumers post: in all of a run the accepted ids are split into queued,
      locked and answered ones, with the messages of the first two stored, exactly when no Post
      of the run erases an id that is still queued; and likewise for the messages alone. */
  lemma ConservedIff(limit: nat, run: seq<State>)
    requires IsRun(limit, false, run)
    ensures (forall k: nat :: k < |run| ==> Conserved(run[k])) <==> NeverErasesQueued(limit, run)
    ensures (forall k: nat :: k < |run| ==> Tidy(run[k].broker)) <==> NeverErasesQueued(limit, run)
  {
    hide Tidy;
    hide IsRun;
    assert forall k: nat :: k < |run| && Conserved(run[k]) ==> Tidy(run[k].broker);
    hide Conserved;
    if NeverErasesQueued(limit, run) {
      forall k: nat | k < |run| ensures Conserved(run[k]) {
        ConservedUpTo(limit, run, k);
      }
    } else if forall k: nat :: k < |run| ==> Tidy(run[k].broker) {
      TidyRunErasesNoneQueued(limit, run);
    }
  }

  // ----- which Gets fail -----

  /** Some step up to state `k` erased `x` while it was queued. */
  ghost predicate ErasedWhileQueued(limit: nat, run: seq<State>, k: nat, x: Id)
    requires k < |run|
  {
    exists j :: 0 < j <= k && ErasedAt(limit, run, j, x)
  }

  /** What the step from `s` to `t` does to an id: no accepted id is forgotten, and of an id
      queued afterwards the message is kept, or is there because the id is new. */
  ghost predicate KeepsMessage(s: State, t: State, x: Id, erased: bool) {
    && (x in s.accepted ==> x in t.accepted)
    && (x in t.broker.queue ==>
          if x in s.broker.queue then (x in t.broker.messages <==> x in s.broker.messages && !erased)
          else x in t.broker.messages && x !in s.accepted)
  }

  lemma MessageAfterPut(limit: nat, s: State, i: nat, reply: Reply, x: Id)
    requires BaseInv(limit, s) && i < |s.handlers| && s.handlers[i].PutEnter?
    ensures KeepsMessage(s, TurnOf(limit, s, i, reply), x, false)
  {
    var r := s.handlers[i].request;
    if x in s.broker.queue {
      QueuedIsAccepted(limit, s, x);
    }
    assert HandlerOk(s, s.handlers[i]);
    assert r.id !in Elems(s.accepted) && r.id !in s.broker.messages;
    hide HandlersInv;
    hide QueueInv;
  }

  /** A Put stores the message, an erase of that very id removes it, and nothing else in a run
      touches the message of a queued id. */
  lemma MessageAfter(limit: nat, s: State, e: Event, x: Id)
    requires BaseInv(limit, s) && Enabled(s, e, false)
    ensures KeepsMessage(s, Apply(limit, s, e), x, ErasesQueuedBy(s, e, x))
    ensures ErasesQueuedBy(s, e, x) ==> x in s.accepted
  {
    hide BaseInv;
    if x in s.broker.queue {
      QueuedIsAccepted(limit, s, x);
    }
    if e.Turn? && s.handlers[e.handler].PutEnter? {
      hide TurnOf;
      MessageAfterPut(limit, s, e.handler, e.reply, x);
    }
  }

  lemma QueuedIsAccepted(limit: nat, s: State, x: Id)
    requires BaseInv(limit, s) && x in s.broker.queue
    ensures x in s.accepted
  {
    assert x in s.popped + s.broker.queue;
  }

  /** Exactly which queued ids have lost their message: those that some Post erased while they
      were queued. */
  lemma {:induction false} LostMessages(limit: nat, run: seq<State>, k: nat, x: Id)
    requires IsRun(limit, false, run) && k < |run|
    ensures ErasedWhileQueued(limit, run, k, x) ==> x in run[k].accepted
    ensures x in run[k].broker.queue ==> (x !in run[k].broker.messages <==> ErasedWhileQueued(limit, run, k, x))
  {
    if k > 0 {
      hide BaseInv;
      hide Apply;
      hide ErasesQueuedBy;
      var s, t := run[k - 1], run[k];
      LostMessages(limit, run, k - 1, x);
      FifoInEveryRun(limit, run, k - 1);
      assert Follows(limit, false, s, t);
      var e :| Enabled(s, e, false) && t == Apply(limit, s, e);
      MessageAfter(limit, s, e, x);
      assert ErasesQueuedBy(s, e, x) ==> ErasesQueued(limit, s, t, x);
      if ErasesQueued(limit, s, t, x) {
        var d :| Enabled(s, d, false) && t == Apply(limit, s, d) && ErasesQueuedBy(s, d, x);
        MessageAfter(limit, s, d, x);
      }
      assert ErasedAt(limit, run, k, x) == ErasesQueued(limit, s, t, x);
      assert ErasedWhileQueued(limit, run, k, x) <==> ErasedWhileQueued(limit, run, k - 1, x) || ErasedAt(limit, run, k, x);
      if x in s.broker.queue {
        QueuedIsAccepted(limit, s, x);
      }
    }
  }

  /** Exactly which Gets throw: in any run, the Get that takes its critical section in state
      `k` fails on `mq_messages.at` if and only if the front id was erased while queued. */
  lemma GetThrowsIff(limit: nat, run: seq<State>, k: nat, i: nat, reply: Reply)
    requires IsRun(limit, false, run) && k < |run|
    requires i < |run[k].handlers| && run[k].handlers[i] == GetEnter
    ensures TurnOf(limit, run[k], i, reply).handlers[i] == GetReply(Missing)
       <==> run[k].broker.queue != [] && ErasedWhileQueued(limit, run, k, run[k].broker.queue[0])
  {
    hide IsRun;
    hide ErasedWhileQueued;
    if run[k].broker.queue != [] {
      LostMessages(limit, run, k, run[k].broker.queue[0]);
    }
  }

  /** A tidy broker never makes Get fail on `mq_messages.at`. */
  lemma TidyGet(b: Broker)
    requires Tidy(b)
    ensures GetSection(b).1 != Missing
  {
    assert b.queue != [] ==> b.queue[0] in Elems(b.queue);
  }

  /** Some Get has failed on `mq_messages.at`. */
  predicate GetThrew(s: State) {
    exists i :: 0 <= i < |s.handlers| && s.handlers[i] == GetReply(Missing)
  }

  /** A consumer that posts an id still in the queue makes a later Get throw. */
  lemma UndisciplinedPostBreaksGet(r: Request)
    ensures exists run: seq<State> :: IsRun(0, false, run) && GetThrew(run[|run| - 1])
  {
    hide IsRun;
    hide PutSection;
    var run := EraseWhileQueued(r);
    run := Extend(run, StartGet);
    run := Extend(run, Turn(2, Sent));
    assert run[|run| - 1].handlers[2] == GetReply(Missing);
  }

  /** Put an id and let a consumer post it before any Get: the id stays queued without its
      message. */
  lemma EraseWhileQueued(r: Request) returns (run: seq<State>)
    ensures IsRun(0, false, run)
    ensures run[|run| - 1].broker == Broker([r.id], {}, map[]) && run[|run| - 1].handlers == [Done, PostReply(r.id, DELIVERED)]
  {
    run := [INITIAL];
    assert IsRun(0, false, run);
    hide IsRun;
    run := Extend(run, StartPut(r));
    run := Extend(run, Turn(0, Sent));
    assert run[|run| - 1].broker == Broker([r.id], {}, map[r.id := r]) && run[|run| - 1].handlers == [Done];
    run := Extend(run, StartPost(r.id));
    run := Extend(run, Turn(1, Sent));
    assert run[|run| - 1].handlers == [Done, PostForward(r.id, r)];
    run := Extend(run, Turn(1, Sent));
    assert run[|run| - 1].handlers == [Done, PostErasing(r.id)];
    run := Extend(run, Turn(1, Sent));
  }

  /** A run goes on with any enabled event. */
  lemma Extend(run: seq<State>, e: Event) returns (longer: seq<State>)
    requires IsRun(0, false, run) && Enabled(run[|run| - 1], e, false)
    ensures IsRun(0, false, longer) && longer[|longer| - 1] == Apply(0, run[|run| - 1], e)
  {
    longer := run + [Apply(0, run[|run| - 1], e)];
    forall k | 0 < k < |longer| ensures Follows(0, false, longer[k - 1], longer[k]) {
      if k < |run| {
        assert Follows(0, false, run[k - 1], run[k]);
      }
    }
  }
}
