/** The synchronous message broker of mq/mq-sync: the state and the critical sections. */
module SyncQueue {
  type Id = nat

  /** A producer's open request; answering it answers that producer. */
  datatype Request = Request(id: Id, content: seq<char>)

  /** The fields guarded by `mq_sync`. */
  datatype Broker = Broker(queue: seq<Id>, locked: set<Id>, messages: map<Id, Request>)

  /** What the critical section of Get yields: `Missing` is the exception that
      `mq_messages.at` throws after the id was popped and locked. */
  datatype Taken = Empty | Message(request: Request) | Missing

  datatype Lookup = Found(client: Request) | NotFound

  /** Queue the id; the message is stored unless its id is already there, and only then is
      the Put accepted. */
  function PutSection(b: Broker, limit: nat, r: Request): (Broker, bool) {
    if limit == 0 || |b.queue| < limit then
      (b.(queue := b.queue + [r.id], messages := if r.id in b.messages then b.messages else b.messages[r.id := r]),
       r.id !in b.messages)
    else (b, false)
  }

  /** Move the front id to the locked set and look its message up. */
  function GetSection(b: Broker): (Broker, Taken) {
    if b.queue == [] then (b, Empty)
    else
      var id := b.queue[0];
      (b.(queue := b.queue[1..], locked := b.locked + {id}),
       if id in b.messages then Message(b.messages[id]) else Missing)
  }

  function PostLookup(b: Broker, xid: Id): Lookup {
    if xid in b.messages then Found(b.messages[xid]) else NotFound
  }

  function PostErase(b: Broker, xid: Id): Broker {
    b.(messages := b.messages - {xid}, locked := b.locked - {xid})
  }

  /** The handler object; each method is one critical section. */
  class SyncQueueHandler {
    var queue: seq<Id>
    var locked: set<Id>
    var messages: map<Id, Request>
    var limitSize: nat

    function View(): Broker
      reads this
    {
      Broker(queue, locked, messages)
    }

    constructor (limit: nat)
      ensures View() == Broker([], {}, map[]) && limitSize == limit
    {
      queue, locked, messages, limitSize := [], {}, map[], limit;
    }

    method Put(r: Request) returns (accepted: bool)
      modifies this
      ensures (View(), accepted) == PutSection(old(View()), limitSize, r) && limitSize == old(limitSize)
    {
      if limitSize == 0 || |queue| < limitSize {
        queue := queue + [r.id];
        if r.id !in messages {
          messages := messages[r.id := r];
          return true;
        }
      }
      return false;
    }

    method Get() returns (taken: Taken)
      modifies this
      ensures (View(), taken) == GetSection(old(View())) && limitSize == old(limitSize)
    {
      taken := Empty;
      if queue != [] {
        var muid := queue[0];
        queue := queue[1..];
        locked := locked + {muid};
        taken := if muid in messages then Message(messages[muid]) else Missing;
      }
    }

    method Find(xid: Id) returns (client: Lookup)
      ensures client == PostLookup(View(), xid)
    {
      client := if xid in messages then Found(messages[xid]) else NotFound;
    }

    method Erase(xid: Id)
      modifies this
      ensures View() == PostErase(old(View()), xid) && limitSize == old(limitSize)
    {
      messages := messages - {xid};
      locked := locked - {xid};
    }

    /** `Head` answers 0 for an empty queue. */
    method Head() returns (mid: Id)
      ensures mid == if queue == [] then 0 else queue[0]
    {
      mid := if queue == [] then 0 else queue[0];
    }

    method GetStats() returns (queueCount: nat, lockedCount: nat, messagesCount: nat)
      ensures queueCount == |queue| && lockedCount == |locked| && messagesCount == |messages|
    {
      queueCount, lockedCount, messagesCount := |queue|, |locked|, |messages|;
    }
  }
}
