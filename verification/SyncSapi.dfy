/** The second broker, mq/mq-sync/src/sync-sapi.cpp: every Put may start a thread of its own
    that serves the queue. */
module SyncSapi {
  import opened Sequences

  type Id = nat

  /** `(int32_t)x` for a `size_t`: the number with the same low 32 bits, as signed. */
  function AsInt32(x: nat): (r: int)
    ensures -0x8000_0000 <= r < 0x8000_0000 && (x - r) % 0x1_0000_0000 == 0
  {
    (x + 0x8000_0000) % 0x1_0000_0000 - 0x8000_0000
  }

  datatype Limits = Limits(size: nat, tasks: nat)

  /** The shared fields. The entry of a message stays in `messages` when its request is moved
      out, so only the ids matter. `workers` is `mq_workers`. */
  datatype Broker = Broker(queue: seq<Id>, messages: set<Id>, workers: int, working: bool)

  datatype PutResult = Refused | Queued | QueuedWithThread

  /** The critical section of Put, with the id read before the request is moved. */
  function PutSection(b: Broker, limits: Limits, id: Id): (Broker, PutResult) {
    if (limits.size == 0 || |b.queue| < limits.size) && id !in b.messages then
      var c := b.(messages := b.messages + {id}, queue := b.queue + [id]);
      if limits.tasks == 0 || b.workers < AsInt32(limits.tasks) then (c.(workers := b.workers + 1), QueuedWithThread)
      else (c, Queued)
    else (b, Refused)
  }

  datatype Pop = NoMessage | Popped(id: Id)

  function PopSection(b: Broker): (Broker, Pop) {
    if b.queue == [] then (b, NoMessage) else (b.(queue := b.queue[1..]), Popped(b.queue[0]))
  }

  class SyncSapiHandler {
    var queue: seq<Id>
    var messages: set<Id>
    var workers: int
    var working: bool
    var limits: Limits

    function View(): Broker
      reads this
    {
      Broker(queue, messages, workers, working)
    }

    constructor (limits: Limits)
      ensures View() == Broker([], {}, 0, true) && this.limits == limits
    {
      queue, messages, workers, working := [], {}, 0, true;
      this.limits := limits;
    }

    method Put(id: Id) returns (result: PutResult)
      modifies this
      ensures (View(), result) == PutSection(old(View()), limits, id) && limits == old(limits)
    {
      if limits.size == 0 || |queue| < limits.size {
        if id !in messages {
          messages := messages + {id};
          queue := queue + [id];
          if limits.tasks == 0 || workers < AsInt32(limits.tasks) {
            workers := workers + 1;
            return QueuedWithThread;
          }
          return Queued;
        }
      }
      return Refused;
    }

    method TakeMessage() returns (pop: Pop)
      modifies this
      ensures (View(), pop) == PopSection(old(View())) && limits == old(limits)
    {
      if queue == [] {
        return NoMessage;
      }
      pop := Popped(queue[0]);
      queue := queue[1..];
    }

    method Finalize()
      modifies this
      ensures View() == old(View()).(working := false) && limits == old(limits)
    {
      if working {
        working := false;
      }
    }
  }

  // ----- runs -----

  /** A Put handler: before it reads `mq_working`, before its critical section, finished. */
  datatype Put = Enter(id: Id) | Locking(id: Id) | Finished

  /** An ExecuteThread: `Starting` has not popped yet, `Again` is about to pop once more,
      `Serving` replies, `CheckWorking` and `CheckQueue` evaluate the loop condition without
      the lock, `Leaving` is about to decrement `mq_workers`, `Broken` found no message. */
  datatype Thread = Starting | Again | Serving(id: Id) | CheckWorking | CheckQueue | Leaving | Gone | Broken

  datatype State = State(
    broker: Broker, puts: seq<Put>, threads: seq<Thread>, issued: set<Id>, accepted: seq<Id>, popped: seq<Id>)

  const INITIAL := State(Broker([], {}, 0, true), [], [], {}, [], [])

  datatype Event = StartPut(id: Id) | PutTurn(put: nat) | ThreadTurn(thread: nat) | Stop

  predicate Enabled(s: State, e: Event) {
    match e
    case StartPut(id) => id !in s.issued
    case PutTurn(i) => i < |s.puts| && s.puts[i] != Finished
    case ThreadTurn(j) => j < |s.threads| && s.threads[j] != Gone && s.threads[j] != Broken
    case Stop => true
  }

  function PutTurnOf(limits: Limits, s: State, i: nat): State
    requires i < |s.puts| && s.puts[i] != Finished
  {
    match s.puts[i]
    case Enter(id) => s.(puts := s.puts[i := if s.broker.working then Locking(id) else Finished])
    case Locking(id) =>
      var (b, result) := PutSection(s.broker, limits, id);
      s.(broker := b, puts := s.puts[i := Finished],
         threads := if result.QueuedWithThread? then s.threads + [Starting] else s.threads,
         accepted := if result.Refused? then s.accepted else s.accepted + [id])
    case Finished => s
  }

  function ThreadTurnOf(s: State, j: nat): State
    requires j < |s.threads|
  {
    match s.threads[j]
    case Serving(_) => s.(threads := s.threads[j := CheckWorking])
    case CheckWorking => s.(threads := s.threads[j := if s.broker.working then CheckQueue else Leaving])
    case CheckQueue => s.(threads := s.threads[j := if s.broker.queue != [] then Again else Leaving])
    case Leaving => s.(broker := s.broker.(workers := s.broker.workers - 1), threads := s.threads[j := Gone])
    case Gone => s
    case Broken => s
    case _ =>
      var (b, pop) := PopSection(s.broker);
      (match pop
       case NoMessage => s.(threads := s.threads[j := Leaving])
       case Popped(id) =>
         s.(broker := b, popped := s.popped + [id],
            threads := s.threads[j := if id in s.broker.messages then Serving(id) else Broken]))
  }

  function Apply(limits: Limits, s: State, e: Event): State
    requires Enabled(s, e)
  {
    match e
    case StartPut(id) => s.(puts := s.puts + [Enter(id)], issued := s.issued + {id})
    case PutTurn(i) => PutTurnOf(limits, s, i)
    case ThreadTurn(j) => ThreadTurnOf(s, j)
    case Stop => s.(broker := s.broker.(working := false))
  }

  ghost predicate Follows(limits: Limits, s: State, t: State) {
    exists e :: Enabled(s, e) && t == Apply(limits, s, e)
  }

  ghost predicate IsRun(limits: Limits, run: seq<State>): (r: bool)
    ensures r ==> run != []
  {
    run != [] && run[0] == INITIAL && forall k :: 0 < k < |run| ==> Follows(limits, run[k - 1], run[k])
  }

  // ----- what every run keeps -----

  function Live(): Thread -> bool {
    (t: Thread) => t != Gone
  }

  function Fresh(): Thread -> bool {
    (t: Thread) => t == Starting
  }

  predicate PutsInv(s: State) {
    && (forall i, k :: 0 <= i < k < |s.puts| && s.puts[i] != Finished && s.puts[k] != Finished ==> s.puts[i].id != s.puts[k].id)
    && (forall i :: 0 <= i < |s.puts| && s.puts[i] != Finished ==> s.puts[i].id in s.issued && s.puts[i].id !in s.accepted)
  }

  /** Messages are served first in, first out, each one once, and always found. */
  ghost predicate QueueInv(limits: Limits, s: State) {
    var b := s.broker;
    && s.popped + b.queue == s.accepted && Distinct(s.accepted)
    && b.messages == Elems(s.accepted) && b.messages <= s.issued
    && (limits.size != 0 ==> |b.queue| <= limits.size)
    && (forall j :: 0 <= j < |s.threads| ==> s.threads[j] != Broken)
  }

  /** `mq_workers` counts the live threads and respects the task limit; and without a task
      limit there is a thread still to make its first pop for every queued message. */
  ghost predicate WorkersInv(limits: Limits, s: State) {
    var b := s.broker;
    && b.workers == Count(s.threads, Live())
    && (limits.tasks != 0 ==> b.workers <= limits.tasks)
    && (limits.tasks == 0 ==> |b.queue| <= Count(s.threads, Fresh()))
  }

  ghost predicate Inv(limits: Limits, s: State) {
    PutsInv(s) && QueueInv(limits, s) && WorkersInv(limits, s)
  }

  lemma PutsInvPut(limits: Limits, s: State, i: nat)
    requires PutsInv(s) && i < |s.puts| && s.puts[i] != Finished
    ensures PutsInv(PutTurnOf(limits, s, i))
  {
    hide PutSection;
  }

  lemma AsInt32AtMost(x: nat)
    ensures AsInt32(x) <= x
  {
  }

  lemma QueueInvPut(limits: Limits, s: State, i: nat)
    requires PutsInv(s) && QueueInv(limits, s) && i < |s.puts| && s.puts[i] != Finished
    ensures QueueInv(limits, PutTurnOf(limits, s, i))
  {
    var id := s.puts[i].id;
    assert id in s.issued && id !in s.accepted;
    hide PutsInv;
    hide AsInt32;
    ElemsAppend(s.accepted, id);
    hide Elems;
    hide Distinct;
    assert s.popped + (s.broker.queue + [id]) == s.accepted + [id];
  }

  lemma WorkersInvPut(limits: Limits, s: State, i: nat)
    requires WorkersInv(limits, s) && i < |s.puts| && s.puts[i] != Finished
    ensures WorkersInv(limits, PutTurnOf(limits, s, i))
  {
    AsInt32AtMost(limits.tasks);
    hide AsInt32;
    hide Count;
    CountAppend(s.threads, Starting, Live());
    CountAppend(s.threads, Starting, Fresh());
  }

  lemma InvPut(limits: Limits, s: State, i: nat)
    requires Inv(limits, s) && i < |s.puts| && s.puts[i] != Finished
    ensures Inv(limits, PutTurnOf(limits, s, i))
  {
    hide PutsInv;
    hide QueueInv;
    hide WorkersInv;
    hide PutTurnOf;
    PutsInvPut(limits, s, i);
    QueueInvPut(limits, s, i);
    WorkersInvPut(limits, s, i);
  }

  lemma InvPop(limits: Limits, s: State, j: nat)
    requires Inv(limits, s) && j < |s.threads| && (s.threads[j] == Starting || s.threads[j] == Again)
    ensures Inv(limits, ThreadTurnOf(s, j))
  {
    var q, t := s.broker.queue, ThreadTurnOf(s, j);
    if q != [] {
      assert s.popped + [q[0]] + q[1..] == s.accepted;
      assert q[0] in s.accepted by {
        assert s.accepted[|s.popped|] == q[0];
      }
    }
    CountUpdate(s.threads, j, t.threads[j], Live());
    CountUpdate(s.threads, j, t.threads[j], Fresh());
  }

  lemma InvThread(limits: Limits, s: State, j: nat)
    requires Inv(limits, s) && j < |s.threads| && s.threads[j] != Starting && s.threads[j] != Again && s.threads[j] != Gone
    ensures Inv(limits, ThreadTurnOf(s, j))
  {
    var t := ThreadTurnOf(s, j);
    CountUpdate(s.threads, j, t.threads[j], Live());
    CountUpdate(s.threads, j, t.threads[j], Fresh());
  }

  lemma InvStep(limits: Limits, s: State, e: Event)
    requires Inv(limits, s) && Enabled(s, e)
    ensures Inv(limits, Apply(limits, s, e))
  {
    if e.PutTurn? {
      InvPut(limits, s, e.put);
    } else if e.ThreadTurn? && (s.threads[e.thread] == Starting || s.threads[e.thread] == Again) {
      InvPop(limits, s, e.thread);
    } else if e.ThreadTurn? {
      InvThread(limits, s, e.thread);
    }
  }

  lemma {:induction false} InvInEveryRun(limits: Limits, run: seq<State>, k: nat)
    requires IsRun(limits, run) && k < |run|
    ensures Inv(limits, run[k])
  {
    if k > 0 {
      hide Inv;
      hide Apply;
      InvInEveryRun(limits, run, k - 1);
      assert Follows(limits, run[k - 1], run[k]);
      var e :| Enabled(run[k - 1], e) && run[k] == Apply(limits, run[k - 1], e);
      InvStep(limits, run[k - 1], e);
    }
  }

  // ----- stranded messages -----

  /** Every thread is gone, no Put is under way, and yet a message is queued. */
  predicate Stranded(s: State) {
    && s.broker.queue != []
    && (forall j :: 0 <= j < |s.threads| ==> s.threads[j] == Gone)
    && (forall i :: 0 <= i < |s.puts| ==> s.puts[i] == Finished)
  }

  /** Without a task limit a queued message always has a thread that is yet to pop, even after
      the broker was stopped. */
  lemma NothingStranded(limits: Limits, run: seq<State>, k: nat)
    requires IsRun(limits, run) && k < |run| && limits.tasks == 0 && run[k].broker.queue != []
    ensures exists j :: 0 <= j < |run[k].threads| && run[k].threads[j] == Starting
  {
    InvInEveryRun(limits, run, k);
    CountPositive(run[k].threads, Fresh());
  }

  lemma Extend(limits: Limits, run: seq<State>, e: Event) returns (longer: seq<State>)
    requires IsRun(limits, run) && Enabled(run[|run| - 1], e)
    ensures IsRun(limits, longer) && longer[|longer| - 1] == Apply(limits, run[|run| - 1], e)
  {
    longer := run + [Apply(limits, run[|run| - 1], e)];
    forall k | 0 < k < |longer| ensures Follows(limits, longer[k - 1], longer[k]) {
      if k < |run| {
        assert Follows(limits, run[k - 1], run[k]);
      }
    }
  }

  /** `n` threads have served the messages 0..n-1, found the queue empty and are about to
      decrement the counter. */
  ghost predicate AllServed(s: State, n: nat) {
    && s.issued == Below(n) && s.broker.messages == Below(n)
    && s.broker.queue == [] && s.broker.working && s.broker.workers == n
    && |s.threads| == n && (forall j :: 0 <= j < n ==> s.threads[j] == Leaving)
    && (forall i :: 0 <= i < |s.puts| ==> s.puts[i] == Finished)
  }

  /** One Put carried through its three steps. */
  lemma PutThrough(limits: Limits, run: seq<State>, id: Id) returns (longer: seq<State>)
    requires IsRun(limits, run) && id !in run[|run| - 1].issued && run[|run| - 1].broker.working
    ensures IsRun(limits, longer)
    ensures var s := run[|run| - 1];
            var t := longer[|longer| - 1];
            var (b, result) := PutSection(s.broker, limits, id);
            && t.broker == b && t.issued == s.issued + {id} && t.puts == s.puts + [Finished]
            && t.threads == if result.QueuedWithThread? then s.threads + [Starting] else s.threads
  {
    hide IsRun;
    hide PutSection;
    var n := |run[|run| - 1].puts|;
    longer := Extend(limits, run, StartPut(id));
    longer := Extend(limits, longer, PutTurn(n));
    longer := Extend(limits, longer, PutTurn(n));
  }

  /** The thread started last pops the only message, replies, and finds the queue empty. */
  lemma ServeLast(limits: Limits, run: seq<State>) returns (longer: seq<State>)
    requires IsRun(limits, run)
    requires var s := run[|run| - 1];
             && |s.broker.queue| == 1 && s.broker.queue[0] in s.broker.messages && s.broker.working
             && s.threads != [] && s.threads[|s.threads| - 1] == Starting
    ensures IsRun(limits, longer)
    ensures var s := run[|run| - 1];
            var t := longer[|longer| - 1];
            && t.broker == s.broker.(queue := []) && t.issued == s.issued && t.puts == s.puts
            && t.threads == s.threads[|s.threads| - 1 := Leaving]
  {
    hide IsRun;
    var j := |run[|run| - 1].threads| - 1;
    longer := Extend(limits, run, ThreadTurn(j));
    longer := Extend(limits, longer, ThreadTurn(j));
    longer := Extend(limits, longer, ThreadTurn(j));
    longer := Extend(limits, longer, ThreadTurn(j));
  }

  lemma {:induction false} ServeMany(limits: Limits, n: nat) returns (run: seq<State>)
    requires n == 0 || n <= AsInt32(limits.tasks)
    ensures IsRun(limits, run) && AllServed(run[|run| - 1], n)
  {
    if n == 0 {
      run := [INITIAL];
    } else {
      run := ServeMany(limits, n - 1);
      hide IsRun;
      run := PutThrough(limits, run, n - 1);
      run := ServeLast(limits, run);
    }
  }

  /** The waiting threads leave one after the other. */
  lemma {:induction false} LeaveAll(limits: Limits, run: seq<State>, from: nat) returns (longer: seq<State>)
    requires IsRun(limits, run)
    requires var s := run[|run| - 1];
             && from <= |s.threads| && forall j :: 0 <= j < |s.threads| ==> s.threads[j] == if j < from then Gone else Leaving
    ensures IsRun(limits, longer)
    ensures var t := longer[|longer| - 1];
            && t.broker.queue == run[|run| - 1].broker.queue && t.puts == run[|run| - 1].puts
            && forall j :: 0 <= j < |t.threads| ==> t.threads[j] == Gone
    decreases |run[|run| - 1].threads| - from
  {
    longer := run;
    if from < |run[|run| - 1].threads| {
      longer := Extend(limits, run, ThreadTurn(from));
      longer := LeaveAll(limits, longer, from + 1);
    }
  }

  /** With any task limit there is a run that strands a message: the Put comes after the
      last thread has seen the queue empty and before it decrements the counter. */
  lemma SomeRunStrands(limits: Limits) returns (run: seq<State>)
    requires limits.tasks != 0
    ensures IsRun(limits, run) && Stranded(run[|run| - 1])
  {
    var n := if AsInt32(limits.tasks) > 0 then AsInt32(limits.tasks) else 0;
    run := ServeMany(limits, n);
    hide IsRun;
    run := PutThrough(limits, run, n);
    run := LeaveAll(limits, run, 0);
  }

  /** No run strands a message exactly when there is no task limit. */
  lemma NeverStrandedIff(limits: Limits)
    ensures (forall run :: IsRun(limits, run) ==> !Stranded(run[|run| - 1])) <==> limits.tasks == 0
  {
    if limits.tasks == 0 {
      forall run: seq<State> | IsRun(limits, run) ensures !Stranded(run[|run| - 1]) {
        if run[|run| - 1].broker.queue != [] {
          NothingStranded(limits, run, |run| - 1);
        }
      }
    } else {
      var run := SomeRunStrands(limits);
    }
  }
}
