/** What each step of the SAPI broker achieves, in every run. */
module SyncSapiTurns {
  import opened Sequences
  import opened SyncSapi

  /** A Put: refused when the broker is down. */
  lemma EnterInEveryRun(limits: Limits, run: seq<State>, k: nat, i: nat)
    requires IsRun(limits, run) && k < |run| && i < |run[k].puts| && run[k].puts[i].Enter?
    ensures Enabled(run[k], PutTurn(i))
    ensures var (s, t) := (run[k], Apply(limits, run[k], PutTurn(i)));
            t == s.(puts := s.puts[i := if s.broker.working then Locking(s.puts[i].id) else Finished])
  {
  }

  /** The critical section of a fresh Put: accepted exactly when there is room, and then a
      thread is started exactly when there is no task limit or fewer threads are alive than
      the limit allows. */
  lemma PutInEveryRun(limits: Limits, run: seq<State>, k: nat, i: nat)
    requires IsRun(limits, run) && k < |run| && i < |run[k].puts| && run[k].puts[i].Locking?
    ensures Enabled(run[k], PutTurn(i))
    ensures var (s, t) := (run[k], Apply(limits, run[k], PutTurn(i)));
            var id := s.puts[i].id;
            && t.puts == s.puts[i := Finished] && t.issued == s.issued && t.popped == s.popped
            && if limits.size == 0 || |s.broker.queue| < limits.size then
                 var starts := limits.tasks == 0 || Count(s.threads, Live()) < AsInt32(limits.tasks);
                 && t.accepted == s.accepted + [id] && id !in s.accepted
                 && t.broker.queue == s.broker.queue + [id] && t.broker.messages == s.broker.messages + {id}
                 && t.threads == (if starts then s.threads + [Starting] else s.threads)
               else
                 t.accepted == s.accepted && t.broker == s.broker && t.threads == s.threads
  {
    InvInEveryRun(limits, run, k);
    hide IsRun;
    var s := run[k];
    assert s.puts[i].id !in s.accepted;
    assert s.puts[i].id !in Elems(s.accepted);
    hide PutsInv;
    hide Count;
    hide Elems;
    hide Distinct;
    hide AsInt32;
  }

  /** A thread at its pop takes the oldest message not yet popped, and serves it; without one
      it is about to leave. */
  lemma PopInEveryRun(limits: Limits, run: seq<State>, k: nat, j: nat)
    requires IsRun(limits, run) && k < |run| && j < |run[k].threads|
    requires run[k].threads[j] == Starting || run[k].threads[j] == Again
    ensures Enabled(run[k], ThreadTurn(j)) && |run[k].popped| <= |run[k].accepted|
    ensures var (s, t) := (run[k], Apply(limits, run[k], ThreadTurn(j)));
            if |s.popped| < |s.accepted| then
              var id := s.accepted[|s.popped|];
              && t.popped == s.popped + [id] && s.broker.queue == [id] + t.broker.queue
              && t.threads == s.threads[j := Serving(id)] && t.broker == s.broker.(queue := t.broker.queue)
            else
              t == s.(threads := s.threads[j := Leaving])
  {
    InvInEveryRun(limits, run, k);
    hide IsRun;
    var s := run[k];
    assert |s.accepted| == |s.popped| + |s.broker.queue|;
    assert s.broker.queue != [] ==> s.accepted[|s.popped|] == s.broker.queue[0];
    assert s.broker.queue != [] ==> s.broker.queue[0] in s.accepted && s.broker.queue[0] in Elems(s.accepted);
    hide PutsInv;
    hide Count;
    hide Distinct;
  }

  /** A thread that has replied goes on to the next message as long as the broker works and
      the queue is not empty, and is about to leave otherwise; nothing else changes. */
  lemma LoopInEveryRun(limits: Limits, run: seq<State>, k: nat, j: nat)
    requires IsRun(limits, run) && k < |run| && j < |run[k].threads|
    ensures run[k].threads[j].Serving? || run[k].threads[j] == CheckWorking || run[k].threads[j] == CheckQueue ==>
              var (s, t) := (run[k], ThreadTurnOf(run[k], j));
              && Enabled(s, ThreadTurn(j)) && t == Apply(limits, s, ThreadTurn(j))
              && t == s.(threads := t.threads) && t.threads == s.threads[j := t.threads[j]]
              && t.threads[j] == if s.threads[j].Serving? then CheckWorking
                                 else if s.threads[j] == CheckWorking then (if s.broker.working then CheckQueue else Leaving)
                                 else if |s.popped| < |s.accepted| then Again else Leaving
  {
    InvInEveryRun(limits, run, k);
    hide IsRun;
    var s := run[k];
    assert |s.accepted| == |s.popped| + |s.broker.queue|;
    hide PutsInv;
    hide WorkersInv;
    hide Elems;
    hide Distinct;
  }

  /** A leaving thread counts itself off once and is gone. */
  lemma LeaveInEveryRun(limits: Limits, run: seq<State>, k: nat, j: nat)
    requires IsRun(limits, run) && k < |run| && j < |run[k].threads| && run[k].threads[j] == Leaving
    ensures Enabled(run[k], ThreadTurn(j))
    ensures var (s, t) := (run[k], Apply(limits, run[k], ThreadTurn(j)));
            && s.broker.workers == Count(s.threads, Live()) > 0
            && t == s.(broker := s.broker.(workers := s.broker.workers - 1), threads := s.threads[j := Gone])
  {
    InvInEveryRun(limits, run, k);
    hide IsRun;
    CountPositive(run[k].threads, Live());
    hide PutsInv;
    hide Count;
    hide QueueInv;
  }

  /** A Put with a fresh id can start at any time, and the broker can be stopped at any time;
      the stop clears `mq_working` alone, and no later step sets it again. */
  lemma StartInEveryRun(limits: Limits, s: State, e: Event)
    ensures e.StartPut? && e.id !in s.issued ==>
              && Enabled(s, e)
              && Apply(limits, s, e) == s.(puts := s.puts + [Enter(e.id)], issued := s.issued + {e.id})
    ensures e.Stop? ==> Enabled(s, e) && Apply(limits, s, e) == s.(broker := s.broker.(working := false))
    ensures Enabled(s, e) && !e.Stop? ==> Apply(limits, s, e).broker.working == s.broker.working
  {
  }

  /** A Put with an id the broker already knows is refused, and nothing changes. */
  lemma RepeatedPut(b: Broker, limits: Limits, id: Id)
    requires id in b.messages
    ensures PutSection(b, limits, id) == (b, Refused)
  {
  }
}
