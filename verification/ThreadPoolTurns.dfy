/** What each step of the thread pool achieves, in every run, in terms of what has happened
    before: workers of either kind, the enqueuer, and the stop. */
module ThreadPoolTurns {
  import opened Bytes
  import opened Sequences
  import opened ThreadPools
  import opened ThreadPoolRuns

  /** A worker that comes back from its wait. In a stopped pool it terminates. While tasks are
      queued it takes the oldest one, whatever its kind. Without tasks an extended worker is
      unregistered and leaves, and a persistent one waits again. */
  lemma WaitingInEveryRun(s: Settings, run: seq<State>, k: nat, w: nat)
    requires s.Valid() && s.max < TWO64 && IsRun(s, run) && k < |run| && w < |run[k].crew|
    requires run[k].crew[w].pc == Waiting
    ensures Enabled(run[k], WorkerTurn(w)) && |run[k].popped| <= |run[k].enqueued|
    ensures var (t, u) := (run[k], Apply(s, run[k], WorkerTurn(w)));
            if !t.fields.yet then
              u == SetPc(t, w, Terminated)
            else if |t.popped| < |t.enqueued| then
              && u.crew == t.crew[w := t.crew[w].(pc := Holding(|t.popped|))]
              && u.popped == t.popped + [t.enqueued[|t.popped|]] && u.enqueued == t.enqueued
              && t.fields.tasks == [t.enqueued[|t.popped|]] + u.fields.tasks
              && u.fields == t.fields.(tasks := u.fields.tasks) && u.finished == t.finished
            else if w >= s.init then
              && u == SetPc(t, w, Left).(fields := t.fields.(workers := u.fields.workers))
              && w in t.fields.workers && u.fields.workers == t.fields.workers - {w}
            else
              u == t
  {
    InvInEveryRun(s, run, k);
    var t := run[k];
    assert WorkerOk(s, t.fields.yet, w, t.crew[w]) && w in t.fields.workers;
    assert t.popped + t.fields.tasks == t.enqueued;
    hide IsRun;
    hide Inv;
    hide WorkerOk;
    hide WorkerTurnOf;
    OldestTask(t);
    WaitingTurnIs(s, t, w);
  }

  lemma OldestTask(t: State)
    requires t.popped + t.fields.tasks == t.enqueued
    ensures |t.enqueued| == |t.popped| + |t.fields.tasks|
    ensures t.fields.tasks != [] ==> t.enqueued[|t.popped|] == t.fields.tasks[0]
  {
  }

  lemma WaitingTurnIs(s: Settings, t: State, w: nat)
    requires s.Valid() && w < |t.crew| && t.crew[w].pc == Waiting
    requires WorkerOk(s, t.fields.yet, w, t.crew[w]) && w in t.fields.workers
    ensures var u := WorkerTurnOf(t, w);
            if !t.fields.yet then
              u == SetPc(t, w, Terminated)
            else if t.fields.tasks != [] then
              u == SetPc(t, w, Holding(|t.popped|)).(fields := t.fields.(tasks := t.fields.tasks[1..]), popped := t.popped + [t.fields.tasks[0]])
            else if w >= s.init then
              u == SetPc(t, w, Left).(fields := t.fields.(workers := t.fields.workers - {w}))
            else
              u == t
  {
    hide CoreFor;
    assert t.crew[w := t.crew[w]] == t.crew;
  }

  /** A worker with a task: it is counted as busy, runs the task to its end once, and is
      counted off and waits again. */
  lemma TaskInEveryRun(s: Settings, run: seq<State>, k: nat, w: nat)
    requires s.Valid() && s.max < TWO64 && IsRun(s, run) && k < |run| && w < |run[k].crew|
    requires HasTask(run[k].crew[w])
    ensures Enabled(run[k], WorkerTurn(w))
    ensures var (t, u) := (run[k], Apply(s, run[k], WorkerTurn(w)));
            var pos := t.crew[w].pc.pos;
            && pos < |t.popped| && pos !in t.finished
            && if t.crew[w].pc.Holding? then
                 u == SetPc(t, w, Executing(pos)).(fields := t.fields.(busy := t.fields.busy + 1))
               else
                 u == SetPc(t, w, Waiting).(fields := t.fields.(busy := t.fields.busy - 1), finished := t.finished + {pos})
  {
    InvInEveryRun(s, run, k);
    hide IsRun;
    hide CrewInv;
    hide RecordsInv;
    hide SizeInv;
    TaskIsOpen(run[k].crew, |run[k].popped|, run[k].finished, w);
    hide HolderInv;
  }

  /** The record of every registered thread names the core its worker is bound to, its number,
      and whether it may leave. */
  lemma RecordInEveryRun(s: Settings, run: seq<State>, k: nat, w: nat)
    requires s.Valid() && s.max < TWO64 && IsRun(s, run) && k < |run| && w in run[k].fields.workers
    ensures w < |run[k].crew| && run[k].fields.workers[w] == Thread(run[k].crew[w].core, w, run[k].crew[w].kind)
  {
    InvInEveryRun(s, run, k);
    hide IsRun;
    assert WorkerOk(s, run[k].fields.yet, w, run[k].crew[w]);
    hide HolderInv;
    hide CoreFor;
  }

  /** The pool starts with its initial number of persistent workers, all waiting, no task. */
  lemma StartOfEveryRun(s: Settings, run: seq<State>)
    requires s.Valid() && IsRun(s, run)
    ensures var t := run[0];
            && t.fields.yet && t.fields.busy == 0 && t.fields.tasks == [] && t.fields.index == s.init
            && |t.crew| == s.init && |t.fields.workers| == s.init
            && (forall w :: 0 <= w < s.init ==>
                  w in t.fields.workers && t.crew[w] == Worker(Persistent, CoreFor(s, w), Waiting))
            && t.enqueued == [] && t.popped == [] && t.enqueuer == Idle
  {
    HireSectionAdds(s, NO_FIELDS, s.init, Persistent);
    hide HireSection;
    hide CoreFor;
  }

  /** Enqueue in a running pool: the task becomes the last one, and the snapshot is exact. A
      stopped pool refuses and does not change. */
  lemma EnqueueInEveryRun(s: Settings, run: seq<State>, k: nat, task: Task)
    requires s.Valid() && s.max < TWO64 && IsRun(s, run) && k < |run| && run[k].enqueuer == Idle
    ensures |run[k].popped| <= |run[k].enqueued|
    ensures !run[k].fields.yet ==> EnqueueSection(run[k].fields, task) == (run[k].fields, Stopped)
    ensures Enabled(run[k], Enqueue(task)) ==>
              var (t, u) := (run[k], Apply(s, run[k], Enqueue(task)));
              && u == t.(fields := t.fields.(tasks := t.fields.tasks + [task]), enqueued := t.enqueued + [task],
                         enqueuer := Resizing(|t.fields.workers|, |t.enqueued| - |t.popped| + 1))
  {
    InvInEveryRun(s, run, k);
    hide IsRun;
    assert |run[k].enqueued| == |run[k].popped| + |run[k].fields.tasks|;
    hide CrewInv;
    hide HolderInv;
    hide RecordsInv;
  }

  /** How many workers the enqueuer is about to hire. */
  function Planned(e: Enqueuer): nat {
    if e.Hiring? then e.count else 0
  }

  /** The plan made from the snapshot `Resizing(size, pending)`: afterwards the workers of the
      snapshot that are not busy and the new ones cover the pending tasks, or the pool is at
      its maximum; and no fewer multiples of the initial size would do. */
  lemma ResizeInEveryRun(s: Settings, run: seq<State>, k: nat, m: nat)
    requires s.Valid() && s.max < TWO64 && IsRun(s, run) && k < |run| && run[k].enqueuer.Resizing?
    ensures Enabled(run[k], EnqueuerTurn)
    ensures var (t, u) := (run[k], Apply(s, run[k], EnqueuerTurn));
            var (size, pending, n) := (t.enqueuer.numWorkers, t.enqueuer.numTasks, Planned(u.enqueuer));
            && u == t.(enqueuer := if n > 0 then Hiring(n) else Notifying)
            && size + n <= s.max
            && (size + n < s.max ==> pending <= size - t.fields.busy + n)
            && (size + n < s.max ==> exists j: nat :: n == j * s.init)
            && (pending <= size - t.fields.busy + m * s.init ==> n <= m * s.init)
  {
    InvInEveryRun(s, run, k);
    var t := run[k];
    BusyAtMostRegistered(s, t.fields, t.crew);
    hide IsRun;
    hide CrewInv;
    hide HolderInv;
    hide RecordsInv;
    HiringIsSufficientAndMinimal(s, t.enqueuer.numWorkers, t.enqueuer.numTasks, t.fields.busy, m);
    hide HireCount;
  }

  /** The hire: as many extended workers as planned join, waiting, registered, and bound to
      their cores; nobody else is touched, and the enqueuer goes on to notify. */
  lemma HireInEveryRun(s: Settings, run: seq<State>, k: nat)
    requires s.Valid() && s.max < TWO64 && IsRun(s, run) && k < |run| && run[k].enqueuer.Hiring?
    ensures Enabled(run[k], EnqueuerTurn)
    ensures var (t, u) := (run[k], Apply(s, run[k], EnqueuerTurn));
            var n := t.enqueuer.count;
            && u.enqueuer == Notifying && |u.crew| == |t.crew| + n && u.crew[..|t.crew|] == t.crew
            && (forall w :: |t.crew| <= w < |u.crew| ==> u.crew[w] == Worker(Extended, CoreFor(s, w), Waiting))
            && (forall w: nat :: w in u.fields.workers <==> w in t.fields.workers || |t.crew| <= w < |u.crew|)
            && |u.fields.workers| == |t.fields.workers| + n
            && u.fields.tasks == t.fields.tasks && u.fields.busy == t.fields.busy && u.fields.yet == t.fields.yet
            && u.enqueued == t.enqueued && u.popped == t.popped && u.finished == t.finished
  {
    InvInEveryRun(s, run, k);
    var t := run[k];
    assert t.fields.index == |t.crew|;
    hide IsRun;
    HireSectionAdds(s, t.fields, t.enqueuer.count, Extended);
    hide HireSection;
    hide CrewInv;
    hide HolderInv;
    hide RecordsInv;
    hide CoreFor;
  }

  /** Between two calls of Enqueue a running pool can be stopped, which changes the flag alone;
      and after notifying, the enqueuer is back outside. */
  lemma StopInEveryRun(s: Settings, run: seq<State>, k: nat)
    requires s.Valid() && IsRun(s, run) && k < |run|
    ensures run[k].enqueuer == Idle && run[k].fields.yet ==>
              && Enabled(run[k], Stop)
              && Apply(s, run[k], Stop) == run[k].(fields := run[k].fields.(yet := false))
    ensures run[k].enqueuer == Notifying ==>
              Enabled(run[k], EnqueuerTurn) && Apply(s, run[k], EnqueuerTurn) == run[k].(enqueuer := Idle)
  {
    hide IsRun;
  }
}
