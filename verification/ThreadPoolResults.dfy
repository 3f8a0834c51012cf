/** What the thread pool guarantees in every run. */
module ThreadPoolResults {
  import opened Arithmetic
  import opened Bytes
  import opened Sequences
  import opened ThreadPools
  import opened ThreadPoolRuns

  /** The pool size stays between its initial and its maximal value, although the number of
      workers to hire is computed outside the lock from an earlier snapshot while extended
      workers may leave. */
  lemma PoolSizeBounded(s: Settings, run: seq<State>, k: nat)
    requires s.Valid() && s.max < TWO64 && IsRun(s, run) && k < |run|
    ensures s.init <= |run[k].fields.workers| <= s.max
  {
    InvInEveryRun(s, run, k);
    InitAtMostRegistered(s, run[k].fields, run[k].crew);
  }

  /** Whenever the enqueuer reads `PoolBusyWorkers`, the count lies between 0 and its snapshot,
      so that none of the unsigned operations of the sizing rule wraps around. */
  lemma ResizeNeverWraps(s: Settings, run: seq<State>, k: nat)
    requires s.Valid() && s.max < TWO64 && IsRun(s, run) && k < |run| && run[k].enqueuer.Resizing?
    ensures var t := run[k];
            var (w, q) := (t.enqueuer.numWorkers, t.enqueuer.numTasks);
            && 0 <= t.fields.busy <= w <= s.max
            && var wanted := RoundUp(Deficit(w, q, t.fields.busy), s.init);
               HireCount(s, w, q, t.fields.busy) == if w + wanted > s.max then s.max - w else wanted
  {
    InvInEveryRun(s, run, k);
    var t := run[k];
    BusyAtMostRegistered(s, t.fields, t.crew);
    HireCountIsPlain(s, t.enqueuer.numWorkers, t.enqueuer.numTasks, t.fields.busy);
  }

  /** No task is lost, invented or run twice: popped tasks followed by the queue are the
      enqueued sequence, and each popped task is finished or held by one worker, not both.
      `PoolBusyWorkers` is the number of workers between increment and decrement. */
  lemma TasksConserved(s: Settings, run: seq<State>, k: nat, pos: nat)
    requires s.Valid() && s.max < TWO64 && IsRun(s, run) && k < |run| && pos < |run[k].popped|
    ensures var t := run[k];
            && t.popped + t.fields.tasks == t.enqueued
            && t.fields.busy == Count(t.crew, Busy())
            && (pos in t.finished <==> !Held(t.crew, pos))
            && (forall v, w :: 0 <= v < |t.crew| && 0 <= w < |t.crew| && Holds(t.crew[v], pos) && Holds(t.crew[w], pos) ==> v == w)
  {
    InvInEveryRun(s, run, k);
  }

  /** The popped tasks are the finished ones and those in the hands of a worker. */
  lemma {:induction false} PoppedAddsUp(s: Settings, run: seq<State>, k: nat)
    requires s.Valid() && s.max < TWO64 && IsRun(s, run) && k < |run|
    ensures |run[k].finished| + Count(run[k].crew, Carrying()) == |run[k].popped|
  {
    if k == 0 {
      CountHired([], run[0].crew);
      assert [] + run[0].crew == run[0].crew;
    } else {
      assert Follows(s, run[k - 1], run[k]);
      hide Apply;
      hide Enabled;
      PoppedAddsUp(s, run, k - 1);
      InvInEveryRun(s, run, k - 1);
      hide IsRun;
      var e :| Enabled(run[k - 1], e) && run[k] == Apply(s, run[k - 1], e);
      PoppedStep(s, run[k - 1], e);
    }
  }

  lemma PoppedTurn(t: State, w: nat)
    requires Enabled(t, WorkerTurn(w)) && (t.crew[w].pc.Executing? ==> t.crew[w].pc.pos !in t.finished)
    ensures var u := WorkerTurnOf(t, w);
            |u.finished| + Count(u.crew, Carrying()) - |u.popped| == |t.finished| + Count(t.crew, Carrying()) - |t.popped|
  {
    hide Count;
    var u := WorkerTurnOf(t, w);
    assert u.crew == t.crew[w := u.crew[w]];
    CountUpdate(t.crew, w, u.crew[w], Carrying());
  }

  lemma PoppedStep(s: Settings, t: State, e: Event)
    requires s.Valid() && Inv(s, t) && Enabled(t, e)
    ensures var u := Apply(s, t, e);
            |u.finished| + Count(u.crew, Carrying()) - |u.popped| == |t.finished| + Count(t.crew, Carrying()) - |t.popped|
  {
    if e.WorkerTurn? {
      if HasTask(t.crew[e.worker]) {
        TaskIsOpen(t.crew, |t.popped|, t.finished, e.worker);
      }
      hide Inv;
      hide WorkerTurnOf;
      PoppedTurn(t, e.worker);
    } else if e.EnqueuerTurn? && t.enqueuer.Hiring? {
      hide Inv;
      CountHired(t.crew, Hired(s, t.fields.index, t.enqueuer.count, Extended));
    } else {
      hide Inv;
    }
  }

  /** What the numbers of `GetState` mean. The sizes are taken in state `j`, the busy count is
      read later, in state `k`: workers between the initial and the maximal number, a busy
      count between 0 and the maximum, and of all tasks enqueued so far those not waiting are
      finished or in the hands of a worker. Read in one state, the busy workers are among
      the registered ones and among those that have a task. */
  lemma StateAddsUp(s: Settings, run: seq<State>, j: nat, k: nat)
    requires s.Valid() && s.max < TWO64 && IsRun(s, run) && j <= k < |run|
    ensures s.init <= |run[j].fields.workers| <= s.max && 0 <= run[k].fields.busy <= s.max
    ensures |run[j].enqueued| == |run[j].finished| + Count(run[j].crew, Carrying()) + |run[j].fields.tasks|
    ensures j == k ==> run[k].fields.busy <= |run[j].fields.workers| && run[k].fields.busy <= Count(run[j].crew, Carrying())
  {
    PoolSizeBounded(s, run, j);
    PoolSizeBounded(s, run, k);
    PoppedAddsUp(s, run, j);
    InvInEveryRun(s, run, j);
    InvInEveryRun(s, run, k);
    BusyAtMostRegistered(s, run[k].fields, run[k].crew);
    CountWeaker(run[j].crew, Busy(), Carrying());
  }

  /** While the pool is up, every one of the `init` persistent workers is waiting, holding or
      executing a task; and a waiting one, once it looks, takes the first task of the queue. */
  lemma SomeWorkerMakesProgress(s: Settings, run: seq<State>, k: nat, w: nat)
    requires s.Valid() && s.max < TWO64 && IsRun(s, run) && k < |run| && w < s.init
    requires run[k].fields.yet && run[k].fields.tasks != []
    ensures w < |run[k].crew| && Enabled(run[k], WorkerTurn(w))
    ensures run[k].crew[w].pc.Waiting? ==>
              var u := Apply(s, run[k], WorkerTurn(w));
              u.crew[w].pc == Holding(|run[k].popped|) && u.popped == run[k].popped + [run[k].fields.tasks[0]]
  {
    InvInEveryRun(s, run, k);
    assert WorkerOk(s, true, w, run[k].crew[w]);
    hide CrewInv;
    hide HolderInv;
    hide IsRun;
  }

  /** An extended worker whose wait timed out always finds itself registered. */
  lemma TimedOutWorkerIsRegistered(s: Settings, run: seq<State>, k: nat, w: nat)
    requires s.Valid() && s.max < TWO64 && IsRun(s, run) && k < |run| && w < |run[k].crew|
    requires run[k].crew[w].pc.Waiting?
    ensures w in run[k].fields.workers && WorkerSection(run[k].fields, w, run[k].crew[w].kind).1 != LeaveUnknown
  {
    InvInEveryRun(s, run, k);
  }

  // ----- shutdown -----

  /** The number of steps a worker has left once the pool is stopped. */
  function Remaining(): Worker -> nat {
    (x: Worker) => match x.pc
      case Holding(_) => 3
      case Executing(_) => 2
      case Waiting => 1
      case _ => 0
  }

  /** After the stop only workers take steps, each of them uses up one unit, and none touches
      the registered threads or the queue. */
  lemma StepAfterStop(s: Settings, t: State, e: Event)
    requires s.Valid() && Enabled(t, e) && !t.fields.yet && t.enqueuer.Idle?
    ensures var u := Apply(s, t, e);
            && !u.fields.yet && u.enqueuer.Idle?
            && u.fields.workers == t.fields.workers && u.fields.tasks == t.fields.tasks
            && Sum(u.crew, Remaining()) + 1 == Sum(t.crew, Remaining())
  {
    var w := e.worker;
    var u := WorkerTurnOf(t, w);
    assert u.crew == t.crew[w := u.crew[w]];
    SumUpdate(t.crew, w, u.crew[w], Remaining());
  }

  /** The pool is stopped by the enqueuing thread, so the enqueuer stays outside from then on. */
  lemma {:induction false} StoppedIsIdle(s: Settings, run: seq<State>, k: nat)
    requires s.Valid() && IsRun(s, run) && k < |run| && !run[k].fields.yet
    ensures run[k].enqueuer.Idle?
  {
    if k == 0 {
      HireSectionAdds(s, NO_FIELDS, s.init, Persistent);
    } else {
      assert Follows(s, run[k - 1], run[k]);
      hide IsRun;
      hide Apply;
      var e :| Enabled(run[k - 1], e) && run[k] == Apply(s, run[k - 1], e);
      if !run[k - 1].fields.yet {
        StoppedIsIdle(s, run, k - 1);
        StepAfterStop(s, run[k - 1], e);
      } else {
        YetKept(s, run[k - 1], e);
      }
    }
  }

  lemma YetKept(s: Settings, t: State, e: Event)
    requires s.Valid() && Enabled(t, e) && t.fields.yet
    ensures var u := Apply(s, t, e);
            u.fields.yet || u.enqueuer.Idle?
  {
    if e.EnqueuerTurn? && t.enqueuer.Hiring? {
      YetHired(s, t.fields, t.enqueuer.count);
    }
  }

  lemma {:induction false} YetHired(s: Settings, f: Fields, n: nat)
    requires s.Valid()
    ensures HireSection(s, f, n, Extended).yet == f.yet
    decreases n
  {
    if n > 0 {
      YetHired(s, HireOne(s, f, Extended), n - 1);
    }
  }

  /** After the stop, the run from state `j` to state `k` has exactly as many steps as were
      used up: it ends, at the latest when nothing remains, and by then every worker is gone.
      The thread table that Join walks does not change meanwhile, nor does the queue. */
  lemma {:induction false} ShutdownEnds(s: Settings, run: seq<State>, j: nat, k: nat)
    requires s.Valid() && IsRun(s, run) && j <= k < |run| && !run[j].fields.yet
    ensures !run[k].fields.yet
    ensures run[k].fields.workers == run[j].fields.workers && run[k].fields.tasks == run[j].fields.tasks
    ensures k - j + Sum(run[k].crew, Remaining()) == Sum(run[j].crew, Remaining())
    decreases k
  {
    if j < k {
      ShutdownEnds(s, run, j, k - 1);
      StoppedIsIdle(s, run, k - 1);
      assert Follows(s, run[k - 1], run[k]);
      hide Apply;
      hide Enabled;
      var e :| Enabled(run[k - 1], e) && run[k] == Apply(s, run[k - 1], e);
      StepAfterStop(s, run[k - 1], e);
    }
  }

  /** A stopped pool stands still exactly when all its workers have terminated or left, which
      is when the joins of Join return. */
  lemma StandstillIff(s: Settings, run: seq<State>, k: nat)
    requires s.Valid() && s.max < TWO64 && IsRun(s, run) && k < |run| && !run[k].fields.yet
    ensures (forall e :: !Enabled(run[k], e)) <==>
            forall w :: 0 <= w < |run[k].crew| ==> run[k].crew[w].pc == Left || run[k].crew[w].pc == Terminated
  {
    InvInEveryRun(s, run, k);
    StoppedIsIdle(s, run, k);
    var t := run[k];
    if forall e :: !Enabled(t, e) {
      forall w: nat | w < |t.crew| ensures t.crew[w].pc == Left || t.crew[w].pc == Terminated {
        assert !Enabled(t, WorkerTurn(w));
        assert WorkerOk(s, false, w, t.crew[w]);
      }
    }
  }

  // ----- balance over the cores -----

  /** How many of the first `n` hires go to position `i` of `size` bindings. */
  function HiresAt(n: nat, size: nat, i: nat): nat
    requires size > 0
  {
    if n == 0 then 0 else HiresAt(n - 1, size, i) + if (n - 1) % size == i then 1 else 0
  }

  lemma {:induction false} HiresAtIsEven(n: nat, q: nat, r: nat, size: nat, i: nat)
    requires 0 < size && r < size && i < size && n == q * size + r
    ensures HiresAt(n, size, i) == q + if i < r then 1 else 0
    decreases n
  {
    if n > 0 {
      if r > 0 {
        HiresAtIsEven(n - 1, q, r - 1, size, i);
        ModUnique(n - 1, size, q, r - 1);
      } else {
        PositiveProduct(q, size);
        HiresAtIsEven(n - 1, q - 1, size - 1, size, i);
        ModUnique(n - 1, size, q - 1, size - 1);
      }
    } else {
      ZeroProduct(q, size);
    }
  }

  function OnCore(core: nat): Worker -> bool {
    (x: Worker) => x.core == core
  }

  lemma {:induction false} HiredOnCore(s: Settings, crew: seq<Worker>, i: nat)
    requires s.Valid() && Distinct(s.cores) && i < |s.cores|
    requires forall w: nat :: w < |crew| ==> crew[w].core == CoreFor(s, w)
    ensures Count(crew, OnCore(s.cores[i])) == HiresAt(|crew|, |s.cores|, i)
    decreases |crew|
  {
    if crew != [] {
      var n := |crew| - 1;
      HiredOnCore(s, crew[..n], i);
      assert crew[n].core == s.cores[n % |s.cores|];
      assert crew[n].core == s.cores[i] <==> n % |s.cores| == i;
    }
  }

  /** Over all hires of a run, the numbers of workers bound to any two cores differ by at most
      one. */
  lemma CoresAreBalanced(s: Settings, run: seq<State>, k: nat, i: nat, j: nat)
    requires s.Valid() && s.max < TWO64 && Distinct(s.cores) && IsRun(s, run) && k < |run|
    requires i < |s.cores| && j < |s.cores|
    ensures Count(run[k].crew, OnCore(s.cores[i])) <= Count(run[k].crew, OnCore(s.cores[j])) + 1
  {
    CrewOnCore(s, run, k, i);
    CrewOnCore(s, run, k, j);
  }

  /** Every core gets the integral share of the hires, and the first ones get one more. */
  lemma CrewOnCore(s: Settings, run: seq<State>, k: nat, i: nat)
    requires s.Valid() && s.max < TWO64 && Distinct(s.cores) && IsRun(s, run) && k < |run| && i < |s.cores|
    ensures var (n, size) := (|run[k].crew|, |s.cores|);
            Count(run[k].crew, OnCore(s.cores[i])) == n / size + if i < n % size then 1 else 0
  {
    hide IsRun;
    hide Count;
    hide HiresAt;
    InvInEveryRun(s, run, k);
    var crew, size := run[k].crew, |s.cores|;
    forall w: nat | w < |crew| ensures crew[w].core == CoreFor(s, w) {
      assert WorkerOk(s, run[k].fields.yet, w, crew[w]);
    }
    hide Inv;
    HiredOnCore(s, crew, i);
    ShareOf(|crew|, size, i);
  }

  lemma ShareOf(n: nat, size: nat, i: nat)
    requires i < size
    ensures HiresAt(n, size, i) == n / size + if i < n % size then 1 else 0
  {
    DivMod(n, size);
    HiresAtIsEven(n, n / size, n % size, size, i);
  }
}
