/** The elastic thread pool of kernel/mt: its state, its critical sections and the sizing rule. */
module ThreadPools {
  import opened Arithmetic
  import opened Bytes
  import opened Sequences

  type Task = nat

  datatype Kind = Persistent | Extended

  /** A hired thread: the core it is bound to, its number, and whether it may leave. */
  datatype Thread = Thread(core: nat, num: nat, kind: Kind)

  /** What a successful construction fixes. */
  datatype Settings = Settings(init: nat, max: nat, cores: seq<nat>)
  {
    predicate Valid() {
      0 < init <= max && cores != []
    }
  }

  /** PoolYet, PoolIndexWorkers, PoolBusyWorkers, PoolWorkers (by thread number) and PoolTasks. */
  datatype Fields = Fields(yet: bool, index: nat, busy: int, workers: map<nat, Thread>, tasks: seq<Task>)

  const NO_FIELDS := Fields(true, 0, 0, map[], [])

  // ----- sizing -----

  /** The number of workers `CheckResize` hires, in 64-bit unsigned arithmetic. */
  function HireCount(s: Settings, numWorkers: nat, numTasks: nat, busy: int): nat
    requires s.init > 0
  {
    var available := Wrap64(numWorkers - busy);
    var wanted := if numTasks > available then
                    Wrap64(Wrap64(Wrap64(numTasks - available) + Wrap64(s.init - 1)) / s.init * s.init) else 0;
    if Wrap64(numWorkers + wanted) > s.max then Wrap64(s.max - numWorkers) else wanted
  }

  /** How many pending tasks exceed the workers that are not busy. */
  function Deficit(numWorkers: nat, numTasks: nat, busy: nat): nat
    requires busy <= numWorkers
  {
    if numTasks > numWorkers - busy then numTasks - (numWorkers - busy) else 0
  }

  /** `x` rounded up to a multiple of `unit`. */
  function RoundUp(x: nat, unit: nat): (r: nat)
    requires unit > 0
  {
    (x + (unit - 1)) / unit * unit
  }

  lemma RoundUpBounds(x: nat, unit: nat)
    requires unit > 0
    ensures x <= RoundUp(x, unit) <= x + (unit - 1)
    ensures x == 0 ==> RoundUp(x, unit) == 0
  {
    var y := x + (unit - 1);
    DivMod(y, unit);
    if x == 0 {
      assert y / unit == 0;
    }
  }

  /** It is the least such multiple. */
  lemma RoundUpLeast(x: nat, unit: nat, m: nat)
    requires unit > 0 && x <= m * unit
    ensures RoundUp(x, unit) <= m * unit
  {
    var y := x + (unit - 1);
    var q := y / unit;
    DivMod(y, unit);
    if q > m {
      MulMonotone(m + 1, q, unit);
    } else {
      MulMonotone(q, m, unit);
    }
  }

  /** With a busy count not above the snapshot, a snapshot not above the maximum, and sizes
      that fit into memory, nothing wraps around: the rule is the plain one. */
  lemma HireCountIsPlain(s: Settings, numWorkers: nat, numTasks: nat, busy: nat)
    requires s.Valid() && busy <= numWorkers <= s.max < TWO64
    requires numWorkers + numTasks + s.init < TWO64
    ensures var wanted := RoundUp(Deficit(numWorkers, numTasks, busy), s.init);
            HireCount(s, numWorkers, numTasks, busy) ==
            if numWorkers + wanted > s.max then s.max - numWorkers else wanted
  {
    var d := Deficit(numWorkers, numTasks, busy);
    RoundUpBounds(d, s.init);
    hide Wrap64;
    assert Wrap64(numWorkers - busy) == numWorkers - busy;
    assert Wrap64(s.init - 1) == s.init - 1;
    if numTasks > numWorkers - busy {
      assert Wrap64(numTasks - (numWorkers - busy)) == d;
      assert Wrap64(d + (s.init - 1)) == d + (s.init - 1);
      assert Wrap64(RoundUp(d, s.init)) == RoundUp(d, s.init);
    }
  }

  /** Hiring is sufficient: afterwards the free workers cover the pending tasks, or the pool
      is at its maximum. It is minimal: unless it was cut at the maximum, it is the least
      multiple of the initial size that covers the deficit. It never exceeds the maximum. */
  lemma HiringIsSufficientAndMinimal(s: Settings, numWorkers: nat, numTasks: nat, busy: nat, m: nat)
    requires s.Valid() && busy <= numWorkers <= s.max < TWO64
    requires numWorkers + numTasks + s.init < TWO64
    ensures var n := HireCount(s, numWorkers, numTasks, busy);
            && numWorkers + n <= s.max
            && (numWorkers + n < s.max ==> numTasks <= numWorkers - busy + n)
            && (numWorkers + n < s.max ==> exists k: nat :: n == k * s.init)
            && (numTasks <= numWorkers - busy + m * s.init ==> n <= m * s.init)
  {
    HireCountIsPlain(s, numWorkers, numTasks, busy);
    var d := Deficit(numWorkers, numTasks, busy);
    RoundUpBounds(d, s.init);
    var k: nat := (d + (s.init - 1)) / s.init;
    assert RoundUp(d, s.init) == k * s.init;
    assert 0 <= m * s.init by { MulMonotone(0, m, s.init); }
    if numTasks <= numWorkers - busy + m * s.init {
      RoundUpLeast(d, s.init, m);
    }
  }

  // ----- critical sections -----

  /** `PoolWorkersBinding[PoolIndexWorkers % PoolWorkersBinding.size()]`. */
  function CoreFor(s: Settings, num: nat): nat
    requires s.Valid()
  {
    s.cores[num % |s.cores|]
  }

  function HireOne(s: Settings, f: Fields, kind: Kind): Fields
    requires s.Valid()
  {
    f.(workers := f.workers[f.index := Thread(CoreFor(s, f.index), f.index, kind)], index := f.index + 1)
  }

  function HireSection(s: Settings, f: Fields, n: nat, kind: Kind): Fields
    requires s.Valid()
    decreases n
  {
    if n == 0 then f else HireSection(s, HireOne(s, f, kind), n - 1, kind)
  }

  /** The critical section of Enqueue and its snapshot; a stopped pool throws. */
  datatype Enqueued = Stopped | Snapshot(numWorkers: nat, numTasks: nat)

  function EnqueueSection(f: Fields, task: Task): (Fields, Enqueued) {
    if !f.yet then (f, Stopped)
    else (f.(tasks := f.tasks + [task]), Snapshot(|f.workers|, |f.tasks| + 1))
  }

  /** What the critical section of a worker tells it to do: terminate, wait again, leave the
      pool, leave although it was not registered, or run a task. */
  datatype Order = Terminate | Retry | Leave | LeaveUnknown | Run(task: Task)

  /** The section after `wait_for` returns: by its predicate, or by the timeout. */
  function WorkerSection(f: Fields, num: nat, kind: Kind): (Fields, Order) {
    if !f.yet then (f, Terminate)
    else if f.tasks == [] then
      if kind.Persistent? then (f, Retry)
      else if num in f.workers then (f.(workers := f.workers - {num}), Leave)
      else (f, LeaveUnknown)
    else (f.(tasks := f.tasks[1..]), Run(f.tasks[0]))
  }

  // ----- the pool object -----

  class ThreadPool {
    var yet: bool
    const settings: Settings
    var index: nat
    var busy: int
    var workers: map<nat, Thread>
    var tasks: seq<Task>

    function View(): Fields
      reads this
    {
      Fields(yet, index, busy, workers, tasks)
    }

    /** The part of the constructor after its checks. */
    constructor (s: Settings)
      requires s.Valid()
      ensures settings == s && View() == HireSection(s, NO_FIELDS, s.init, Persistent)
    {
      yet, index, busy, workers, tasks := true, 0, 0, map[], [];
      settings := s;
      new;
      Hire(s.init, Persistent);
    }

    method Hire(numWorkers: nat, kind: Kind)
      requires settings.Valid()
      modifies this
      ensures View() == HireSection(settings, old(View()), numWorkers, kind)
    {
      var left := numWorkers;
      while left > 0
        invariant HireSection(settings, old(View()), numWorkers, kind) == HireSection(settings, View(), left, kind)
      {
        left := left - 1;
        workers := workers[index := Thread(CoreFor(settings, index), index, kind)];
        index := index + 1;
      }
    }

    /** `CheckResize` run without interruption between reading `PoolBusyWorkers` and hiring. */
    method CheckResize(numWorkers: nat, numTasks: nat)
      requires settings.Valid() && numWorkers < TWO64 && numTasks < TWO64
      modifies this
      ensures View() == HireSection(settings, old(View()), HireCount(settings, numWorkers, numTasks, old(busy)), Extended)
    {
      var available := Wrap64(numWorkers - busy);
      var newWorkerCount := 0;
      if numTasks > available {
        newWorkerCount := Wrap64(Wrap64(Wrap64(numTasks - available) + Wrap64(settings.init - 1)) / settings.init * settings.init);
      }
      if Wrap64(numWorkers + newWorkerCount) > settings.max {
        newWorkerCount := Wrap64(settings.max - numWorkers);
      }
      if newWorkerCount > 0 {
        Hire(newWorkerCount, Extended);
      }
    }

    method Enqueue(task: Task) returns (r: Enqueued)
      modifies this
      ensures (View(), r) == EnqueueSection(old(View()), task)
    {
      if !yet {
        return Stopped;
      }
      tasks := tasks + [task];
      r := Snapshot(|workers|, |tasks|);
    }

    method NextOrder(num: nat, kind: Kind) returns (order: Order)
      modifies this
      ensures (View(), order) == WorkerSection(old(View()), num, kind)
    {
      if !yet {
        return Terminate;
      }
      if tasks == [] {
        if kind == Persistent {
          return Retry;
        }
        if num in workers {
          workers := workers - {num};
          return Leave;
        }
        return LeaveUnknown;
      }
      order := Run(tasks[0]);
      tasks := tasks[1..];
    }

    /** The critical section of Join. */
    method Stop()
      modifies this
      ensures View() == old(View()).(yet := false)
    {
      if yet {
        yet := false;
      }
    }

    method GetState() returns (numWorkers: nat, numAwaitingTasks: nat, numBusy: int)
      ensures numWorkers == |workers| && numAwaitingTasks == |tasks| && numBusy == busy
    {
      numWorkers, numAwaitingTasks, numBusy := |workers|, |tasks|, busy;
    }

    /** The constructor as a whole; null stands for the exception it throws. */
    static method Create(init: nat, max: nat, listed: set<nat>, excluded: set<nat>, hardware: nat) returns (pool: ThreadPool?)
      requires listed != {} ==> hardware > 0
      ensures pool == null <==> init == 0 || max < init || BindingSet(listed, excluded, hardware) == {}
      ensures pool != null ==> fresh(pool) && pool.settings.init == init && pool.settings.max == max
      ensures pool != null ==> Distinct(pool.settings.cores) && Elems(pool.settings.cores) == BindingSet(listed, excluded, hardware)
      ensures pool != null ==> pool.settings.Valid() && pool.View() == HireSection(pool.settings, NO_FIELDS, init, Persistent)
    {
      var cores := BindCores(listed, excluded, hardware);
      assert cores == [] <==> Elems(cores) == {} by {
        if cores != [] {
          assert cores[0] in Elems(cores);
        }
      }
      if cores == [] || init == 0 || max < init {
        return null;
      }
      pool := new ThreadPool(Settings(init, max, cores));
    }
  }

  // ----- core binding -----

  /** The cores to bind to: the listed ones modulo the hardware count, or all of them when
      none is listed, without the excluded ones. */
  function BindingSet(listed: set<nat>, excluded: set<nat>, hardware: nat): (r: set<nat>)
    requires listed != {} ==> hardware > 0
    ensures forall c :: c in r ==> c < hardware && c !in excluded
  {
    (if listed == {} then Below(hardware) else set c | c in listed :: Mod(c, hardware)) - excluded
  }

  /** Which cores these are. */
  lemma BindingSetIs(listed: set<nat>, excluded: set<nat>, hardware: nat, c: nat)
    requires listed != {} ==> hardware > 0
    ensures c in BindingSet(listed, excluded, hardware) <==>
            c !in excluded && if listed == {} then c < hardware else exists co :: co in listed && c == co % hardware
  {
  }

  method AllCores(excluded: set<nat>, hardware: nat) returns (uniqCores: set<nat>)
    ensures uniqCores == Below(hardware) - excluded
  {
    uniqCores := {};
    var maxThreads := hardware;
    while maxThreads > 0
      invariant 0 <= maxThreads <= hardware
      invariant forall c: nat :: c in uniqCores <==> maxThreads <= c < hardware && c !in excluded
    {
      maxThreads := maxThreads - 1;
      if maxThreads !in excluded {
        uniqCores := uniqCores + {maxThreads};
      }
    }
  }

  method ListedCores(listed: set<nat>, excluded: set<nat>, hardware: nat) returns (uniqCores: set<nat>)
    requires hardware > 0
    ensures uniqCores == (set c | c in listed :: Mod(c, hardware)) - excluded
  {
    hide Mod;
    uniqCores := {};
    var rest, done := listed, {};
    while rest != {}
      invariant rest + done == listed
      invariant uniqCores == (set c | c in done :: Mod(c, hardware)) - excluded
      decreases |rest|
    {
      var co :| co in rest;
      rest, done := rest - {co}, done + {co};
      if Mod(co, hardware) !in excluded {
        uniqCores := uniqCores + {Mod(co, hardware)};
      }
    }
    assert done == listed;
  }

  /** The first part of the constructor. A hardware count of 0 with listed cores divides by
      zero in the source. The order of the result is that of an unordered set. */
  method BindCores(listed: set<nat>, excluded: set<nat>, hardware: nat) returns (cores: seq<nat>)
    requires listed != {} ==> hardware > 0
    ensures Elems(cores) == BindingSet(listed, excluded, hardware) && Distinct(cores)
    ensures forall c :: c in cores ==> c < hardware && c !in excluded
  {
    var uniqCores;
    if listed == {} {
      uniqCores := AllCores(excluded, hardware);
    } else {
      uniqCores := ListedCores(listed, excluded, hardware);
    }
    cores := Listing(uniqCores);
    assert forall c :: c in cores ==> c in Elems(cores);
  }

  /** Copies a set into a sequence, in any order. */
  method Listing(uniqCores: set<nat>) returns (cores: seq<nat>)
    ensures Elems(cores) == uniqCores && Distinct(cores)
  {
    cores := [];
    var rest := uniqCores;
    while rest != {}
      invariant forall c :: c in uniqCores <==> c in rest || c in cores
      invariant forall c :: c in cores ==> c !in rest
      invariant Distinct(cores)
      decreases |rest|
    {
      var n :| n in rest;
      rest := rest - {n};
      cores := cores + [n];
    }
  }
}
