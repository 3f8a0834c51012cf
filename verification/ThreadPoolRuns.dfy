/** Runs of the thread pool: one enqueuer, any number of workers, and a stop. The steps are
    the critical sections and the atomic accesses between them. */
module ThreadPoolRuns {
  import opened Bytes
  import opened Sequences
  import opened ThreadPools

  /** Where a worker stands: blocked in `wait_for` (or not started yet), holding a popped task,
      executing it between the increment and the decrement of `PoolBusyWorkers`, or gone.
      Tasks are named by their position in the sequence of popped ones. */
  datatype Pc = Waiting | Holding(pos: nat) | Executing(pos: nat) | Left | LeftUnknown | Terminated

  datatype Worker = Worker(kind: Kind, core: nat, pc: Pc)

  /** Where the enqueuer stands: outside, with the snapshot it took in its critical section,
      with a hire count, or before `notify_one`. */
  datatype Enqueuer = Idle | Resizing(numWorkers: nat, numTasks: nat) | Hiring(count: nat) | Notifying

  /** The pool, its threads, and the history: tasks enqueued, popped, and run to the end. */
  datatype State = State(
    fields: Fields, crew: seq<Worker>, enqueuer: Enqueuer,
    enqueued: seq<Task>, popped: seq<Task>, finished: set<nat>)

  datatype Event = Enqueue(task: Task) | EnqueuerTurn | WorkerTurn(worker: nat) | Stop

  /** Queued closures and live threads each take some bytes, so their numbers stay far below
      the range of `size_t`. */
  const MEMORY: nat := 0x4000_0000_0000_0000

  function Hired(s: Settings, from: nat, n: nat, kind: Kind): (r: seq<Worker>)
    requires s.Valid()
    ensures |r| == n
    ensures forall i :: 0 <= i < n ==> r[i] == Worker(kind, CoreFor(s, from + i), Waiting)
  {
    seq(n, i requires 0 <= i => Worker(kind, CoreFor(s, from + i), Waiting))
  }

  /** The state the constructor leaves. */
  function Initial(s: Settings): State
    requires s.Valid()
  {
    State(HireSection(s, NO_FIELDS, s.init, Persistent), Hired(s, 0, s.init, Persistent), Idle, [], [], {})
  }

  /** The kernel's main loop is both the only enqueuer and the one that stops the pool, so a
      stop happens only between two calls of Enqueue. */
  predicate Enabled(t: State, e: Event) {
    match e
    case Enqueue(_) => t.enqueuer.Idle? && t.fields.yet && |t.fields.tasks| < MEMORY && |t.fields.workers| < MEMORY
    case EnqueuerTurn => !t.enqueuer.Idle?
    case WorkerTurn(w) => w < |t.crew| && (t.crew[w].pc.Waiting? || t.crew[w].pc.Holding? || t.crew[w].pc.Executing?)
    case Stop => t.enqueuer.Idle? && t.fields.yet
  }

  function SetPc(t: State, w: nat, pc: Pc): State
    requires w < |t.crew|
  {
    t.(crew := t.crew[w := t.crew[w].(pc := pc)])
  }

  function WorkerTurnOf(t: State, w: nat): State
    requires Enabled(t, WorkerTurn(w))
  {
    match t.crew[w].pc
    case Holding(pos) => SetPc(t, w, Executing(pos)).(fields := t.fields.(busy := t.fields.busy + 1))
    case Executing(pos) =>
      SetPc(t, w, Waiting).(fields := t.fields.(busy := t.fields.busy - 1), finished := t.finished + {pos})
    case Waiting =>
      var (f, order) := WorkerSection(t.fields, w, t.crew[w].kind);
      (match order
       case Terminate => SetPc(t, w, Terminated)
       case Retry => SetPc(t, w, Waiting)
       case Leave => SetPc(t, w, Left).(fields := f)
       case LeaveUnknown => SetPc(t, w, LeftUnknown)
       case Run(task) => SetPc(t, w, Holding(|t.popped|)).(fields := f, popped := t.popped + [task]))
    case _ => t
  }

  function EnqueuerTurnOf(s: Settings, t: State): State
    requires s.Valid()
  {
    match t.enqueuer
    case Resizing(numWorkers, numTasks) =>
      var n := HireCount(s, numWorkers, numTasks, t.fields.busy);
      t.(enqueuer := if n > 0 then Hiring(n) else Notifying)
    case Hiring(n) =>
      t.(fields := HireSection(s, t.fields, n, Extended),
         crew := t.crew + Hired(s, t.fields.index, n, Extended), enqueuer := Notifying)
    case Notifying => t.(enqueuer := Idle)
    case Idle => t
  }

  function Apply(s: Settings, t: State, e: Event): State
    requires s.Valid() && Enabled(t, e)
  {
    match e
    case Enqueue(task) =>
      var (f, r) := EnqueueSection(t.fields, task);
      t.(fields := f, enqueuer := Resizing(r.numWorkers, r.numTasks), enqueued := t.enqueued + [task])
    case EnqueuerTurn => EnqueuerTurnOf(s, t)
    case WorkerTurn(w) => WorkerTurnOf(t, w)
    case Stop => t.(fields := t.fields.(yet := false))
  }

  ghost predicate Follows(s: Settings, t: State, u: State)
    requires s.Valid()
  {
    exists e :: Enabled(t, e) && u == Apply(s, t, e)
  }

  ghost predicate IsRun(s: Settings, run: seq<State>): (r: bool)
    requires s.Valid()
    ensures r ==> run != []
  {
    run != [] && run[0] == Initial(s) && forall k :: 0 < k < |run| ==> Follows(s, run[k - 1], run[k])
  }

  // ----- what every run keeps -----

  function Registered(): Worker -> bool {
    (w: Worker) => w.pc != Left
  }

  function Busy(): Worker -> bool {
    (w: Worker) => w.pc.Executing?
  }

  function Carrying(): Worker -> bool {
    (w: Worker) => HasTask(w)
  }

  /** Worker number `w`: the first `init` ones are persistent and never leave, the later ones
      are extended; it is bound to its core; a timed-out worker always found itself registered;
      and it terminates only after the stop. */
  predicate WorkerOk(s: Settings, yet: bool, w: nat, x: Worker)
    requires s.Valid()
  {
    && x.kind == (if w < s.init then Persistent else Extended)
    && x.core == CoreFor(s, w)
    && (x.pc == Left ==> x.kind == Extended)
    && x.pc != LeftUnknown
    && (x.pc == Terminated ==> !yet)
  }

  /** The registered threads are those that have not left, and `PoolBusyWorkers` counts the
      workers between increment and decrement. */
  ghost predicate CrewInv(s: Settings, f: Fields, crew: seq<Worker>)
    requires s.Valid()
  {
    && |crew| == f.index
    && (forall w: nat :: w in f.workers <==> w < |crew| && crew[w].pc != Left)
    && |f.workers| == Count(crew, Registered())
    && f.busy == Count(crew, Busy())
    && (forall w: nat :: w < |crew| ==> WorkerOk(s, f.yet, w, crew[w]))
  }

  /** The pool size and what the enqueuer plans stay within the maximum; its snapshot is never
      below the current size, because only the enqueuer registers workers. */
  predicate SizeInv(s: Settings, size: nat, enqueuer: Enqueuer) {
    && size <= s.max
    && match enqueuer
       case Resizing(numWorkers, numTasks) =>
         size <= numWorkers <= s.max && numWorkers < MEMORY && numTasks <= MEMORY && s.init < MEMORY
       case Hiring(n) => size + n <= s.max
       case _ => true
  }

  predicate HasTask(x: Worker) {
    x.pc.Holding? || x.pc.Executing?
  }

  predicate Holds(x: Worker, pos: nat) {
    HasTask(x) && x.pc.pos == pos
  }

  predicate Held(crew: seq<Worker>, pos: nat) {
    exists w :: 0 <= w < |crew| && Holds(crew[w], pos)
  }

  /** Each of the `n` popped tasks is either finished or in the hands of a worker, of one. */
  ghost predicate HolderInv(crew: seq<Worker>, n: nat, finished: set<nat>) {
    && (forall pos :: pos in finished ==> pos < n)
    && (forall w :: 0 <= w < |crew| && HasTask(crew[w]) ==> crew[w].pc.pos < n && crew[w].pc.pos !in finished)
    && (forall v, w :: 0 <= v < w < |crew| && HasTask(crew[v]) && HasTask(crew[w]) ==> crew[v].pc.pos != crew[w].pc.pos)
    && (forall pos: nat :: pos < n && pos !in finished ==> Held(crew, pos))
  }

  /** What is registered for thread number `w`: the core it is bound to, its number and kind. */
  function RecordOf(s: Settings, w: nat): Thread
    requires s.Valid()
  {
    Thread(CoreFor(s, w), w, if w < s.init then Persistent else Extended)
  }

  /** Every registered thread has its record. */
  ghost predicate RecordsInv(s: Settings, f: Fields)
    requires s.Valid()
  {
    forall w: nat :: w in f.workers ==> f.workers[w] == RecordOf(s, w)
  }

  ghost predicate Inv(s: Settings, t: State)
    requires s.Valid()
  {
    && CrewInv(s, t.fields, t.crew) && |t.crew| >= s.init && RecordsInv(s, t.fields)
    && SizeInv(s, |t.fields.workers|, t.enqueuer)
    && t.popped + t.fields.tasks == t.enqueued
    && HolderInv(t.crew, |t.popped|, t.finished)
  }

  // ----- hiring -----

  lemma HireOneAdds(s: Settings, f: Fields, kind: Kind)
    requires s.Valid() && f.index !in f.workers
    ensures var h := HireOne(s, f, kind);
            && h.yet == f.yet && h.busy == f.busy && h.tasks == f.tasks && h.index == f.index + 1
            && h.workers.Keys == f.workers.Keys + {f.index} && |h.workers| == |f.workers| + 1
  {
    hide CoreFor;
    var h := HireOne(s, f, kind);
    assert h.workers.Keys == f.workers.Keys + {f.index};
  }

  lemma {:induction false} HireSectionAdds(s: Settings, f: Fields, n: nat, kind: Kind)
    requires s.Valid() && forall w :: w in f.workers ==> w < f.index
    ensures var g := HireSection(s, f, n, kind);
            && g.yet == f.yet && g.busy == f.busy && g.tasks == f.tasks && g.index == f.index + n
            && (forall w: nat :: w in g.workers <==> w in f.workers || f.index <= w < f.index + n)
            && |g.workers| == |f.workers| + n
    decreases n
  {
    if n > 0 {
      var h := HireOne(s, f, kind);
      HireOneAdds(s, f, kind);
      hide HireOne;
      assert forall w :: w in h.workers <==> w in h.workers.Keys;
      HireSectionAdds(s, h, n - 1, kind);
    }
  }

  /** New threads get their records. */
  lemma {:induction false} HireKeepsRecords(s: Settings, f: Fields, n: nat, kind: Kind)
    requires s.Valid() && RecordsInv(s, f)
    requires if kind == Persistent then f.index + n <= s.init else s.init <= f.index
    ensures RecordsInv(s, HireSection(s, f, n, kind))
    decreases n
  {
    hide CoreFor;
    if n > 0 {
      HireKeepsRecords(s, HireOne(s, f, kind), n - 1, kind);
    }
  }

  lemma TurnKeepsRecords(s: Settings, t: State, w: nat)
    requires s.Valid() && Enabled(t, WorkerTurn(w)) && RecordsInv(s, t.fields)
    ensures RecordsInv(s, WorkerTurnOf(t, w).fields)
  {
    hide RecordOf;
  }

  /** New workers are waiting: all are registered, and none has a task. */
  lemma CountHired(crew: seq<Worker>, more: seq<Worker>)
    requires forall i :: 0 <= i < |more| ==> more[i].pc == Waiting
    ensures Count(crew + more, Registered()) == Count(crew, Registered()) + |more|
    ensures Count(crew + more, Busy()) == Count(crew, Busy())
    ensures Count(crew + more, Carrying()) == Count(crew, Carrying())
  {
    CountConcat(crew, more, Registered());
    CountConcat(crew, more, Busy());
    CountConcat(crew, more, Carrying());
    CountAll(more, Registered());
    CountPositive(more, Busy());
    CountPositive(more, Carrying());
  }

  lemma HiredOk(s: Settings, f: Fields, crew: seq<Worker>, n: nat, kind: Kind, w: nat)
    requires s.Valid() && CrewInv(s, f, crew) && w < f.index + n
    requires if kind == Persistent then f.index + n <= s.init else s.init <= f.index
    ensures WorkerOk(s, f.yet, w, (crew + Hired(s, f.index, n, kind))[w])
  {
    var more := Hired(s, f.index, n, kind);
    hide Hired;
    hide CoreFor;
    if w < |crew| {
      assert WorkerOk(s, f.yet, w, crew[w]);
    } else {
      assert (crew + more)[w] == more[w - |crew|] == Worker(kind, CoreFor(s, f.index + (w - |crew|)), Waiting);
    }
  }

  lemma HireKeepsCrew(s: Settings, f: Fields, crew: seq<Worker>, n: nat, kind: Kind)
    requires s.Valid() && CrewInv(s, f, crew)
    requires if kind == Persistent then f.index + n <= s.init else s.init <= f.index
    ensures CrewInv(s, HireSection(s, f, n, kind), crew + Hired(s, f.index, n, kind))
    ensures |HireSection(s, f, n, kind).workers| == |f.workers| + n && HireSection(s, f, n, kind).tasks == f.tasks
  {
    hide HireSection;
    hide CoreFor;
    hide Count;
    hide WorkerOk;
    var g, more := HireSection(s, f, n, kind), Hired(s, f.index, n, kind);
    hide Hired;
    HireSectionAdds(s, f, n, kind);
    CountHired(crew, more);
    forall w: nat | w < |crew + more| ensures WorkerOk(s, g.yet, w, (crew + more)[w]) {
      HiredOk(s, f, crew, n, kind, w);
    }
  }

  lemma HireKeepsHolders(crew: seq<Worker>, more: seq<Worker>, n: nat, finished: set<nat>)
    requires HolderInv(crew, n, finished) && forall i :: 0 <= i < |more| ==> more[i].pc == Waiting
    ensures HolderInv(crew + more, n, finished)
  {
    forall pos: nat | Held(crew, pos) ensures Held(crew + more, pos) {
      var w :| 0 <= w < |crew| && Holds(crew[w], pos);
      assert Holds((crew + more)[w], pos);
    }
    hide Held;
  }

  lemma NoCrew(s: Settings)
    requires s.Valid()
    ensures CrewInv(s, NO_FIELDS, []) && HolderInv([], 0, {})
  {
  }

  lemma InitialInv(s: Settings)
    requires s.Valid()
    ensures Inv(s, Initial(s))
  {
    hide HireSection;
    hide Hired;
    hide CrewInv;
    hide HolderInv;
    NoCrew(s);
    var crew := Hired(s, 0, s.init, Persistent);
    assert [] + crew == crew;
    HireKeepsCrew(s, NO_FIELDS, [], s.init, Persistent);
    HireKeepsRecords(s, NO_FIELDS, s.init, Persistent);
    HireKeepsHolders([], crew, 0, {});
  }

  lemma CrewIsNumbered(s: Settings, f: Fields, crew: seq<Worker>)
    requires s.Valid() && CrewInv(s, f, crew)
    ensures |crew| == f.index
  {
  }

  lemma HireInv(s: Settings, t: State)
    requires s.Valid() && Inv(s, t) && t.enqueuer.Hiring?
    ensures Inv(s, EnqueuerTurnOf(s, t))
  {
    hide HireSection;
    hide Hired;
    hide CrewInv;
    hide HolderInv;
    hide RecordsInv;
    var n := t.enqueuer.count;
    var u, more := EnqueuerTurnOf(s, t), Hired(s, t.fields.index, n, Extended);
    assert u.crew == t.crew + more && u.fields == HireSection(s, t.fields, n, Extended) && u.enqueuer == Notifying;
    assert u.popped == t.popped && u.enqueued == t.enqueued && u.finished == t.finished;
    hide EnqueuerTurnOf;
    CrewIsNumbered(s, t.fields, t.crew);
    HireKeepsCrew(s, t.fields, t.crew, n, Extended);
    HireKeepsRecords(s, t.fields, n, Extended);
    HireKeepsHolders(t.crew, more, |t.popped|, t.finished);
  }

  /** The number of busy workers never exceeds the number of registered ones. */
  lemma BusyAtMostRegistered(s: Settings, f: Fields, crew: seq<Worker>)
    requires s.Valid() && CrewInv(s, f, crew)
    ensures 0 <= f.busy <= |f.workers|
  {
    CountWeaker(crew, Busy(), Registered());
  }

  /** At least the persistent workers are registered. */
  lemma InitAtMostRegistered(s: Settings, f: Fields, crew: seq<Worker>)
    requires s.Valid() && CrewInv(s, f, crew) && s.init <= |crew|
    ensures s.init <= |f.workers|
  {
    assert forall w: nat :: w < s.init ==> WorkerOk(s, f.yet, w, crew[w]);
    CountAtLeast(crew, s.init, Registered());
  }

  lemma ResizeInv(s: Settings, t: State)
    requires s.Valid() && s.max < TWO64 && Inv(s, t) && t.enqueuer.Resizing?
    ensures Inv(s, EnqueuerTurnOf(s, t))
  {
    BusyAtMostRegistered(s, t.fields, t.crew);
    HiringIsSufficientAndMinimal(s, t.enqueuer.numWorkers, t.enqueuer.numTasks, t.fields.busy, 0);
    hide HireCount;
    hide CrewInv;
    hide HolderInv;
  }

  lemma EnqueueInv(s: Settings, t: State, task: Task)
    requires s.Valid() && Inv(s, t) && Enabled(t, Enqueue(task))
    ensures Inv(s, Apply(s, t, Enqueue(task)))
  {
    InitAtMostRegistered(s, t.fields, t.crew);
    assert t.popped + (t.fields.tasks + [task]) == t.enqueued + [task];
    assert CrewInv(s, Apply(s, t, Enqueue(task)).fields, t.crew);
    hide CrewInv;
    hide HolderInv;
  }

  lemma StopInv(s: Settings, t: State)
    requires s.Valid() && Inv(s, t)
    ensures Inv(s, t.(fields := t.fields.(yet := false)))
  {
    forall w: nat | w < |t.crew| ensures WorkerOk(s, false, w, t.crew[w]) {
      assert WorkerOk(s, t.fields.yet, w, t.crew[w]);
    }
    hide WorkerOk;
    hide Count;
    hide HolderInv;
  }

  // ----- workers -----

  /** Changing one worker changes who holds a task only through that worker. */
  lemma HeldAfter(crew: seq<Worker>, w: nat, x: Worker, pos: nat)
    requires w < |crew|
    ensures Holds(x, pos) ==> Held(crew[w := x], pos)
    ensures Held(crew, pos) && !Holds(crew[w], pos) ==> Held(crew[w := x], pos)
  {
    if Holds(x, pos) {
      assert Holds(crew[w := x][w], pos);
    }
    if Held(crew, pos) && !Holds(crew[w], pos) {
      var v :| 0 <= v < |crew| && Holds(crew[v], pos);
      assert Holds(crew[w := x][v], pos);
    }
  }

  /** A turn that hands worker `w` the next task, or lets it keep or finish the one it has. */
  lemma HoldersAfter(crew: seq<Worker>, w: nat, x: Worker, n: nat, finished: set<nat>, m: nat, finished': set<nat>)
    requires HolderInv(crew, n, finished) && w < |crew|
    requires
      || (m == n && finished' == finished && HasTask(crew[w]) && Holds(x, crew[w].pc.pos))
      || (m == n && finished' == finished && !HasTask(crew[w]) && !HasTask(x))
      || (m == n && HasTask(crew[w]) && !HasTask(x) && finished' == finished + {crew[w].pc.pos})
      || (m == n + 1 && finished' == finished && !HasTask(crew[w]) && Holds(x, n))
    ensures HolderInv(crew[w := x], m, finished')
  {
    forall pos: nat | pos < m && pos !in finished' ensures Held(crew[w := x], pos) {
      HeldAfter(crew, w, x, pos);
    }
    hide Held;
  }

  lemma TaskIsOpen(crew: seq<Worker>, n: nat, finished: set<nat>, w: nat)
    requires HolderInv(crew, n, finished) && w < |crew| && HasTask(crew[w])
    ensures crew[w].pc.pos < n && crew[w].pc.pos !in finished
  {
    hide Held;
  }

  lemma TurnKeepsHolders(s: Settings, t: State, w: nat)
    requires Enabled(t, WorkerTurn(w)) && HolderInv(t.crew, |t.popped|, t.finished)
    ensures var u := WorkerTurnOf(t, w);
            HolderInv(u.crew, |u.popped|, u.finished)
  {
    var u := WorkerTurnOf(t, w);
    assert u.crew == t.crew[w := u.crew[w]];
    hide HolderInv;
    HoldersAfter(t.crew, w, u.crew[w], |t.popped|, t.finished, |u.popped|, u.finished);
  }

  /** Registration and counters after the turn of one worker. */
  lemma CrewAfter(s: Settings, f: Fields, crew: seq<Worker>, w: nat, g: Fields, x: Worker)
    requires s.Valid() && CrewInv(s, f, crew) && w < |crew| && crew[w].pc != Left
    requires TurnEffect(s, f, w, crew[w], g, x)
    ensures CrewInv(s, g, crew[w := x]) && |g.workers| <= |f.workers|
  {
    hide Count;
    hide WorkerOk;
    CountUpdate(crew, w, x, Registered());
    CountUpdate(crew, w, x, Busy());
    if x.pc == Left {
      assert |f.workers.Keys - {w}| == |f.workers.Keys| - 1;
      assert g.workers.Keys == f.workers.Keys - {w};
    }
  }

  /** What the turn of a worker does to the fields and to itself. */
  predicate TurnEffect(s: Settings, f: Fields, w: nat, before: Worker, g: Fields, x: Worker)
    requires s.Valid()
  {
    && g.yet == f.yet && g.index == f.index && WorkerOk(s, f.yet, w, x)
    && g.workers == (if x.pc == Left then f.workers - {w} else f.workers)
    && g.busy == f.busy - (if before.pc.Executing? then 1 else 0) + (if x.pc.Executing? then 1 else 0)
  }

  /** A worker back from its wait, registered as it is. */
  lemma WaitingTurn(s: Settings, t: State, w: nat)
    requires s.Valid() && w < |t.crew| && t.crew[w].pc.Waiting?
    requires WorkerOk(s, t.fields.yet, w, t.crew[w]) && w in t.fields.workers
    ensures var u := WorkerTurnOf(t, w);
            TurnEffect(s, t.fields, w, t.crew[w], u.fields, u.crew[w])
  {
    hide CoreFor;
  }

  lemma TaskTurn(s: Settings, t: State, w: nat)
    requires s.Valid() && Enabled(t, WorkerTurn(w)) && !t.crew[w].pc.Waiting?
    requires WorkerOk(s, t.fields.yet, w, t.crew[w])
    ensures var u := WorkerTurnOf(t, w);
            TurnEffect(s, t.fields, w, t.crew[w], u.fields, u.crew[w])
  {
    hide CoreFor;
  }

  lemma TurnKeepsCrew(s: Settings, t: State, w: nat)
    requires s.Valid() && Enabled(t, WorkerTurn(w)) && CrewInv(s, t.fields, t.crew)
    ensures var u := WorkerTurnOf(t, w);
            CrewInv(s, u.fields, u.crew) && |u.fields.workers| <= |t.fields.workers|
  {
    assert WorkerOk(s, t.fields.yet, w, t.crew[w]) && w in t.fields.workers;
    assert WorkerTurnOf(t, w).crew == t.crew[w := WorkerTurnOf(t, w).crew[w]];
    hide CrewInv;
    hide WorkerOk;
    hide WorkerTurnOf;
    if t.crew[w].pc.Waiting? {
      WaitingTurn(s, t, w);
    } else {
      TaskTurn(s, t, w);
    }
    var u := WorkerTurnOf(t, w);
    CrewAfter(s, t.fields, t.crew, w, u.fields, u.crew[w]);
  }

  lemma TurnKeepsQueue(t: State, w: nat)
    requires Enabled(t, WorkerTurn(w)) && t.popped + t.fields.tasks == t.enqueued
    ensures var u := WorkerTurnOf(t, w);
            u.popped + u.fields.tasks == u.enqueued && u.enqueuer == t.enqueuer && |u.crew| == |t.crew|
  {
    var q := t.fields.tasks;
    assert q != [] ==> t.popped + [q[0]] + q[1..] == t.popped + q;
  }

  lemma TurnInv(s: Settings, t: State, w: nat)
    requires s.Valid() && Inv(s, t) && Enabled(t, WorkerTurn(w))
    ensures Inv(s, WorkerTurnOf(t, w))
  {
    hide HolderInv;
    hide CrewInv;
    hide WorkerTurnOf;
    TurnKeepsHolders(s, t, w);
    TurnKeepsCrew(s, t, w);
    TurnKeepsRecords(s, t, w);
    hide RecordsInv;
    TurnKeepsQueue(t, w);
  }

  lemma InvStep(s: Settings, t: State, e: Event)
    requires s.Valid() && s.max < TWO64 && Inv(s, t) && Enabled(t, e)
    ensures Inv(s, Apply(s, t, e))
  {
    if e.Enqueue? {
      EnqueueInv(s, t, e.task);
    } else if e.Stop? {
      StopInv(s, t);
    } else if e.WorkerTurn? {
      TurnInv(s, t, e.worker);
    } else if t.enqueuer.Resizing? {
      ResizeInv(s, t);
    } else if t.enqueuer.Hiring? {
      HireInv(s, t);
    } else {
      assert EnqueuerTurnOf(s, t) == t.(enqueuer := Idle);
    }
    hide CrewInv;
    hide HolderInv;
    hide EnqueuerTurnOf;
    hide WorkerTurnOf;
  }

  lemma {:induction false} InvInEveryRun(s: Settings, run: seq<State>, k: nat)
    requires s.Valid() && s.max < TWO64 && IsRun(s, run) && k < |run|
    ensures Inv(s, run[k])
  {
    if k == 0 {
      InitialInv(s);
    } else {
      hide Inv;
      hide Apply;
      InvInEveryRun(s, run, k - 1);
      assert Follows(s, run[k - 1], run[k]);
      var e :| Enabled(run[k - 1], e) && run[k] == Apply(s, run[k - 1], e);
      InvStep(s, run[k - 1], e);
    }
  }
}
