/**
 worker_pool_t as a state machine: workers and submitters interleave one atomic action at a time
 over the locked queue, the in-flight counter, the stopping flag and the doorbell.
 */
module WorkerPool {
  import opened Arith

  /** Where a worker is in worker_loop. `last` counts rings; the doorbell itself keeps it modulo 2^32. */
  datatype WorkerPc =
    | Top                   // about to ask whether it should stop
    | Fetch                 // about to take the lock
    | Running(task: nat)    // popped the task
    | Ran(task: nat)        // task() returned or threw; counter not yet decremented
    | Snapped(last: nat)    // queue was empty, sequence read under the lock
    | Waiting(last: nat)    // past the stop checks, in bell_.wait(last), comparing
    | Asleep(last: nat)     // blocked until notified
    | Exited

  /** Where a thread is in submit. */
  datatype SubmitterPc =
    | Idle
    | Counted(task: nat)    // in_flight_ incremented
    | Pushed                // task in the queue, lock released
    | Rung                  // sequence incremented, notify_one still to come

  /** Where the destructor is. */
  datatype CloserPc =
    | Alive
    | Draining              // wait_idle
    | Drained               // wait_idle saw no positive count
    | StopSet               // stopping_ stored
    | RungAll               // ring_all: sequence incremented, notify_all still to come
    | Joining               // stop requested and joined thread by thread

  /** Life of a task, for the bookkeeping of the proofs. */
  datatype Stage = AtSubmitter(s: nat) | Queued | AtWorker(w: nat) | Executed

  /** `inFlight` is the value of the 32-bit counter, `next` the number of submissions begun. */
  datatype State = State(
    workers: map<nat, WorkerPc>,
    submitters: map<nat, SubmitterPc>,
    queue: seq<nat>,
    inFlight: int,
    rings: nat,
    stopping: bool,
    token: set<nat>,
    closer: CloserPc,
    next: nat,
    pushed: seq<nat>,
    started: seq<nat>,
    executed: seq<nat>,
    stage: map<nat, Stage>)

  /** One atomic action of one thread; the scheduler picks them in any order. */
  datatype Step =
    | WTop(w: nat) | WFetch(w: nat) | WRun(w: nat) | WDone(w: nat)
    | WCheck(w: nat) | WCompare(w: nat) | WSpurious(w: nat)
    | SCount(s: nat) | SPush(s: nat) | SRing(s: nat) | SNotify(s: nat, woken: Option<nat>)
    | DBegin | DIdle | DStop | DRingAll | DNotifyAll | DRequestStop(w: nat)

  predicate WorkerStep(step: Step) {
    step.WTop? || step.WFetch? || step.WRun? || step.WDone? || step.WCheck? || step.WCompare? || step.WSpurious?
  }

  predicate AnyAsleep(st: State) {
    exists w :: w in st.workers && st.workers[w].Asleep?
  }

  /** The doorbell's test: equality of 32-bit sequence numbers. */
  predicate SameSeq(rings: nat, last: nat) {
    rings % TWO_32 == last % TWO_32
  }

  /** What an int holds after arithmetic that wraps in two's complement. */
  function Signed32(x: int): (v: int)
    ensures 0 - TWO_31 <= v < TWO_31
  {
    if x % TWO_32 < TWO_31 then x % TWO_32 else x % TWO_32 - TWO_32
  }

  predicate Enabled(st: State, step: Step) {
    match step
    case WTop(w) => w in st.workers && st.workers[w].Top?
    case WFetch(w) => w in st.workers && st.workers[w].Fetch?
    case WRun(w) => w in st.workers && st.workers[w].Running?
    case WDone(w) => w in st.workers && st.workers[w].Ran?
    case WCheck(w) => w in st.workers && st.workers[w].Snapped?
    case WCompare(w) => w in st.workers && st.workers[w].Waiting?
    case WSpurious(w) => w in st.workers && st.workers[w].Asleep?
    case SCount(s) => s in st.submitters && st.submitters[s].Idle? && st.closer.Alive?
    case SPush(s) => s in st.submitters && st.submitters[s].Counted?
    case SRing(s) => s in st.submitters && st.submitters[s].Pushed?
    case SNotify(s, woken) =>
      && s in st.submitters && st.submitters[s].Rung?
      && (match woken
          case None => !AnyAsleep(st)
          case Some(w) => w in st.workers && st.workers[w].Asleep?)
    case DBegin => st.closer.Alive? && forall s :: s in st.submitters ==> st.submitters[s].Idle?
    case DIdle => st.closer.Draining? && st.inFlight <= 0
    case DStop => st.closer.Drained?
    case DRingAll => st.closer.StopSet?
    case DNotifyAll => st.closer.RungAll?
    case DRequestStop(w) => st.closer.Joining? && w in st.workers
  }

  function SetW(st: State, w: nat, pc: WorkerPc): State {
    st.(workers := st.workers[w := pc])
  }

  function SetS(st: State, s: nat, pc: SubmitterPc): State {
    st.(submitters := st.submitters[s := pc])
  }

  /** notify_all: every sleeper goes back to comparing. */
  function WakeAll(workers: map<nat, WorkerPc>): (r: map<nat, WorkerPc>)
    ensures r.Keys == workers.Keys
  {
    map w | w in workers :: if workers[w].Asleep? then Waiting(workers[w].last) else workers[w]
  }

  function Do(st: State, step: Step): (st': State)
    requires Enabled(st, step)
  {
    match step
    case WTop(w) => SetW(st, w, if w in st.token then Exited else Fetch)
    case WFetch(w) =>
      if st.queue != [] then
        SetW(st, w, Running(st.queue[0]))
        .(queue := st.queue[1..], started := st.started + [st.queue[0]], stage := st.stage[st.queue[0] := AtWorker(w)])
      else SetW(st, w, Snapped(st.rings))
    case WRun(w) =>
      var t := st.workers[w].task;
      SetW(st, w, Ran(t)).(executed := st.executed + [t], stage := st.stage[t := Executed])
    case WDone(w) => SetW(st, w, Top).(inFlight := Signed32(st.inFlight - 1))
    case WCheck(w) => SetW(st, w, if w in st.token || st.stopping then Exited else Waiting(st.workers[w].last))
    case WCompare(w) =>
      var last := st.workers[w].last;
      SetW(st, w, if SameSeq(st.rings, last) then Asleep(last) else Top)
    case WSpurious(w) => SetW(st, w, Waiting(st.workers[w].last))
    case SCount(s) =>
      SetS(st, s, Counted(st.next))
      .(inFlight := Signed32(st.inFlight + 1), next := st.next + 1, stage := st.stage[st.next := AtSubmitter(s)])
    case SPush(s) =>
      var t := st.submitters[s].task;
      SetS(st, s, Pushed).(queue := st.queue + [t], pushed := st.pushed + [t], stage := st.stage[t := Queued])
    case SRing(s) => SetS(st, s, Rung).(rings := st.rings + 1)
    case SNotify(s, woken) =>
      (match woken
       case None => SetS(st, s, Idle)
       case Some(w) => SetW(SetS(st, s, Idle), w, Waiting(st.workers[w].last)))
    case DBegin => st.(closer := Draining)
    case DIdle => st.(closer := Drained)
    case DStop => st.(stopping := true, closer := StopSet)
    case DRingAll => st.(rings := st.rings + 1, closer := RungAll)
    case DNotifyAll => st.(workers := WakeAll(st.workers), closer := Joining)
    case DRequestStop(w) => st.(token := st.token + {w})
  }

  /** A fresh pool with the given workers, and the threads that may submit to it. */
  function Init(ws: set<nat>, ss: set<nat>): (st: State) {
    State(map w | w in ws :: Top, map s | s in ss :: Idle, [], 0, 0, false, {}, Alive, 0, [], [], [], map[])
  }

  /** Snapshots are young: fewer than 2^32 rings since any worker read the sequence. */
  ghost predicate Young(st: State) {
    forall w :: w in st.workers ==> match st.workers[w]
      case Snapped(last) => st.rings - last < TWO_32
      case Waiting(last) => st.rings - last < TWO_32
      case Asleep(last) => st.rings - last < TWO_32
      case _ => true
  }

  /** A schedule that can be run from st ... */
  ghost predicate Legal(st: State, steps: seq<Step>)
    decreases |steps|
  {
    steps != [] ==> Enabled(st, steps[0]) && Legal(Do(st, steps[0]), steps[1..])
  }

  function Exec(st: State, steps: seq<Step>): (st': State)
    requires Legal(st, steps)
    decreases |steps|
  {
    if steps == [] then st else Exec(Do(st, steps[0]), steps[1..])
  }

  /** ... in which no snapshot outlives 2^32 - 1 rings. */
  ghost predicate YoungRun(st: State, steps: seq<Step>)
    requires Legal(st, steps)
    decreases |steps|
  {
    Young(st) && (steps != [] ==> YoungRun(Do(st, steps[0]), steps[1..]))
  }

  // ---- accounting ----

  /** The threads at places of one kind. */
  ghost function At<T>(threads: map<nat, T>, place: T -> bool): (ids: set<nat>) {
    set k | k in threads && place(threads[k])
  }

  /** Moving one thread adds it, removes it, or leaves the set alone. */
  lemma AtUpdate<T>(threads: map<nat, T>, place: T -> bool, k: nat, pc: T)
    requires k in threads
    ensures |At(threads[k := pc], place)| + (if place(threads[k]) then 1 else 0)
         == |At(threads, place)| + (if place(pc) then 1 else 0)
  {
    var old', new' := At(threads, place), At(threads[k := pc], place);
    if place(pc) == place(threads[k]) {
      assert new' == old';
    } else if place(pc) {
      assert new' == old' + {k};
    } else {
      assert old' == new' + {k};
    }
  }

  predicate HasTask(pc: WorkerPc) {
    pc.Running? || pc.Ran?
  }

  predicate BeforePush(pc: SubmitterPc) {
    pc.Counted?
  }

  predicate BeforeRing(pc: SubmitterPc) {
    pc.Counted? || pc.Pushed?
  }

  /** Tasks queued, in a worker's hands, or between counter and push. */
  ghost function Outstanding(st: State): (n: nat) {
    |st.queue| + |At(st.workers, HasTask)| + |At(st.submitters, BeforePush)|
  }

  /** in_flight_ is the number of outstanding tasks in 32-bit arithmetic. */
  ghost predicate Accounted(st: State) {
    st.inFlight == Signed32(Outstanding(st)) && Outstanding(st) <= st.next
  }

  /** Only submissions add to the outstanding tasks, only finished tasks are taken off. */
  lemma OutstandingStep(st: State, step: Step)
    requires Enabled(st, step)
    ensures Outstanding(Do(st, step))
         == Outstanding(st) + if step.SCount? then 1 else if step.WDone? then -1 else 0
  {
    var st' := Do(st, step);
    if WorkerStep(step) {
      AtUpdate(st.workers, HasTask, step.w, st'.workers[step.w]);
    } else if step.SCount? || step.SPush? || step.SRing? {
      AtUpdate(st.submitters, BeforePush, step.s, st'.submitters[step.s]);
    } else if step.SNotify? {
      AtUpdate(st.submitters, BeforePush, step.s, Idle);
      if step.woken.Some? { AtUpdate(st.workers, HasTask, step.woken.value, st'.workers[step.woken.value]); }
    } else if step.DNotifyAll? {
      assert At(st'.workers, HasTask) == At(st.workers, HasTask);
    }
  }

  /** Wrapping at every step is wrapping once. */
  lemma SignedAdd(x: int, d: int)
    ensures Signed32(Signed32(x) + d) == Signed32(x + d)
  {
    var q := x / TWO_32;
    var v := Signed32(x);
    assert x == q * TWO_32 + v || x == (q + 1) * TWO_32 + v;
  }

  lemma AccountedStep(st: State, step: Step)
    requires Accounted(st) && Enabled(st, step)
    ensures Accounted(Do(st, step))
  {
    OutstandingStep(st, step);
    SignedAdd(Outstanding(st), 1);
    SignedAdd(Outstanding(st), -1);
  }

  // ---- life of a task ----

  ghost predicate NoDup(q: seq<nat>) {
    forall i, j :: 0 <= i < j < |q| ==> q[i] != q[j]
  }

  /** Every task is in exactly one place; the queue is first in, first out; nothing runs twice. */
  ghost predicate Tracked(st: State) {
    && (forall t: nat :: t in st.stage <==> t < st.next)
    && HeldBySubmitters(st) && HeldByWorkers(st)
    && NoDup(st.queue) && (forall t :: t in st.queue <==> t in st.stage && st.stage[t] == Queued)
    && NoDup(st.executed) && (forall t :: t in st.executed <==> t in st.stage && st.stage[t] == Executed)
    && st.pushed == st.started + st.queue
  }

  ghost predicate HeldBySubmitters(st: State) {
    && (forall s :: s in st.submitters && st.submitters[s].Counted? ==>
          st.submitters[s].task in st.stage && st.stage[st.submitters[s].task] == AtSubmitter(s))
    && (forall t :: t in st.stage && st.stage[t].AtSubmitter? ==>
          st.stage[t].s in st.submitters && st.submitters[st.stage[t].s] == Counted(t))
  }

  ghost predicate HeldByWorkers(st: State) {
    && (forall w :: w in st.workers && st.workers[w].Running? ==>
          st.workers[w].task in st.stage && st.stage[st.workers[w].task] == AtWorker(w))
    && (forall t :: t in st.stage && st.stage[t].AtWorker? ==>
          st.stage[t].w in st.workers && st.workers[st.stage[t].w] == Running(t))
  }

  lemma TrackedStep(st: State, step: Step)
    requires Tracked(st) && Enabled(st, step)
    ensures Tracked(Do(st, step))
  {
    match step
    case WFetch(w) =>
      if st.queue != [] {
        TrackedPop(st, w);
      } else {
        assert HeldByWorkers(Do(st, step));
      }
    case WRun(w) => TrackedRun(st, w);
    case SPush(s) => TrackedPush(st, s);
    case SCount(s) => TrackedCount(st, s);
    case _ => TrackedIdle(st, step);
  }

  lemma TrackedCount(st: State, s: nat)
    requires Tracked(st) && Enabled(st, SCount(s))
    ensures Tracked(Do(st, SCount(s)))
  {
    assert st.next !in st.stage;
  }

  /** Steps that move no task. */
  lemma TrackedIdle(st: State, step: Step)
    requires Tracked(st) && Enabled(st, step)
    requires !step.WFetch? && !step.WRun? && !step.SPush? && !step.SCount?
    ensures Tracked(Do(st, step))
  {
    IdleWorkers(st, step);
    IdleSubmitters(st, step);
  }

  lemma IdleWorkers(st: State, step: Step)
    requires HeldByWorkers(st) && Enabled(st, step)
    requires !step.WFetch? && !step.WRun? && !step.SPush? && !step.SCount?
    ensures HeldByWorkers(Do(st, step))
  {}

  lemma IdleSubmitters(st: State, step: Step)
    requires HeldBySubmitters(st) && Enabled(st, step)
    requires !step.WFetch? && !step.WRun? && !step.SPush? && !step.SCount?
    ensures HeldBySubmitters(Do(st, step))
  {}

  lemma TrackedPop(st: State, w: nat)
    requires Tracked(st) && Enabled(st, WFetch(w)) && st.queue != []
    ensures Tracked(Do(st, WFetch(w)))
  {
    var st' := Do(st, WFetch(w));
    HeadOut(st.queue);
    assert st.pushed == st'.started + st'.queue;
    PopHeld(st, w);
  }

  lemma HeadOut(q: seq<nat>)
    requires q != [] && NoDup(q)
    ensures NoDup(q[1..]) && q[0] in q && forall u :: u in q[1..] <==> u in q && u != q[0]
  {
    assert q == [q[0]] + q[1..];
  }

  lemma PopHeld(st: State, w: nat)
    requires HeldByWorkers(st) && HeldBySubmitters(st) && Enabled(st, WFetch(w)) && st.queue != []
    requires st.queue[0] in st.stage && st.stage[st.queue[0]] == Queued
    ensures HeldByWorkers(Do(st, WFetch(w))) && HeldBySubmitters(Do(st, WFetch(w)))
  {}

  lemma TrackedRun(st: State, w: nat)
    requires Tracked(st) && Enabled(st, WRun(w))
    ensures Tracked(Do(st, WRun(w)))
  {
    var t := st.workers[w].task;
    assert t !in st.executed;
  }

  lemma TrackedPush(st: State, s: nat)
    requires Tracked(st) && Enabled(st, SPush(s))
    ensures Tracked(Do(st, SPush(s)))
  {
    var t := st.submitters[s].task;
    assert t !in st.queue;
    assert st.pushed + [t] == st.started + (st.queue + [t]);
  }

  // ---- wake-ups ----

  /** This worker will take another look at the queue before it can block. */
  predicate Alert(pc: WorkerPc, rings: nat) {
    match pc
    case Top => true
    case Fetch => true
    case Running(_) => true
    case Ran(_) => true
    case Snapped(last) => last != rings
    case Waiting(last) => last != rings
    case Asleep(_) => false
    case Exited => false
  }

  /** This worker read the sequence after the latest ring and found the queue empty. */
  predicate Current(pc: WorkerPc, rings: nat) {
    (pc.Snapped? || pc.Waiting? || pc.Asleep?) && pc.last == rings
  }

  ghost predicate SnapshotsPast(st: State) {
    forall w :: w in st.workers ==> match st.workers[w]
      case Snapped(last) => last <= st.rings
      case Waiting(last) => last <= st.rings
      case Asleep(last) => last <= st.rings
      case _ => true
  }

  ghost predicate AnyCurrent(st: State) {
    exists w :: w in st.workers && Current(st.workers[w], st.rings)
  }

  ghost predicate AnyAlert(st: State) {
    exists w :: w in st.workers && Alert(st.workers[w], st.rings)
  }

  /** A submitter has pushed and not rung yet. */
  ghost predicate RingPending(st: State) {
    exists s :: s in st.submitters && st.submitters[s].Pushed?
  }

  /** A submitter has rung and not notified yet. */
  ghost predicate NotifyPending(st: State) {
    exists s :: s in st.submitters && st.submitters[s].Rung?
  }

  /** No lost wake-up: work in the queue means a ring or a notification is still to come, or some
      worker will look at the queue again without being woken. */
  ghost predicate NoLostWakeup(st: State) {
    st.queue != [] ==> RingPending(st) || NotifyPending(st) || AnyAlert(st)
  }

  /** Shutting down: what the destructor's phases guarantee about submissions and the queue ... */
  ghost predicate Phases(st: State) {
    && (!st.closer.Alive? ==> forall s :: s in st.submitters ==> st.submitters[s].Idle?)
    && (!st.closer.Alive? && !st.closer.Draining? ==>
          st.queue == [] && forall w :: w in st.workers ==> !HasTask(st.workers[w]))
    && (st.stopping <==> st.closer.StopSet? || st.closer.RungAll? || st.closer.Joining?)
    && (st.token != {} ==> st.closer.Joining?)
  }

  /** ... and about the workers: none leaves early, none sleeps through the final ring. */
  ghost predicate Leaving(st: State) {
    && (!st.stopping ==> forall w :: w in st.workers ==> !st.workers[w].Exited?)
    && (st.closer.RungAll? || st.closer.Joining? ==>
          forall w :: w in st.workers && (st.workers[w].Waiting? || st.workers[w].Asleep?) ==> st.workers[w].last < st.rings)
    && (st.closer.Joining? ==> forall w :: w in st.workers ==> !st.workers[w].Asleep?)
  }

  ghost predicate Orderly(st: State) {
    Phases(st) && Leaving(st)
  }

  /** A worker that found the queue empty since the latest ring: anything queued now is not rung yet. */
  ghost predicate RingComing(st: State) {
    AnyCurrent(st) && st.queue != [] ==> RingPending(st)
  }

  ghost predicate Inv(st: State) {
    && st.workers != map[] && Accounted(st) && Tracked(st) && SnapshotsPast(st)
    && Orderly(st) && RingComing(st) && NoLostWakeup(st)
  }

  lemma InitInv(ws: set<nat>, ss: set<nat>)
    requires ws != {}
    ensures Inv(Init(ws, ss))
  {
    var st := Init(ws, ss);
    var w :| w in ws;
    assert w in st.workers;
    assert At(st.workers, HasTask) == {} && At(st.submitters, BeforePush) == {};
  }

  lemma SnapshotsPastStep(st: State, step: Step)
    requires SnapshotsPast(st) && Enabled(st, step)
    ensures SnapshotsPast(Do(st, step))
  {}

  /** Equality of the 32-bit sequence numbers is equality of the counts while snapshots are young. */
  lemma YoungSeq(rings: nat, last: nat)
    requires last <= rings < last + TWO_32
    ensures SameSeq(rings, last) <==> rings == last
  {
    if SameSeq(rings, last) {
      var q, q' := rings / TWO_32, last / TWO_32;
      assert rings - last == (q - q') * TWO_32;
    }
  }

  lemma RingComingStep(st: State, step: Step)
    requires SnapshotsPast(st) && RingComing(st) && Enabled(st, step)
    ensures RingComing(Do(st, step))
  {
    var st' := Do(st, step);
    if AnyCurrent(st') && st'.queue != [] {
      var w :| w in st'.workers && Current(st'.workers[w], st'.rings);
      if step.SPush? {
        assert st'.submitters[step.s].Pushed?;
      } else if step.SRing? || step.DRingAll? {
        RingOutdates(st, step);
      } else {
        CurrentBefore(st, step, w);
        var s :| s in st.submitters && st.submitters[s].Pushed?;
        assert s in st'.submitters && st'.submitters[s].Pushed?;
      }
    }
  }

  /** A ring puts every snapshot in the past. */
  lemma RingOutdates(st: State, step: Step)
    requires SnapshotsPast(st) && Enabled(st, step) && (step.SRing? || step.DRingAll?)
    ensures !AnyCurrent(Do(st, step))
  {}

  /** A worker that is current with something queued was current before. */
  lemma CurrentBefore(st: State, step: Step, w: nat)
    requires Enabled(st, step) && !step.SPush? && !step.SRing? && !step.DRingAll?
    requires w in Do(st, step).workers && Current(Do(st, step).workers[w], Do(st, step).rings) && Do(st, step).queue != []
    ensures st.queue != [] && AnyCurrent(st)
  {
    assert w in st.workers && Current(st.workers[w], st.rings);
  }

  /** The counter is not positive: either nothing is outstanding, or so much that it has wrapped. */
  lemma CounterReads(st: State)
    requires Accounted(st)
    ensures st.inFlight <= 0 <==> Outstanding(st) % TWO_32 == 0 || Outstanding(st) % TWO_32 >= TWO_31
  {}

  lemma NoTasksLeft(st: State)
    requires Outstanding(st) == 0
    ensures st.queue == [] && At(st.submitters, BeforePush) == {}
    ensures forall w :: w in st.workers ==> !HasTask(st.workers[w])
  {
    assert At(st.workers, HasTask) == {};
    forall w | w in st.workers
      ensures !HasTask(st.workers[w])
    {
      assert w !in At(st.workers, HasTask);
    }
  }

  lemma PhasesStep(st: State, step: Step)
    requires Accounted(st) && Phases(st) && Enabled(st, step)
    requires step.DIdle? ==> Outstanding(st) < TWO_31
    ensures Phases(Do(st, step))
  {
    if step.DIdle? {
      CounterReads(st);
      NoTasksLeft(st);
    }
  }

  lemma LeavingStep(st: State, step: Step)
    requires Young(st) && SnapshotsPast(st) && Phases(st) && Leaving(st) && Enabled(st, step)
    ensures Leaving(Do(st, step))
  {
    if step.WCompare? { YoungSeq(st.rings, st.workers[step.w].last); }
  }

  lemma NoLostWakeupStep(st: State, step: Step)
    requires Inv(st) && Young(st) && Enabled(st, step)
    ensures NoLostWakeup(Do(st, step))
  {
    var st' := Do(st, step);
    if st'.queue != [] {
      match step
      case SNotify(s, woken) => NotifyKeeps(st, s, woken);
      case SPush(s) => assert st'.submitters[s].Pushed?;
      case SRing(s) => assert st'.submitters[s].Rung?;
      case SCount(s) => WitnessKept(st, st');
      case DBegin => WitnessKept(st, st');
      case DIdle =>
      case DStop =>
      case DRingAll =>
      case DNotifyAll =>
      case DRequestStop(_) =>
      case _ => WorkerKeeps(st, step);
    }
  }

  lemma WitnessKept(st: State, st': State)
    requires st.queue != [] && NoLostWakeup(st)
    requires st'.workers == st.workers && st'.rings == st.rings
    requires forall s :: s in st.submitters && (st.submitters[s].Pushed? || st.submitters[s].Rung?) ==>
               s in st'.submitters && st'.submitters[s] == st.submitters[s]
    ensures NoLostWakeup(st')
  {
    if RingPending(st) {
      var s :| s in st.submitters && st.submitters[s].Pushed?;
      assert st'.submitters[s].Pushed?;
    } else if NotifyPending(st) {
      var s :| s in st.submitters && st.submitters[s].Rung?;
      assert st'.submitters[s].Rung?;
    } else {
      var w :| w in st.workers && Alert(st.workers[w], st.rings);
      assert Alert(st'.workers[w], st'.rings);
    }
  }

  /** A worker's own step: it stays alert, or it just found the queue empty, or it was no witness. */
  lemma WorkerKeeps(st: State, step: Step)
    requires Inv(st) && Young(st) && Enabled(st, step)
    requires WorkerStep(step)
    requires Do(st, step).queue != []
    ensures NoLostWakeup(Do(st, step))
  {
    var st', w := Do(st, step), step.w;
    if RingPending(st) {
      var s :| s in st.submitters && st.submitters[s].Pushed?;
      assert st'.submitters[s].Pushed?;
    } else if NotifyPending(st) {
      var s :| s in st.submitters && st.submitters[s].Rung?;
      assert st'.submitters[s].Rung?;
    } else {
      var v :| v in st.workers && Alert(st.workers[v], st.rings);
      if v != w {
        assert st'.workers[v] == st.workers[v];
        assert Alert(st'.workers[v], st'.rings);
      } else {
        if step.WCompare? { YoungSeq(st.rings, st.workers[w].last); }
        assert Alert(st'.workers[w], st'.rings);
      }
    }
  }

  /** notify_one either wakes a sleeper, whose snapshot is older than the ring, or finds nobody asleep. */
  lemma NotifyAlerts(st: State, s: nat, woken: Option<nat>)
    requires Inv(st) && Enabled(st, SNotify(s, woken)) && !AnyCurrent(st)
    ensures AnyAlert(Do(st, SNotify(s, woken)))
  {
    var st' := Do(st, SNotify(s, woken));
    match woken
    case Some(w) =>
      assert !Current(st.workers[w], st.rings);
      assert Alert(st'.workers[w], st'.rings);
    case None =>
      var w :| w in st.workers;
      assert !st.workers[w].Asleep? && !Current(st.workers[w], st.rings);
      assert Alert(st'.workers[w], st'.rings);
  }

  lemma NotifyKeeps(st: State, s: nat, woken: Option<nat>)
    requires Inv(st) && Enabled(st, SNotify(s, woken)) && st.queue != []
    ensures NoLostWakeup(Do(st, SNotify(s, woken)))
  {
    var st' := Do(st, SNotify(s, woken));
    if RingPending(st) {
      var p :| p in st.submitters && st.submitters[p].Pushed?;
      assert st'.submitters[p].Pushed?;
    } else {
      // nobody has looked since the latest ring, so every worker's snapshot is older
      NotifyAlerts(st, s, woken);
    }
  }

  /** The invariant holds along every schedule whose snapshots stay young and whose counter has not
      wrapped when the destructor takes it for zero. */
  lemma InvStep(st: State, step: Step)
    requires Inv(st) && Young(st) && Enabled(st, step) && (step.DIdle? ==> Outstanding(st) < TWO_31)
    ensures Inv(Do(st, step))
  {
    AccountedStep(st, step);
    TrackedStep(st, step);
    SnapshotsPastStep(st, step);
    PhasesStep(st, step);
    LeavingStep(st, step);
    RingComingStep(st, step);
    NoLostWakeupStep(st, step);
    var w :| w in st.workers;
    assert w in Do(st, step).workers;
  }

  /** The pool is still open, or its destructor still waiting, or it was given fewer than 2^31 tasks. */
  predicate Fits(st: State) {
    st.closer.Alive? || st.closer.Draining? || st.next < TWO_31
  }

  lemma FitsBefore(st: State, step: Step)
    requires Enabled(st, step) && Fits(Do(st, step))
    ensures Fits(st) && (step.DIdle? ==> st.next < TWO_31)
  {}

  lemma {:induction false} FitsRun(st: State, steps: seq<Step>)
    requires Legal(st, steps) && Fits(Exec(st, steps))
    ensures Fits(st)
    decreases |steps|
  {
    if steps != [] {
      FitsRun(Do(st, steps[0]), steps[1..]);
      FitsBefore(st, steps[0]);
    }
  }

  lemma {:induction false} InvRun(st: State, steps: seq<Step>)
    requires Inv(st) && Legal(st, steps) && YoungRun(st, steps) && Fits(Exec(st, steps))
    ensures Inv(Exec(st, steps))
    decreases |steps|
  {
    if steps != [] {
      FitsRun(Do(st, steps[0]), steps[1..]);
      FitsBefore(st, steps[0]);
      InvStep(st, steps[0]);
      InvRun(Do(st, steps[0]), steps[1..]);
    }
  }

  // ---- the theorems ----

  /** The sequence number never goes back. */
  lemma {:induction false} RingsGrow(st: State, steps: seq<Step>)
    requires Legal(st, steps)
    ensures st.rings <= Exec(st, steps).rings
    decreases |steps|
  {
    if steps != [] { RingsGrow(Do(st, steps[0]), steps[1..]); }
  }

  /** With fewer than 2^32 rings altogether no snapshot can grow old. */
  lemma {:induction false} FewRingsYoung(st: State, steps: seq<Step>)
    requires Legal(st, steps) && SnapshotsPast(st) && Exec(st, steps).rings < TWO_32
    ensures YoungRun(st, steps)
    decreases |steps|
  {
    RingsGrow(st, steps);
    if steps != [] {
      SnapshotsPastStep(st, steps[0]);
      FewRingsYoung(Do(st, steps[0]), steps[1..]);
    }
  }

  /** The destructor starts when nobody submits; every submission has one ring, the shutdown another. */
  ghost predicate RungOnce(st: State) {
    && (!st.closer.Alive? ==> forall s :: s in st.submitters ==> st.submitters[s].Idle?)
    && st.next + (if st.closer.RungAll? || st.closer.Joining? then 1 else 0) == st.rings + |At(st.submitters, BeforeRing)|
  }

  lemma RungOnceStep(st: State, step: Step)
    requires RungOnce(st) && Enabled(st, step)
    ensures RungOnce(Do(st, step))
  {
    if step.SCount? || step.SPush? || step.SRing? || step.SNotify? {
      AtUpdate(st.submitters, BeforeRing, step.s, Do(st, step).submitters[step.s]);
    }
  }

  lemma {:induction false} RungOnceRun(st: State, steps: seq<Step>)
    requires RungOnce(st) && Legal(st, steps)
    ensures RungOnce(Exec(st, steps))
    decreases |steps|
  {
    if steps != [] {
      RungOnceStep(st, steps[0]);
      RungOnceRun(Do(st, steps[0]), steps[1..]);
    }
  }

  lemma InitRung(ws: set<nat>, ss: set<nat>)
    ensures RungOnce(Init(ws, ss))
  {
    assert At(Init(ws, ss).submitters, BeforeRing) == {};
  }

  lemma RingsInShutdown(st: State)
    requires RungOnce(st) && !st.closer.Alive?
    ensures st.next <= st.rings <= st.next + 1
  {
    assert At(st.submitters, BeforeRing) == {};
  }

  lemma {:induction false} CountsRun(st: State, steps: seq<Step>)
    requires Accounted(st) && Tracked(st) && Legal(st, steps)
    ensures Accounted(Exec(st, steps)) && Tracked(Exec(st, steps))
    decreases |steps|
  {
    if steps != [] {
      AccountedStep(st, steps[0]);
      TrackedStep(st, steps[0]);
      CountsRun(Do(st, steps[0]), steps[1..]);
    }
  }

  /** For any workers, any submitters and any schedule the counter is exact modulo 2^32, tasks are
      started in push order, each is in one place only and none runs twice. With fewer than 2^32 rings
      and, once the destructor has stopped waiting, fewer than 2^31 submissions, a non-empty queue also
      always has a ring or a notification to come, or a worker that will look at it without being woken. */
  lemma EverySchedule(ws: set<nat>, ss: set<nat>, steps: seq<Step>)
    requires ws != {} && Legal(Init(ws, ss), steps)
    ensures Accounted(Exec(Init(ws, ss), steps)) && Tracked(Exec(Init(ws, ss), steps))
    ensures Exec(Init(ws, ss), steps).rings < TWO_32 && Fits(Exec(Init(ws, ss), steps)) ==> Inv(Exec(Init(ws, ss), steps))
  {
    InitInv(ws, ss);
    CountsRun(Init(ws, ss), steps);
    if Exec(Init(ws, ss), steps).rings < TWO_32 && Fits(Exec(Init(ws, ss), steps)) {
      FewRingsYoung(Init(ws, ss), steps);
      InvRun(Init(ws, ss), steps);
    }
  }

  /** No work is stranded, and nobody sleeps once the destructor joins. */
  ghost predicate NobodyStranded(st: State) {
    NoLostWakeup(st) && (st.closer.Joining? ==> forall w :: w in st.workers ==> !st.workers[w].Asleep?)
  }

  /** Pools that see at most k rings, one per submission and one for the shutdown, strand nobody. */
  ghost predicate SafeUpTo(k: nat) {
    forall ws: set<nat>, ss: set<nat>, steps: seq<Step> {:trigger Legal(Init(ws, ss), steps)} ::
      ws != {} && Legal(Init(ws, ss), steps) && Exec(Init(ws, ss), steps).rings <= k ==>
        NobodyStranded(Exec(Init(ws, ss), steps))
  }

  /** Over its whole life, shutdown included, a pool is safe exactly below 2^31 rings: the in-flight
      counter wraps before the doorbell does. */
  lemma SafeExactly(k: nat)
    ensures SafeUpTo(k) <==> k < TWO_31
  {
    if k < TWO_31 {
      forall ws: set<nat>, ss: set<nat>, steps: seq<Step> {:trigger Legal(Init(ws, ss), steps)} |
        ws != {} && Legal(Init(ws, ss), steps) && Exec(Init(ws, ss), steps).rings <= k
        ensures NobodyStranded(Exec(Init(ws, ss), steps))
      {
        FewRingsFit(ws, ss, steps);
        EverySchedule(ws, ss, steps);
      }
    } else {
      var steps := EarlyIdle();
      assert {0} != {} && Legal(Init({0}, {0}), steps);
    }
  }

  lemma FewRingsFit(ws: set<nat>, ss: set<nat>, steps: seq<Step>)
    requires Legal(Init(ws, ss), steps) && Exec(Init(ws, ss), steps).rings < TWO_31
    ensures Fits(Exec(Init(ws, ss), steps))
  {
    InitRung(ws, ss);
    RungOnceRun(Init(ws, ss), steps);
    if !Exec(Init(ws, ss), steps).closer.Alive? { RingsInShutdown(Exec(Init(ws, ss), steps)); }
  }

  /** Pools that have seen at most k rings and are not being destroyed have lost no wake-up. */
  ghost predicate OpenUpTo(k: nat) {
    forall ws: set<nat>, ss: set<nat>, steps: seq<Step> {:trigger Legal(Init(ws, ss), steps)} ::
      ws != {} && Legal(Init(ws, ss), steps) && Exec(Init(ws, ss), steps).rings <= k
      && Exec(Init(ws, ss), steps).closer.Alive? ==>
        NoLostWakeup(Exec(Init(ws, ss), steps))
  }

  /** An open pool loses no wake-up exactly below 2^32 rings, where the doorbell wraps. */
  lemma OpenExactly(k: nat)
    ensures OpenUpTo(k) <==> k < TWO_32
  {
    if k < TWO_32 {
      forall ws: set<nat>, ss: set<nat>, steps: seq<Step> {:trigger Legal(Init(ws, ss), steps)} |
        ws != {} && Legal(Init(ws, ss), steps) && Exec(Init(ws, ss), steps).rings <= k
        && Exec(Init(ws, ss), steps).closer.Alive?
        ensures NoLostWakeup(Exec(Init(ws, ss), steps))
      {
        EverySchedule(ws, ss, steps);
      }
    } else {
      var steps := WrapLosesWakeup();
      assert {0} != {} && Legal(Init({0}, {0}), steps);
    }
  }

  /** Every task ever submitted has run, once. */
  ghost predicate AllDone(st: State) {
    st.queue == [] && NoDup(st.executed) && forall t: nat :: t in st.executed <==> t < st.next
  }

  /** The destructor lets all the tasks complete in pools that are given at most n of them. */
  ghost predicate DrainsUpTo(n: nat) {
    forall ws: set<nat>, ss: set<nat>, steps: seq<Step> {:trigger Legal(Init(ws, ss), steps)} ::
      ws != {} && Legal(Init(ws, ss), steps) && Exec(Init(ws, ss), steps).next <= n
      && Exec(Init(ws, ss), steps).closer.Joining? ==>
        AllDone(Exec(Init(ws, ss), steps))
  }

  /** Which is so exactly below 2^31 tasks. */
  lemma DrainsExactly(n: nat)
    ensures DrainsUpTo(n) <==> n < TWO_31
  {
    if n < TWO_31 {
      forall ws: set<nat>, ss: set<nat>, steps: seq<Step> {:trigger Legal(Init(ws, ss), steps)} |
        ws != {} && Legal(Init(ws, ss), steps) && Exec(Init(ws, ss), steps).next <= n
        && Exec(Init(ws, ss), steps).closer.Joining?
        ensures AllDone(Exec(Init(ws, ss), steps))
      {
        FewTasksFit(ws, ss, steps);
        EverySchedule(ws, ss, steps);
        ShutDone(Exec(Init(ws, ss), steps));
      }
    } else {
      var steps := EarlyShutdown();
      assert {0} != {} && Legal(Init({0}, {0}), steps);
    }
  }

  lemma FewTasksFit(ws: set<nat>, ss: set<nat>, steps: seq<Step>)
    requires Legal(Init(ws, ss), steps)
    requires Exec(Init(ws, ss), steps).next < TWO_31 && !Exec(Init(ws, ss), steps).closer.Alive?
    ensures Exec(Init(ws, ss), steps).rings < TWO_32
  {
    InitRung(ws, ss);
    RungOnceRun(Init(ws, ss), steps);
    RingsInShutdown(Exec(Init(ws, ss), steps));
  }

  /** The invariant leaves no place for an unfinished task once the destructor has stopped waiting. */
  lemma ShutDone(st: State)
    requires Tracked(st) && Phases(st) && !st.closer.Alive? && !st.closer.Draining?
    ensures AllDone(st)
  {
    forall t: nat | t < st.next
      ensures t in st.executed
    {
      WhereTask(st, t);
    }
  }

  /** Nothing is queued, in a worker's hands, or about to be pushed. */
  ghost predicate NothingLeft(st: State) {
    && st.queue == [] && (forall w :: w in st.workers ==> !HasTask(st.workers[w]))
    && (forall s :: s in st.submitters ==> !BeforePush(st.submitters[s]))
  }

  /** What wait_idle has seen when it returns: nothing is left, and every task ever submitted has run
      exactly once, unless 2^31 tasks or more are outstanding. */
  lemma IdleMeansDone(st: State)
    requires Accounted(st) && Tracked(st) && st.inFlight <= 0
    ensures Outstanding(st) < TWO_31 <==> NothingLeft(st)
    ensures NothingLeft(st) ==> AllDone(st)
  {
    CounterReads(st);
    if Outstanding(st) < TWO_31 {
      NoTasksLeft(st);
      forall s | s in st.submitters
        ensures !BeforePush(st.submitters[s])
      {
        assert s !in At(st.submitters, BeforePush);
      }
    }
    if NothingLeft(st) {
      assert At(st.workers, HasTask) == {} && At(st.submitters, BeforePush) == {};
      forall t: nat | t < st.next
        ensures t in st.executed
      {
        WhereTask(st, t);
      }
    }
  }

  /** A task is with a submitter, with a worker, queued or done. */
  lemma WhereTask(st: State, t: nat)
    requires Tracked(st) && t < st.next
    ensures || (exists s :: s in st.submitters && BeforePush(st.submitters[s])) || (exists w :: w in st.workers && HasTask(st.workers[w]))
            || st.queue != [] || t in st.executed
  {
    var stage := st.stage[t];
    if stage.AtSubmitter? {
      assert BeforePush(st.submitters[stage.s]);
    } else if stage.AtWorker? {
      assert HasTask(st.workers[stage.w]);
    } else if stage.Queued? {
      assert t in st.queue;
    }
  }

  /** Own steps a worker still has to make before it leaves, once the destructor joins. */
  function Rank(pc: WorkerPc): (r: nat) {
    match pc
    case Exited => 0
    case Snapped(_) => 1
    case Fetch => 2
    case Top => 3
    case _ => 4
  }

  function StepOf(w: nat, pc: WorkerPc): (step: Step)
    requires !pc.Exited?
  {
    match pc
    case Top => WTop(w)
    case Fetch => WFetch(w)
    case Running(_) => WRun(w)
    case Ran(_) => WDone(w)
    case Snapped(_) => WCheck(w)
    case Waiting(_) => WCompare(w)
    case Asleep(_) => WSpurious(w)
  }

  /** After stopping_ and ring_all no worker is or becomes blocked: each one that has not left can
      step, every step of its own brings it closer to leaving, and nobody else moves it. */
  lemma ShutdownProgress(st: State, w: nat, step: Step)
    requires Orderly(st) && SnapshotsPast(st) && Young(st) && st.closer.Joining? && w in st.workers && Enabled(st, step)
    ensures !st.workers[w].Asleep?
    ensures !st.workers[w].Exited? ==> Enabled(st, StepOf(w, st.workers[w]))
    ensures !st.workers[w].Exited? && step == StepOf(w, st.workers[w]) ==>
              Rank(Do(st, step).workers[w]) < Rank(st.workers[w])
    ensures st.workers[w].Exited? || step != StepOf(w, st.workers[w]) ==> Do(st, step).workers[w] == st.workers[w]
  {
    if st.workers[w].Waiting? { YoungSeq(st.rings, st.workers[w].last); }
  }

  /** How many of the steps are worker w's own. */
  function OwnSteps(steps: seq<Step>, w: nat): (k: nat) {
    if steps == [] then 0
    else (if WorkerStep(steps[0]) && steps[0].w == w then 1 else 0) + OwnSteps(steps[1..], w)
  }

  lemma OwnStepIs(st: State, step: Step, w: nat)
    requires w in st.workers && Enabled(st, step) && WorkerStep(step) && step.w == w
    ensures !st.workers[w].Exited? && step == StepOf(w, st.workers[w])
  {}

  lemma {:induction false} ShutdownRun(st: State, steps: seq<Step>, w: nat)
    requires Inv(st) && st.closer.Joining? && w in st.workers && Legal(st, steps) && YoungRun(st, steps)
    ensures var end := Exec(st, steps);
            && Inv(end) && end.closer.Joining? && end.workers.Keys == st.workers.Keys
            && OwnSteps(steps, w) + Rank(end.workers[w]) <= Rank(st.workers[w])
    decreases |steps|
  {
    if steps != [] {
      var step := steps[0];
      InvStep(st, step);
      ShutdownProgress(st, w, step);
      if WorkerStep(step) && step.w == w { OwnStepIs(st, step, w); }
      JoiningStays(st, step);
      ShutdownRun(Do(st, step), steps[1..], w);
    }
  }

  lemma JoiningStays(st: State, step: Step)
    requires st.closer.Joining? && Enabled(st, step)
    ensures Do(st, step).closer.Joining? && Do(st, step).workers.Keys == st.workers.Keys
    ensures Do(st, step).next == st.next
  {}

  lemma {:induction false} JoiningRun(st: State, steps: seq<Step>)
    requires st.closer.Joining? && Legal(st, steps)
    ensures Exec(st, steps).closer.Joining? && Exec(st, steps).next == st.next
    decreases |steps|
  {
    if steps != [] {
      JoiningStays(st, steps[0]);
      JoiningRun(Do(st, steps[0]), steps[1..]);
    }
  }

  /** Once a pool that was given fewer than 2^31 tasks is joining its threads, whatever runs next: no
      worker is asleep, none makes more than four further steps of its own, and when no worker can
      step any more all of them have left. */
  lemma ShutdownCompletes(ws: set<nat>, ss: set<nat>, steps: seq<Step>, more: seq<Step>, w: nat)
    requires ws != {} && w in ws && Legal(Init(ws, ss), steps) && Exec(Init(ws, ss), steps).closer.Joining?
    requires Exec(Init(ws, ss), steps).next < TWO_31 && Legal(Exec(Init(ws, ss), steps), more)
    ensures var end := Exec(Exec(Init(ws, ss), steps), more);
            && w in end.workers && !end.workers[w].Asleep? && OwnSteps(more, w) <= 4
            && (end.workers[w].Exited? || Enabled(end, StepOf(w, end.workers[w])))
    ensures var end := Exec(Exec(Init(ws, ss), steps), more);
            (forall step :: WorkerStep(step) ==> !Enabled(end, step)) ==>
              forall v :: v in end.workers ==> end.workers[v].Exited?
  {
    var st := Exec(Init(ws, ss), steps);
    var end := Exec(st, more);
    JoinedYoung(ws, ss, steps, more);
    SameWorkers(Init(ws, ss), steps);
    ShutdownRun(st, more, w);
    forall v | v in end.workers && !end.workers[v].Exited?
      ensures Enabled(end, StepOf(v, end.workers[v])) && WorkerStep(StepOf(v, end.workers[v]))
    {
      CanStep(end, v);
    }
  }

  lemma JoinedYoung(ws: set<nat>, ss: set<nat>, steps: seq<Step>, more: seq<Step>)
    requires ws != {} && Legal(Init(ws, ss), steps) && Exec(Init(ws, ss), steps).closer.Joining?
    requires Exec(Init(ws, ss), steps).next < TWO_31 && Legal(Exec(Init(ws, ss), steps), more)
    ensures Inv(Exec(Init(ws, ss), steps)) && YoungRun(Exec(Init(ws, ss), steps), more)
  {
    var st := Exec(Init(ws, ss), steps);
    FewTasksFit(ws, ss, steps);
    EverySchedule(ws, ss, steps);
    InitRung(ws, ss);
    RungOnceRun(Init(ws, ss), steps);
    RungOnceRun(st, more);
    JoiningRun(st, more);
    RingsInShutdown(Exec(st, more));
    FewRingsYoung(st, more);
  }

  lemma CanStep(st: State, v: nat)
    requires v in st.workers && !st.workers[v].Exited?
    ensures Enabled(st, StepOf(v, st.workers[v])) && WorkerStep(StepOf(v, st.workers[v]))
  {}

  lemma {:induction false} SameWorkers(st: State, steps: seq<Step>)
    requires Legal(st, steps)
    ensures Exec(st, steps).workers.Keys == st.workers.Keys
    decreases |steps|
  {
    if steps != [] { SameWorkers(Do(st, steps[0]), steps[1..]); }
  }

  /** k submissions seen by a pool whose only worker hangs back at one place. */
  function Backlog(k: nat, pc: WorkerPc): (st: State) {
    State(map[0 := pc], map[0 := Idle], Ids(k), Signed32(k), k, false, {}, Alive, k,
          Ids(k), [], [], map t | t in Ids(k) :: Queued)
  }

  function Ids(k: nat): (ids: seq<nat>)
    ensures |ids| == k && forall i :: 0 <= i < k ==> ids[i] == i
  {
    seq(k, i requires 0 <= i < k => i)
  }

  lemma ConsStep(st: State, a: Step, rest: seq<Step>)
    requires Enabled(st, a) && Legal(Do(st, a), rest)
    ensures Legal(st, [a] + rest) && Exec(st, [a] + rest) == Exec(Do(st, a), rest)
  {
    assert ([a] + rest)[1..] == rest;
  }

  lemma TwoSteps(st: State, a: Step, b: Step)
    requires Enabled(st, a) && Enabled(Do(st, a), b)
    ensures Legal(st, [a, b]) && Exec(st, [a, b]) == Do(Do(st, a), b)
  {
    ConsStep(Do(st, a), b, []);
    ConsStep(st, a, [b] + []);
    assert [a] + ([b] + []) == [a, b];
  }

  lemma FourSteps(st: State, a: Step, b: Step, c: Step, d: Step)
    requires Enabled(st, a) && Enabled(Do(st, a), b) && Enabled(Do(Do(st, a), b), c)
    requires Enabled(Do(Do(Do(st, a), b), c), d)
    ensures Legal(st, [a, b, c, d]) && Exec(st, [a, b, c, d]) == Do(Do(Do(Do(st, a), b), c), d)
  {
    TwoSteps(st, a, b);
    TwoSteps(Do(Do(st, a), b), c, d);
    ExecConcat(st, [a, b], [c, d]);
    assert [a, b] + [c, d] == [a, b, c, d];
  }

  /** In front of the push of the next submission ... */
  function CountedBacklog(k: nat, pc: WorkerPc): (st: State) {
    var st := Backlog(k, pc);
    st.(submitters := map[0 := Counted(k)], inFlight := Signed32(k + 1), next := k + 1, stage := st.stage[k := AtSubmitter(0)])
  }

  /** ... and behind it, before its ring. */
  function PushedBacklog(k: nat, pc: WorkerPc): (st: State) {
    Backlog(k + 1, pc).(submitters := map[0 := Pushed], rings := k)
  }

  lemma CountOne(k: nat, pc: WorkerPc)
    ensures Enabled(Backlog(k, pc), SCount(0)) && Do(Backlog(k, pc), SCount(0)) == CountedBacklog(k, pc)
  {
    SignedAdd(k, 1);
    assert Do(Backlog(k, pc), SCount(0)).submitters == map[0 := Counted(k)];
  }

  lemma PushOne(k: nat, pc: WorkerPc)
    ensures Enabled(CountedBacklog(k, pc), SPush(0)) && Do(CountedBacklog(k, pc), SPush(0)) == PushedBacklog(k, pc)
  {
    var b := Do(CountedBacklog(k, pc), SPush(0));
    assert Ids(k + 1) == Ids(k) + [k];
    assert b.stage == Backlog(k + 1, pc).stage;
    assert b.submitters == map[0 := Pushed];
  }

  lemma RingOne(k: nat, pc: WorkerPc)
    requires !pc.Asleep?
    ensures Enabled(PushedBacklog(k, pc), SRing(0)) && Enabled(Do(PushedBacklog(k, pc), SRing(0)), SNotify(0, None))
    ensures Do(Do(PushedBacklog(k, pc), SRing(0)), SNotify(0, None)) == Backlog(k + 1, pc)
  {
    var c := Do(PushedBacklog(k, pc), SRing(0));
    assert !AnyAsleep(c);
    assert Do(c, SNotify(0, None)).submitters == map[0 := Idle];
  }

  /** One whole submission in front of a worker that does not move. */
  lemma OneMore(k: nat, pc: WorkerPc)
    requires !pc.Asleep?
    ensures Legal(Backlog(k, pc), [SCount(0), SPush(0), SRing(0), SNotify(0, None)])
    ensures Exec(Backlog(k, pc), [SCount(0), SPush(0), SRing(0), SNotify(0, None)]) == Backlog(k + 1, pc)
  {
    CountOne(k, pc);
    PushOne(k, pc);
    RingOne(k, pc);
    hide Backlog, CountedBacklog, PushedBacklog, Do, Enabled;
    FourSteps(Backlog(k, pc), SCount(0), SPush(0), SRing(0), SNotify(0, None));
  }

  lemma {:induction false} ExecConcat(st: State, a: seq<Step>, b: seq<Step>)
    requires Legal(st, a) && Legal(Exec(st, a), b)
    ensures Legal(st, a + b) && Exec(st, a + b) == Exec(Exec(st, a), b)
    decreases |a|
  {
    if a == [] {
      assert a + b == b;
    } else {
      assert (a + b)[0] == a[0] && (a + b)[1..] == a[1..] + b;
      ExecConcat(Do(st, a[0]), a[1..], b);
    }
  }

  /** The worker finds the queue empty, and stops there or behind the stop check. */
  lemma Looked(past: bool) returns (steps: seq<Step>)
    ensures Legal(Init({0}, {0}), steps)
    ensures Exec(Init({0}, {0}), steps) == Backlog(0, if past then Waiting(0) else Snapped(0))
  {
    var d := Do(Do(Init({0}, {0}), WTop(0)), WFetch(0));
    TwoSteps(Init({0}, {0}), WTop(0), WFetch(0));
    assert d.workers == map[0 := Snapped(0)] && d.submitters == map[0 := Idle];
    assert d == Backlog(0, Snapped(0));
    steps := [WTop(0), WFetch(0)];
    if past {
      OneStep(d, WCheck(0));
      ExecConcat(Init({0}, {0}), steps, [WCheck(0)]);
      steps := steps + [WCheck(0)];
    }
  }

  lemma {:induction false} Piles(k: nat, pc: WorkerPc) returns (steps: seq<Step>)
    requires !pc.Asleep?
    ensures Legal(Backlog(0, pc), steps) && Exec(Backlog(0, pc), steps) == Backlog(k, pc)
  {
    if k == 0 {
      steps := [];
    } else {
      steps := Piles(k - 1, pc);
      OneMore(k - 1, pc);
      ExecConcat(Backlog(0, pc), steps, [SCount(0), SPush(0), SRing(0), SNotify(0, None)]);
      steps := steps + [SCount(0), SPush(0), SRing(0), SNotify(0, None)];
    }
  }

  lemma ReachBacklog(k: nat, past: bool) returns (steps: seq<Step>)
    ensures Legal(Init({0}, {0}), steps)
    ensures Exec(Init({0}, {0}), steps) == Backlog(k, if past then Waiting(0) else Snapped(0))
  {
    var pc := if past then Waiting(0) else Snapped(0);
    steps := Looked(past);
    var piled := Piles(k, pc);
    hide Backlog, Init;
    ExecConcat(Init({0}, {0}), steps, piled);
    steps := steps + piled;
  }

  /** The bound on the rings is needed: after exactly 2^32 of them the sequence number is the one
      the worker read, it goes to sleep on a full queue, and no thread is left to wake it. */
  lemma WrapLosesWakeup() returns (steps: seq<Step>)
    ensures Legal(Init({0}, {0}), steps)
    ensures var st := Exec(Init({0}, {0}), steps);
            !NoLostWakeup(st) && |st.queue| == st.rings == TWO_32 && st.closer.Alive?
            && 0 in st.workers && 0 in st.submitters && st.workers[0].Asleep? && st.submitters[0].Idle?
  {
    steps := ReachBacklog(TWO_32, true);
    FallsAsleep(Backlog(TWO_32, Waiting(0)));
    hide Backlog, Init, NoLostWakeup;
    ExecConcat(Init({0}, {0}), steps, [WCompare(0)]);
    steps := steps + [WCompare(0)];
  }

  lemma FallsAsleep(full: State)
    requires full == Backlog(TWO_32, Waiting(0))
    ensures Legal(full, [WCompare(0)])
    ensures var st := Exec(full, [WCompare(0)]);
            !NoLostWakeup(st) && |st.queue| == st.rings == TWO_32 && st.closer.Alive?
            && 0 in st.workers && 0 in st.submitters && st.workers[0].Asleep? && st.submitters[0].Idle?
  {
    OneStep(full, WCompare(0));
  }

  lemma OneStep(st: State, a: Step)
    requires Enabled(st, a)
    ensures Legal(st, [a]) && Exec(st, [a]) == Do(st, a)
  {
    assert [a][1..] == [];
  }

  /** A pool that is destroyed with 2^31 tasks queued: the counter reads -2^31, wait_idle returns at
      once, and the worker that was about to check for the stop leaves. */
  function Abandoned(): (st: State) {
    Backlog(TWO_31, Exited).(closer := StopSet, stopping := true)
  }

  lemma EarlyIdle() returns (steps: seq<Step>)
    ensures Legal(Init({0}, {0}), steps) && Exec(Init({0}, {0}), steps) == Abandoned()
    ensures Abandoned().rings == |Abandoned().queue| == TWO_31 && !NoLostWakeup(Abandoned())
  {
    steps := ReachBacklog(TWO_31, false);
    Abandons(Backlog(TWO_31, Snapped(0)));
    AbandonedTasks();
    hide Backlog, Init, Abandoned;
    ExecConcat(Init({0}, {0}), steps, [DBegin, DIdle, DStop, WCheck(0)]);
    steps := steps + [DBegin, DIdle, DStop, WCheck(0)];
  }

  lemma AbandonedTasks()
    ensures Abandoned().rings == |Abandoned().queue| == TWO_31 && !NoLostWakeup(Abandoned())
  {}

  lemma Abandons(full: State)
    requires full == Backlog(TWO_31, Snapped(0))
    ensures Legal(full, [DBegin, DIdle, DStop, WCheck(0)])
    ensures Exec(full, [DBegin, DIdle, DStop, WCheck(0)]) == Abandoned()
  {
    GivesUp(full);
    hide Do, Enabled, Backlog, Abandoned;
    FourSteps(full, DBegin, DIdle, DStop, WCheck(0));
  }

  lemma GivesUp(full: State)
    requires full == Backlog(TWO_31, Snapped(0))
    ensures Enabled(full, DBegin) && Enabled(Do(full, DBegin), DIdle)
    ensures Enabled(Do(Do(full, DBegin), DIdle), DStop) && Enabled(Do(Do(Do(full, DBegin), DIdle), DStop), WCheck(0))
    ensures Do(Do(Do(Do(full, DBegin), DIdle), DStop), WCheck(0)) == Abandoned()
  {
    assert full.inFlight == 0 - TWO_31;
  }

  /** And the destructor goes on to join its threads, the 2^31 tasks still queued. */
  lemma EarlyShutdown() returns (steps: seq<Step>)
    ensures Legal(Init({0}, {0}), steps)
    ensures var st := Exec(Init({0}, {0}), steps); st.closer.Joining? && st.next == |st.queue| == TWO_31 && st.executed == []
  {
    steps := EarlyIdle();
    TwoSteps(Abandoned(), DRingAll, DNotifyAll);
    ExecConcat(Init({0}, {0}), steps, [DRingAll, DNotifyAll]);
    steps := steps + [DRingAll, DNotifyAll];
  }
}
