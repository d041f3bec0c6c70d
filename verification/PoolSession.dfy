/**
 A session on the worker pool: one pipeline's producer thread beside a pool that other threads may be
 using too. The producer submits closures, queues their futures and takes finished results front
 first; the workers, the other submitters and the producer interleave in any order. Chunk writes
 and chunk reads are such sessions; they differ in the closure and in what is done with a result.
 */
module PoolSession {
  import opened Arith
  import opened WorkerPool

  /** Where the producer is. */
  datatype Pc =
    | Ready                    // between calls
    | Submitting(task: nat)    // inside submit()
    | Opportunistic            // taking what happens to be ready
    | Pressing                 // held back as long as the deque is at the cap
    | Quiescing                // emptying the deque

  /** `me` is the producer's identity among the submitters, `run` what a closure computes from its
      captured job, `script` the jobs the producer has to submit, `sent` how many it has. A task's job
      is in `jobs`, its future is ready when `results` has it; `taken` lists the results taken so far. */
  datatype Session<!J, R> = Session(
    pool: State,
    me: nat,
    run: J -> R,
    cap: nat,
    script: seq<J>,
    pc: Pc,
    sent: nat,
    jobs: map<nat, J>,
    results: map<nat, R>,
    futures: seq<nat>,
    taken: seq<R>,
    ids: seq<nat>)

  datatype Move =
    | Pool(step: Step)         // a worker, another submitter, or the producer inside submit()
    | Submit                   // the closure for the next job is made and submit() entered
    | PushBack                 // submit() returned: the future joins the deque
    | Harvest                  // the front future is ready: get it, use the result, pop_front
    | FrontNotReady            // wait_for(0s) says not ready (or nothing left): stop looking
    | Return                   // below the cap: on to the next job
    | BeginDrain               // drain(), or the loop after the last job of a read
    | EndDrain                 // the deque is empty

  /** The steps other than the producer's own submissions and the pool's destructor, which cannot
      run while a pipeline holds a reference to the pool. */
  predicate Allowed<J, R>(s: Session<J, R>, step: Step) {
    match step
    case SCount(t) => t != s.me
    case DBegin | DIdle | DStop | DRingAll | DNotifyAll => false
    case DRequestStop(_) => false
    case _ => true
  }

  predicate FrontReady<J, R>(s: Session<J, R>) {
    s.futures != [] && s.futures[0] in s.results
  }

  predicate Can<J, R>(s: Session<J, R>, m: Move) {
    match m
    case Pool(step) => Allowed(s, step) && Enabled(s.pool, step)
    case Submit => s.pc.Ready? && s.sent < |s.script| && Enabled(s.pool, SCount(s.me))
    case PushBack => s.pc.Submitting? && s.me in s.pool.submitters && s.pool.submitters[s.me].Idle?
    case Harvest =>
      && FrontReady(s) && s.futures[0] in s.jobs
      && (s.pc.Opportunistic? || (s.pc.Pressing? && |s.futures| >= s.cap) || s.pc.Quiescing?)
    case FrontNotReady => s.pc.Opportunistic? && !FrontReady(s)
    case Return => s.pc.Pressing? && |s.futures| < s.cap
    case BeginDrain => s.pc.Ready?
    case EndDrain => s.pc.Quiescing? && s.futures == []
  }

  function Next<J, R>(s: Session<J, R>, m: Move): (s': Session<J, R>)
    requires Can(s, m)
  {
    match m
    case Pool(step) =>
      s.(pool := Do(s.pool, step),
         results := if step.WRun? && s.pool.workers[step.w].task in s.jobs
                    then RunTask(s, s.pool.workers[step.w].task) else s.results)
    case Submit =>
      s.(pool := Do(s.pool, SCount(s.me)), pc := Submitting(s.pool.next),
         jobs := s.jobs[s.pool.next := s.script[s.sent]], sent := s.sent + 1)
    case PushBack => s.(futures := s.futures + [s.pc.task], ids := s.ids + [s.pc.task], pc := Opportunistic)
    case Harvest =>
      s.(taken := s.taken + [s.results[s.futures[0]]], futures := s.futures[1..])
    case FrontNotReady => s.(pc := Pressing)
    case Return => s.(pc := Ready)
    case BeginDrain => s.(pc := Quiescing)
    case EndDrain => s.(pc := Ready)
  }

  /** A worker runs the closure and makes its future ready. */
  function RunTask<J, R>(s: Session<J, R>, t: nat): (results: map<nat, R>)
    requires t in s.jobs
  {
    s.results[t := s.run(s.jobs[t])]
  }

  ghost predicate Legal<J, R>(s: Session<J, R>, moves: seq<Move>)
    decreases |moves|
  {
    moves != [] ==> Can(s, moves[0]) && Legal(Next(s, moves[0]), moves[1..])
  }

  function Exec<J, R>(s: Session<J, R>, moves: seq<Move>): (s': Session<J, R>)
    requires Legal(s, moves)
    decreases |moves|
  {
    if moves == [] then s else Exec(Next(s, moves[0]), moves[1..])
  }

  /** No worker's snapshot of the doorbell outlives 2^32 - 1 rings. */
  ghost predicate YoungRun<J, R>(s: Session<J, R>, moves: seq<Move>)
    requires Legal(s, moves)
    decreases |moves|
  {
    Young(s.pool) && (moves != [] ==> YoungRun(Next(s, moves[0]), moves[1..]))
  }

  /** A producer about to begin, on a pool that may already be busy for others. */
  function Open<J, R>(pool: State, me: nat, run: J -> R, cap: nat, script: seq<J>): (s: Session<J, R>) {
    Session(pool, me, run, cap, script, Ready, 0, map[], map[], [], [], [])
  }

  /** A pool in any state it can get into, and the producer not inside submit(). */
  ghost predicate Present(pool: State, me: nat) {
    Tracked(pool) && me in pool.submitters && pool.submitters[me].Idle?
  }

  /** And it is open for business and has lost no wake-up. */
  ghost predicate Joinable(pool: State, me: nat) {
    Present(pool, me) && WorkerPool.Inv(pool) && pool.closer.Alive?
  }

  /** Everything submitted, and every result taken. */
  predicate Finished<J, R>(s: Session<J, R>) {
    s.pc.Ready? && s.sent == |s.script| && s.futures == []
  }

  /** The results of a list of jobs. */
  function Mapped<J, R>(run: J -> R, jobs: seq<J>): (rs: seq<R>)
    ensures |rs| == |jobs| && forall i :: 0 <= i < |jobs| ==> rs[i] == run(jobs[i])
  {
    seq(|jobs|, i requires 0 <= i < |jobs| => run(jobs[i]))
  }

  // ---- the invariant ----

  /** A future is ready exactly when its task has run, and holds what its own closure computes. */
  ghost predicate FuturesRight<J, R>(s: Session<J, R>) {
    && (forall t :: t in s.jobs ==> t < s.pool.next)
    && (forall t :: t in s.jobs && t in s.pool.stage && s.pool.stage[t] == Executed ==> t in s.results)
    && (forall t :: t in s.results ==> t in s.jobs && s.results[t] == s.run(s.jobs[t]))
  }

  /** The deque is what has been submitted and not taken, in order. */
  ghost predicate InOrder<J, R>(s: Session<J, R>) {
    && |s.taken| + |s.futures| == |s.ids| <= |s.script| && s.futures == s.ids[|s.taken|..]
    && (forall i :: 0 <= i < |s.ids| ==> s.ids[i] in s.jobs && s.jobs[s.ids[i]] == s.script[i])
    && (forall i :: 0 <= i < |s.taken| ==> s.taken[i] == s.run(s.script[i]))
  }

  /** The producer's side of submit(), and which jobs have reached the deque. */
  ghost predicate Placed<J, R>(s: Session<J, R>) {
    && s.me in s.pool.submitters && s.sent <= |s.script|
    && (if s.pc.Submitting? then
          && s.sent == |s.ids| + 1 && s.pc.task in s.jobs && s.jobs[s.pc.task] == s.script[|s.ids|]
          && (s.pool.submitters[s.me].Counted? ==> s.pool.submitters[s.me].task == s.pc.task)
          && (s.pool.submitters[s.me].Counted? || InPool(s.pool, s.pc.task))
        else
          s.sent == |s.ids| && s.pool.submitters[s.me].Idle?)
    && (forall i :: 0 <= i < |s.ids| ==> InPool(s.pool, s.ids[i]))
  }

  /** It has been pushed: it is queued, in a worker's hands, or done. */
  ghost predicate InPool(pool: State, t: nat) {
    t in pool.stage && !pool.stage[t].AtSubmitter?
  }

  /** Memory bound: at most cap futures at any time, fewer between calls. */
  ghost predicate Bounded<J, R>(s: Session<J, R>) {
    && s.cap >= 1
    && (if s.pc.Opportunistic? || s.pc.Pressing? then |s.futures| <= s.cap else |s.futures| < s.cap)
  }

  /** What holds on every pool, wrapped counters or not. */
  ghost predicate SafeInv<J, R>(s: Session<J, R>) {
    Tracked(s.pool) && FuturesRight(s) && InOrder(s) && Placed(s) && Bounded(s)
  }

  ghost predicate SessionInv<J, R>(s: Session<J, R>) {
    WorkerPool.Inv(s.pool) && s.pool.closer.Alive? && SafeInv(s)
  }

  lemma OpenSafe<J, R>(pool: State, me: nat, run: J -> R, cap: nat, script: seq<J>)
    requires Present(pool, me) && cap >= 1
    ensures SafeInv(Open(pool, me, run, cap, script))
  {}

  /** A pushed task stays pushed. */
  lemma StaysInPool(pool: State, step: Step, t: nat)
    requires Tracked(pool) && Enabled(pool, step) && InPool(pool, t)
    ensures InPool(Do(pool, step), t)
  {}

  lemma FuturesRightPool<J, R>(s: Session<J, R>, step: Step)
    requires FuturesRight(s) && Tracked(s.pool) && Can(s, Pool(step))
    ensures FuturesRight(Next(s, Pool(step)))
  {
    var s' := Next(s, Pool(step));
    forall t | t in s.jobs && t in s'.pool.stage && s'.pool.stage[t] == Executed
      ensures t in s'.results
    {
      JustExecuted(s.pool, step, t);
    }
  }

  /** A task is executed by running it. */
  lemma JustExecuted(pool: State, step: Step, t: nat)
    requires Enabled(pool, step) && t in Do(pool, step).stage && Do(pool, step).stage[t] == Executed
    ensures (t in pool.stage && pool.stage[t] == Executed) || (step.WRun? && pool.workers[step.w].task == t)
  {}

  lemma PlacedPool<J, R>(s: Session<J, R>, step: Step)
    requires Placed(s) && Tracked(s.pool) && Can(s, Pool(step))
    ensures Placed(Next(s, Pool(step)))
  {
    var s' := Next(s, Pool(step));
    forall i | 0 <= i < |s.ids|
      ensures InPool(s'.pool, s.ids[i])
    {
      StaysInPool(s.pool, step, s.ids[i]);
    }
    if s.pc.Submitting? && !s.pool.submitters[s.me].Counted? {
      StaysInPool(s.pool, step, s.pc.task);
    }
  }

  lemma SubmitPlaced<J, R>(s: Session<J, R>)
    requires FuturesRight(s) && Placed(s) && Tracked(s.pool) && Can(s, Submit)
    ensures Placed(Next(s, Submit)) && FuturesRight(Next(s, Submit))
  {
    assert s.pool.next !in s.jobs && s.pool.next !in s.pool.stage;
  }

  lemma SubmitInOrder<J, R>(s: Session<J, R>)
    requires InOrder(s) && Can(s, Submit) && s.pool.next !in s.jobs
    ensures InOrder(Next(s, Submit))
  {}

  lemma HarvestInOrder<J, R>(s: Session<J, R>)
    requires FuturesRight(s) && InOrder(s) && Can(s, Harvest)
    ensures InOrder(Next(s, Harvest))
  {
    var k := |s.taken|;
    assert s.futures[0] == s.ids[k];
    assert s.futures[1..] == s.ids[k + 1..];
  }

  lemma PushBackInOrder<J, R>(s: Session<J, R>)
    requires InOrder(s) && Placed(s) && Can(s, PushBack)
    ensures InOrder(Next(s, PushBack))
  {
    assert (s.ids + [s.pc.task])[|s.taken|..] == s.futures + [s.pc.task];
  }

  lemma PushBackPlaced<J, R>(s: Session<J, R>)
    requires Placed(s) && Can(s, PushBack)
    ensures Placed(Next(s, PushBack))
  {}

  /** Every action of producer, workers and other submitters keeps futures, order and places right. */
  lemma SafeStep<J, R>(s: Session<J, R>, m: Move)
    requires SafeInv(s) && Can(s, m)
    ensures SafeInv(Next(s, m))
  {
    match m
    case Pool(step) =>
      TrackedStep(s.pool, step);
      FuturesRightPool(s, step);
      PlacedPool(s, step);
    case Submit =>
      TrackedStep(s.pool, SCount(s.me));
      SubmitInOrder(s);
      SubmitPlaced(s);
    case Harvest => HarvestInOrder(s);
    case PushBack =>
      PushBackInOrder(s);
      PushBackPlaced(s);
    case _ =>
  }

  lemma {:induction false} SafeRun<J, R>(s: Session<J, R>, moves: seq<Move>)
    requires SafeInv(s) && Legal(s, moves)
    ensures SafeInv(Exec(s, moves))
    decreases |moves|
  {
    if moves != [] {
      SafeStep(s, moves[0]);
      SafeRun(Next(s, moves[0]), moves[1..]);
    }
  }

  /** And on a pool whose snapshots are young the wake-ups too. */
  lemma SessionStep<J, R>(s: Session<J, R>, m: Move)
    requires SessionInv(s) && Young(s.pool) && Can(s, m)
    ensures SessionInv(Next(s, m))
  {
    SafeStep(s, m);
    match m
    case Pool(step) => InvStep(s.pool, step);
    case Submit => InvStep(s.pool, SCount(s.me));
    case _ =>
  }

  lemma {:induction false} SessionRun<J, R>(s: Session<J, R>, moves: seq<Move>)
    requires SessionInv(s) && Legal(s, moves) && YoungRun(s, moves)
    ensures SessionInv(Exec(s, moves))
    decreases |moves|
  {
    if moves != [] {
      SessionStep(s, moves[0]);
      SessionRun(Next(s, moves[0]), moves[1..]);
    }
  }

  lemma {:induction false} Unchanging<J, R>(s: Session<J, R>, moves: seq<Move>)
    requires Legal(s, moves)
    ensures var s' := Exec(s, moves); s'.run == s.run && s'.cap == s.cap && s'.script == s.script
    decreases |moves|
  {
    if moves != [] { Unchanging(Next(s, moves[0]), moves[1..]); }
  }

  lemma {:induction false} RingsGrow<J, R>(s: Session<J, R>, moves: seq<Move>)
    requires Legal(s, moves)
    ensures s.pool.rings <= Exec(s, moves).pool.rings
    decreases |moves|
  {
    if moves != [] { RingsGrow(Next(s, moves[0]), moves[1..]); }
  }

  lemma {:induction false} FewRingsYoung<J, R>(s: Session<J, R>, moves: seq<Move>)
    requires Legal(s, moves) && SnapshotsPast(s.pool) && Exec(s, moves).pool.rings < TWO_32
    ensures YoungRun(s, moves)
    decreases |moves|
  {
    RingsGrow(s, moves);
    if moves != [] {
      PastStep(s, moves[0]);
      FewRingsYoung(Next(s, moves[0]), moves[1..]);
    }
  }

  lemma PastStep<J, R>(s: Session<J, R>, m: Move)
    requires Can(s, m) && SnapshotsPast(s.pool)
    ensures SnapshotsPast(Next(s, m).pool)
  {
    match m
    case Pool(step) => SnapshotsPastStep(s.pool, step);
    case Submit => SnapshotsPastStep(s.pool, SCount(s.me));
    case _ =>
  }

  // ---- the theorems ----

  lemma Reached<J, R>(pool: State, me: nat, run: J -> R, cap: nat, script: seq<J>, moves: seq<Move>)
    requires Joinable(pool, me) && cap >= 1 && Legal(Open(pool, me, run, cap, script), moves)
    requires Exec(Open(pool, me, run, cap, script), moves).pool.rings < TWO_32
    ensures SessionInv(Exec(Open(pool, me, run, cap, script), moves))
  {
    OpenSafe(pool, me, run, cap, script);
    FewRingsYoung(Open(pool, me, run, cap, script), moves);
    SessionRun(Open(pool, me, run, cap, script), moves);
  }

  /** Whatever the schedule and whatever the pool has been through: the results taken so far are those of
      the first jobs, in order and once each, whoever ran them and in whatever order they finished; the
      deque holds at most cap futures, fewer between jobs; and a finished session has taken the result
      of every job. */
  lemma EverySessionSchedule<J, R>(pool: State, me: nat, run: J -> R, cap: nat, script: seq<J>, moves: seq<Move>)
    requires Present(pool, me) && cap >= 1 && Legal(Open(pool, me, run, cap, script), moves)
    ensures var s := Exec(Open(pool, me, run, cap, script), moves);
            && |s.taken| <= |script| && s.taken == Mapped(run, script[..|s.taken|])
            && |s.futures| <= cap && (s.pc.Ready? ==> |s.futures| < cap)
            && (Finished(s) ==> s.taken == Mapped(run, script))
  {
    var s := Exec(Open(pool, me, run, cap, script), moves);
    OpenSafe(pool, me, run, cap, script);
    SafeRun(Open(pool, me, run, cap, script), moves);
    Unchanging(Open(pool, me, run, cap, script), moves);
    if Finished(s) { assert script[..|s.taken|] == script; }
  }

  /** With a cap of zero the producer never leaves the back-pressure loop. */
  lemma {:induction false} ZeroCapHangs<J, R>(s: Session<J, R>, moves: seq<Move>)
    requires s.cap == 0 && s.pc.Pressing? && Legal(s, moves)
    ensures Exec(s, moves).pc.Pressing?
    decreases |moves|
  {
    if moves != [] { ZeroCapHangs(Next(s, moves[0]), moves[1..]); }
  }

  // ---- a blocked producer can always be served ----

  lemma ConsMove<J, R>(s: Session<J, R>, m: Move, rest: seq<Move>)
    requires Can(s, m) && Legal(Next(s, m), rest)
    ensures Legal(s, [m] + rest) && Exec(s, [m] + rest) == Exec(Next(s, m), rest)
    ensures Young(s.pool) && YoungRun(Next(s, m), rest) ==> YoungRun(s, [m] + rest)
  {
    assert ([m] + rest)[0] == m && ([m] + rest)[1..] == rest;
  }

  /** Nobody submits anything and no sleeper wakes by itself. */
  predicate Serving(moves: seq<Move>) {
    forall i :: 0 <= i < |moves| ==> moves[i].Pool? && !moves[i].step.SCount? && !moves[i].step.WSpurious?
  }

  /** The moves lead from s to the future of task t being ready, the deque untouched. */
  ghost predicate Serves<J, R>(s: Session<J, R>, moves: seq<Move>, t: nat) {
    && Serving(moves) && Legal(s, moves) && YoungRun(s, moves)
    && t in Exec(s, moves).results && Exec(s, moves).futures == s.futures
  }

  lemma ServesCons<J, R>(s: Session<J, R>, m: Move, rest: seq<Move>, t: nat)
    requires Can(s, m) && Young(s.pool) && Serving([m]) && Serves(Next(s, m), rest, t)
    ensures Serves(s, [m] + rest, t)
  {
    ConsMove(s, m, rest);
    assert [m][0] == m;
  }

  /** Own steps an alert worker has to make until it looks at the queue. */
  function Distance(pc: WorkerPc): (d: nat) {
    match pc
    case Fetch => 1
    case Top => 2
    case Ran(_) => 3
    case Waiting(_) => 3
    case _ => 4
  }

  lemma AlertMoves(pool: State, v: nat)
    requires Young(pool) && pool.queue != [] && v in pool.workers && Alert(pool.workers[v], pool.rings)
    ensures var step := StepOf(v, pool.workers[v]);
            Enabled(pool, step) && WorkerStep(step) && !step.WSpurious? && Young(Do(pool, step))
  {}

  /** One step of an alert worker while something is queued. */
  lemma AlertStep<J, R>(s: Session<J, R>, v: nat)
    requires SessionInv(s) && Young(s.pool) && s.pool.queue != []
    requires v in s.pool.workers && Alert(s.pool.workers[v], s.pool.rings)
    ensures var m := Pool(StepOf(v, s.pool.workers[v]));
            && Can(s, m) && Serving([m]) && Next(s, m).futures == s.futures && Next(s, m).jobs == s.jobs
            && Next(s, m).pool == Do(s.pool, m.step) && Young(Do(s.pool, m.step))
  {
    AlertMoves(s.pool, v);
    hide Do, Enabled, Young, StepOf, Alert;
  }

  /** Which gets it nearer to the queue, or takes something out of it, and leaves it alert. */
  lemma AlertNearer(pool: State, v: nat)
    requires Inv(pool) && Young(pool) && pool.closer.Alive? && pool.queue != []
    requires v in pool.workers && Alert(pool.workers[v], pool.rings)
    ensures var pc := pool.workers[v];
            Enabled(pool, StepOf(v, pc)) && var pool' := Do(pool, StepOf(v, pc));
            && v in pool'.workers && Alert(pool'.workers[v], pool'.rings)
            && (if pc.Fetch? then |pool'.queue| < |pool.queue|
                else pool'.queue == pool.queue && Distance(pool'.workers[v]) < Distance(pc))
  {
    if pool.workers[v].Waiting? { YoungSeq(pool.rings, pool.workers[v].last); }
  }

  /** Task t has been pushed and its future is somebody's to wait for. */
  ghost predicate Awaited<J, R>(s: Session<J, R>, t: nat) {
    SessionInv(s) && Young(s.pool) && t in s.jobs && InPool(s.pool, t)
  }

  lemma AwaitedStep<J, R>(s: Session<J, R>, step: Step, t: nat)
    requires Awaited(s, t) && Can(s, Pool(step)) && Young(Do(s.pool, step))
    ensures Awaited(Next(s, Pool(step)), t)
  {
    SessionStep(s, Pool(step));
    StaysInPool(s.pool, step, t);
  }

  /** Where an awaited task is. */
  lemma AwaitedWhere<J, R>(s: Session<J, R>, t: nat)
    requires Awaited(s, t)
    ensures var stage := s.pool.stage[t];
            match stage
            case Executed => t in s.results
            case AtWorker(w) => w in s.pool.workers && s.pool.workers[w] == Running(t)
            case Queued => s.pool.queue != []
            case AtSubmitter(_) => false
  {
    if s.pool.stage[t].Queued? { assert t in s.pool.queue; }
  }

  /** An alert worker works through the queue until t is in somebody's hands, who then runs it. */
  lemma {:induction false} WorkUntil<J, R>(s: Session<J, R>, t: nat, v: nat) returns (moves: seq<Move>)
    requires Awaited(s, t)
    requires v in s.pool.workers && Alert(s.pool.workers[v], s.pool.rings)
    ensures Serves(s, moves, t)
    decreases |s.pool.queue|, Distance(s.pool.workers[v])
  {
    AwaitedWhere(s, t);
    if s.pool.stage[t].Queued? {
      AlertStep(s, v);
      AlertNearer(s.pool, v);
      var step := StepOf(v, s.pool.workers[v]);
      AwaitedStep(s, step, t);
      var rest := WorkUntil(Next(s, Pool(step)), t, v);
      ServesCons(s, Pool(step), rest, t);
      moves := [Pool(step)] + rest;
    } else {
      moves := RunHeld(s, t);
    }
  }

  lemma RunHeld<J, R>(s: Session<J, R>, t: nat) returns (moves: seq<Move>)
    requires Awaited(s, t) && !s.pool.stage[t].Queued?
    ensures Serves(s, moves, t)
  {
    AwaitedWhere(s, t);
    if s.pool.stage[t].AtWorker? {
      moves := RunServes(s, t, s.pool.stage[t].w);
    } else {
      moves := [];
    }
  }

  lemma RunServes<J, R>(s: Session<J, R>, t: nat, w: nat) returns (moves: seq<Move>)
    requires Young(s.pool) && t in s.jobs && w in s.pool.workers && s.pool.workers[w] == Running(t)
    ensures Serves(s, moves, t)
  {
    var m := Pool(WRun(w));
    assert Young(Next(s, m).pool);
    ServesCons(s, m, [], t);
    moves := [m] + [];
  }

  /** Snapshots that stay young through one more ring. */
  ghost predicate Roomy(pool: State) {
    Young(pool) && Young(pool.(rings := pool.rings + 1))
  }

  /** get() on the front future never hangs: from every state a session can reach in a pool with room
      for one more ring there is a schedule, without any further submission and without spurious
      wake-ups, that makes the future ready. */
  lemma EveryGetServed<J, R>(pool: State, me: nat, run: J -> R, cap: nat, script: seq<J>, moves: seq<Move>)
    returns (more: seq<Move>)
    requires Joinable(pool, me) && cap >= 1 && Legal(Open(pool, me, run, cap, script), moves)
    requires Exec(Open(pool, me, run, cap, script), moves).pool.rings + 1 < TWO_32
    requires Exec(Open(pool, me, run, cap, script), moves).futures != []
    ensures var s := Exec(Open(pool, me, run, cap, script), moves);
            Serving(more) && Legal(s, more) && Exec(s, more).futures == s.futures && FrontReady(Exec(s, more))
  {
    Reached(pool, me, run, cap, script, moves);
    more := FrontCanBecomeReady(Exec(Open(pool, me, run, cap, script), moves));
  }

  lemma FrontCanBecomeReady<J, R>(s: Session<J, R>) returns (moves: seq<Move>)
    requires SessionInv(s) && s.pool.rings < TWO_32 && (RingPending(s.pool) ==> s.pool.rings + 1 < TWO_32)
    requires s.futures != []
    ensures Serves(s, moves, s.futures[0])
    ensures FrontReady(Exec(s, moves))
  {
    assert Young(s.pool) && (RingPending(s.pool) ==> Roomy(s.pool));
    var t := s.futures[0];
    assert t == s.ids[|s.taken|];
    assert InPool(s.pool, t);
    AwaitedWhere(s, t);
    if !s.pool.stage[t].Queued? {
      moves := RunHeld(s, t);
    } else if AnyAlert(s.pool) {
      var v :| v in s.pool.workers && Alert(s.pool.workers[v], s.pool.rings);
      moves := WorkUntil(s, t, v);
    } else {
      moves := RingThenWork(s, t);
    }
  }

  /** Nobody is alert, so a ring or a notification is under way: complete it. */
  lemma RingThenWork<J, R>(s: Session<J, R>, t: nat) returns (moves: seq<Move>)
    requires Awaited(s, t) && (RingPending(s.pool) ==> Roomy(s.pool)) && s.pool.queue != [] && !AnyAlert(s.pool)
    ensures Serves(s, moves, t)
  {
    if p :| p in s.pool.submitters && s.pool.submitters[p].Pushed? {
      var m := Pool(SRing(p));
      RingStep(s, t, p);
      var rest := NotifyThenWork(Next(s, m), t, p);
      ServesCons(s, m, rest, t);
      moves := [m] + rest;
    } else {
      assert !RingPending(s.pool) && NotifyPending(s.pool) && !AnyCurrent(s.pool);
      var p :| p in s.pool.submitters && s.pool.submitters[p].Rung?;
      moves := NotifyThenWork(s, t, p);
    }
  }

  lemma RingStep<J, R>(s: Session<J, R>, t: nat, p: nat)
    requires Awaited(s, t) && Roomy(s.pool) && s.pool.queue != []
    requires p in s.pool.submitters && s.pool.submitters[p].Pushed?
    ensures var m := Pool(SRing(p));
            && Can(s, m) && Serving([m]) && Awaited(Next(s, m), t) && Next(s, m).futures == s.futures
            && Next(s, m).pool.queue != [] && !AnyCurrent(Next(s, m).pool)
            && p in Next(s, m).pool.submitters && Next(s, m).pool.submitters[p].Rung?
  {
    AwaitedStep(s, SRing(p), t);
    RingOutdates(s.pool, SRing(p));
  }

  lemma NotifyThenWork<J, R>(s: Session<J, R>, t: nat, p: nat) returns (moves: seq<Move>)
    requires Awaited(s, t) && s.pool.queue != [] && !AnyCurrent(s.pool)
    requires p in s.pool.submitters && s.pool.submitters[p].Rung?
    ensures Serves(s, moves, t)
  {
    var m := NotifyStep(s, t, p);
    var s' := Next(s, m);
    var v :| v in s'.pool.workers && Alert(s'.pool.workers[v], s'.pool.rings);
    var rest := WorkUntil(s', t, v);
    ServesCons(s, m, rest, t);
    moves := [m] + rest;
  }

  lemma NotifyStep<J, R>(s: Session<J, R>, t: nat, p: nat) returns (m: Move)
    requires Awaited(s, t) && s.pool.queue != [] && !AnyCurrent(s.pool)
    requires p in s.pool.submitters && s.pool.submitters[p].Rung?
    ensures Can(s, m) && Serving([m]) && Awaited(Next(s, m), t) && AnyAlert(Next(s, m).pool)
    ensures Next(s, m).futures == s.futures
  {
    var woken := SomeSleeper(s.pool);
    m := Pool(SNotify(p, woken));
    NotifyAlerts(s.pool, p, woken);
    NotifyYoung(s.pool, m.step);
    AwaitedStep(s, m.step, t);
  }

  /** A notification leaves every snapshot as young as it was. */
  lemma NotifyYoung(pool: State, step: Step)
    requires Young(pool) && Enabled(pool, step) && step.SNotify?
    ensures Young(Do(pool, step))
  {}

  // ---- a session can always be finished ----

  /** Rings the pool has seen, has coming from submissions under way, and needs for the rest of the script. */
  ghost function Budget<J, R>(s: Session<J, R>): (b: int) {
    s.pool.rings + |At(s.pool.submitters, BeforeRing)| + |s.script| - s.sent
  }

  /** Nobody but the producer submits, no sleeper wakes by itself. */
  predicate Undisturbed(moves: seq<Move>) {
    forall i :: 0 <= i < |moves| && moves[i].Pool? ==> !moves[i].step.SCount? && !moves[i].step.WSpurious?
  }

  lemma BudgetPool<J, R>(s: Session<J, R>, step: Step)
    requires Can(s, Pool(step)) && !step.SCount?
    ensures Budget(Next(s, Pool(step))) == Budget(s)
  {
    if step.SPush? || step.SRing? || step.SNotify? {
      AtUpdate(s.pool.submitters, BeforeRing, step.s, Do(s.pool, step).submitters[step.s]);
    }
  }

  lemma BudgetSubmit<J, R>(s: Session<J, R>)
    requires Can(s, Submit)
    ensures Budget(Next(s, Submit)) == Budget(s)
  {
    AtUpdate(s.pool.submitters, BeforeRing, s.me, Do(s.pool, SCount(s.me)).submitters[s.me]);
  }

  /** What serving leaves alone. */
  lemma {:induction false} ServingKeeps<J, R>(s: Session<J, R>, moves: seq<Move>)
    requires Serving(moves) && Legal(s, moves)
    ensures var s' := Exec(s, moves);
            && s'.pc == s.pc && s'.sent == s.sent && s'.script == s.script && s'.cap == s.cap && s'.me == s.me
            && s'.futures == s.futures && Budget(s') == Budget(s)
    decreases |moves|
  {
    if moves != [] {
      BudgetPool(s, moves[0].step);
      ServingKeeps(Next(s, moves[0]), moves[1..]);
    }
  }

  /** Own steps the producer still has inside submit(). */
  function SubmitRank(pc: SubmitterPc): (n: nat) {
    match pc
    case Idle => 0
    case Rung => 1
    case Pushed => 2
    case Counted(_) => 3
  }

  /** How far the producer is from leaving its present phase. */
  function PhaseRank<J, R>(s: Session<J, R>): (n: nat) {
    match s.pc
    case Submitting(_) => 6 + if s.me in s.pool.submitters then SubmitRank(s.pool.submitters[s.me]) else 0
    case Opportunistic => 5
    case Pressing => 4
    case Quiescing => 2
    case Ready => if s.futures != [] then 3 else 1
  }

  /** Futures in the deque or about to join it. */
  function Pending<J, R>(s: Session<J, R>): (n: nat) {
    |s.futures| + if s.pc.Submitting? then 1 else 0
  }

  /** Room for every ring the session still needs. */
  ghost predicate HasRoom<J, R>(s: Session<J, R>) {
    SessionInv(s) && Budget(s) < TWO_32
  }

  lemma RoomYoung<J, R>(s: Session<J, R>)
    requires HasRoom(s)
    ensures s.pool.rings < TWO_32 && Young(s.pool) && s.sent <= |s.script|
    ensures RingPending(s.pool) ==> s.pool.rings + 1 < TWO_32
  {
    if p :| p in s.pool.submitters && s.pool.submitters[p].Pushed? {
      assert p in At(s.pool.submitters, BeforeRing);
    }
  }

  /** The moves lead from s to the end of the session. */
  ghost predicate Finishes<J, R>(s: Session<J, R>, moves: seq<Move>) {
    Undisturbed(moves) && Legal(s, moves) && Finished(Exec(s, moves)) && Exec(s, moves).script == s.script
  }

  lemma FinishesCons<J, R>(s: Session<J, R>, m: Move, rest: seq<Move>)
    requires Can(s, m) && Undisturbed([m]) && Next(s, m).script == s.script && Finishes(Next(s, m), rest)
    ensures Finishes(s, [m] + rest)
  {
    ConsMove(s, m, rest);
    assert [m][0] == m;
  }

  lemma {:induction false} FinishesAfter<J, R>(s: Session<J, R>, moves: seq<Move>, rest: seq<Move>)
    requires Serving(moves) && Legal(s, moves) && Finishes(Exec(s, moves), rest)
    ensures Finishes(s, moves + rest)
    decreases |moves|
  {
    if moves == [] {
      assert moves + rest == rest;
    } else {
      var m := moves[0];
      FinishesAfter(Next(s, m), moves[1..], rest);
      assert moves + rest == [m] + (moves[1..] + rest);
      assert Undisturbed([m]);
      FinishesCons(s, m, moves[1..] + rest);
    }
  }

  /** It waits for the front future: at the cap, or in drain(). */
  predicate Waits<J, R>(s: Session<J, R>) {
    s.futures != [] && ((s.pc.Pressing? && |s.futures| >= s.cap) || s.pc.Quiescing?)
  }

  /** Fewer jobs to submit, or fewer futures, or an earlier end of the phase. */
  ghost predicate Closer<J, R>(s': Session<J, R>, s: Session<J, R>) {
    && s'.script == s.script && s'.sent <= |s'.script|
    && (s'.sent > s.sent || (s'.sent == s.sent &&
         (Pending(s') < Pending(s) || (Pending(s') == Pending(s) && PhaseRank(s') < PhaseRank(s)))))
  }

  /** The producer's own moves ... */
  predicate Own<J, R>(s: Session<J, R>, m: Move) {
    m.Pool? ==> (m.step.SPush? || m.step.SRing? || m.step.SNotify?) && m.step.s == s.me && s.pc.Submitting?
  }

  /** ... need no further rings ... */
  lemma OwnBudget<J, R>(s: Session<J, R>, m: Move)
    requires Can(s, m) && Own(s, m)
    ensures Budget(Next(s, m)) == Budget(s)
  {
    match m
    case Pool(step) => BudgetPool(s, step);
    case Submit => BudgetSubmit(s);
    case _ =>
  }

  /** ... and lead on, except that drain() may begin at any time. */
  lemma OwnCloser<J, R>(s: Session<J, R>, m: Move)
    requires Can(s, m) && Own(s, m) && s.me in s.pool.submitters && s.sent <= |s.script|
    requires m.BeginDrain? ==> s.futures != []
    ensures Closer(Next(s, m), s)
  {
    if m.Pool? {
      assert SubmitRank(Next(s, m).pool.submitters[s.me]) < SubmitRank(s.pool.submitters[s.me]);
    }
  }

  /** What the producer can do where it does not have to wait. */
  lemma NextMove<J, R>(s: Session<J, R>) returns (m: Move)
    requires SafeInv(s) && s.pool.closer.Alive? && !Finished(s) && !Waits(s)
    ensures Can(s, m) && Own(s, m) && Undisturbed([m]) && (m.BeginDrain? ==> s.futures != [])
  {
    match s.pc
    case Submitting(_) => m := SubmitMove(s);
    case Opportunistic => m := if FrontReady(s) then Harvest else FrontNotReady;
    case Pressing => m := Return;
    case Quiescing => m := EndDrain;
    case Ready => m := if s.sent < |s.script| then Submit else BeginDrain;
  }

  lemma SubmitMove<J, R>(s: Session<J, R>) returns (m: Move)
    requires s.pc.Submitting? && s.me in s.pool.submitters
    ensures Can(s, m) && Own(s, m) && Undisturbed([m]) && !m.BeginDrain?
  {
    match s.pool.submitters[s.me]
    case Idle => m := PushBack;
    case Counted(_) => m := Pool(SPush(s.me));
    case Pushed => m := Pool(SRing(s.me));
    case Rung =>
      var woken := SomeSleeper(s.pool);
      m := Pool(SNotify(s.me, woken));
  }

  lemma OwnMove<J, R>(s: Session<J, R>) returns (m: Move)
    requires HasRoom(s) && !Finished(s) && !Waits(s)
    ensures Can(s, m) && Undisturbed([m]) && HasRoom(Next(s, m)) && Closer(Next(s, m), s)
  {
    RoomYoung(s);
    m := NextMove(s);
    OwnBudget(s, m);
    assert s.me in s.pool.submitters;
    OwnCloser(s, m);
    hide Can, Next, SafeInv, Closer, Budget, Young;
    SessionStep(s, m);
  }

  /** A future that is waited for can be made ready, and is then taken. */
  lemma ServeAndTake<J, R>(s: Session<J, R>) returns (moves: seq<Move>)
    requires HasRoom(s) && Waits(s)
    ensures Serving(moves) && Legal(s, moves)
    ensures var s' := Exec(s, moves);
            && Can(s', Harvest) && HasRoom(Next(s', Harvest)) && Closer(Next(s', Harvest), s)
  {
    RoomYoung(s);
    moves := FrontCanBecomeReady(s);
    ServingKeeps(s, moves);
    SessionRun(s, moves);
    var s' := Exec(s, moves);
    assert s'.futures[0] in s'.jobs;
    RoomYoung(s');
    SessionStep(s', Harvest);
  }

  lemma FinishesTaken<J, R>(s: Session<J, R>, serve: seq<Move>, rest: seq<Move>)
    requires Serving(serve) && Legal(s, serve) && Can(Exec(s, serve), Harvest)
    requires Finishes(Next(Exec(s, serve), Harvest), rest)
    ensures Finishes(s, serve + ([Harvest] + rest))
  {
    FinishesCons(Exec(s, serve), Harvest, rest);
    FinishesAfter(s, serve, [Harvest] + rest);
  }

  /** From any state with room for the rings it still needs, a session can be finished. */
  lemma {:induction false} CanFinish<J, R>(s: Session<J, R>) returns (moves: seq<Move>)
    requires HasRoom(s)
    ensures Finishes(s, moves)
    decreases if s.sent <= |s.script| then |s.script| - s.sent else 0, Pending(s), PhaseRank(s)
  {
    RoomYoung(s);
    hide Can, Next, HasRoom, Waits;
    if Finished(s) {
      moves := [];
    } else if Waits(s) {
      var serve := ServeAndTake(s);
      var rest := CanFinish(Next(Exec(s, serve), Harvest));
      FinishesTaken(s, serve, rest);
      moves := serve + ([Harvest] + rest);
    } else {
      var m := OwnMove(s);
      var rest := CanFinish(Next(s, m));
      FinishesCons(s, m, rest);
      moves := [m] + rest;
    }
  }

  /** No session can be stuck: from every state it can reach, in a pool with room for the rings under
      way and one per job still to submit, some schedule without other submissions and spurious
      wake-ups finishes it, every job's result taken in order. */
  lemma EverySessionCanFinish<J, R>(pool: State, me: nat, run: J -> R, cap: nat, script: seq<J>, moves: seq<Move>)
    returns (more: seq<Move>)
    requires Joinable(pool, me) && cap >= 1 && Legal(Open(pool, me, run, cap, script), moves)
    requires Budget(Exec(Open(pool, me, run, cap, script), moves)) < TWO_32
    ensures var s := Exec(Open(pool, me, run, cap, script), moves);
            && Undisturbed(more) && Legal(s, more) && Finished(Exec(s, more))
            && Exec(s, more).taken == Mapped(run, script)
  {
    var s := Exec(Open(pool, me, run, cap, script), moves);
    OpenSafe(pool, me, run, cap, script);
    SafeRun(Open(pool, me, run, cap, script), moves);
    Reached(pool, me, run, cap, script, moves);
    more := CanFinish(s);
    SafeRun(s, more);
    Unchanging(Open(pool, me, run, cap, script), moves);
    Unchanging(s, more);
    var end := Exec(s, more);
    assert script[..|end.taken|] == script;
  }

  lemma SomeSleeper(pool: State) returns (woken: Option<nat>)
    ensures match woken
            case None => !AnyAsleep(pool)
            case Some(w) => w in pool.workers && pool.workers[w].Asleep?
  {
    if w :| w in pool.workers && pool.workers[w].Asleep? {
      woken := Some(w);
    } else {
      woken := None;
    }
  }
}
