/**
  The test runner's worker pool: one main thread, P worker threads, two FIFO queues, one stop job per
  worker and an asynchronous interrupt flag.  Every queue operation and every read of the flag is a step
  of its own, so all interleavings of the threads are runs of the machine below.
*/
module WorkerPool {
  import opened Sums

  /** Identity of a job object: the i-th dispatched test, or one of the stop jobs. */
  datatype Tag = Work(i: nat) | Stop

  /** `fileOk`: the suite's result file parses to PASS or SKIP.  `runs` counts executions of the command. */
  datatype Job = Job(tag: Tag, isBreak: bool, isSkip: bool, isExample: bool,
                     returncode: int, fileOk: bool, runs: nat)

  datatype Worker = NotStarted | Idle | Got(job: Job) | Running(job: Job) | Returning(job: Job) | Exited

  /** The tests to dispatch, in order, and the number of worker threads. */
  datatype Config = Config(jobs: seq<Job>, workers: nat)

  ghost predicate ValidConfig(c: Config) {
    forall i | 0 <= i < |c.jobs| :: c.jobs[i].tag == Work(i) && !c.jobs[i].isBreak && c.jobs[i].runs == 0
  }

  /** `collected` is what main has taken from the output queue, in order. */
  datatype State = State(input: seq<Job>, workers: seq<Worker>, output: seq<Job>, collected: seq<Job>,
                         threadExit: bool, spawned: nat, dispatched: nat, sent: nat, joined: nat)

  datatype Step =
    | Spawn | Dispatch | SendStop | Collect | Join
    | Get(w: nat) | Decide(w: nat) | Finish(w: nat, rc: int, ok: bool) | Put(w: nat)
    | Interrupt

  const StopJob := Job(Stop, true, false, false, 0, false, 0)

  function Init(c: Config): State {
    State([], seq(c.workers, _ => NotStarted), [], [], false, 0, 0, 0, 0)
  }

  /** Main runs its phases in order; a worker's step depends only on its own place and the queues. */
  predicate Enabled(c: Config, s: State, step: Step) {
    match step
    case Spawn => s.spawned < c.workers && s.spawned < |s.workers|
    case Dispatch => s.spawned == c.workers && s.dispatched < |c.jobs|
    case SendStop => s.spawned == c.workers && s.dispatched == |c.jobs| && s.sent < c.workers
    case Collect =>
      && s.dispatched == |c.jobs| && s.sent == c.workers && s.spawned == c.workers
      && |s.collected| < |c.jobs| && s.output != []
    case Join =>
      && s.dispatched == |c.jobs| && s.sent == c.workers && s.spawned == c.workers
      && |s.collected| == |c.jobs|
      && s.joined < c.workers && s.joined < |s.workers| && s.workers[s.joined].Exited?
    case Get(w) => w < |s.workers| && s.workers[w].Idle? && s.input != []
    case Decide(w) => w < |s.workers| && s.workers[w].Got?
    case Finish(w, _, _) => w < |s.workers| && s.workers[w].Running?
    case Put(w) => w < |s.workers| && s.workers[w].Returning?
    case Interrupt => true
  }

  /** What a worker does with the job it has just taken. */
  function Decision(job: Job, threadExit: bool): Worker {
    if job.isBreak then Exited
    else if threadExit then Returning(job.(isBreak := true))
    else if job.isSkip then Returning(job)
    else Running(job)
  }

  function Apply(c: Config, s: State, step: Step): State
    requires Enabled(c, s, step)
  {
    match step
    case Spawn => s.(workers := s.workers[s.spawned := Idle], spawned := s.spawned + 1)
    case Dispatch => s.(input := s.input + [c.jobs[s.dispatched]], dispatched := s.dispatched + 1)
    case SendStop => s.(input := s.input + [StopJob], sent := s.sent + 1)
    case Collect => s.(output := s.output[1..], collected := s.collected + [s.output[0]])
    case Join => s.(joined := s.joined + 1)
    case Get(w) => s.(input := s.input[1..], workers := s.workers[w := Got(s.input[0])])
    case Decide(w) => s.(workers := s.workers[w := Decision(s.workers[w].job, s.threadExit)])
    case Finish(w, rc, ok) =>
      var job := s.workers[w].job;
      s.(workers := s.workers[w := Returning(job.(returncode := rc, fileOk := ok, runs := job.runs + 1))])
    case Put(w) => s.(output := s.output + [s.workers[w].job], workers := s.workers[w := Idle])
    case Interrupt => s.(threadExit := true)
  }

  /** `t` is reached from `s` by taking `steps` in order. */
  ghost predicate Runs(c: Config, s: State, steps: seq<Step>, t: State)
    decreases |steps|
  {
    if steps == [] then s == t
    else Enabled(c, s, steps[0]) && Runs(c, Apply(c, s, steps[0]), steps[1..], t)
  }

  /** The whole of `run_tests` up to the end of the join loop. */
  ghost predicate Done(c: Config, s: State) {
    && s.spawned == s.sent == s.joined == c.workers
    && s.dispatched == |s.collected| == |c.jobs|
  }

  // ---------- Where a job is ----------

  function JobIs(i: nat): Job -> nat { (j: Job) => if j.tag == Work(i) then 1 else 0 }

  function WorkerHas(i: nat): Worker -> nat {
    (w: Worker) => if (w.Got? || w.Running? || w.Returning?) && w.job.tag == Work(i) then 1 else 0
  }

  /** In how many places job `i` is: input queue, a worker's hands, output queue, collected by main. */
  function Places(s: State, i: nat): nat {
    Sum(JobIs(i), s.input) + Sum(WorkerHas(i), s.workers) + Sum(JobIs(i), s.output) + Sum(JobIs(i), s.collected)
  }

  const IsStop: Job -> nat := (j: Job) => if j.tag.Stop? then 1 else 0
  const TookStop: Worker -> nat := (w: Worker) => if w.Exited? || (w.Got? && w.job.tag.Stop?) then 1 else 0

  // ---------- Invariant ----------

  /** A job as dispatched. */
  ghost predicate Fresh(c: Config, j: Job) {
    if j.tag.Stop? then j == StopJob else j.tag.i < |c.jobs| && j == c.jobs[j.tag.i]
  }

  /** A job that a worker is done with: executed once with an arbitrary outcome, or skipped, or interrupted. */
  ghost predicate Resolved(c: Config, interrupted: bool, j: Job) {
    && j.tag.Work? && j.tag.i < |c.jobs|
    && var orig := c.jobs[j.tag.i];
    if j.isBreak then interrupted && j == orig.(isBreak := true)
    else if orig.isSkip then j == orig
    else j == orig.(returncode := j.returncode, fileOk := j.fileOk, runs := 1)
  }

  ghost predicate WorkerOk(c: Config, interrupted: bool, w: Worker) {
    match w
    case Got(j) => Fresh(c, j)
    case Running(j) => Fresh(c, j) && j.tag.Work? && !j.isSkip
    case Returning(j) => Resolved(c, interrupted, j)
    case _ => true
  }

  ghost predicate Phases(c: Config, s: State) {
    && |s.workers| == c.workers
    && s.spawned <= c.workers && s.dispatched <= |c.jobs| && s.sent <= c.workers && s.joined <= c.workers
    && (forall k | 0 <= k < |s.workers| :: s.workers[k].NotStarted? <==> k >= s.spawned)
    && (s.dispatched > 0 || s.sent > 0 ==> s.spawned == c.workers)
    && (s.sent > 0 ==> s.dispatched == |c.jobs|)
    && (|s.collected| > 0 || s.joined > 0 ==>
          s.sent == s.spawned == c.workers && s.dispatched == |c.jobs|)
    && |s.collected| <= |c.jobs|
    && (s.joined > 0 ==> |s.collected| == |c.jobs|)
    && (forall k | 0 <= k < s.joined :: s.workers[k].Exited?)
  }

  function QueuedAt(c: Config, s: State, k: nat): Job
    requires s.dispatched <= |c.jobs| && k < |s.input| <= s.dispatched + s.sent
  {
    if k + s.sent < |s.input| then c.jobs[s.dispatched + s.sent - |s.input| + k] else StopJob
  }

  /** First in, first out: the input queue holds the tests put last, in order, and then the stop jobs. */
  ghost predicate QueueTail(c: Config, s: State)
    requires s.dispatched <= |c.jobs|
  {
    && |s.input| <= s.dispatched + s.sent
    && forall k | 0 <= k < |s.input| :: s.input[k] == QueuedAt(c, s, k)
  }

  ghost predicate OnePlace(s: State) {
    forall i: nat :: Places(s, i) == if i < s.dispatched then 1 else 0
  }

  ghost predicate StopsAccounted(s: State) {
    Sum(IsStop, s.input) + Sum(TookStop, s.workers) == s.sent
  }

  const Holds: Worker -> nat := (w: Worker) => if w.NotStarted? || w.Idle? then 0 else 1

  /** Nothing is lost or made up: whatever was put on the input queue is queued, held, taken or passed on. */
  ghost predicate Conserved(s: State) {
    |s.input| + Sum(Holds, s.workers) + |s.output| + |s.collected| == s.dispatched + s.sent
  }

  /** Once a worker has taken a stop job, no test is left in the input queue. */
  ghost predicate StopsLast(s: State) {
    forall k | 0 <= k < |s.workers| && TookStop(s.workers[k]) == 1 :: |s.input| <= s.sent
  }

  ghost predicate JobsOk(c: Config, s: State) {
    && (forall k | 0 <= k < |s.workers| :: WorkerOk(c, s.threadExit, s.workers[k]))
    && (forall k | 0 <= k < |s.output| :: Resolved(c, s.threadExit, s.output[k]))
    && (forall k | 0 <= k < |s.collected| :: Resolved(c, s.threadExit, s.collected[k]))
  }

  /** The part of the invariant that speaks of single threads and jobs. */
  ghost predicate Core(c: Config, s: State) {
    ValidConfig(c) && Phases(c, s) && QueueTail(c, s) && JobsOk(c, s)
  }

  ghost predicate Inv(c: Config, s: State) {
    Core(c, s) && OnePlace(s) && StopsAccounted(s) && Conserved(s) && StopsLast(s)
  }

  lemma {:induction false} SumOfNone<T>(f: T -> nat, s: seq<T>)
    requires forall k | 0 <= k < |s| :: f(s[k]) == 0
    ensures Sum(f, s) == 0
  {
    if s != [] { SumOfNone(f, s[1..]); }
  }

  lemma InvInit(c: Config)
    requires ValidConfig(c)
    ensures Inv(c, Init(c))
  {
    var s := Init(c);
    forall i: nat ensures Places(s, i) == 0 { SumOfNone(WorkerHas(i), s.workers); }
    SumOfNone(TookStop, s.workers);
    SumOfNone(Holds, s.workers);
  }

  lemma InputShape(c: Config, s: State)
    requires ValidConfig(c) && s.dispatched <= |c.jobs| && QueueTail(c, s)
    ensures forall k | 0 <= k < |s.input| :: Fresh(c, s.input[k])
    ensures forall k | 0 <= k < |s.input| :: s.input[k].tag.Stop? <==> k + s.sent >= |s.input|
  {
  }

  /** The worker that a step moves, for the steps that move one. */
  predicate Moves(step: Step) { step.Spawn? || step.Get? || step.Decide? || step.Finish? || step.Put? }

  function Mover(s: State, step: Step): nat
    requires Moves(step)
  {
    if step.Spawn? then s.spawned else step.w
  }

  lemma PhasesStep(c: Config, s: State, step: Step)
    requires Core(c, s) && Enabled(c, s, step)
    ensures Phases(c, Apply(c, s, step))
  {
  }

  lemma QueueTailStep(c: Config, s: State, step: Step)
    requires Phases(c, s) && QueueTail(c, s) && Enabled(c, s, step)
    ensures var t := Apply(c, s, step); t.dispatched <= |c.jobs| && QueueTail(c, t)
  {
    var t := Apply(c, s, step);
    if step.Dispatch? || step.SendStop? || step.Get? {
      forall k: nat | k < |t.input| ensures t.input[k] == QueuedAt(c, t, k) {
        if step.Get? { assert s.input[k + 1] == QueuedAt(c, s, k + 1); }
        else if k < |s.input| { assert s.input[k] == QueuedAt(c, s, k); }
      }
    } else {
      assert t.input == s.input;
    }
  }

  lemma JobsOkStep(c: Config, s: State, step: Step)
    requires Core(c, s) && Enabled(c, s, step)
    ensures JobsOk(c, Apply(c, s, step))
  {
    var t := Apply(c, s, step);
    if step.Interrupt? {
      ResolvedMonotone(c);
    } else {
      forall k | 0 <= k < |t.workers| ensures WorkerOk(c, t.threadExit, t.workers[k]) {
        assert WorkerOk(c, s.threadExit, s.workers[k]);
        if Moves(step) && k == Mover(s, step) { MovedOk(c, s, step); }
      }
      if step.Put? { assert WorkerOk(c, s.threadExit, s.workers[step.w]); }
    }
  }

  lemma MovedOk(c: Config, s: State, step: Step)
    requires Core(c, s) && Enabled(c, s, step) && Moves(step)
    ensures WorkerOk(c, s.threadExit, Apply(c, s, step).workers[Mover(s, step)])
  {
    if step.Get? { InputShape(c, s); }
    else { assert WorkerOk(c, s.threadExit, s.workers[Mover(s, step)]); }
  }

  lemma ResolvedMonotone(c: Config)
    ensures forall j: Job, b: bool | Resolved(c, b, j) :: Resolved(c, true, j)
  {
  }

  /** A step changes the sum of any weight over the workers by what it changes for the worker it moves. */
  lemma WorkersStep(c: Config, s: State, step: Step, f: Worker -> nat)
    requires Enabled(c, s, step)
    ensures var t := Apply(c, s, step);
            if Moves(step) then
              var w := Mover(s, step);
              && w < |s.workers| == |t.workers|
              && Sum(f, t.workers) + f(s.workers[w]) == Sum(f, s.workers) + f(t.workers[w])
            else t.workers == s.workers
  {
    if Moves(step) {
      var w := Mover(s, step);
      var t := Apply(c, s, step);
      assert t.workers == s.workers[w := t.workers[w]];
      SumUpdate(f, s.workers, w, t.workers[w]);
    }
  }

  /** What a step adds to the input queue. */
  function PutIn(c: Config, s: State, step: Step): seq<Job>
    requires Enabled(c, s, step)
  {
    match step
    case Dispatch => [c.jobs[s.dispatched]]
    case SendStop => [StopJob]
    case _ => []
  }

  /** A step changes the sum of any weight over a queue by what it puts in and takes out. */
  lemma QueuesStep(c: Config, s: State, step: Step, f: Job -> nat)
    requires Enabled(c, s, step)
    ensures var t := Apply(c, s, step);
            && Sum(f, t.input) + (if step.Get? then f(s.input[0]) else 0) == Sum(f, s.input) + Sum(f, PutIn(c, s, step))
            && (step.Collect? ==> Sum(f, t.output) + f(s.output[0]) == Sum(f, s.output)
                                  && Sum(f, t.collected) == Sum(f, s.collected) + f(s.output[0]))
            && (step.Put? ==> Sum(f, t.output) == Sum(f, s.output) + f(s.workers[step.w].job))
  {
    SumConcat(f, s.input, PutIn(c, s, step));
    if step.Collect? { SumAppend(f, s.collected, s.output[0]); }
    if step.Put? { SumAppend(f, s.output, s.workers[step.w].job); }
    assert s.input + [] == s.input;
  }

  lemma PlacesStep(c: Config, s: State, step: Step, i: nat)
    requires ValidConfig(c) && JobsOk(c, s) && Enabled(c, s, step)
    requires step.Spawn? ==> s.workers[s.spawned].NotStarted?
    ensures Places(Apply(c, s, step), i) == Places(s, i) + if step.Dispatch? && s.dispatched == i then 1 else 0
  {
    QueuesStep(c, s, step, JobIs(i));
    WorkersStep(c, s, step, WorkerHas(i));
    if Moves(step) { MoverPlaces(c, s, step, i); }
  }

  /** The worker that moves has job `i` in hand afterwards, if it has just taken it or still holds it. */
  lemma MoverPlaces(c: Config, s: State, step: Step, i: nat)
    requires ValidConfig(c) && JobsOk(c, s) && Enabled(c, s, step) && Moves(step)
    requires step.Spawn? ==> s.workers[s.spawned].NotStarted?
    ensures var w := Mover(s, step);
            && w < |s.workers| && w < |Apply(c, s, step).workers|
            && WorkerHas(i)(Apply(c, s, step).workers[w])
               == (if step.Get? then JobIs(i)(s.input[0]) else if step.Put? then 0 else WorkerHas(i)(s.workers[w]))
            && (step.Get? ==> WorkerHas(i)(s.workers[w]) == 0)
            && (step.Put? ==> WorkerHas(i)(s.workers[w]) == JobIs(i)(s.workers[w].job))
  {
    if step.Decide? { DecisionKeepsTag(c, s, step.w); }
  }

  lemma DecisionKeepsTag(c: Config, s: State, w: nat)
    requires ValidConfig(c) && JobsOk(c, s) && w < |s.workers| && s.workers[w].Got?
    ensures var now := Decision(s.workers[w].job, s.threadExit);
            if now.Exited? then s.workers[w].job.tag.Stop?
            else (now.Running? || now.Returning?) && now.job.tag.Work? && now.job.tag == s.workers[w].job.tag
  {
    assert WorkerOk(c, s.threadExit, s.workers[w]);
  }

  /** The worker that moves has taken a stop job afterwards, if it has just got one or had one before. */
  lemma MoverStops(c: Config, s: State, step: Step)
    requires ValidConfig(c) && JobsOk(c, s) && Enabled(c, s, step) && Moves(step)
    requires step.Spawn? ==> s.workers[s.spawned].NotStarted?
    ensures var w := Mover(s, step);
            && w < |s.workers| && w < |Apply(c, s, step).workers|
            && TookStop(Apply(c, s, step).workers[w])
               == (if step.Get? then IsStop(s.input[0]) else TookStop(s.workers[w]))
            && (step.Get? ==> TookStop(s.workers[w]) == 0)
  {
    if step.Decide? { DecisionKeepsTag(c, s, step.w); }
    if step.Finish? { assert WorkerOk(c, s.threadExit, s.workers[step.w]); }
    if step.Put? { assert WorkerOk(c, s.threadExit, s.workers[step.w]); }
  }

  lemma StopsStep(c: Config, s: State, step: Step)
    requires ValidConfig(c) && JobsOk(c, s) && StopsAccounted(s) && Enabled(c, s, step)
    requires step.Spawn? ==> s.workers[s.spawned].NotStarted?
    ensures StopsAccounted(Apply(c, s, step))
  {
    WorkersStep(c, s, step, TookStop);
    QueuesStep(c, s, step, IsStop);
    if Moves(step) { MoverStops(c, s, step); }
  }

  lemma ConservedStep(c: Config, s: State, step: Step)
    requires Phases(c, s) && Conserved(s) && Enabled(c, s, step)
    ensures Conserved(Apply(c, s, step))
  {
    WorkersStep(c, s, step, Holds);
  }

  lemma StopsLastStep(c: Config, s: State, step: Step)
    requires Inv(c, s) && Enabled(c, s, step)
    ensures StopsLast(Apply(c, s, step))
  {
    InputShape(c, s);
    if k :| 0 <= k < |s.workers| && TookStop(s.workers[k]) == 1 {
      SumAtLeast(TookStop, s.workers, k);
    }
  }

  lemma InvStep(c: Config, s: State, step: Step)
    requires Inv(c, s) && Enabled(c, s, step)
    ensures Inv(c, Apply(c, s, step))
  {
    PhasesStep(c, s, step);
    QueueTailStep(c, s, step);
    JobsOkStep(c, s, step);
    StopsStep(c, s, step);
    ConservedStep(c, s, step);
    StopsLastStep(c, s, step);
    var t := Apply(c, s, step);
    forall i: nat ensures Places(t, i) == if i < t.dispatched then 1 else 0 { PlacesStep(c, s, step, i); }
  }

  /** Safety over whole runs: every reachable state satisfies the invariant. */
  lemma {:induction false} InvRun(c: Config, s: State, steps: seq<Step>, t: State)
    requires Inv(c, s) && Runs(c, s, steps, t)
    ensures Inv(c, t)
    decreases |steps|
  {
    if steps != [] {
      InvStep(c, s, steps[0]);
      InvRun(c, Apply(c, s, steps[0]), steps[1..], t);
    }
  }

  // ---------- Deadlock freedom ----------

  /** A worker that is neither unstarted, idle nor exited can always take its next step. */
  function BusyStep(s: State, w: nat): Step
    requires w < |s.workers| && (s.workers[w].Got? || s.workers[w].Running? || s.workers[w].Returning?)
  {
    if s.workers[w].Got? then Decide(w) else if s.workers[w].Running? then Finish(w, 0, true) else Put(w)
  }

  /** Only an empty queue holds a worker up; a command may end with any outcome, and the interrupt come at any time. */
  lemma WorkersAreFree(c: Config, s: State, w: nat, rc: int, ok: bool)
    ensures Enabled(c, s, Interrupt) && Apply(c, s, Interrupt) == s.(threadExit := true)
    ensures w < |s.workers| ==>
              match s.workers[w]
              case Idle => s.input != [] ==> Enabled(c, s, Get(w))
              case Got(_) => Enabled(c, s, Decide(w))
              case Running(_) => Enabled(c, s, Finish(w, rc, ok))
              case Returning(_) => Enabled(c, s, Put(w))
              case _ => true
  {
  }

  /** With at least one worker, or nothing to do, no reachable state is stuck: until `Done`, some thread can step. */
  lemma NoDeadlock(c: Config, s: State) returns (step: Step)
    requires Inv(c, s) && (c.workers >= 1 || c.jobs == []) && !Done(c, s)
    ensures Enabled(c, s, step) && !step.Interrupt?
  {
    if s.spawned < c.workers { return Spawn; }
    if s.dispatched < |c.jobs| { return Dispatch; }
    if s.sent < c.workers { return SendStop; }
    if |s.collected| < |c.jobs| && s.output != [] { return Collect; }
    if w :| 0 <= w < |s.workers| && (s.workers[w].Got? || s.workers[w].Running? || s.workers[w].Returning?) {
      return BusyStep(s, w);
    }
    if |s.collected| == |c.jobs| && s.workers[s.joined].Exited? { return Join; }
    var w := IdleWorkerHasInput(c, s);
    return Get(w);
  }

  /** If main waits and no worker is busy, some idle worker finds the input queue non-empty. */
  lemma IdleWorkerHasInput(c: Config, s: State) returns (w: nat)
    requires Inv(c, s) && c.workers >= 1
    requires s.spawned == c.workers == s.sent && s.dispatched == |c.jobs|
    requires forall k | 0 <= k < |s.workers| :: s.workers[k].Idle? || s.workers[k].Exited?
    requires if |s.collected| < |c.jobs| then s.output == []
             else s.joined < c.workers && !s.workers[s.joined].Exited?
    ensures Enabled(c, s, Get(w))
  {
    SumUnitBound(Holds, s.workers);
    w := if |s.collected| < |c.jobs| then 0 else s.joined;
    if s.workers[w].Exited? {
      // then only stop jobs are left, one per idle worker, and main is not waiting for a result
      InputShape(c, s);
      assert TookStop(s.workers[w]) == 1;
      AllOnes(IsStop, s.input);
      SumSame(TookStop, Holds, s.workers);
      assert false;
    }
    if s.input == [] {
      SumUnitBound(TookStop, s.workers);
    }
  }

  lemma {:induction false} SumSame<T>(f: T -> nat, g: T -> nat, s: seq<T>)
    requires forall k | 0 <= k < |s| :: f(s[k]) == g(s[k])
    ensures Sum(f, s) == Sum(g, s)
  {
    if s != [] { SumSame(f, g, s[1..]); }
  }

  // ---------- Termination ----------

  const InputWeight: Job -> nat := (j: Job) => if j.isBreak then 2 else 5

  const WorkerWeight: Worker -> nat := (w: Worker) =>
    match w
    case Got(j) => if j.isBreak then 1 else 4
    case Running(_) => 3
    case Returning(_) => 2
    case _ => 0

  /** An upper bound on the steps still to come, interrupts aside. */
  function Measure(c: Config, s: State): nat
    requires s.spawned <= c.workers && s.dispatched <= |c.jobs| && s.sent <= c.workers && s.joined <= c.workers
  {
    (c.workers - s.spawned) + 6 * (|c.jobs| - s.dispatched) + 3 * (c.workers - s.sent)
    + Sum(InputWeight, s.input) + Sum(WorkerWeight, s.workers) + |s.output| + (c.workers - s.joined)
  }

  predicate CountsInRange(c: Config, s: State) {
    s.spawned <= c.workers && s.dispatched <= |c.jobs| && s.sent <= c.workers && s.joined <= c.workers
  }

  lemma MoverWeight(c: Config, s: State, step: Step)
    requires Enabled(c, s, step) && (step.Get? || step.Decide? || step.Finish? || step.Put?)
    ensures var t := Apply(c, s, step);
            && step.w < |s.workers| == |t.workers|
            && WorkerWeight(t.workers[step.w]) < WorkerWeight(s.workers[step.w]) + (if step.Get? then InputWeight(s.input[0]) else 0)
            && (step.Put? ==> WorkerWeight(t.workers[step.w]) + 1 < WorkerWeight(s.workers[step.w]))
  {
  }

  lemma MeasureWorkerStep(c: Config, s: State, step: Step)
    requires CountsInRange(c, s) && Enabled(c, s, step)
    requires step.Get? || step.Decide? || step.Finish? || step.Put?
    ensures CountsInRange(c, Apply(c, s, step)) && Measure(c, Apply(c, s, step)) < Measure(c, s)
  {
    WorkersStep(c, s, step, WorkerWeight);
    MoverWeight(c, s, step);
    if step.Get? { QueuesStep(c, s, step, InputWeight); }
  }

  lemma MeasureMainStep(c: Config, s: State, step: Step)
    requires ValidConfig(c) && CountsInRange(c, s) && Enabled(c, s, step)
    requires step.Spawn? ==> s.workers[s.spawned].NotStarted?
    requires !(step.Get? || step.Decide? || step.Finish? || step.Put? || step.Interrupt?)
    ensures CountsInRange(c, Apply(c, s, step)) && Measure(c, Apply(c, s, step)) < Measure(c, s)
  {
    WorkersStep(c, s, step, WorkerWeight);
    QueuesStep(c, s, step, InputWeight);
  }

  lemma MeasureStep(c: Config, s: State, step: Step)
    requires ValidConfig(c) && Phases(c, s) && Enabled(c, s, step)
    ensures CountsInRange(c, Apply(c, s, step))
    ensures if step.Interrupt? then Measure(c, Apply(c, s, step)) == Measure(c, s)
            else Measure(c, Apply(c, s, step)) < Measure(c, s)
  {
    if step.Get? || step.Decide? || step.Finish? || step.Put? { MeasureWorkerStep(c, s, step); }
    else if !step.Interrupt? { MeasureMainStep(c, s, step); }
  }

  function WorkSteps(steps: seq<Step>): nat {
    if steps == [] then 0 else (if steps[0].Interrupt? then 0 else 1) + WorkSteps(steps[1..])
  }

  lemma {:induction false} RunMeasure(c: Config, s: State, steps: seq<Step>, t: State)
    requires Inv(c, s) && Runs(c, s, steps, t)
    ensures Inv(c, t) && WorkSteps(steps) + Measure(c, t) <= Measure(c, s)
    decreases |steps|
  {
    if steps != [] {
      InvStep(c, s, steps[0]);
      MeasureStep(c, s, steps[0]);
      RunMeasure(c, Apply(c, s, steps[0]), steps[1..], t);
    }
  }

  /** No schedule runs forever: the threads take at most 6 steps per test and 5 per worker, in any order. */
  lemma RunsAreBounded(c: Config, steps: seq<Step>, t: State)
    requires ValidConfig(c) && Runs(c, Init(c), steps, t)
    ensures WorkSteps(steps) <= 6 * |c.jobs| + 5 * c.workers
  {
    InvInit(c);
    RunMeasure(c, Init(c), steps, t);
    SumOfNone(WorkerWeight, Init(c).workers);
  }

  // ---------- The final state ----------

  /** Both queues are empty, every worker has left on a stop job of its own, every test came back once. */
  ghost predicate Completed(c: Config, s: State) {
    && s.input == [] && s.output == []
    && (forall k | 0 <= k < |s.workers| :: s.workers[k].Exited?)
    && |s.collected| == |c.jobs|
    && (forall i: nat | i < |c.jobs| :: Sum(JobIs(i), s.collected) == 1)
    && (forall k | 0 <= k < |s.collected| :: Resolved(c, s.threadExit, s.collected[k]))
  }

  lemma DoneIsCompleted(c: Config, s: State)
    requires Inv(c, s) && Done(c, s)
    ensures Completed(c, s)
  {
    forall k | 0 <= k < |s.workers| ensures s.workers[k].Exited? {}
    AllOnes(Holds, s.workers);
    forall i: nat | i < |c.jobs| ensures Sum(JobIs(i), s.collected) == 1 {
      SumOfNone(WorkerHas(i), s.workers);
      assert Places(s, i) == 1;
    }
  }

  lemma {:induction false} AllOnes<T>(f: T -> nat, s: seq<T>)
    requires forall k | 0 <= k < |s| :: f(s[k]) == 1
    ensures Sum(f, s) == |s|
  {
    if s != [] { AllOnes(f, s[1..]); }
  }

  /** Every run that cannot be extended by a thread has completed: with the bound above, all runs do. */
  lemma MaximalRunCompletes(c: Config, steps: seq<Step>, t: State)
    requires ValidConfig(c) && (c.workers >= 1 || c.jobs == []) && Runs(c, Init(c), steps, t)
    requires forall step | Enabled(c, t, step) :: step.Interrupt?
    ensures Done(c, t) && Completed(c, t)
  {
    InvInit(c);
    InvRun(c, Init(c), steps, t);
    if !Done(c, t) {
      var step := NoDeadlock(c, t);
      assert false;
    }
    DoneIsCompleted(c, t);
  }

  /** From every reachable state the threads can finish. */
  lemma {:induction false} CanComplete(c: Config, s: State) returns (steps: seq<Step>, t: State)
    requires Inv(c, s) && (c.workers >= 1 || c.jobs == [])
    ensures Runs(c, s, steps, t) && Done(c, t)
    decreases Measure(c, s)
  {
    if Done(c, s) {
      return [], s;
    }
    var step := NoDeadlock(c, s);
    InvStep(c, s, step);
    MeasureStep(c, s, step);
    var rest;
    rest, t := CanComplete(c, Apply(c, s, step));
    steps := [step] + rest;
    assert steps[1..] == rest;
  }

  lemma {:induction false} NothingWithoutWorkers(c: Config, s: State, steps: seq<Step>, t: State)
    requires |s.workers| == 0 && s.output == [] && s.collected == [] && Runs(c, s, steps, t)
    ensures t.collected == []
    decreases |steps|
  {
    if steps != [] { NothingWithoutWorkers(c, Apply(c, s, steps[0]), steps[1..], t); }
  }

  ghost predicate CompletesBy(c: Config, steps: seq<Step>, t: State) {
    Runs(c, Init(c), steps, t) && Done(c, t)
  }

  lemma CompletingNeedsWorker(c: Config, steps: seq<Step>, t: State)
    requires ValidConfig(c) && CompletesBy(c, steps, t)
    ensures c.workers >= 1 || c.jobs == []
  {
    InvInit(c);
    InvRun(c, Init(c), steps, t);
    DoneIsCompleted(c, t);
    if c.workers == 0 { NothingWithoutWorkers(c, Init(c), steps, t); }
  }

  /**
    The pool can complete exactly if there is a worker or nothing to do.  A negative process limit leaves
    no worker, and then main waits for its first result for ever.
  */
  lemma CompletesIff(c: Config)
    requires ValidConfig(c)
    ensures (exists steps, t :: CompletesBy(c, steps, t)) <==> c.workers >= 1 || c.jobs == []
  {
    if c.workers >= 1 || c.jobs == [] {
      InvInit(c);
      var steps, t := CanComplete(c, Init(c));
      assert CompletesBy(c, steps, t);
    }
    if steps, t :| CompletesBy(c, steps, t) {
      CompletingNeedsWorker(c, steps, t);
    }
  }

  // ---------- Safety facts a user relies on ----------

  /** In a reachable state a dispatched test has one home: no two workers, or worker and queue, share it. */
  lemma NoSharedJob(c: Config, s: State, v: nat, w: nat)
    requires Inv(c, s) && v < w < |s.workers|
    requires (s.workers[v].Got? || s.workers[v].Running? || s.workers[v].Returning?) && s.workers[v].job.tag.Work?
    requires (s.workers[w].Got? || s.workers[w].Running? || s.workers[w].Returning?)
    ensures s.workers[v].job.tag != s.workers[w].job.tag
    ensures forall k | 0 <= k < |s.input| :: s.input[k].tag != s.workers[v].job.tag
    ensures forall k | 0 <= k < |s.output| :: s.output[k].tag != s.workers[v].job.tag
    ensures forall k | 0 <= k < |s.collected| :: s.collected[k].tag != s.workers[v].job.tag
  {
    var i := s.workers[v].job.tag.i;
    assert Places(s, i) <= 1;
    SumAtLeast(WorkerHas(i), s.workers, v);
    SumTwo(WorkerHas(i), s.workers, v, w);
    forall k | 0 <= k < |s.input| ensures s.input[k].tag != Work(i) { SumAtLeast(JobIs(i), s.input, k); }
    forall k | 0 <= k < |s.output| ensures s.output[k].tag != Work(i) { SumAtLeast(JobIs(i), s.output, k); }
    forall k | 0 <= k < |s.collected| ensures s.collected[k].tag != Work(i) { SumAtLeast(JobIs(i), s.collected, k); }
  }

  /** A worker that leaves does so when only stop jobs are left in the input queue. */
  lemma LeavesLast(c: Config, s: State, w: nat)
    requires Inv(c, s) && Enabled(c, s, Decide(w)) && Apply(c, s, Decide(w)).workers[w].Exited?
    ensures s.dispatched == |c.jobs| && forall k | 0 <= k < |s.input| :: s.input[k] == StopJob
  {
    InputShape(c, s);
    assert TookStop(s.workers[w]) == 1;
    SumAtLeast(TookStop, s.workers, w);
  }

  /** The flag is set by an interrupt, by nothing else, and for good. */
  lemma {:induction false} FlagIffInterrupted(c: Config, s: State, steps: seq<Step>, t: State)
    requires Runs(c, s, steps, t)
    ensures t.threadExit <==> s.threadExit || Interrupt in steps
    decreases |steps|
  {
    if steps != [] {
      assert steps == [steps[0]] + steps[1..];
      FlagIffInterrupted(c, Apply(c, s, steps[0]), steps[1..], t);
    }
  }

  /** Without an interrupt every test is run exactly once, unless it is to be skipped. */
  lemma UninterruptedRunRunsAll(c: Config, steps: seq<Step>, t: State, k: nat)
    requires ValidConfig(c) && Runs(c, Init(c), steps, t) && Interrupt !in steps && k < |t.collected|
    ensures !t.collected[k].isBreak
    ensures t.collected[k].runs == if t.collected[k].isSkip then 0 else 1
  {
    InvInit(c);
    InvRun(c, Init(c), steps, t);
    FlagIffInterrupted(c, Init(c), steps, t);
    assert Resolved(c, t.threadExit, t.collected[k]);
  }

  const IsRunning: Worker -> nat := (w: Worker) => if w.Running? then 1 else 0

  function Finishes(steps: seq<Step>): nat {
    if steps == [] then 0 else (if steps[0].Finish? then 1 else 0) + Finishes(steps[1..])
  }

  /** After the interrupt no test is started: at most one command per worker, already running, still ends. */
  lemma {:induction false} InterruptStopsExecution(c: Config, s: State, steps: seq<Step>, t: State)
    requires Inv(c, s) && s.threadExit && Runs(c, s, steps, t)
    ensures t.threadExit && Finishes(steps) + Sum(IsRunning, t.workers) == Sum(IsRunning, s.workers)
    ensures Finishes(steps) <= |s.workers|
    decreases |steps|
  {
    SumUnitBound(IsRunning, s.workers);
    if steps != [] {
      RunningStep(c, s, steps[0]);
      InvStep(c, s, steps[0]);
      InterruptStopsExecution(c, Apply(c, s, steps[0]), steps[1..], t);
    }
  }

  lemma RunningStep(c: Config, s: State, step: Step)
    requires Phases(c, s) && s.threadExit && Enabled(c, s, step)
    ensures Sum(IsRunning, Apply(c, s, step).workers) + (if step.Finish? then 1 else 0) == Sum(IsRunning, s.workers)
  {
    WorkersStep(c, s, step, IsRunning);
  }

  // ---------- One worker keeps the order ----------

  function Hand(w: Worker): seq<Job> {
    if w.Got? || w.Running? || w.Returning? then [w.job] else []
  }

  function Line(s: State): seq<Job>
    requires |s.workers| == 1
  {
    s.collected + s.output + Hand(s.workers[0]) + s.input
  }

  ghost predicate InOrder(s: State)
    requires |s.workers| == 1
  {
    forall k: nat | k < |Line(s)| :: Line(s)[k].tag == if k < s.dispatched then Work(k) else Stop
  }

  lemma LineLength(c: Config, s: State)
    requires Inv(c, s) && c.workers == 1 && s.sent == 0
    ensures |Line(s)| == s.dispatched
  {
    assert s.workers == [s.workers[0]];
    assert Sum(TookStop, s.workers) == TookStop(s.workers[0]);
    assert Sum(Holds, s.workers) == Holds(s.workers[0]);
  }

  ghost predicate SameTags(a: seq<Job>, b: seq<Job>) {
    |a| == |b| && forall k | 0 <= k < |a| :: a[k].tag == b[k].tag
  }

  lemma ReplaceJob(before: seq<Job>, x: Job, y: Job, after: seq<Job>)
    requires x.tag == y.tag
    ensures SameTags(before + [x] + after, before + [y] + after)
  {
  }

  lemma LineTaken(x: seq<Job>, input: seq<Job>)
    requires input != []
    ensures x + [] + input == x + [input[0]] + input[1..]
  {
    assert input == [input[0]] + input[1..];
  }

  lemma LinePassedOn(collected: seq<Job>, output: seq<Job>, j: Job, input: seq<Job>)
    ensures collected + output + [j] + input == collected + (output + [j]) + [] + input
  {
  }

  lemma LineCollected(collected: seq<Job>, output: seq<Job>, hand: seq<Job>, input: seq<Job>)
    requires output != []
    ensures collected + output + hand + input == (collected + [output[0]]) + output[1..] + hand + input
  {
    assert output == [output[0]] + output[1..];
    assert collected + output == (collected + [output[0]]) + output[1..];
  }

  lemma LineSame(c: Config, s: State, step: Step)
    requires |s.workers| == 1 && Enabled(c, s, step) && (step.Spawn? ==> s.workers[0].NotStarted?)
    requires step.Spawn? || step.Collect? || step.Join? || step.Get? || step.Put? || step.Interrupt?
    ensures |Apply(c, s, step).workers| == 1 && Line(Apply(c, s, step)) == Line(s)
  {
    match step
    case Get(_) => LineTaken(s.collected + s.output, s.input);
    case Put(_) => LinePassedOn(s.collected, s.output, s.workers[0].job, s.input);
    case Collect => LineCollected(s.collected, s.output, Hand(s.workers[0]), s.input);
    case _ =>
  }

  /** Steps that neither put a job on the input queue nor take a stop job off keep the line of tags. */
  lemma LineKept(c: Config, s: State, step: Step)
    requires ValidConfig(c) && JobsOk(c, s) && |s.workers| == 1 && Enabled(c, s, step)
    requires step.Spawn? ==> s.workers[0].NotStarted?
    requires !step.Dispatch? && !step.SendStop? && !(step.Decide? && s.workers[0].job.tag.Stop?)
    ensures SameTags(Line(s), Line(Apply(c, s, step)))
  {
    var t := Apply(c, s, step);
    if step.Decide? || step.Finish? {
      if step.Decide? { DecisionKeepsTag(c, s, step.w); }
      ReplaceJob(s.collected + s.output, s.workers[0].job, t.workers[0].job, s.input);
    } else {
      LineSame(c, s, step);
    }
  }

  lemma InOrderKept(s: State, t: State)
    requires |s.workers| == |t.workers| == 1 && InOrder(s) && SameTags(Line(s), Line(t)) && s.dispatched == t.dispatched
    ensures InOrder(t)
  {
  }

  lemma InOrderGrown(s: State, t: State, j: Job)
    requires |s.workers| == |t.workers| == 1 && InOrder(s) && |Line(s)| == s.dispatched && Line(t) == Line(s) + [j]
    requires if j.tag.Stop? then s.dispatched == t.dispatched else t.dispatched == s.dispatched + 1 && j.tag.i == s.dispatched
    ensures InOrder(t)
  {
  }

  lemma InOrderPut(c: Config, s: State, step: Step)
    requires Inv(c, s) && c.workers == 1 && InOrder(s) && Enabled(c, s, step) && (step.Dispatch? || step.SendStop?)
    ensures InOrder(Apply(c, s, step))
  {
    LineLength(c, s);
    assert Line(Apply(c, s, step)) == Line(s) + PutIn(c, s, step);
    InOrderGrown(s, Apply(c, s, step), PutIn(c, s, step)[0]);
  }

  lemma InOrderMoved(c: Config, s: State, step: Step)
    requires ValidConfig(c) && JobsOk(c, s) && |s.workers| == 1 && InOrder(s) && Enabled(c, s, step)
    requires step.Spawn? ==> s.workers[0].NotStarted?
    requires !step.Dispatch? && !step.SendStop? && !(step.Decide? && s.workers[0].job.tag.Stop?)
    ensures |Apply(c, s, step).workers| == 1 && InOrder(Apply(c, s, step))
  {
    LineKept(c, s, step);
    InOrderKept(s, Apply(c, s, step));
  }

  lemma OneWorker(c: Config, s: State, step: Step)
    requires Inv(c, s) && c.workers == 1 && Enabled(c, s, step)
    ensures ValidConfig(c) && JobsOk(c, s) && |s.workers| == 1 && |Apply(c, s, step).workers| == 1
    ensures step.Spawn? ==> s.workers[0].NotStarted?
  {
  }

  lemma InOrderStop(c: Config, s: State)
    requires Inv(c, s) && c.workers == 1 && InOrder(s) && s.workers[0].Got? && s.workers[0].job.tag.Stop?
    ensures InOrder(Apply(c, s, Decide(0)))
  {
    LastStop(c, s);
    StopLeaves(c, s);
  }

  lemma InOrderStep(c: Config, s: State, step: Step)
    requires Inv(c, s) && c.workers == 1 && InOrder(s) && Enabled(c, s, step)
    ensures InOrder(Apply(c, s, step))
  {
    OneWorker(c, s, step);
    if step.Dispatch? || step.SendStop? {
      InOrderPut(c, s, step);
    } else if step.Decide? && s.workers[0].job.tag.Stop? {
      InOrderStop(c, s);
    } else {
      InOrderMoved(c, s, step);
    }
  }

  lemma StopLeaves(c: Config, s: State)
    requires JobsOk(c, s) && |s.workers| == 1 && s.workers[0].Got? && s.workers[0].job.tag.Stop? && s.input == []
    requires InOrder(s)
    ensures InOrder(Apply(c, s, Decide(0)))
  {
    assert WorkerOk(c, s.threadExit, s.workers[0]);
    var t := Apply(c, s, Decide(0));
    assert Line(s) == Line(t) + [StopJob];
    forall k: nat | k < |Line(t)| ensures Line(t)[k].tag == if k < t.dispatched then Work(k) else Stop {
      assert Line(t)[k] == Line(s)[k];
    }
  }

  lemma LastStop(c: Config, s: State)
    requires Inv(c, s) && c.workers == 1 && s.workers[0].Got? && s.workers[0].job.tag.Stop?
    ensures s.input == []
  {
    InputShape(c, s);
    assert s.workers == [s.workers[0]];
    assert Sum(TookStop, s.workers) == TookStop(s.workers[0]) == 1;
    AllOnes(IsStop, s.input);
  }

  lemma {:induction false} InOrderRun(c: Config, s: State, steps: seq<Step>, t: State)
    requires Inv(c, s) && c.workers == 1 && InOrder(s) && Runs(c, s, steps, t)
    ensures Inv(c, t) && InOrder(t)
    decreases |steps|
  {
    if steps != [] {
      InvStep(c, s, steps[0]);
      InOrderStep(c, s, steps[0]);
      InOrderRun(c, Apply(c, s, steps[0]), steps[1..], t);
    }
  }

  /** With one worker the results come back in the order of dispatch, whatever is interrupted or skipped. */
  lemma OneWorkerKeepsOrder(c: Config, steps: seq<Step>, t: State, k: nat)
    requires ValidConfig(c) && c.workers == 1 && Runs(c, Init(c), steps, t) && k < |t.collected|
    ensures t.collected[k].tag == Work(k)
  {
    InvInit(c);
    assert Line(Init(c)) == [];
    InOrderRun(c, Init(c), steps, t);
    assert Line(t)[k] == t.collected[k];
    assert t.dispatched == |c.jobs| && |t.collected| <= |c.jobs|;
  }
}
