/**
  What the worker pool hands back: every collected test carries the return code and result file of the one
  execution it had, whatever the schedule.
*/
module WorkerResults {
  import opened Sequences
  import opened Sums
  import opened WorkerPool

  /** A command that has ended: for which job, with which return code, and whether its result file is fine. */
  datatype Execution = Execution(tag: Tag, rc: int, ok: bool)

  function Ended(c: Config, s: State, step: Step): seq<Execution>
    requires Enabled(c, s, step)
  {
    if step.Finish? then [Execution(s.workers[step.w].job.tag, step.rc, step.ok)] else []
  }

  /** The executions along a run, in the order in which they end. */
  function Executions(c: Config, s: State, steps: seq<Step>): seq<Execution>
    decreases |steps|
  {
    if steps == [] || !Enabled(c, s, steps[0]) then []
    else Ended(c, s, steps[0]) + Executions(c, Apply(c, s, steps[0]), steps[1..])
  }

  /** Those of one job. */
  function Of(tag: Tag, es: seq<Execution>): seq<Execution> {
    if es == [] then []
    else Of(tag, es[..|es| - 1]) + if es[|es| - 1].tag == tag then [es[|es| - 1]] else []
  }

  lemma OfAppend(tag: Tag, es: seq<Execution>, e: Execution)
    ensures Of(tag, es + [e]) == if e.tag == tag then Of(tag, es) + [e] else Of(tag, es)
  {
    assert (es + [e])[..|es|] == es;
  }

  // ---------- What the executions so far say about the jobs ----------

  ghost predicate Unexecuted(j: Job, es: seq<Execution>) { j.tag.Work? ==> Of(j.tag, es) == [] }

  /** The job carries the outcome of the execution it had, if any. */
  ghost predicate Recorded(j: Job, es: seq<Execution>) {
    Of(j.tag, es) == if j.runs == 0 then [] else [Execution(j.tag, j.returncode, j.fileOk)]
  }

  ghost predicate WorkerExplained(w: Worker, es: seq<Execution>) {
    match w
    case Got(j) => Unexecuted(j, es)
    case Running(j) => Unexecuted(j, es)
    case Returning(j) => Recorded(j, es)
    case _ => true
  }

  ghost predicate AllUnexecuted(jobs: seq<Job>, es: seq<Execution>) {
    forall k | 0 <= k < |jobs| :: Unexecuted(jobs[k], es)
  }

  ghost predicate AllRecorded(jobs: seq<Job>, es: seq<Execution>) {
    forall k | 0 <= k < |jobs| :: Recorded(jobs[k], es)
  }

  ghost predicate AllExplained(workers: seq<Worker>, es: seq<Execution>) {
    forall k | 0 <= k < |workers| :: WorkerExplained(workers[k], es)
  }

  /** Nothing was executed before it was dispatched. */
  ghost predicate NoneAhead(dispatched: nat, es: seq<Execution>) {
    forall i: nat | i >= dispatched :: Of(Work(i), es) == []
  }

  ghost predicate Explained(s: State, es: seq<Execution>) {
    && AllUnexecuted(s.input, es) && AllExplained(s.workers, es)
    && AllRecorded(s.output, es) && AllRecorded(s.collected, es) && NoneAhead(s.dispatched, es)
  }

  lemma AllRecordedAppend(jobs: seq<Job>, j: Job, es: seq<Execution>)
    requires AllRecorded(jobs, es) && Recorded(j, es)
    ensures AllRecorded(jobs + [j], es)
  {
  }

  lemma MovedExplained(c: Config, s: State, step: Step, es: seq<Execution>)
    requires ValidConfig(c) && JobsOk(c, s) && Enabled(c, s, step) && Moves(step) && !step.Finish?
    requires AllUnexecuted(s.input, es) && AllExplained(s.workers, es)
    ensures WorkerExplained(Apply(c, s, step).workers[Mover(s, step)], es)
  {
    var w := s.workers[Mover(s, step)];
    assert WorkerOk(c, s.threadExit, w) && WorkerExplained(w, es);
  }

  lemma WorkersMove(c: Config, s: State, step: Step, es: seq<Execution>)
    requires ValidConfig(c) && JobsOk(c, s) && Enabled(c, s, step) && !step.Finish?
    requires AllUnexecuted(s.input, es) && AllExplained(s.workers, es)
    ensures AllExplained(Apply(c, s, step).workers, es)
  {
    if Moves(step) {
      MovedExplained(c, s, step, es);
    }
  }

  lemma QueuesMove(c: Config, s: State, step: Step, es: seq<Execution>)
    requires ValidConfig(c) && Explained(s, es) && Enabled(c, s, step) && !step.Finish?
    ensures var t := Apply(c, s, step);
            && AllUnexecuted(t.input, es) && AllRecorded(t.output, es) && AllRecorded(t.collected, es)
            && NoneAhead(t.dispatched, es)
  {
    if step.Put? {
      assert WorkerExplained(s.workers[step.w], es);
      AllRecordedAppend(s.output, s.workers[step.w].job, es);
    }
    if step.Collect? { AllRecordedAppend(s.collected, s.output[0], es); }
  }

  lemma ExplainedMoves(c: Config, s: State, step: Step, es: seq<Execution>)
    requires ValidConfig(c) && JobsOk(c, s) && Explained(s, es) && Enabled(c, s, step) && !step.Finish?
    ensures Explained(Apply(c, s, step), es)
  {
    WorkersMove(c, s, step, es);
    QueuesMove(c, s, step, es);
  }

  /** The worker whose command ends is the only place of its job. */
  lemma OnlyPlace(c: Config, s: State, w: nat)
    requires Inv(c, s) && w < |s.workers| && s.workers[w].Running?
    ensures s.workers[w].job.tag.Work? && s.workers[w].job.tag.i < s.dispatched && s.workers[w].job.runs == 0
    ensures forall k | 0 <= k < |s.input| :: s.input[k].tag != s.workers[w].job.tag
    ensures forall k | 0 <= k < |s.output| :: s.output[k].tag != s.workers[w].job.tag
    ensures forall k | 0 <= k < |s.collected| :: s.collected[k].tag != s.workers[w].job.tag
    ensures forall k | 0 <= k < |s.workers| && k != w && (s.workers[k].Got? || s.workers[k].Running? || s.workers[k].Returning?) ::
              s.workers[k].job.tag != s.workers[w].job.tag
  {
    assert WorkerOk(c, s.threadExit, s.workers[w]);
    var i := s.workers[w].job.tag.i;
    assert Places(s, i) == if i < s.dispatched then 1 else 0;
    SumAtLeast(WorkerHas(i), s.workers, w);
    forall k | 0 <= k < |s.input| ensures s.input[k].tag != Work(i) { SumAtLeast(JobIs(i), s.input, k); }
    forall k | 0 <= k < |s.output| ensures s.output[k].tag != Work(i) { SumAtLeast(JobIs(i), s.output, k); }
    forall k | 0 <= k < |s.collected| ensures s.collected[k].tag != Work(i) { SumAtLeast(JobIs(i), s.collected, k); }
    forall k | 0 <= k < |s.workers| && k != w && (s.workers[k].Got? || s.workers[k].Running? || s.workers[k].Returning?)
      ensures s.workers[k].job.tag != Work(i)
    {
      if k < w { SumTwo(WorkerHas(i), s.workers, k, w); } else { SumTwo(WorkerHas(i), s.workers, w, k); }
    }
  }

  /** One more execution does not matter to the jobs it is not of. */
  lemma OthersUnexecuted(jobs: seq<Job>, es: seq<Execution>, e: Execution)
    requires AllUnexecuted(jobs, es) && forall k | 0 <= k < |jobs| :: jobs[k].tag != e.tag
    ensures AllUnexecuted(jobs, es + [e])
  {
    forall k | 0 <= k < |jobs| ensures Unexecuted(jobs[k], es + [e]) { OfAppend(jobs[k].tag, es, e); }
  }

  lemma OthersRecorded(jobs: seq<Job>, es: seq<Execution>, e: Execution)
    requires AllRecorded(jobs, es) && forall k | 0 <= k < |jobs| :: jobs[k].tag != e.tag
    ensures AllRecorded(jobs, es + [e])
  {
    forall k | 0 <= k < |jobs| ensures Recorded(jobs[k], es + [e]) { OfAppend(jobs[k].tag, es, e); }
  }

  lemma OtherWorker(w: Worker, es: seq<Execution>, e: Execution)
    requires WorkerExplained(w, es) && (w.Got? || w.Running? || w.Returning? ==> w.job.tag != e.tag)
    ensures WorkerExplained(w, es + [e])
  {
    if w.Got? || w.Running? || w.Returning? { OfAppend(w.job.tag, es, e); }
  }

  /** The worker whose command ends hands back what it returned. */
  lemma FinishedWorker(j: Job, rc: int, ok: bool, es: seq<Execution>)
    requires j.tag.Work? && j.runs == 0 && Unexecuted(j, es)
    ensures WorkerExplained(Returning(j.(returncode := rc, fileOk := ok, runs := j.runs + 1)), es + [Execution(j.tag, rc, ok)])
  {
    OfAppend(j.tag, es, Execution(j.tag, rc, ok));
  }

  lemma NoneAheadStill(dispatched: nat, es: seq<Execution>, e: Execution)
    requires NoneAhead(dispatched, es) && e.tag.Work? && e.tag.i < dispatched
    ensures NoneAhead(dispatched, es + [e])
  {
    forall i: nat | i >= dispatched ensures Of(Work(i), es + [e]) == [] { OfAppend(Work(i), es, e); }
  }

  lemma ExplainedFinish(c: Config, s: State, step: Step, es: seq<Execution>)
    requires Inv(c, s) && Explained(s, es) && Enabled(c, s, step) && step.Finish?
    ensures Explained(Apply(c, s, step), es + Ended(c, s, step))
  {
    var w := step.w;
    var j := s.workers[w].job;
    var e := Execution(j.tag, step.rc, step.ok);
    OnlyPlace(c, s, w);
    OthersUnexecuted(s.input, es, e);
    OthersRecorded(s.output, es, e);
    OthersRecorded(s.collected, es, e);
    NoneAheadStill(s.dispatched, es, e);
    assert WorkerExplained(s.workers[w], es);
    FinishedWorker(j, step.rc, step.ok, es);
    var t := Apply(c, s, step);
    forall k | 0 <= k < |t.workers| ensures WorkerExplained(t.workers[k], es + [e]) {
      if k != w { OtherWorker(s.workers[k], es, e); }
    }
  }

  lemma ExplainedStep(c: Config, s: State, step: Step, es: seq<Execution>)
    requires Inv(c, s) && Explained(s, es) && Enabled(c, s, step)
    ensures Explained(Apply(c, s, step), es + Ended(c, s, step))
  {
    if step.Finish? {
      ExplainedFinish(c, s, step, es);
    } else {
      ExplainedMoves(c, s, step, es);
      WithEmpty(es);
    }
  }

  lemma ExecutionsUnfold(c: Config, s: State, steps: seq<Step>, es: seq<Execution>)
    requires steps != [] && Enabled(c, s, steps[0])
    ensures es + Executions(c, s, steps)
         == (es + Ended(c, s, steps[0])) + Executions(c, Apply(c, s, steps[0]), steps[1..])
  {
    Regroup(es, Ended(c, s, steps[0]), Executions(c, Apply(c, s, steps[0]), steps[1..]));
  }

  ghost predicate Accounted(c: Config, s: State, es: seq<Execution>) { Inv(c, s) && Explained(s, es) }

  lemma AccountedStep(c: Config, s: State, step: Step, es: seq<Execution>)
    requires Accounted(c, s, es) && Enabled(c, s, step)
    ensures Accounted(c, Apply(c, s, step), es + Ended(c, s, step))
  {
    ExplainedStep(c, s, step, es);
    InvStep(c, s, step);
  }

  lemma {:induction false} AccountedRun(c: Config, s: State, steps: seq<Step>, t: State, es: seq<Execution>)
    requires Accounted(c, s, es) && Runs(c, s, steps, t)
    ensures Accounted(c, t, es + Executions(c, s, steps))
    decreases |steps|
  {
    if steps == [] {
      WithEmpty(es);
    } else {
      AccountedStep(c, s, steps[0], es);
      AccountedRun(c, Apply(c, s, steps[0]), steps[1..], t, es + Ended(c, s, steps[0]));
      ExecutionsUnfold(c, s, steps, es);
    }
  }

  lemma AccountedFromStart(c: Config, steps: seq<Step>, t: State)
    requires ValidConfig(c) && Runs(c, Init(c), steps, t)
    ensures Accounted(c, t, Executions(c, Init(c), steps))
  {
    InvInit(c);
    AccountedRun(c, Init(c), steps, t, []);
    WithEmpty(Executions(c, Init(c), steps));
  }

  lemma CollectedResolved(c: Config, s: State, es: seq<Execution>, k: nat)
    requires Accounted(c, s, es) && k < |s.collected|
    ensures s.collected[k].tag.Work? && s.collected[k].runs <= 1 && Recorded(s.collected[k], es)
  {
    assert Resolved(c, s.threadExit, s.collected[k]);
  }

  /**
    Every collected test was executed as often as it says, once or never, and it carries the return code and
    the result file of its own execution.
  */
  lemma CollectedAsExecuted(c: Config, steps: seq<Step>, t: State, k: nat)
    requires ValidConfig(c) && Runs(c, Init(c), steps, t) && k < |t.collected|
    ensures var j := t.collected[k];
            && j.tag.Work? && j.runs <= 1
            && Of(j.tag, Executions(c, Init(c), steps))
            == if j.runs == 0 then [] else [Execution(j.tag, j.returncode, j.fileOk)]
  {
    AccountedFromStart(c, steps, t);
    CollectedResolved(c, t, Executions(c, Init(c), steps), k);
  }

  // ---------- What an interrupt does to the tests ----------

  predicate HoldsDecided(w: Worker) { w.Running? || w.Returning? }

  /** The test has been decided upon: it is being executed, on its way back, or collected. */
  ghost predicate Decided(s: State, tag: Tag) {
    || (exists k :: 0 <= k < |s.workers| && HoldsDecided(s.workers[k]) && s.workers[k].job.tag == tag)
    || (exists k :: 0 <= k < |s.output| && s.output[k].tag == tag)
    || (exists k :: 0 <= k < |s.collected| && s.collected[k].tag == tag)
  }

  /** A test that has not been decided upon at `s` is marked when it comes back, any other is not. */
  ghost predicate MarkedRight(s: State, j: Job) { j.isBreak <==> !Decided(s, j.tag) }

  ghost predicate AllMarkedRight(s: State, jobs: seq<Job>) {
    forall k | 0 <= k < |jobs| :: MarkedRight(s, jobs[k])
  }

  ghost predicate NotDecided(s: State, j: Job) { j.tag.Work? ==> !Decided(s, j.tag) }

  ghost predicate AllNotDecided(s: State, jobs: seq<Job>) {
    forall k | 0 <= k < |jobs| :: NotDecided(s, jobs[k])
  }

  ghost predicate WorkerMarked(s: State, w: Worker) {
    match w
    case Got(j) => NotDecided(s, j)
    case Running(j) => !j.isBreak && Decided(s, j.tag)
    case Returning(j) => MarkedRight(s, j)
    case _ => true
  }

  ghost predicate AllWorkersMarked(s: State, workers: seq<Worker>) {
    forall k | 0 <= k < |workers| :: WorkerMarked(s, workers[k])
  }

  ghost predicate NoneDecidedFrom(s: State, n: nat) {
    forall i: nat | i >= n :: !Decided(s, Work(i))
  }

  /** The interrupt came at `s`; this is what holds from then on. */
  ghost predicate Marked(s: State, u: State) {
    && u.threadExit && AllNotDecided(s, u.input) && AllWorkersMarked(s, u.workers)
    && AllMarkedRight(s, u.output) && AllMarkedRight(s, u.collected) && NoneDecidedFrom(s, u.dispatched)
  }

  lemma AllMarkedAppend(s: State, jobs: seq<Job>, j: Job)
    requires AllMarkedRight(s, jobs) && MarkedRight(s, j)
    ensures AllMarkedRight(s, jobs + [j])
  {
  }

  lemma MovedMarked(c: Config, s: State, u: State, step: Step)
    requires ValidConfig(c) && JobsOk(c, u) && Marked(s, u) && Enabled(c, u, step) && Moves(step)
    ensures WorkerMarked(s, Apply(c, u, step).workers[Mover(u, step)])
  {
    var w := u.workers[Mover(u, step)];
    assert WorkerOk(c, u.threadExit, w) && WorkerMarked(s, w);
  }

  lemma QueuesMarked(c: Config, s: State, u: State, step: Step)
    requires ValidConfig(c) && JobsOk(c, u) && Marked(s, u) && Enabled(c, u, step)
    ensures var v := Apply(c, u, step);
            && AllNotDecided(s, v.input) && AllMarkedRight(s, v.output) && AllMarkedRight(s, v.collected)
            && NoneDecidedFrom(s, v.dispatched)
  {
    if step.Put? {
      assert WorkerMarked(s, u.workers[step.w]);
      AllMarkedAppend(s, u.output, u.workers[step.w].job);
    }
    if step.Collect? { AllMarkedAppend(s, u.collected, u.output[0]); }
  }

  lemma MarkedStep(c: Config, s: State, u: State, step: Step)
    requires ValidConfig(c) && JobsOk(c, u) && Marked(s, u) && Enabled(c, u, step)
    ensures Marked(s, Apply(c, u, step))
  {
    QueuesMarked(c, s, u, step);
    if Moves(step) { MovedMarked(c, s, u, step); }
  }

  lemma {:induction false} MarkedRun(c: Config, s: State, u: State, steps: seq<Step>, t: State)
    requires Inv(c, u) && Marked(s, u) && Runs(c, u, steps, t)
    ensures Marked(s, t)
    decreases |steps|
  {
    if steps != [] {
      MarkedStep(c, s, u, steps[0]);
      InvStep(c, u, steps[0]);
      MarkedRun(c, s, Apply(c, u, steps[0]), steps[1..], t);
    }
  }

  /** A decided test has no second place among those that are not. */
  lemma DecidedIsElsewhere(c: Config, s: State, i: nat)
    requires Inv(c, s) && Decided(s, Work(i))
    ensures i < s.dispatched
    ensures forall k | 0 <= k < |s.input| :: s.input[k].tag != Work(i)
    ensures forall k | 0 <= k < |s.workers| && s.workers[k].Got? :: s.workers[k].job.tag != Work(i)
  {
    assert Places(s, i) == if i < s.dispatched then 1 else 0;
    if k :| 0 <= k < |s.workers| && HoldsDecided(s.workers[k]) && s.workers[k].job.tag == Work(i) {
      SumAtLeast(WorkerHas(i), s.workers, k);
      forall l | 0 <= l < |s.workers| && s.workers[l].Got? ensures s.workers[l].job.tag != Work(i) {
        if k < l { SumTwo(WorkerHas(i), s.workers, k, l); } else { SumTwo(WorkerHas(i), s.workers, l, k); }
      }
    }
    if k :| 0 <= k < |s.output| && s.output[k].tag == Work(i) { SumAtLeast(JobIs(i), s.output, k); }
    if k :| 0 <= k < |s.collected| && s.collected[k].tag == Work(i) { SumAtLeast(JobIs(i), s.collected, k); }
    forall l | 0 <= l < |s.input| ensures s.input[l].tag != Work(i) { SumAtLeast(JobIs(i), s.input, l); }
    forall l | 0 <= l < |s.workers| && s.workers[l].Got? ensures s.workers[l].job.tag != Work(i) {
      SumAtLeast(WorkerHas(i), s.workers, l);
    }
  }

  lemma MarkedAtInterrupt(c: Config, s: State)
    requires Inv(c, s) && !s.threadExit
    ensures Marked(s, Apply(c, s, Interrupt))
  {
    forall k | 0 <= k < |s.input| ensures NotDecided(s, s.input[k]) {
      if s.input[k].tag.Work? && Decided(s, s.input[k].tag) { DecidedIsElsewhere(c, s, s.input[k].tag.i); }
    }
    forall k | 0 <= k < |s.workers| ensures WorkerMarked(s, s.workers[k]) {
      var w := s.workers[k];
      assert WorkerOk(c, false, w);
      if w.Got? && w.job.tag.Work? && Decided(s, w.job.tag) { DecidedIsElsewhere(c, s, w.job.tag.i); }
    }
    forall i: nat | i >= s.dispatched ensures !Decided(s, Work(i)) {
      if Decided(s, Work(i)) { DecidedIsElsewhere(c, s, i); }
    }
    forall k | 0 <= k < |s.output| ensures MarkedRight(s, s.output[k]) { assert Resolved(c, false, s.output[k]); }
    forall k | 0 <= k < |s.collected| ensures MarkedRight(s, s.collected[k]) { assert Resolved(c, false, s.collected[k]); }
  }

  /**
    The first interrupt divides the tests: those decided upon by then come back as if there had been none, all
    others come back marked, and are not executed.
  */
  lemma InterruptDivides(c: Config, before: seq<Step>, s: State, after: seq<Step>, t: State, k: nat)
    requires ValidConfig(c) && Runs(c, Init(c), before, s) && Interrupt !in before
    requires Runs(c, Apply(c, s, Interrupt), after, t) && k < |t.collected|
    ensures t.collected[k].isBreak <==> !Decided(s, t.collected[k].tag)
    ensures t.collected[k].isBreak ==> t.collected[k].runs == 0
  {
    InvInit(c);
    InvRun(c, Init(c), before, s);
    FlagIffInterrupted(c, Init(c), before, s);
    MarkedAtInterrupt(c, s);
    InvStep(c, s, Interrupt);
    MarkedRun(c, s, Apply(c, s, Interrupt), after, t);
    InvRun(c, Apply(c, s, Interrupt), after, t);
    assert MarkedRight(s, t.collected[k]) && Resolved(c, t.threadExit, t.collected[k]);
  }

  // ---------- Runs with given outcomes ----------

  /** What executing test `i` yields; the same command gives the same result in every schedule. */
  type Outcome = nat -> (int, bool)

  /** Every command that ended did so with the outcome of its test. */
  ghost predicate Agree(es: seq<Execution>, out: Outcome) {
    forall e | e in es && e.tag.Work? :: (e.rc, e.ok) == out(e.tag.i)
  }

  lemma {:induction false} InOf(tag: Tag, es: seq<Execution>, e: Execution)
    ensures e in Of(tag, es) <==> e in es && e.tag == tag
  {
    if es != [] {
      assert es == es[..|es| - 1] + [es[|es| - 1]];
      InOf(tag, es[..|es| - 1], e);
    }
  }

  /** So a test that was executed is collected with that outcome. */
  lemma CollectedAsAgreed(c: Config, steps: seq<Step>, t: State, out: Outcome, k: nat)
    requires ValidConfig(c) && Runs(c, Init(c), steps, t) && k < |t.collected|
    requires Agree(Executions(c, Init(c), steps), out)
    ensures var j := t.collected[k];
            j.tag.Work? && (j.runs == 1 ==> (j.returncode, j.fileOk) == out(j.tag.i))
  {
    CollectedAsExecuted(c, steps, t, k);
    var j := t.collected[k];
    if j.runs == 1 {
      var e := Execution(j.tag, j.returncode, j.fileOk);
      assert e in Of(j.tag, Executions(c, Init(c), steps));
      InOf(j.tag, Executions(c, Init(c), steps), e);
    }
  }

  /** A thread can step, and if it is the end of a command, with the outcome of its test. */
  lemma AgreeingStep(c: Config, s: State, out: Outcome) returns (step: Step)
    requires Inv(c, s) && (c.workers >= 1 || c.jobs == []) && !Done(c, s)
    ensures Enabled(c, s, step) && !step.Interrupt? && Agree(Ended(c, s, step), out)
  {
    step := NoDeadlock(c, s);
    if step.Finish? {
      var j := s.workers[step.w].job;
      if j.tag.Work? { step := Finish(step.w, out(j.tag.i).0, out(j.tag.i).1); }
    }
  }

  /** Whatever the commands are to return, from every reachable state the pool can finish with these outcomes. */
  lemma {:induction false} CanFollow(c: Config, s: State, out: Outcome) returns (steps: seq<Step>, t: State)
    requires Inv(c, s) && (c.workers >= 1 || c.jobs == [])
    ensures Runs(c, s, steps, t) && Done(c, t) && Interrupt !in steps && Agree(Executions(c, s, steps), out)
    decreases Measure(c, s)
  {
    if Done(c, s) {
      return [], s;
    }
    var step := AgreeingStep(c, s, out);
    InvStep(c, s, step);
    MeasureStep(c, s, step);
    var rest;
    rest, t := CanFollow(c, Apply(c, s, step), out);
    steps := [step] + rest;
    assert steps[1..] == rest;
  }
}
