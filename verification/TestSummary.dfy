/**
  What main makes of the jobs it takes from the output queue: the per-status counters, the list of failed
  jobs with its two append/pop sites, and the exit code.
*/
module TestSummary {
  import opened Sequences
  import opened Sums
  import opened WorkerPool
  import opened WorkerResults

  predicate Executed(j: Job) { !j.isBreak && !j.isSkip }

  function ExitedWith(code: int): Job -> bool { (j: Job) => Executed(j) && j.returncode == code }

  /** Neither success nor failure nor a memory error: the test has crashed. */
  const HasCrashed: Job -> bool := (j: Job) => Executed(j) && j.returncode !in {0, 1, 2}

  const WasSkipped: Job -> bool := (j: Job) => !j.isBreak && j.isSkip

  const WasInterrupted: Job -> bool := (j: Job) => j.isBreak

  /** Nothing to complain about. */
  predicate Good(j: Job) { !j.isBreak && (j.isSkip || j.returncode == 0) }

  /** The job was executed, and either exited non-zero or is a suite whose file says neither PASS nor SKIP. */
  predicate Bad(j: Job) {
    Executed(j) && (j.returncode != 0 || (!j.isExample && !j.fileOk))
  }

  /**
    How often a job ends up in the list of failed jobs.  A suite can be there twice: once for its return
    code and once for its result file, which a crashed suite does not have.
  */
  function Copies(j: Job): nat {
    if !Bad(j) then 0
    else if j.isExample || j.returncode == 0 then 1
    else if 1 <= j.returncode <= 2 && j.fileOk then 1
    else 2
  }

  function Entries(j: Job): seq<Job> {
    if Copies(j) == 0 then [] else if Copies(j) == 1 then [j] else [j, j]
  }

  function FailedList(results: seq<Job>): seq<Job> {
    if results == [] then []
    else FailedList(results[..|results| - 1]) + Entries(results[|results| - 1])
  }

  datatype Summary = Summary(passed: nat, failed: nat, valgrind: nat, crashed: nat, skipped: nat,
                             failedJobs: seq<Job>, exitCode: int)

  /** The collection loop and the final return; `results` is what the output queue delivers, in order. */
  method Summarize(results: seq<Job>) returns (r: Summary)
    ensures r.passed == Number(ExitedWith(0), results) && r.failed == Number(ExitedWith(1), results)
    ensures r.valgrind == Number(ExitedWith(2), results) && r.crashed == Number(HasCrashed, results)
    ensures r.skipped == Number(WasSkipped, results)
    ensures r.failedJobs == FailedList(results)
    ensures r.exitCode == 0 || r.exitCode == 1
    ensures r.exitCode == 0 <==> forall j | j in results :: Good(j)
  {
    var passed, failed, valgrind, crashed, skipped := 0, 0, 0, 0, 0;
    var failedJobs: seq<Job> := [];
    for i := 0 to |results|
      invariant passed == Number(ExitedWith(0), results[..i]) && failed == Number(ExitedWith(1), results[..i])
      invariant valgrind == Number(ExitedWith(2), results[..i]) && crashed == Number(HasCrashed, results[..i])
      invariant skipped == Number(WasSkipped, results[..i])
      invariant failedJobs == FailedList(results[..i])
    {
      var job := results[i];
      NumberNext(ExitedWith(0), results, i);
      NumberNext(ExitedWith(1), results, i);
      NumberNext(ExitedWith(2), results, i);
      NumberNext(HasCrashed, results, i);
      NumberNext(WasSkipped, results, i);
      FailedNext(results, i);
      if job.isBreak {
        continue;
      }
      if job.isSkip {
        skipped := skipped + 1;
      } else if job.returncode == 0 {
        passed := passed + 1;
      } else if job.returncode == 1 {
        failed := failed + 1;
      } else if job.returncode == 2 {
        valgrind := valgrind + 1;
      } else {
        crashed := crashed + 1;
      }
      failedJobs := NoteFailure(failedJobs, job);
    }
    assert results[..|results|] == results;
    AllGood(results);
    r := Summary(passed, failed, valgrind, crashed, skipped, failedJobs,
                 if passed + skipped == |results| then 0 else 1);
  }

  /**
    The two places that append to the list of failed jobs and pop again: one for the return code, and one for
    the result file of a suite.
  */
  method NoteFailure(failedJobs: seq<Job>, job: Job) returns (r: seq<Job>)
    requires !job.isBreak
    ensures r == failedJobs + Entries(job)
  {
    r := failedJobs;
    if !job.isSkip {
      r := r + [job];
      if job.returncode == 0 {
        r := r[..|r| - 1];
      }
    }
    ghost var atFirstSite := r;
    if !job.isExample && !job.isSkip {
      r := r + [job];
      if job.returncode == 0 || job.returncode == 1 || job.returncode == 2 {
        if job.fileOk {
          r := r[..|r| - 1];
          assert r == atFirstSite;
        }
      }
    }
  }

  lemma FailedNext(results: seq<Job>, i: nat)
    requires i < |results|
    ensures FailedList(results[..i + 1]) == FailedList(results[..i]) + Entries(results[i])
  {
    assert results[..i + 1][..i] == results[..i];
  }

  /** Conservation: the five counters and the interrupted jobs add up to the number of tests. */
  lemma {:induction false} EveryJobCounted(results: seq<Job>)
    ensures Number(ExitedWith(0), results) + Number(ExitedWith(1), results) + Number(ExitedWith(2), results)
            + Number(HasCrashed, results) + Number(WasSkipped, results) + Number(WasInterrupted, results) == |results|
  {
    if results != [] { EveryJobCounted(results[1..]); }
  }

  lemma {:induction false} AllGood(results: seq<Job>)
    ensures Number(ExitedWith(0), results) + Number(WasSkipped, results) <= |results|
    ensures Number(ExitedWith(0), results) + Number(WasSkipped, results) == |results|
       <==> forall j | j in results :: Good(j)
  {
    if results != [] {
      var first, rest := results[0], results[1..];
      AllGood(rest);
      assert Good(first) <==> ExitedWith(0)(first) || WasSkipped(first);
      assert forall j :: j in results <==> j == first || j in rest;
    }
  }

  function Is(j: Job): Job -> nat { (x: Job) => if x == j then 1 else 0 }

  /** How often `j` occurs in `s`. */
  function Occurs(j: Job, s: seq<Job>): nat { Sum(Is(j), s) }

  lemma {:induction false} OccursIn(j: Job, s: seq<Job>)
    ensures Occurs(j, s) > 0 <==> j in s
  {
    if s != [] {
      assert s == [s[0]] + s[1..];
      OccursIn(j, s[1..]);
    }
  }

  /** `Copies(j)` for each of `m` occurrences. */
  function CopiesOf(j: Job, m: nat): nat {
    if Copies(j) == 0 then 0 else if Copies(j) == 1 then m else m + m
  }

  /** The first site keeps the job if it exited non-zero. */
  predicate KeptForCode(j: Job) { Executed(j) && j.returncode != 0 }

  /** The second one keeps a suite that crashed or whose result file says neither PASS nor SKIP. */
  predicate KeptForFile(j: Job) { Executed(j) && !j.isExample && (j.returncode !in {0, 1, 2} || !j.fileOk) }

  /**
    The list of failed jobs holds exactly the bad jobs among the results, and each as often as the two sites
    keep it.
  */
  lemma FailedListExact(results: seq<Job>, j: Job)
    ensures j in FailedList(results) <==>
              j in results && Executed(j) && (j.returncode != 0 || (!j.isExample && !j.fileOk))
    ensures Occurs(j, FailedList(results))
         == (if KeptForCode(j) then Occurs(j, results) else 0) + (if KeptForFile(j) then Occurs(j, results) else 0)
  {
    FailedMultiplicity(results, j);
    OccursIn(j, results);
    OccursIn(j, FailedList(results));
  }

  /** The list follows the order of the results. */
  lemma {:induction false} FailedInOrder(a: seq<Job>, b: seq<Job>)
    ensures FailedList(a + b) == FailedList(a) + FailedList(b)
    decreases |b|
  {
    if b == [] {
      assert a + b == a;
    } else {
      var front := b[..|b| - 1];
      assert (a + b)[..|a + b| - 1] == a + front;
      FailedInOrder(a, front);
      Regroup(FailedList(a), FailedList(front), Entries(b[|b| - 1]));
    }
  }

  lemma {:induction false} FailedMultiplicity(results: seq<Job>, j: Job)
    ensures Occurs(j, FailedList(results)) == CopiesOf(j, Occurs(j, results))
  {
    if results != [] {
      var front, last := results[..|results| - 1], results[|results| - 1];
      FailedMultiplicity(front, j);
      assert results == front + [last];
      SumAppend(Is(j), front, last);
      SumConcat(Is(j), FailedList(front), Entries(last));
      EntriesCount(last, j);
    }
  }

  lemma EntriesCount(x: Job, j: Job)
    ensures Occurs(j, Entries(x)) == if x == j then Copies(x) else 0
  {
    SumAppend(Is(j), [], x);
    SumAppend(Is(j), [x], x);
    assert [] + [x] == [x] && [x] + [x] == [x, x];
  }

  // ---------- The summary does not depend on the schedule ----------

  function SumTo(g: nat -> nat, n: nat): nat {
    if n == 0 then 0 else SumTo(g, n - 1) + g(n - 1)
  }

  /** Summing over results that hold each of the tests 0..n once is summing over the tests. */
  lemma {:induction false} SumByTest(f: Job -> nat, g: nat -> nat, results: seq<Job>, n: nat)
    requires |results| == n
    requires forall i: nat | i < n :: Sum(JobIs(i), results) == 1
    requires forall j | j in results :: j.tag.Work? && f(j) == g(j.tag.i)
    ensures Sum(f, results) == SumTo(g, n)
    decreases n
  {
    if n > 0 {
      var k := SumWitness(JobIs(n - 1), results);
      var rest := results[..k] + results[k + 1..];
      DropOne(f, results, k);
      forall i: nat | i < n - 1 ensures Sum(JobIs(i), rest) == 1 { DropOne(JobIs(i), results, k); }
      SumByTest(f, g, rest, n - 1);
    }
  }

  lemma DropOne(f: Job -> nat, results: seq<Job>, k: nat)
    requires k < |results|
    ensures Sum(f, results[..k] + results[k + 1..]) + f(results[k]) == Sum(f, results)
  {
    var a, b := results[..k], results[k + 1..];
    assert results == a + ([results[k]] + b);
    SumConcat(f, a, [results[k]] + b);
    SumConcat(f, a, b);
    assert ([results[k]] + b)[1..] == b;
  }

  ghost predicate NoneInterrupted(t: State) { forall j | j in t.collected :: !j.isBreak }

  /** A completed run in which the commands behaved as `out` says, and no test was given up. */
  ghost predicate CompleteRun(c: Config, steps: seq<Step>, t: State, out: Outcome) {
    && ValidConfig(c) && Runs(c, Init(c), steps, t) && Done(c, t)
    && Agree(Executions(c, Init(c), steps), out) && NoneInterrupted(t)
  }

  function FinalJob(c: Config, out: Outcome, i: nat): Job
    requires i < |c.jobs|
  {
    var j := c.jobs[i];
    if j.isSkip then j else j.(returncode := out(i).0, fileOk := out(i).1, runs := 1)
  }

  lemma RunCompletes(c: Config, steps: seq<Step>, t: State)
    requires ValidConfig(c) && Runs(c, Init(c), steps, t) && Done(c, t)
    ensures Completed(c, t)
  {
    InvInit(c);
    InvRun(c, Init(c), steps, t);
    DoneIsCompleted(c, t);
  }

  /** What is collected for a test, in every such run. */
  lemma CollectedIsFinal(c: Config, steps: seq<Step>, t: State, out: Outcome, j: Job)
    requires CompleteRun(c, steps, t, out) && j in t.collected
    ensures j.tag.Work? && j.tag.i < |c.jobs| && j == FinalJob(c, out, j.tag.i)
  {
    RunCompletes(c, steps, t);
    var k :| 0 <= k < |t.collected| && t.collected[k] == j;
    assert Resolved(c, t.threadExit, t.collected[k]);
    CollectedAsAgreed(c, steps, t, out, k);
  }

  /** The number of tests with a property. */
  function NumberOfTests(c: Config, p: nat -> bool): nat { SumTo(Indicator(p), |c.jobs|) }

  lemma {:induction false} SameNumber(p: nat -> bool, q: nat -> bool, n: nat)
    requires forall i: nat | i < n :: p(i) == q(i)
    ensures SumTo(Indicator(p), n) == SumTo(Indicator(q), n)
  {
    if n > 0 { SameNumber(p, q, n - 1); }
  }

  lemma CountByTest(c: Config, steps: seq<Step>, t: State, out: Outcome, p: Job -> bool, q: nat -> bool)
    requires CompleteRun(c, steps, t, out)
    requires forall i: nat | i < |c.jobs| :: p(FinalJob(c, out, i)) == q(i)
    ensures Number(p, t.collected) == NumberOfTests(c, q)
  {
    RunCompletes(c, steps, t);
    forall j | j in t.collected ensures j.tag.Work? && Indicator(p)(j) == Indicator(q)(j.tag.i) {
      CollectedIsFinal(c, steps, t, out, j);
    }
    SumByTest(Indicator(p), Indicator(q), t.collected, |c.jobs|);
  }

  function Returns(c: Config, out: Outcome, code: int): nat -> bool {
    (i: nat) => i < |c.jobs| && !c.jobs[i].isSkip && out(i).0 == code
  }

  function Crashes(c: Config, out: Outcome): nat -> bool {
    (i: nat) => i < |c.jobs| && !c.jobs[i].isSkip && out(i).0 !in {0, 1, 2}
  }

  function IsToSkip(c: Config): nat -> bool { (i: nat) => i < |c.jobs| && c.jobs[i].isSkip }

  /**
    Any two completed runs, with whatever number of workers and interleaving, count the same: each counter
    is the number of tests whose command returns the code in question, or that are to be skipped.
  */
  lemma ScheduleIndependent(c: Config, steps: seq<Step>, t: State, out: Outcome)
    requires CompleteRun(c, steps, t, out)
    ensures forall code :: Number(ExitedWith(code), t.collected) == NumberOfTests(c, Returns(c, out, code))
    ensures Number(HasCrashed, t.collected) == NumberOfTests(c, Crashes(c, out))
    ensures Number(WasSkipped, t.collected) == NumberOfTests(c, IsToSkip(c))
    ensures Number(WasInterrupted, t.collected) == 0
  {
    forall code ensures Number(ExitedWith(code), t.collected) == NumberOfTests(c, Returns(c, out, code)) {
      CountByTest(c, steps, t, out, ExitedWith(code), Returns(c, out, code));
    }
    CountByTest(c, steps, t, out, HasCrashed, Crashes(c, out));
    CountByTest(c, steps, t, out, WasSkipped, IsToSkip(c));
    SumOfNone(Indicator(WasInterrupted), t.collected);
  }

  /**
    End to end: after any complete run in which no test was given up, `Summarize` yields exit code 0 exactly
    if every test that is not to be skipped exits with 0, whatever the schedule and the number of workers.
  */
  lemma ExitCodeByOutcome(c: Config, steps: seq<Step>, t: State, out: Outcome)
    requires CompleteRun(c, steps, t, out)
    ensures (forall j | j in t.collected :: Good(j)) <==> forall i: nat | i < |c.jobs| :: c.jobs[i].isSkip || out(i).0 == 0
  {
    forall j | j in t.collected ensures j.tag.Work? && j.tag.i < |c.jobs| && j == FinalJob(c, out, j.tag.i) {
      CollectedIsFinal(c, steps, t, out, j);
    }
    RunCompletes(c, steps, t);
    forall i: nat | i < |c.jobs| ensures FinalJob(c, out, i) in t.collected {
      assert Sum(JobIs(i), t.collected) == 1;
      var k := SumWitness(JobIs(i), t.collected);
      assert t.collected[k] in t.collected;
    }
    forall i: nat | i < |c.jobs| ensures Good(FinalJob(c, out, i)) <==> c.jobs[i].isSkip || out(i).0 == 0 {
      assert !c.jobs[i].isBreak;
    }
  }

  /** Without an interrupt no test is given up, so these statements hold of every uninterrupted run. */
  lemma UninterruptedIsComplete(c: Config, steps: seq<Step>, t: State, out: Outcome)
    requires ValidConfig(c) && Runs(c, Init(c), steps, t) && Done(c, t) && Interrupt !in steps
    requires Agree(Executions(c, Init(c), steps), out)
    ensures CompleteRun(c, steps, t, out)
  {
    forall j | j in t.collected ensures !j.isBreak {
      var k :| 0 <= k < |t.collected| && t.collected[k] == j;
      UninterruptedRunRunsAll(c, steps, t, k);
    }
  }
}
