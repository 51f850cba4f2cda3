/**
  One turn of a worker's loop on a job object that it updates in place, and that this is what the steps of
  that worker do in the pool.
*/
module WorkerThread {
  import opened WorkerPool

  class TestJob {
    const tag: Tag
    const isExample: bool
    var isBreak: bool
    var isSkip: bool
    var returncode: int
    ghost var fileOk: bool
    ghost var runs: nat

    constructor (tag: Tag, isExample: bool)
      ensures View() == Job(tag, false, false, isExample, 0, false, 0)
    {
      this.tag, this.isExample := tag, isExample;
      isBreak, isSkip, returncode, fileOk, runs := false, false, 0, false, 0;
    }

    ghost function View(): Job
      reads this
    {
      Job(tag, isBreak, isSkip, isExample, returncode, fileOk, runs)
    }

    method SetIsBreak(b: bool)
      modifies this`isBreak
      ensures isBreak == b
    {
      isBreak := b;
    }
  }

  /** The steps of worker `w` for a job it has taken, up to the point where it hands it over or leaves. */
  function OwnSteps(w: nat, job: Job, threadExit: bool, rc: int, ok: bool): seq<Step> {
    if job.isBreak || threadExit || job.isSkip then [Decide(w)] else [Decide(w), Finish(w, rc, ok)]
  }

  /**
    The loop body after `get`: leave on a stop job; otherwise mark, skip or execute the job and hand it over.
    The execution itself yields the arbitrary return code `rc` and result file `ok`.  Worker `w` of any pool
    `s` that holds this job gets there by its own steps.
  */
  method Serve(job: TestJob, threadExit: bool, rc: int, ghost ok: bool, ghost c: Config, ghost s: State, ghost w: nat)
    returns (leave: bool)
    requires w < |s.workers| && s.workers[w] == Got(job.View()) && s.threadExit == threadExit
    modifies job
    ensures leave <==> old(job.isBreak)
    ensures leave ==> job.View() == old(job.View())
    ensures Runs(c, s, OwnSteps(w, old(job.View()), threadExit, rc, ok),
                 s.(workers := s.workers[w := if leave then Exited else Returning(job.View())]))
  {
    OwnRun(c, s, w, job.View(), rc, ok);
    if job.isBreak {
      return true;
    }
    leave := false;
    if threadExit {
      job.SetIsBreak(true);
    } else if !job.isSkip {
      job.returncode := rc;
      job.fileOk, job.runs := ok, job.runs + 1;
    }
  }

  /** What the worker's own steps make of its job, the other threads standing still. */
  function Served(job: Job, threadExit: bool, rc: int, ok: bool): Worker {
    if job.isBreak then Exited
    else if threadExit then Returning(job.(isBreak := true))
    else if job.isSkip then Returning(job)
    else Returning(job.(returncode := rc, fileOk := ok, runs := job.runs + 1))
  }

  lemma OwnRun(c: Config, s: State, w: nat, job: Job, rc: int, ok: bool)
    requires w < |s.workers| && s.workers[w] == Got(job)
    ensures Runs(c, s, OwnSteps(w, job, s.threadExit, rc, ok),
                 s.(workers := s.workers[w := Served(job, s.threadExit, rc, ok)]))
  {
    var s1 := Apply(c, s, Decide(w));
    var steps := OwnSteps(w, job, s.threadExit, rc, ok);
    var t := s.(workers := s.workers[w := Served(job, s.threadExit, rc, ok)]);
    if |steps| == 1 {
      assert steps[1..] == [] && Runs(c, s1, [], t);
    } else {
      assert steps[1..] == [Finish(w, rc, ok)] && steps[1..][1..] == [];
      assert Apply(c, s1, Finish(w, rc, ok)) == t by { assert s.workers[w := s1.workers[w]][w := t.workers[w]] == t.workers; }
      assert Runs(c, t, [], t);
      assert Runs(c, s1, [Finish(w, rc, ok)], t);
    }
  }
}
