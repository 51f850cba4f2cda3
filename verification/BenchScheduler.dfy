/**
  The scheduler benchmark: a population of events that keeps itself up until a total is reached, and the
  online mean and second moment of the results of several runs.
*/
module BenchScheduler {

  // ---------- The event population ----------

  /** What the benchmark needs of the simulator: how many events are pending, and whether it was stopped. */
  class Simulator {
    var pending: nat
    var stopped: bool

    constructor ()
      ensures pending == 0 && !stopped
    {
      pending, stopped := 0, false;
    }

    method Schedule()
      modifies this
      ensures pending == old(pending) + 1 && stopped == old(stopped)
    {
      pending := pending + 1;
    }

    method Stop()
      modifies this
      ensures stopped && pending == old(pending)
    {
      stopped := true;
    }

    method Destroy()
      modifies this
      ensures pending == 0 && !stopped
    {
      pending, stopped := 0, false;
    }
  }

  class Bench {
    const simulator: Simulator
    var population: nat
    var total: nat
    var count: nat

    constructor (population: nat, total: nat)
      ensures this.population == population && this.total == total
      ensures fresh(simulator) && simulator.pending == 0 && !simulator.stopped
    {
      this.population, this.total, count := population, total, 0;
      simulator := new Simulator();
    }

    /** The event: it replaces itself until the total is reached, and then stops the simulation. */
    method Cb()
      modifies this`count, simulator
      ensures old(count) >= total ==>
                count == old(count) && simulator.stopped && simulator.pending == old(simulator.pending)
      ensures old(count) < total ==>
                && count == old(count) + 1 && simulator.stopped == old(simulator.stopped)
                && simulator.pending == old(simulator.pending) + 1
    {
      if count >= total {
        simulator.Stop();
        return;
      }
      simulator.Schedule();
      count := count + 1;
    }

    /**
      One run.  `pendings` records the number of pending events whenever the simulator is about to take the
      next one: it is the population every time, and there are one more callbacks than counted events.
    */
    method Run() returns (pop: nat, events: nat, ghost pendings: seq<nat>)
      requires simulator.pending == 0 && !simulator.stopped
      modifies this`count, simulator
      ensures simulator.pending == 0 && !simulator.stopped
      ensures pop == population && events == count
      ensures events == if population == 0 then 0 else total
      ensures |pendings| == if population == 0 then 0 else total + 1
      ensures forall k | 0 <= k < |pendings| :: pendings[k] == population
    {
      count := 0;
      pendings := [];
      for i := 0 to population
        invariant simulator.pending == i && !simulator.stopped && count == 0
      {
        simulator.Schedule();
      }
      while simulator.pending > 0 && !simulator.stopped
        invariant count <= total && (population == 0 ==> simulator.pending == 0 && count == 0 && pendings == [])
        invariant !simulator.stopped ==> simulator.pending == population && |pendings| == count
        invariant simulator.stopped ==> count == total && |pendings| == total + 1
        invariant forall k | 0 <= k < |pendings| :: pendings[k] == population
        decreases total - count, !simulator.stopped
      {
        pendings := pendings + [simulator.pending];
        simulator.pending := simulator.pending - 1;
        Cb();
      }
      simulator.Destroy();
      return population, count, pendings;
    }
  }

  // ---------- Mean and second moment ----------

  function Sum(xs: seq<real>): real {
    if xs == [] then 0.0 else Sum(xs[..|xs| - 1]) + xs[|xs| - 1]
  }

  function SumOfSquares(xs: seq<real>): real {
    if xs == [] then 0.0 else SumOfSquares(xs[..|xs| - 1]) + xs[|xs| - 1] * xs[|xs| - 1]
  }

  /** The sum of squared deviations from `m`. */
  function Deviations(xs: seq<real>, m: real): real {
    if xs == [] then 0.0 else Deviations(xs[..|xs| - 1], m) + (xs[|xs| - 1] - m) * (xs[|xs| - 1] - m)
  }

  /** Two-pass definition of what the online loop maintains. */
  ghost predicate Moments(xs: seq<real>, average: real, moment2: real) {
    |xs| as real * average == Sum(xs) && moment2 == Deviations(xs, average)
  }

  /** The sum of squared deviations from `m`, in terms of the number, sum and sum of squares of the samples. */
  function Spread(k: real, sum: real, squares: real, m: real): real {
    squares - 2.0 * m * sum + k * (m * m)
  }

  lemma {:induction false} DeviationsExpand(xs: seq<real>, m: real)
    ensures Deviations(xs, m) == Spread(|xs| as real, Sum(xs), SumOfSquares(xs), m)
  {
    if xs != [] {
      var front, x := xs[..|xs| - 1], xs[|xs| - 1];
      DeviationsExpand(front, m);
      assert (x - m) * (x - m) == x * x - 2.0 * m * x + m * m;
      assert |xs| as real * (m * m) == |front| as real * (m * m) + m * m by {
        assert |xs| as real == |front| as real + 1.0;
      }
      assert 2.0 * m * Sum(xs) == 2.0 * m * Sum(front) + 2.0 * m * x;
    }
  }

  /** Welford's step is exact: the identity behind the recurrence. */
  lemma WelfordIdentity(k: real, m: real, m': real, x: real)
    requires (k + 1.0) * m' == k * m + x
    ensures x * x - (k + 1.0) * (m' * m') == (x - m) * (x - m') - k * (m * m)
  {
    var km := k * m;
    assert m' * ((k + 1.0) * m') == m' * (km + x) == m' * km + m' * x;
    assert (k + 1.0) * (m' * m') == m' * ((k + 1.0) * m');
    assert (x - m) * (x - m') == x * x - x * m' - m * x + m * m';
    assert m * (km + x) == m * ((k + 1.0) * m') == (km + m) * m';
    assert m * (km + x) == k * (m * m) + m * x;
    assert (km + m) * m' == km * m' + m * m';
  }

  lemma SquareOfMean(k: real, m: real, sum: real)
    requires k * m == sum
    ensures m * sum == k * (m * m)
  {
  }

  lemma WelfordReals(k: real, sum: real, squares: real, m: real, m': real, x: real)
    requires k * m == sum && (k + 1.0) * m' == sum + x
    ensures Spread(k + 1.0, sum + x, squares + x * x, m') == Spread(k, sum, squares, m) + (x - m) * (x - m')
  {
    WelfordIdentity(k, m, m', x);
    SquareOfMean(k, m, sum);
    SquareOfMean(k + 1.0, m', sum + x);
    assert 2.0 * m' * (sum + x) == 2.0 * (m' * (sum + x));
    assert 2.0 * m * sum == 2.0 * (m * sum);
  }

  lemma DeviationsAppend(xs: seq<real>, x: real, m: real)
    ensures Deviations(xs + [x], m) == Spread(|xs| as real + 1.0, Sum(xs) + x, SumOfSquares(xs) + x * x, m)
  {
    var all := xs + [x];
    DeviationsExpand(all, m);
    assert all[..|all| - 1] == xs;
    assert |all| as real == |xs| as real + 1.0;
    assert Sum(all) == Sum(xs) + x;
    assert SumOfSquares(all) == SumOfSquares(xs) + x * x;
  }

  lemma WelfordDeviations(xs: seq<real>, m: real, x: real, m': real)
    requires |xs| as real * m == Sum(xs) && (|xs| as real + 1.0) * m' == Sum(xs) + x
    ensures Deviations(xs + [x], m') == Deviations(xs, m) + (x - m) * (x - m')
  {
    DeviationsExpand(xs, m);
    DeviationsAppend(xs, x, m');
    WelfordReals(|xs| as real, Sum(xs), SumOfSquares(xs), m, m', x);
  }

  lemma WelfordStep(xs: seq<real>, average: real, moment2: real, x: real, average': real)
    requires Moments(xs, average, moment2)
    requires (|xs| as real + 1.0) * average' == Sum(xs) + x
    ensures Moments(xs + [x], average', moment2 + (x - average) * (x - average'))
  {
    WelfordDeviations(xs, average, x, average');
    MeanAppend(xs, x, average');
  }

  lemma MeanAppend(xs: seq<real>, x: real, average': real)
    requires (|xs| as real + 1.0) * average' == Sum(xs) + x
    ensures |xs + [x]| as real * average' == Sum(xs + [x])
  {
    assert (xs + [x])[..|xs|] == xs;
    assert |xs + [x]| as real == |xs| as real + 1.0;
  }

  lemma MeanStep(count: real, average: real, x: real, average': real)
    requires count > 0.0 && average' == average + (x - average) / count
    ensures count * average' == (count - 1.0) * average + x
  {
    var d := (x - average) / count;
    assert count * d == x - average;
    assert count * (average + d) == count * average + count * d;
  }

  datatype PhaseResult = PhaseResult(time: real, rate: real, period: real)

  datatype Result = Result(init: PhaseResult, run: PhaseResult)

  function Column(f: Result -> real, results: seq<Result>): (xs: seq<real>)
    ensures |xs| == |results| && forall k | 0 <= k < |results| :: xs[k] == f(results[k])
  {
    if results == [] then [] else Column(f, results[..|results| - 1]) + [f(results[|results| - 1])]
  }

  const InitTime: Result -> real := (r: Result) => r.init.time
  const InitRate: Result -> real := (r: Result) => r.init.rate
  const InitPeriod: Result -> real := (r: Result) => r.init.period
  const RunTime: Result -> real := (r: Result) => r.run.time
  const RunRate: Result -> real := (r: Result) => r.run.rate
  const RunPeriod: Result -> real := (r: Result) => r.run.period

  /** The state of one field after `xs`: before the first sample the average is set to that sample. */
  ghost predicate Tracked(xs: seq<real>, next: real, average: real, moment2: real) {
    if xs == [] then average == next && moment2 == 0.0 else Moments(xs, average, moment2)
  }

  lemma TrackedStep(xs: seq<real>, x: real, average: real, moment2: real, average': real)
    requires Tracked(xs, x, average, moment2)
    requires average' == average + (x - average) / (|xs| as real + 1.0)
    ensures Moments(xs + [x], average', moment2 + (x - average) * (x - average'))
  {
    MeanStep(|xs| as real + 1.0, average, x, average');
    if xs == [] {
      assert Moments([], average, moment2);
    }
    WelfordStep(xs, average, moment2, x, average');
  }

  /** The accumulation of one field of one result, after the samples `xs` of that field. */
  method Accumulate(ghost xs: seq<real>, n: nat, x: real, average: real, moment2: real)
    returns (average': real, moment2': real)
    requires n == |xs| && Tracked(xs, x, average, moment2)
    ensures Moments(xs + [x], average', moment2')
  {
    var count := n + 1;
    var deltaPre := x - average;
    average' := average + deltaPre / count as real;
    var deltaPost := x - average';
    moment2' := moment2 + deltaPre * deltaPost;
    assert count as real == |xs| as real + 1.0;
    TrackedStep(xs, x, average, moment2, average');
  }

  datatype Statistics = NoStatistics | Statistics(average: Result, moment2: Result, n: nat)

  ghost predicate AllMoments(results: seq<Result>, average: Result, moment2: Result) {
    && Moments(Column(InitTime, results), average.init.time, moment2.init.time)
    && Moments(Column(InitRate, results), average.init.rate, moment2.init.rate)
    && Moments(Column(InitPeriod, results), average.init.period, moment2.init.period)
    && Moments(Column(RunTime, results), average.run.time, moment2.run.time)
    && Moments(Column(RunRate, results), average.run.rate, moment2.run.rate)
    && Moments(Column(RunPeriod, results), average.run.period, moment2.run.period)
  }

  ghost predicate AllTracked(results: seq<Result>, next: Result, average: Result, moment2: Result) {
    && Tracked(Column(InitTime, results), next.init.time, average.init.time, moment2.init.time)
    && Tracked(Column(InitRate, results), next.init.rate, average.init.rate, moment2.init.rate)
    && Tracked(Column(InitPeriod, results), next.init.period, average.init.period, moment2.init.period)
    && Tracked(Column(RunTime, results), next.run.time, average.run.time, moment2.run.time)
    && Tracked(Column(RunRate, results), next.run.rate, average.run.rate, moment2.run.rate)
    && Tracked(Column(RunPeriod, results), next.run.period, average.run.period, moment2.run.period)
  }

  /** The loop invariant: the six fields after the first `n` results. */
  ghost predicate Progress(results: seq<Result>, n: nat, average: Result, moment2: Result) {
    && 0 < |results| && n <= |results|
    && (n < |results| ==> AllTracked(results[..n], results[n], average, moment2))
    && (n == |results| ==> AllMoments(results, average, moment2))
  }

  const Zero := Result(PhaseResult(0.0, 0.0, 0.0), PhaseResult(0.0, 0.0, 0.0))

  lemma ProgressStart(results: seq<Result>)
    requires 0 < |results|
    ensures Progress(results, 0, results[0], Zero)
  {
    assert results[..0] == [];
  }

  /** The loop over the results; the average starts at the first result although no sample is counted yet. */
  method Summarize(results: seq<Result>) returns (s: Statistics)
    ensures s.NoStatistics? <==> |results| < 2
    ensures s.Statistics? ==> s.n == |results| && AllMoments(results, s.average, s.moment2)
  {
    if |results| < 2 {
      return NoStatistics;
    }
    var average, moment2 := results[0], Zero;
    var n := 0;
    ProgressStart(results);
    while n < |results|
      invariant Progress(results, n, average, moment2)
    {
      average, moment2 := AccumulateAll(results, n, average, moment2);
      n := n + 1;
    }
    s := Statistics(average, moment2, n);
  }

  lemma MomentsAreTracked(results: seq<Result>, next: Result, average: Result, moment2: Result)
    requires results != [] && AllMoments(results, average, moment2)
    ensures AllTracked(results, next, average, moment2)
  {
  }

  /** The six accumulations of one turn of the loop. */
  method AccumulateAll(results: seq<Result>, n: nat, average: Result, moment2: Result)
    returns (average': Result, moment2': Result)
    requires n < |results| && Progress(results, n, average, moment2)
    ensures Progress(results, n + 1, average', moment2')
  {
    var run := results[n];
    ghost var seen := results[..n];
    assert (seen + [run])[..n] == seen;
    var a0, m0 := Accumulate(Column(InitTime, seen), n, run.init.time, average.init.time, moment2.init.time);
    var a1, m1 := Accumulate(Column(InitRate, seen), n, run.init.rate, average.init.rate, moment2.init.rate);
    var a2, m2 := Accumulate(Column(InitPeriod, seen), n, run.init.period, average.init.period, moment2.init.period);
    var a3, m3 := Accumulate(Column(RunTime, seen), n, run.run.time, average.run.time, moment2.run.time);
    var a4, m4 := Accumulate(Column(RunRate, seen), n, run.run.rate, average.run.rate, moment2.run.rate);
    var a5, m5 := Accumulate(Column(RunPeriod, seen), n, run.run.period, average.run.period, moment2.run.period);
    average' := Result(PhaseResult(a0, a1, a2), PhaseResult(a3, a4, a5));
    moment2' := Result(PhaseResult(m0, m1, m2), PhaseResult(m3, m4, m5));
    assert AllMoments(seen + [run], average', moment2');
    ProgressNext(results, n, average', moment2');
  }

  lemma ProgressNext(results: seq<Result>, n: nat, average: Result, moment2: Result)
    requires n < |results| && AllMoments(results[..n] + [results[n]], average, moment2)
    ensures Progress(results, n + 1, average, moment2)
  {
    assert results[..n + 1] == results[..n] + [results[n]];
    if n + 1 < |results| {
      MomentsAreTracked(results[..n + 1], results[n + 1], average, moment2);
    } else {
      assert results[..n + 1] == results;
    }
  }
}
