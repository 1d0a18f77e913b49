/** The benchmark harness of `main`: derive the output path once, then run
    the pipeline five times for each pool size 2, 4, 6, 8 and 10, in that
    order, against the same input. */
module Benchmark {
  import opened OutputPath
  import opened Pipeline

  /** The pool sizes, in the order they are tried. */
  const ThreadCounts: seq<int> := [2, 4, 6, 8, 10]

  /** Repetitions per pool size. */
  const Runs: nat := 5

  /** One call of processVideo: its pool size, its repetition number
      (counted from 1) and how it ended. */
  datatype Report = Report(threads: int, run: int, outcome: RunOutcome)

  /** The harness stops before any run when the output path cannot be
      derived; otherwise it runs the whole schedule. */
  datatype BenchmarkResult = PathFailed(error: Error) | Finished(outputPath: string, reports: seq<Report>)

  /** The (pool size, repetition) pairs of the inner loop for pool size t. */
  function Repetitions(t: int, n: nat): (r: seq<(int, int)>)
    ensures |r| == n
  {
    if n == 0 then [] else Repetitions(t, n - 1) + [(t, n)]
  }

  /** The calls the nested loops make for the given pool sizes. */
  function ScheduleOf(counts: seq<int>): (r: seq<(int, int)>)
    ensures |r| == Runs * |counts|
  {
    if counts == [] then []
    else ScheduleOf(counts[..|counts| - 1]) + Repetitions(counts[|counts| - 1], Runs)
  }

  /** The pool size and repetition of each report, in order. */
  function Labels(reports: seq<Report>): (r: seq<(int, int)>)
    ensures |r| == |reports|
    ensures forall i :: 0 <= i < |reports| ==> r[i] == (reports[i].threads, reports[i].run)
  {
    seq(|reports|, i requires 0 <= i < |reports| => (reports[i].threads, reports[i].run))
  }

  lemma {:induction false} RepetitionsAt(t: int, n: nat, k: int)
    requires 0 <= k < n
    ensures Repetitions(t, n)[k] == (t, k + 1)
  {
    if k < n - 1 {
      RepetitionsAt(t, n - 1, k);
    }
  }

  lemma {:induction false} ScheduleOfAt(counts: seq<int>, i: int)
    requires 0 <= i < Runs * |counts|
    ensures ScheduleOf(counts)[i] == (counts[i / Runs], i % Runs + 1)
  {
    var n := |counts|;
    var front := counts[..n - 1];
    if i < Runs * (n - 1) {
      ScheduleOfAt(front, i);
    } else {
      var k := i - Runs * (n - 1);
      RepetitionsAt(counts[n - 1], Runs, k);
      assert i / Runs == n - 1 && i % Runs == k;
    }
  }

  /** The harness's schedule, ScheduleOf(ThreadCounts), is 25 calls: pool
      sizes 2, 4, 6, 8, 10 in ascending order, each run five consecutive
      times as repetitions 1 to 5. */
  lemma ScheduleShape()
    ensures |ScheduleOf(ThreadCounts)| == 25
    ensures forall i :: 0 <= i < 25 ==> ScheduleOf(ThreadCounts)[i] == (2 * (i / 5) + 2, i % 5 + 1)
  {
    forall i | 0 <= i < 25
      ensures ScheduleOf(ThreadCounts)[i] == (2 * (i / 5) + 2, i % 5 + 1)
    {
      ScheduleOfAt(ThreadCounts, i);
      ThreadCountsAreValid(i / 5);
    }
  }

  lemma LabelsAppend(a: seq<Report>, b: seq<Report>)
    ensures Labels(a + b) == Labels(a) + Labels(b)
  {
  }

  lemma ScheduleOfPrefix(counts: seq<int>, t: nat)
    requires t < |counts|
    ensures ScheduleOf(counts[..t + 1]) == ScheduleOf(counts[..t]) + Repetitions(counts[t], Runs)
  {
    assert counts[..t + 1][..t] == counts[..t];
  }

  /** Every pool size is 2 t + 2, so each is a valid pool size. */
  lemma ThreadCountsAreValid(t: int)
    requires 0 <= t < |ThreadCounts|
    ensures ThreadCounts[t] == 2 * t + 2 && ThreadCounts[t] >= 1
  {
  }

  /** The inner loop of main: the five repetitions for one pool size; the
      first of them is call number `first` of the schedule. */
  method RunRepetitions(env: nat -> RunEnv, numThreads: int, first: nat) returns (batch: seq<Report>)
    requires numThreads >= 1
    ensures Labels(batch) == Repetitions(numThreads, Runs)
    ensures forall k :: 0 <= k < |batch| ==> batch[k].outcome == Run(env(first + k))
  {
    batch := [];
    for run := 1 to Runs + 1
      invariant Labels(batch) == Repetitions(numThreads, run - 1)
      invariant forall k :: 0 <= k < |batch| ==> batch[k].outcome == Run(env(first + k))
    {
      var outcome;
      ghost var sink;
      outcome, sink := ProcessVideo(env(first + |batch|), numThreads);
      var report := Report(numThreads, run, outcome);
      LabelsAppend(batch, [report]);
      assert Labels([report]) == [(numThreads, run)];
      ghost var before := batch;
      batch := batch + [report];
      assert forall k :: 0 <= k < |before| ==> batch[k] == before[k];
    }
  }

  /** The two nested loops of main: processVideo is called for every entry
      of the schedule, strictly one after another.  `env(i)` is what the
      files and the pool do during the i-th call. */
  method RunSchedule(env: nat -> RunEnv) returns (reports: seq<Report>)
    ensures Labels(reports) == ScheduleOf(ThreadCounts)
    ensures forall i :: 0 <= i < |reports| ==> reports[i].outcome == Run(env(i))
  {
    reports := [];
    for t := 0 to |ThreadCounts|
      invariant Labels(reports) == ScheduleOf(ThreadCounts[..t])
      invariant forall i :: 0 <= i < |reports| ==> reports[i].outcome == Run(env(i))
    {
      var numThreads := ThreadCounts[t];
      ThreadCountsAreValid(t);
      var batch := RunRepetitions(env, numThreads, |reports|);
      LabelsAppend(reports, batch);
      ScheduleOfPrefix(ThreadCounts, t);
      reports := reports + batch;
    }
    assert ThreadCounts[..|ThreadCounts|] == ThreadCounts;
  }

  /** main, from the moment a file has been chosen: the output path is
      derived once (an input without '.' makes this throw, and no run
      happens), then the schedule is run. */
  method RunBenchmark(inputPath: string, env: nat -> RunEnv) returns (result: BenchmarkResult)
    ensures OutputPathFor(inputPath).Err? ==> result == PathFailed(OutputPathFor(inputPath).error)
    ensures OutputPathFor(inputPath).Ok? ==>
      result.Finished? && result.outputPath == OutputPathFor(inputPath).value &&
      Labels(result.reports) == ScheduleOf(ThreadCounts) &&
      forall i :: 0 <= i < |result.reports| ==> result.reports[i].outcome == Run(env(i))
  {
    var path := OutputPathFor(inputPath);
    if path.Err? {
      return PathFailed(path.error);
    }
    var reports := RunSchedule(env);
    result := Finished(path.value, reports);
  }
}
