/** First-Come-First-Served: every process runs to completion in list order, the CPU
    idling forward when the next process has not arrived yet. */
module Fcfs {
  import opened Processes
  import opened Trace

  /** The FCFS start rule for the run at index m: it starts once the run before it has
      ended (at tick 0 for the first) and its process has arrived, whichever is later. */
  ghost predicate StartsWhenFree(ps: seq<Process>, runs: seq<Run>, m: nat)
    requires m < |ps| && m < |runs|
  {
    runs[m].start == Max(if m == 0 then 0 else End(runs[m - 1]), ps[m].arrive)
  }

  /** The run at index m is position m's whole burst, started by the FCFS rule. */
  ghost predicate FcfsRun(ps: seq<Process>, runs: seq<Run>, m: nat)
    requires m < |ps| && m < |runs|
  {
    runs[m].pos == m && runs[m].len == ps[m].burst && StartsWhenFree(ps, runs, m)
  }

  /** A trace as FCFS builds it: the first |runs| processes in order, each by the rule. */
  ghost predicate FcfsShaped(ps: seq<Process>, runs: seq<Run>)
  {
    |runs| <= |ps| && forall m :: 0 <= m < |runs| ==> FcfsRun(ps, runs, m)
  }

  /** Sum of start - arrival over the first k runs: the waiting total as FCFS accumulates it. */
  ghost function StartWaits(ps: seq<Process>, runs: seq<Run>, k: nat): int
    requires k <= |ps| && k <= |runs|
  {
    if k == 0 then 0 else StartWaits(ps, runs, k - 1) + (runs[k - 1].start - ps[k - 1].arrive)
  }

  lemma ShapedPrefix(ps: seq<Process>, runs: seq<Run>)
    requires FcfsShaped(ps, runs) && runs != []
    ensures FcfsShaped(ps, runs[..|runs| - 1])
  {
    var prefix := runs[..|runs| - 1];
    forall m | 0 <= m < |prefix|
      ensures FcfsRun(ps, prefix, m)
    {
      assert FcfsRun(ps, runs, m);
      assert prefix[m] == runs[m];
      if m > 0 {
        assert prefix[m - 1] == runs[m - 1];
      }
    }
  }

  /** Appending the next position's run, started by the FCFS rule, keeps the shape. */
  lemma ShapedAppend(ps: seq<Process>, runs: seq<Run>, start: int)
    requires FcfsShaped(ps, runs) && |runs| < |ps|
    requires start == Max(if runs == [] then 0 else End(runs[|runs| - 1]), ps[|runs|].arrive)
    ensures FcfsShaped(ps, runs + [Run(|runs|, start, ps[|runs|].burst)])
  {
    var runs' := runs + [Run(|runs|, start, ps[|runs|].burst)];
    forall m | 0 <= m < |runs'|
      ensures FcfsRun(ps, runs', m)
    {
      if m < |runs| {
        assert FcfsRun(ps, runs, m);
        assert runs'[m] == runs[m];
        if m > 0 {
          assert runs'[m - 1] == runs[m - 1];
        }
      }
    }
  }

  /** An FCFS trace is valid: no run starts before its arrival, none overlaps the next. */
  lemma {:induction false} ShapedValid(ps: seq<Process>, runs: seq<Run>)
    requires WellFormedInput(ps) && FcfsShaped(ps, runs)
    ensures ValidTrace(ps, runs)
    decreases |runs|
  {
    if runs != [] {
      var last := |runs| - 1;
      ShapedPrefix(ps, runs);
      ShapedValid(ps, runs[..last]);
      assert FcfsRun(ps, runs, last);
      forall j | 0 <= j < |runs|
        ensures runs[j].pos < |ps| && runs[j].start >= ps[runs[j].pos].arrive
      {
        assert FcfsRun(ps, runs, j);
      }
    }
  }

  /** In an FCFS trace position m ran exactly once, for its whole burst. */
  lemma {:induction false} ShapedWorkFinish(ps: seq<Process>, runs: seq<Run>, m: nat)
    requires FcfsShaped(ps, runs)
    ensures Work(runs, m) == if m < |runs| then ps[m].burst else 0
    ensures m < |runs| ==> Finish(runs, m) == End(runs[m])
    decreases |runs|
  {
    if runs != [] {
      var last := |runs| - 1;
      ShapedPrefix(ps, runs);
      ShapedWorkFinish(ps, runs[..last], m);
      assert FcfsRun(ps, runs, last);
      if m < last {
        assert runs[..last][m] == runs[m];
        assert FcfsRun(ps, runs, m);
      }
    }
  }

  /** FCFS's running total of start - arrival equals completion - arrival - burst summed. */
  lemma {:induction false} ShapedWaits(ps: seq<Process>, runs: seq<Run>, k: nat)
    requires FcfsShaped(ps, runs) && k <= |runs|
    ensures StartWaits(ps, runs, k) == WaitsUpTo(ps, runs, k)
  {
    if k > 0 {
      ShapedWaits(ps, runs, k - 1);
      ShapedWorkFinish(ps, runs, k - 1);
      assert FcfsRun(ps, runs, k - 1);
    }
  }

  /** Runs the list through FCFS. Returns the schedule, the waiting-time total and its
      average; `runs` records, per schedule entry, the position run and for how long. */
  method FcfsScheduling(ps: seq<Process>)
    returns (schedule: seq<Dispatch>, waiting: int, average: real, ghost runs: seq<Run>)
    requires WellFormedInput(ps)
    // one entry per process, in input order, each running its whole burst, the first at
    // its arrival and each later one once the CPU is free and it has arrived
    ensures |schedule| == |runs| == |ps|
    ensures forall k :: 0 <= k < |ps| ==>
      FcfsRun(ps, runs, k) && schedule[k] == Dispatch(runs[k].start, ps[k].id)
    ensures runs[0].start == ps[0].arrive
    ensures ValidTrace(ps, runs) && Complete(ps, runs)
    ensures waiting == TotalWait(ps, runs) && waiting >= 0
    ensures average == Average(waiting, |ps|) && average >= 0.0
  {
    var currentTime := 0;
    schedule, waiting, runs := [], 0, [];
    for k := 0 to |ps|
      invariant |schedule| == |runs| == k
      invariant FcfsShaped(ps, runs)
      invariant forall m :: 0 <= m < k ==> schedule[m] == Dispatch(runs[m].start, ps[m].id)
      invariant currentTime == if k == 0 then 0 else End(runs[k - 1])
      invariant waiting == StartWaits(ps, runs, k)
    {
      var p := ps[k];
      if currentTime < p.arrive {
        currentTime := p.arrive;
      }
      schedule := schedule + [Dispatch(currentTime, p.id)];
      ShapedAppend(ps, runs, currentTime);
      runs := runs + [Run(k, currentTime, p.burst)];
      assert StartWaits(ps, runs, k) == StartWaits(ps, runs[..k], k) by {
        StartWaitsPrefix(ps, runs, k);
      }
      waiting := waiting + (currentTime - p.arrive);
      currentTime := currentTime + p.burst;
    }
    ShapedValid(ps, runs);
    forall m | 0 <= m < |ps|
      ensures Work(runs, m) == ps[m].burst
    {
      ShapedWorkFinish(ps, runs, m);
    }
    ShapedWaits(ps, runs, |ps|);
    TotalWaitNonNegative(ps, runs);
    average := Average(waiting, |ps|);
  }

  /** The running total over the first k runs does not look past them. */
  lemma {:induction false} StartWaitsPrefix(ps: seq<Process>, runs: seq<Run>, k: nat)
    requires k <= |ps| && k <= |runs|
    ensures StartWaits(ps, runs, k) == StartWaits(ps, runs[..k], k)
  {
    StartWaitsAgree(ps, runs, runs[..k], k);
  }

  lemma {:induction false} StartWaitsAgree(ps: seq<Process>, runs1: seq<Run>, runs2: seq<Run>, k: nat)
    requires k <= |ps| && k <= |runs1| && k <= |runs2|
    requires forall m :: 0 <= m < k ==> runs1[m] == runs2[m]
    ensures StartWaits(ps, runs1, k) == StartWaits(ps, runs2, k)
  {
    if k > 0 {
      StartWaitsAgree(ps, runs1, runs2, k - 1);
    }
  }
}
