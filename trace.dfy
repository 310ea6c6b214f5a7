/** Facts about a dispatch trace that hold for every scheduling policy: the CPU runs
    one process at a time, never before its arrival, every process receives exactly
    its burst, and the waiting-time total is the sum over processes of
    completion - arrival - burst, which is then never negative. */
module Trace {
  import opened Processes

  /** CPU time that list position k received over the runs. */
  ghost function Work(runs: seq<Run>, k: nat): int
  {
    if runs == [] then 0
    else Work(runs[..|runs| - 1], k) + (if runs[|runs| - 1].pos == k then runs[|runs| - 1].len else 0)
  }

  /** CPU time position k still needs after the runs: its burst minus its work. */
  ghost function Owed(ps: seq<Process>, runs: seq<Run>, k: nat): int
    requires k < |ps|
  {
    ps[k].burst - Work(runs, k)
  }

  /** The tick at which the last run of position k ended (0 when it never ran). */
  ghost function Finish(runs: seq<Run>, k: nat): int
  {
    if runs == [] then 0
    else if runs[|runs| - 1].pos == k then runs[|runs| - 1].start + runs[|runs| - 1].len
    else Finish(runs[..|runs| - 1], k)
  }

  /** The tick at which a run ends. */
  function End(r: Run): int
  {
    r.start + r.len
  }

  /** Runs follow each other on the CPU without overlap, each lasting no negative time. */
  ghost predicate Sequential(runs: seq<Run>)
  {
    if runs == [] then true
    else
      var last := runs[|runs| - 1];
      var prefix := runs[..|runs| - 1];
      && Sequential(prefix)
      && last.len >= 0
      && (prefix != [] ==> End(prefix[|prefix| - 1]) <= last.start)
  }

  /** Every run names a position of the list and starts no earlier than that
      process's arrival, and the runs are sequential. */
  ghost predicate ValidTrace(ps: seq<Process>, runs: seq<Run>)
  {
    && (forall j :: 0 <= j < |runs| ==> runs[j].pos < |ps| && runs[j].start >= ps[runs[j].pos].arrive)
    && Sequential(runs)
  }

  /** Conservation of work: every process ran for exactly its burst. */
  ghost predicate Complete(ps: seq<Process>, runs: seq<Run>)
  {
    forall k :: 0 <= k < |ps| ==> Work(runs, k) == ps[k].burst
  }

  /** Waiting time (completion - arrival - burst) of position k. */
  ghost function WaitOf(ps: seq<Process>, runs: seq<Run>, k: nat): int
    requires k < |ps|
  {
    Finish(runs, k) - ps[k].arrive - ps[k].burst
  }

  /** Waiting time summed over the positions below n that are in `done`. */
  ghost function WaitsDone(ps: seq<Process>, runs: seq<Run>, done: set<nat>, n: nat): int
    requires n <= |ps|
  {
    if n == 0 then 0
    else WaitsDone(ps, runs, done, n - 1) + (if n - 1 in done then WaitOf(ps, runs, n - 1) else 0)
  }

  /** Waiting time summed over the positions below n. */
  ghost function WaitsUpTo(ps: seq<Process>, runs: seq<Run>, n: nat): int
    requires n <= |ps|
  {
    if n == 0 then 0 else WaitsUpTo(ps, runs, n - 1) + WaitOf(ps, runs, n - 1)
  }

  /** The waiting-time total of a finished trace: completion - arrival - burst,
      summed over all processes. */
  ghost function TotalWait(ps: seq<Process>, runs: seq<Run>): int
  {
    WaitsUpTo(ps, runs, |ps|)
  }

  /** Before any process is done, the recorded waits add up to 0. */
  lemma {:induction false} NoneDone(ps: seq<Process>, runs: seq<Run>, n: nat)
    requires n <= |ps|
    ensures WaitsDone(ps, runs, {}, n) == 0
  {
    if n > 0 {
      NoneDone(ps, runs, n - 1);
    }
  }

  /** Once every position is done, the recorded waits add up to the total. */
  lemma {:induction false} AllDone(ps: seq<Process>, runs: seq<Run>, done: set<nat>, n: nat)
    requires n <= |ps|
    requires forall k :: 0 <= k < n ==> k in done
    ensures WaitsDone(ps, runs, done, n) == WaitsUpTo(ps, runs, n)
  {
    if n > 0 {
      AllDone(ps, runs, done, n - 1);
    }
  }

  /** The average waiting time the schedulers report: the total divided by the
      number of processes, in exact arithmetic. */
  function Average(total: int, n: nat): (avg: real)
    requires n > 0
    ensures avg * (n as real) == total as real
    ensures total >= 0 <==> avg >= 0.0
  {
    total as real / n as real
  }

  /** A trace extended by one run still begins with the trace, and the CPU is free
      again when that run ends. */
  lemma Extends(runs: seq<Run>, r: Run)
    ensures (runs + [r])[..|runs|] == runs
    ensures Free(runs + [r]) == End(r)
  {
  }

  /** Appending a run changes the work and the finish tick of its own position only. */
  lemma AppendRun(runs: seq<Run>, r: Run, k: nat)
    ensures Work(runs + [r], k) == Work(runs, k) + (if r.pos == k then r.len else 0)
    ensures Finish(runs + [r], k) == if r.pos == k then r.start + r.len else Finish(runs, k)
  {
    assert (runs + [r])[..|runs|] == runs;
  }

  /** A run that leaves its process unfinished leaves the recorded waits unchanged. */
  lemma {:induction false} ContinueRun(ps: seq<Process>, runs: seq<Run>, done: set<nat>, r: Run, n: nat)
    requires n <= |ps|
    requires r.pos !in done
    ensures WaitsDone(ps, runs + [r], done, n) == WaitsDone(ps, runs, done, n)
  {
    if n > 0 {
      ContinueRun(ps, runs, done, r, n - 1);
      AppendRun(runs, r, n - 1);
    }
  }

  /** A run that finishes its process adds completion - arrival - burst to the total. */
  lemma {:induction false} FinishRun(ps: seq<Process>, runs: seq<Run>, done: set<nat>, r: Run, n: nat)
    requires n <= |ps|
    requires r.pos < n && r.pos !in done
    ensures WaitsDone(ps, runs + [r], done + {r.pos}, n)
         == WaitsDone(ps, runs, done, n) + (r.start + r.len - ps[r.pos].arrive - ps[r.pos].burst)
  {
    AppendRun(runs, r, n - 1);
    if r.pos == n - 1 {
      ContinueRun(ps, runs, done, r, n - 1);
      Unaffected(ps, runs + [r], done, r.pos, n - 1);
    } else {
      FinishRun(ps, runs, done, r, n - 1);
    }
  }

  /** A run adds completion - arrival - burst to the total when it finishes its process,
      and nothing when it leaves it unfinished. */
  lemma RunWaits(ps: seq<Process>, runs: seq<Run>, done: set<nat>, r: Run, finished: bool, n: nat)
    requires n <= |ps|
    requires r.pos < n && r.pos !in done
    ensures WaitsDone(ps, runs + [r], if finished then done + {r.pos} else done, n)
         == WaitsDone(ps, runs, done, n) + (if finished then r.start + r.len - ps[r.pos].arrive - ps[r.pos].burst else 0)
  {
    if finished {
      FinishRun(ps, runs, done, r, n);
    } else {
      ContinueRun(ps, runs, done, r, n);
    }
  }

  /** Adding a position at or beyond n to `done` does not change the sum below n. */
  lemma {:induction false} Unaffected(ps: seq<Process>, runs: seq<Run>, done: set<nat>, p: nat, n: nat)
    requires n <= |ps| && n <= p
    ensures WaitsDone(ps, runs, done + {p}, n) == WaitsDone(ps, runs, done, n)
  {
    if n > 0 {
      Unaffected(ps, runs, done, p, n - 1);
    }
  }

  /** A run that starts no earlier than the end of the last one extends a sequential trace. */
  lemma AppendSequential(runs: seq<Run>, r: Run)
    requires Sequential(runs) && r.len >= 0
    requires runs != [] ==> End(runs[|runs| - 1]) <= r.start
    ensures Sequential(runs + [r])
  {
    assert (runs + [r])[..|runs|] == runs;
  }

  /** In a sequential trace every run has non-negative length and ends no later than
      any later run starts. */
  lemma {:induction false} SequentialPairwise(runs: seq<Run>)
    requires Sequential(runs)
    ensures forall j :: 0 <= j < |runs| ==> runs[j].len >= 0
    ensures forall j1, j2 :: 0 <= j1 < j2 < |runs| ==> End(runs[j1]) <= runs[j2].start
    decreases |runs|
  {
    if runs != [] {
      var last := |runs| - 1;
      var prefix := runs[..last];
      SequentialPairwise(prefix);
      assert forall j :: 0 <= j < last ==> runs[j] == prefix[j];
      forall j1, j2 | 0 <= j1 < j2 < |runs|
        ensures End(runs[j1]) <= runs[j2].start
      {
        if j2 == last && j1 < last - 1 {
          assert End(prefix[j1]) <= prefix[last - 1].start;
        }
      }
    }
  }

  /** With no run of negative length, no position has received negative work. */
  lemma {:induction false} WorkNonNegative(runs: seq<Run>, k: nat)
    requires forall j :: 0 <= j < |runs| ==> runs[j].len >= 0
    ensures Work(runs, k) >= 0
    decreases |runs|
  {
    if runs != [] {
      var last := |runs| - 1;
      assert forall j :: 0 <= j < last ==> runs[..last][j] == runs[j];
      WorkNonNegative(runs[..last], k);
    }
  }

  /** With no run of negative length, a position has received at least the length of
      each of its runs. */
  lemma {:induction false} WorkCounts(runs: seq<Run>, j: nat)
    requires j < |runs| && forall j' :: 0 <= j' < |runs| ==> runs[j'].len >= 0
    ensures Work(runs, runs[j].pos) >= runs[j].len
    decreases |runs|
  {
    var last := |runs| - 1;
    var prefix := runs[..last];
    assert forall j' :: 0 <= j' < last ==> prefix[j'] == runs[j'];
    if j < last {
      WorkCounts(prefix, j);
    } else {
      WorkNonNegative(prefix, runs[j].pos);
    }
  }

  /** When position k has received some work, its finish tick is the end of one of its runs. */
  lemma {:induction false} FinishIsRunEnd(runs: seq<Run>, k: nat)
    requires Work(runs, k) != 0
    ensures exists j :: 0 <= j < |runs| && runs[j].pos == k && Finish(runs, k) == runs[j].start + runs[j].len
    decreases |runs|
  {
    var last := |runs| - 1;
    if runs[last].pos != k {
      FinishIsRunEnd(runs[..last], k);
      var j :| 0 <= j < last && runs[..last][j].pos == k && Finish(runs[..last], k) == runs[..last][j].start + runs[..last][j].len;
      assert runs[j] == runs[..last][j];
    }
  }

  /** The work a position received fits between the earliest tick its runs may start
      at and the end of its last run. */
  lemma {:induction false} WorkFitsWindow(runs: seq<Run>, k: nat, a: int)
    requires Sequential(runs)
    requires forall j :: 0 <= j < |runs| && runs[j].pos == k ==> runs[j].start >= a
    ensures Work(runs, k) >= 0
    ensures Work(runs, k) == 0 || Work(runs, k) <= Finish(runs, k) - a
    decreases |runs|
  {
    if runs != [] {
      var last := |runs| - 1;
      var prefix := runs[..last];
      assert forall j :: 0 <= j < last ==> runs[j] == prefix[j];
      WorkFitsWindow(prefix, k, a);
      SequentialPairwise(runs);
      if runs[last].pos == k && Work(prefix, k) != 0 {
        FinishIsRunEnd(prefix, k);
        var j :| 0 <= j < last && prefix[j].pos == k && Finish(prefix, k) == prefix[j].start + prefix[j].len;
        assert prefix[j] == runs[j];
      }
    }
  }

  /** Waiting time is never negative: a process that received its whole burst, never
      before its arrival, completes no earlier than arrival + burst. */
  lemma {:induction false} WaitsNonNegative(ps: seq<Process>, runs: seq<Run>, n: nat)
    requires n <= |ps|
    requires forall k :: 0 <= k < |ps| ==> ps[k].burst > 0
    requires ValidTrace(ps, runs) && Complete(ps, runs)
    ensures WaitsUpTo(ps, runs, n) >= 0
  {
    if n > 0 {
      WaitsNonNegative(ps, runs, n - 1);
      WorkFitsWindow(runs, n - 1, ps[n - 1].arrive);
    }
  }

  lemma TotalWaitNonNegative(ps: seq<Process>, runs: seq<Run>)
    requires forall k :: 0 <= k < |ps| ==> ps[k].burst > 0
    requires ValidTrace(ps, runs) && Complete(ps, runs)
    ensures TotalWait(ps, runs) >= 0
  {
    WaitsNonNegative(ps, runs, |ps|);
  }

  /** CPU time still owed to the positions below n: burst minus work received, summed. */
  ghost function Pending(ps: seq<Process>, runs: seq<Run>, n: nat): int
    requires n <= |ps|
  {
    if n == 0 then 0 else Pending(ps, runs, n - 1) + Owed(ps, runs, n - 1)
  }

  /** A run of a position below n pays off exactly its length of the owed time. */
  lemma {:induction false} PendingAppend(ps: seq<Process>, runs: seq<Run>, r: Run, n: nat)
    requires n <= |ps|
    ensures Pending(ps, runs + [r], n) == Pending(ps, runs, n) - (if r.pos < n then r.len else 0)
  {
    if n > 0 {
      PendingAppend(ps, runs, r, n - 1);
      AppendRun(runs, r, n - 1);
    }
  }

  /** No position has received more than its burst, so nothing is owed negatively. */
  lemma {:induction false} PendingNonNegative(ps: seq<Process>, runs: seq<Run>, n: nat)
    requires n <= |ps|
    requires forall k :: 0 <= k < n ==> Work(runs, k) <= ps[k].burst
    ensures Pending(ps, runs, n) >= 0
  {
    if n > 0 {
      PendingNonNegative(ps, runs, n - 1);
    }
  }

  /** A run that names a position, starts no earlier than its arrival and no earlier than
      the last run ended, and lasts no negative time, extends a valid trace. */
  lemma AppendValid(ps: seq<Process>, runs: seq<Run>, r: Run)
    requires ValidTrace(ps, runs)
    requires r.pos < |ps| && r.start >= ps[r.pos].arrive && r.len >= 0
    requires runs != [] ==> End(runs[|runs| - 1]) <= r.start
    ensures ValidTrace(ps, runs + [r])
  {
    AppendSequential(runs, r);
    var runs' := runs + [r];
    forall j | 0 <= j < |runs'|
      ensures runs'[j].pos < |ps| && runs'[j].start >= ps[runs'[j].pos].arrive
    {
      if j < |runs| {
        assert runs'[j] == runs[j];
      }
    }
  }

  /** The schedule announces the runs: one entry per run, at the tick the run starts,
      naming the id of the process it runs. */
  ghost predicate Announces(ps: seq<Process>, schedule: seq<Dispatch>, runs: seq<Run>)
    decreases |runs|
  {
    && |schedule| == |runs|
    && (runs != [] ==>
         var last := runs[|runs| - 1];
         && Announces(ps, schedule[..|schedule| - 1], runs[..|runs| - 1])
         && last.pos < |ps|
         && schedule[|schedule| - 1] == Dispatch(last.start, ps[last.pos].id))
  }

  /** Announcing a further run keeps the schedule in step with the trace. */
  lemma AnnounceRun(ps: seq<Process>, schedule: seq<Dispatch>, runs: seq<Run>, r: Run)
    requires Announces(ps, schedule, runs) && r.pos < |ps|
    ensures Announces(ps, schedule + [Dispatch(r.start, ps[r.pos].id)], runs + [r])
  {
    assert (runs + [r])[..|runs|] == runs;
    assert (schedule + [Dispatch(r.start, ps[r.pos].id)])[..|schedule|] == schedule;
  }

  /** Entry by entry: schedule entry j names the process of run j at the tick it starts. */
  lemma {:induction false} AnnouncedEntries(ps: seq<Process>, schedule: seq<Dispatch>, runs: seq<Run>)
    requires Announces(ps, schedule, runs)
    ensures |schedule| == |runs|
    ensures forall j :: 0 <= j < |runs| ==>
      runs[j].pos < |ps| && schedule[j] == Dispatch(runs[j].start, ps[runs[j].pos].id)
    decreases |runs|
  {
    if runs != [] {
      var last := |runs| - 1;
      AnnouncedEntries(ps, schedule[..last], runs[..last]);
      assert forall j :: 0 <= j < last ==> runs[j] == runs[..last][j] && schedule[j] == schedule[..last][j];
    }
  }

  /** The tick the CPU is free again after the runs: the end of the last one, 0 before
      any. */
  function Free(runs: seq<Run>): int
  {
    if runs == [] then 0 else End(runs[|runs| - 1])
  }

  /** Every run starts the moment the CPU is free and its process has arrived, whichever
      is later: the CPU never idles while the process it dispatches next is waiting. */
  ghost predicate Eager(ps: seq<Process>, runs: seq<Run>)
    decreases |runs|
  {
    runs != [] ==>
      var last := runs[|runs| - 1];
      var prefix := runs[..|runs| - 1];
      && Eager(ps, prefix)
      && last.pos < |ps|
      && last.start == Max(Free(prefix), ps[last.pos].arrive)
  }

  /** A run that starts the moment both the CPU and its process are ready keeps the trace
      eager. */
  lemma EagerAppend(ps: seq<Process>, runs: seq<Run>, r: Run)
    requires Eager(ps, runs) && r.pos < |ps| && r.start == Max(Free(runs), ps[r.pos].arrive)
    ensures Eager(ps, runs + [r])
  {
    assert (runs + [r])[..|runs|] == runs;
  }

  /** An eager trace whose runs last no negative time is valid. */
  lemma {:induction false} EagerValid(ps: seq<Process>, runs: seq<Run>)
    requires Eager(ps, runs)
    requires forall j :: 0 <= j < |runs| ==> runs[j].len >= 0
    ensures ValidTrace(ps, runs)
    decreases |runs|
  {
    if runs != [] {
      var last := |runs| - 1;
      var prefix := runs[..last];
      assert forall j :: 0 <= j < last ==> prefix[j] == runs[j];
      EagerValid(ps, prefix);
      AppendValid(ps, prefix, runs[last]);
      assert prefix + [runs[last]] == runs;
    }
  }

  /** Run by run: run j starts at the later of the tick the CPU became free after the
      runs before it and its process's arrival. */
  lemma {:induction false} EagerStarts(ps: seq<Process>, runs: seq<Run>)
    requires Eager(ps, runs)
    ensures forall j :: 0 <= j < |runs| ==>
      runs[j].pos < |ps| && runs[j].start == Max(Free(runs[..j]), ps[runs[j].pos].arrive)
    decreases |runs|
  {
    if runs != [] {
      var last := |runs| - 1;
      var prefix := runs[..last];
      EagerStarts(ps, prefix);
      forall j | 0 <= j < last
        ensures runs[j].pos < |ps| && runs[j].start == Max(Free(runs[..j]), ps[runs[j].pos].arrive)
      {
        assert runs[j] == prefix[j] && runs[..j] == prefix[..j];
      }
    }
  }

  /** The first list position from k on that still owes time after the runs, or |ps|
      when none does. The list is sorted by arrival, so from k = 0 this is a process
      that owes time and arrived no later than any other that does. */
  ghost function Owing(ps: seq<Process>, runs: seq<Run>, k: nat): nat
    decreases |ps| - k
  {
    if |ps| <= k then |ps|
    else if Owed(ps, runs, k) > 0 then k
    else Owing(ps, runs, k + 1)
  }

  /** A position m from k on that owes time is no earlier than the first one. */
  lemma {:induction false} OwingLeast(ps: seq<Process>, runs: seq<Run>, k: nat, m: nat)
    requires k <= m < |ps| && Owed(ps, runs, m) > 0
    ensures Owing(ps, runs, k) <= m
    decreases m - k
  {
    if k < m && Owed(ps, runs, k) <= 0 {
      OwingLeast(ps, runs, k + 1, m);
    }
  }

  /** The first position from k on that owes time does owe time, and nothing from k
      up to it does; |ps| when no position from k on owes time. */
  lemma {:induction false} OwingOwes(ps: seq<Process>, runs: seq<Run>, k: nat)
    requires k <= |ps|
    ensures k <= Owing(ps, runs, k) <= |ps|
    ensures Owing(ps, runs, k) < |ps| ==> Owed(ps, runs, Owing(ps, runs, k)) > 0
    ensures forall k' :: k <= k' < Owing(ps, runs, k) ==> Owed(ps, runs, k') <= 0
    decreases |ps| - k
  {
    if k < |ps| && Owed(ps, runs, k) <= 0 {
      OwingOwes(ps, runs, k + 1);
    }
  }

  /** When nothing from k up to m owes time and m does, m is the first position from k
      on that owes time. */
  lemma {:induction false} OwingIs(ps: seq<Process>, runs: seq<Run>, k: nat, m: nat)
    requires k <= m < |ps| && Owed(ps, runs, m) > 0
    requires forall k' :: k <= k' < m ==> Owed(ps, runs, k') <= 0
    ensures Owing(ps, runs, k) == m
    decreases m - k
  {
    if k < m {
      OwingIs(ps, runs, k + 1, m);
    }
  }

  /** Work conservation: every run starts the moment the CPU is free or, when no process
      that still owes time has arrived by then, at the first arrival among those that
      do. */
  ghost predicate NoIdle(ps: seq<Process>, runs: seq<Run>)
    decreases |runs|
  {
    runs != [] ==>
      var last := runs[|runs| - 1];
      var prefix := runs[..|runs| - 1];
      && NoIdle(ps, prefix)
      && Owing(ps, prefix, 0) < |ps|
      && last.start == Max(Free(prefix), ps[Owing(ps, prefix, 0)].arrive)
  }

  /** A run that starts when the CPU is free or at the first arrival among the processes
      still owing time, whichever is later, keeps the trace work-conserving. */
  lemma NoIdleAppend(ps: seq<Process>, runs: seq<Run>, r: Run)
    requires NoIdle(ps, runs) && Owing(ps, runs, 0) < |ps|
    requires r.start == Max(Free(runs), ps[Owing(ps, runs, 0)].arrive)
    ensures NoIdle(ps, runs + [r])
  {
    assert (runs + [r])[..|runs|] == runs;
  }

  /** Run by run, a work-conserving trace starts run j when the CPU is free or at the
      first arrival among the processes still owing time before it, whichever is later. */
  lemma {:induction false} NoIdleStarts(ps: seq<Process>, runs: seq<Run>)
    requires NoIdle(ps, runs)
    ensures forall j :: 0 <= j < |runs| ==>
      Owing(ps, runs[..j], 0) < |ps| && runs[j].start == Max(Free(runs[..j]), ps[Owing(ps, runs[..j], 0)].arrive)
    decreases |runs|
  {
    if runs != [] {
      var last := |runs| - 1;
      var prefix := runs[..last];
      NoIdleStarts(ps, prefix);
      forall j | 0 <= j < last
        ensures Owing(ps, runs[..j], 0) < |ps| && runs[j].start == Max(Free(runs[..j]), ps[Owing(ps, runs[..j], 0)].arrive)
      {
        assert runs[j] == prefix[j] && runs[..j] == prefix[..j];
      }
    }
  }

  /** A work-conserving trace never leaves the CPU idle while a process that has arrived
      still owes time: run j then starts the moment the CPU is free. */
  lemma NoIdleBusy(ps: seq<Process>, runs: seq<Run>)
    requires WellFormedInput(ps) && NoIdle(ps, runs)
    ensures forall j, k :: 0 <= j < |runs| && 0 <= k < |ps| && Owed(ps, runs[..j], k) > 0 && ps[k].arrive <= Free(runs[..j]) ==>
      runs[j].start == Free(runs[..j])
  {
    NoIdleStarts(ps, runs);
    forall j, k | 0 <= j < |runs| && 0 <= k < |ps| && Owed(ps, runs[..j], k) > 0 && ps[k].arrive <= Free(runs[..j])
      ensures runs[j].start == Free(runs[..j])
    {
      var prefix := runs[..j];
      OwingLeast(ps, prefix, 0, k);
      var o := Owing(ps, prefix, 0);
      assert runs[j].start == Max(Free(prefix), ps[o].arrive);
      assert ArriveAt(ps, o) <= ArriveAt(ps, k);
    }
  }

  /** One more run, dispatched when the CPU is free or its process arrives, whichever is
      later, and no later than the first arrival among the processes still owing time,
      keeps the schedule announcing the trace and the trace eager and work-conserving,
      adds the waiting time of its process when it finishes it, and lowers the pending
      work by its length. */
  lemma AppendKeeps(ps: seq<Process>, schedule: seq<Dispatch>, runs: seq<Run>, done: set<nat>, r: Run, finished: bool)
    requires r.pos < |ps| && r.pos !in done
    requires Announces(ps, schedule, runs) && Eager(ps, runs) && NoIdle(ps, runs) && Owing(ps, runs, 0) < |ps|
    requires r.start == Max(Free(runs), ps[r.pos].arrive) == Max(Free(runs), ps[Owing(ps, runs, 0)].arrive)
    ensures Announces(ps, schedule + [Dispatch(r.start, ps[r.pos].id)], runs + [r])
    ensures Eager(ps, runs + [r]) && NoIdle(ps, runs + [r]) && Free(runs + [r]) == End(r)
    ensures WaitsDone(ps, runs + [r], if finished then done + {r.pos} else done, |ps|)
         == WaitsDone(ps, runs, done, |ps|) + (if finished then End(r) - ps[r.pos].arrive - ps[r.pos].burst else 0)
    ensures Pending(ps, runs + [r], |ps|) == Pending(ps, runs, |ps|) - r.len
  {
    Extends(runs, r);
    EagerAppend(ps, runs, r);
    NoIdleAppend(ps, runs, r);
    PendingAppend(ps, runs, r, |ps|);
    AnnounceRun(ps, schedule, runs, r);
    RunWaits(ps, runs, done, r, finished, |ps|);
  }
}
