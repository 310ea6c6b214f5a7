/** Round robin with a fixed quantum: a FIFO ready queue, each dispatch running the head
    process for at most one quantum and putting it back at the tail when unfinished.
    Admission looks one quantum ahead of the clock. */
module Rr {
  import opened Processes
  import opened Trace
  import opened Ledger

  /** Every run lasts the quantum or, when less is owed, exactly what its process still
      needs: min(quantum, burst - work received before that run), which is positive. */
  ghost predicate QuantumRule(ps: seq<Process>, runs: seq<Run>, quantum: int)
  {
    if runs == [] then true
    else
      var last := runs[|runs| - 1];
      var prefix := runs[..|runs| - 1];
      && QuantumRule(ps, prefix, quantum)
      && last.pos < |ps|
      && last.len == Min(quantum, Owed(ps, prefix, last.pos))
      && last.len > 0
  }

  /** Appending a run that lasts min(quantum, what its process still owes) keeps the rule. */
  lemma QuantumAppend(ps: seq<Process>, runs: seq<Run>, quantum: int, r: Run)
    requires QuantumRule(ps, runs, quantum) && r.pos < |ps|
    requires r.len == Min(quantum, Owed(ps, runs, r.pos)) && r.len > 0
    ensures QuantumRule(ps, runs + [r], quantum)
  {
    assert (runs + [r])[..|runs|] == runs;
  }

  /** Under the rule every run lasts at least one tick and at most the quantum. */
  lemma {:induction false} QuantumBounds(ps: seq<Process>, runs: seq<Run>, quantum: int)
    requires QuantumRule(ps, runs, quantum)
    ensures forall j :: 0 <= j < |runs| ==> 0 < runs[j].len <= quantum
    decreases |runs|
  {
    if runs != [] {
      var last := |runs| - 1;
      QuantumBounds(ps, runs[..last], quantum);
      assert forall j :: 0 <= j < last ==> runs[j] == runs[..last][j];
    }
  }

  /** Run by run: each run is of a listed position and lasts min(quantum, what that
      position owed before it), which is positive. */
  lemma {:induction false} QuantumSteps(ps: seq<Process>, runs: seq<Run>, quantum: int)
    requires QuantumRule(ps, runs, quantum)
    ensures forall j :: 0 <= j < |runs| ==>
      && runs[j].pos < |ps|
      && runs[j].len == Min(quantum, Owed(ps, runs[..j], runs[j].pos))
      && runs[j].len > 0
    decreases |runs|
  {
    if runs != [] {
      var last := |runs| - 1;
      var prefix := runs[..last];
      QuantumSteps(ps, prefix, quantum);
      forall j | 0 <= j < last
        ensures runs[j].pos < |ps| && runs[j].len == Min(quantum, Owed(ps, runs[..j], runs[j].pos)) && runs[j].len > 0
      {
        assert runs[j] == prefix[j] && runs[..j] == prefix[..j];
      }
    }
  }

  /** The ready queue, as list positions from head to tail, and the admission cursor. */
  datatype Line = Line(queue: seq<nat>, admitted: nat)

  /** The queue and cursor after admitting, at a clock `t`, every position that arrives
      within a quantum of `t`, in list order at the tail; when that leaves the queue
      empty and positions remain, the clock jumps to the next arrival and admission
      looks a quantum ahead of that instead. */
  function Admission(ps: seq<Process>, quantum: int, left: Line, t: int): Line
  {
    var c := Arrived(ps, left.admitted, t + quantum);
    var queue := left.queue + Range(left.admitted, c);
    if queue != [] || |ps| <= c then Line(queue, c)
    else
      var c' := Arrived(ps, c, ps[c].arrive + quantum);
      Line(Range(c, c'), c')
  }

  /** The queue and cursor after the last of the runs was dispatched from `at`: the rest
      of the queue, with the head put back at the tail when it still owes time. */
  ghost function Leave(ps: seq<Process>, at: Line, runs: seq<Run>): Line
  {
    if at.queue == [] || |ps| <= at.queue[0] then at
    else
      var head := at.queue[0];
      Line(at.queue[1..] + (if Owed(ps, runs, head) > 0 then [head] else []), at.admitted)
  }

  /** The queue and cursor the runs leave, where lines[j] is the queue and cursor run j
      was dispatched from: empty, with nothing admitted, before the first run; after a
      run, the queue it was dispatched from less its head, with the head put back at the
      tail when it still owes time. */
  ghost function Left(ps: seq<Process>, runs: seq<Run>, lines: seq<Line>): Line
  {
    if lines == [] then Line([], 0) else Leave(ps, lines[|lines| - 1], runs)
  }

  /** Run r, dispatched after the runs `prefix` from the queue and cursor `line`, where
      `plines` are those of the runs before it: `line` is the admission, at the moment
      the CPU became free, that follows the queue the runs leave, and r runs its head. */
  ghost predicate RrStep(ps: seq<Process>, quantum: int, prefix: seq<Run>, plines: seq<Line>, line: Line, r: Run)
  {
    && line == Admission(ps, quantum, Left(ps, prefix, plines), Free(prefix))
    && line.queue != []
    && r.pos == line.queue[0]
  }

  /** Every run dispatches the head of the queue it was dispatched from, `lines` holding
      that queue and the cursor for each run: the FIFO discipline of the ready queue. */
  ghost predicate RrOrder(ps: seq<Process>, quantum: int, runs: seq<Run>, lines: seq<Line>)
  {
    && |lines| == |runs|
    && forall j {:trigger RrStep(ps, quantum, runs[..j], lines[..j], lines[j], runs[j])} :: 0 <= j < |runs| ==>
         RrStep(ps, quantum, runs[..j], lines[..j], lines[j], runs[j])
  }

  /** Dispatching the head of the queue the next admission yields keeps the order, and
      then leaves the rest of that queue, with the head put back at the tail when it
      still owes time. */
  lemma RrAppend(ps: seq<Process>, quantum: int, runs: seq<Run>, lines: seq<Line>, line: Line, r: Run)
    requires RrOrder(ps, quantum, runs, lines) && RrStep(ps, quantum, runs, lines, line, r)
    ensures RrOrder(ps, quantum, runs + [r], lines + [line])
    ensures Left(ps, runs + [r], lines + [line]) == Leave(ps, line, runs + [r])
  {
    var runs', lines' := runs + [r], lines + [line];
    forall j | 0 <= j < |runs'|
      ensures RrStep(ps, quantum, runs'[..j], lines'[..j], lines'[j], runs'[j])
    {
      if j < |runs| {
        assert runs'[..j] == runs[..j] && lines'[..j] == lines[..j];
      } else {
        assert runs'[..j] == runs && lines'[..j] == lines;
      }
    }
  }

  /** Two traces that both follow the FIFO order, the quantum rule and eager starts agree
      on their first n runs and on the queues those runs were dispatched from: each next
      queue is the admission from what the runs before left, each next run takes its
      head, for a length the quantum rule fixes, from a start eagerness fixes. */
  lemma {:induction false} RrPrefix(ps: seq<Process>, quantum: int, runs: seq<Run>, lines: seq<Line>,
                                    runs2: seq<Run>, lines2: seq<Line>, n: nat)
    requires RrOrder(ps, quantum, runs, lines) && QuantumRule(ps, runs, quantum) && Eager(ps, runs)
    requires RrOrder(ps, quantum, runs2, lines2) && QuantumRule(ps, runs2, quantum) && Eager(ps, runs2)
    requires n <= |runs| && n <= |runs2|
    ensures runs[..n] == runs2[..n] && lines[..n] == lines2[..n]
    decreases n
  {
    if n > 0 {
      var j := n - 1;
      RrPrefix(ps, quantum, runs, lines, runs2, lines2, j);
      SameStep(ps, quantum, runs, lines, runs2, lines2, j);
      Snoc(runs, n);
      Snoc(runs2, n);
      Snoc(lines, n);
      Snoc(lines2, n);
    }
  }

  /** After a common prefix, two traces that follow the FIFO order, the quantum rule and
      eager starts take the same next step: the queue is the admission from what the
      prefix left, the run takes its head, for the length the quantum rule fixes, from
      the start eagerness fixes. */
  lemma SameStep(ps: seq<Process>, quantum: int, runs: seq<Run>, lines: seq<Line>,
                 runs2: seq<Run>, lines2: seq<Line>, j: nat)
    requires RrOrder(ps, quantum, runs, lines) && QuantumRule(ps, runs, quantum) && Eager(ps, runs)
    requires RrOrder(ps, quantum, runs2, lines2) && QuantumRule(ps, runs2, quantum) && Eager(ps, runs2)
    requires j < |runs| && j < |runs2| && runs[..j] == runs2[..j] && lines[..j] == lines2[..j]
    ensures lines[j] == lines2[j] && runs[j] == runs2[j]
  {
    assert RrStep(ps, quantum, runs[..j], lines[..j], lines[j], runs[j]);
    assert RrStep(ps, quantum, runs2[..j], lines2[..j], lines2[j], runs2[j]);
    QuantumSteps(ps, runs, quantum);
    QuantumSteps(ps, runs2, quantum);
    EagerStarts(ps, runs);
    EagerStarts(ps, runs2);
  }

  /** A prefix one longer is the shorter one and the next element. */
  lemma Snoc<T>(s: seq<T>, n: nat)
    requires 0 < n <= |s|
    ensures s[..n] == s[..n - 1] + [s[n - 1]]
  {
  }

  /** Round robin leaves no choice: two traces that follow the FIFO order, the quantum
      rule and eager starts and both complete every process are the same trace, from the
      same queues. */
  lemma RrUnique(ps: seq<Process>, quantum: int, runs: seq<Run>, lines: seq<Line>, runs2: seq<Run>, lines2: seq<Line>)
    requires RrOrder(ps, quantum, runs, lines) && QuantumRule(ps, runs, quantum) && Eager(ps, runs)
    requires RrOrder(ps, quantum, runs2, lines2) && QuantumRule(ps, runs2, quantum) && Eager(ps, runs2)
    requires Complete(ps, runs) && Complete(ps, runs2)
    ensures runs == runs2 && lines == lines2
  {
    NoLonger(ps, quantum, runs, lines, runs2, lines2);
    NoLonger(ps, quantum, runs2, lines2, runs, lines);
    RrPrefix(ps, quantum, runs, lines, runs2, lines2, |runs|);
    assert runs == runs[..|runs|] && lines == lines[..|lines|];
    assert runs2 == runs2[..|runs2|] && lines2 == lines2[..|lines2|];
  }

  /** No trace that follows the rules goes on past a complete one: after the common
      prefix, its next run would be of a position that owes nothing. */
  lemma NoLonger(ps: seq<Process>, quantum: int, runs: seq<Run>, lines: seq<Line>, runs2: seq<Run>, lines2: seq<Line>)
    requires RrOrder(ps, quantum, runs, lines) && QuantumRule(ps, runs, quantum) && Eager(ps, runs)
    requires RrOrder(ps, quantum, runs2, lines2) && QuantumRule(ps, runs2, quantum) && Eager(ps, runs2)
    requires Complete(ps, runs)
    ensures |runs2| <= |runs|
  {
    var n := |runs|;
    if n < |runs2| {
      RrPrefix(ps, quantum, runs, lines, runs2, lines2, n);
      assert runs2[..n] == runs;
      QuantumSteps(ps, runs2, quantum);
      assert false;
    }
  }

  /** Admission: moves every not-yet-admitted process whose arrival is at most `limit`
      to the back of the queue, in list order, resetting its remaining time to its burst. */
  method Admit(ps: seq<Process>, rem: seq<int>, ready: seq<nat>, i: nat, limit: int,
               ghost runs: seq<Run>, ghost done: set<nat>)
    returns (rem': seq<int>, ready': seq<nat>, i': nat)
    requires forall k :: 0 <= k < |ps| ==> ps[k].burst > 0
    requires Books(ps, rem, ready, i, runs, done)
    ensures i <= i' <= |ps| && i' == Arrived(ps, i, limit)
    ensures ready' == ready + Range(i, i')
    ensures |rem'| == |ps|
    ensures forall k :: 0 <= k < |ps| ==> rem'[k] == if i <= k < i' then ps[k].burst else rem[k]
    ensures Books(ps, rem', ready', i', runs, done)
  {
    rem', ready', i' := rem, ready, i;
    while i' < |ps| && ps[i'].arrive <= limit
      invariant i <= i' <= |ps| && |rem'| == |ps|
      invariant Arrived(ps, i', limit) == Arrived(ps, i, limit)
      invariant ready' == ready + Range(i, i')
      invariant forall k :: 0 <= k < |ps| ==> rem'[k] == if i <= k < i' then ps[k].burst else rem[k]
    {
      rem' := rem'[i' := ps[i'].burst];
      RangeExtend(i, i');
      ready' := ready' + [i'];
      i' := i' + 1;
    }
    AdmitKeepsBooks(ps, rem, ready, i, runs, done, rem', i');
  }

  /** What holds between steps of the round robin main loop, whatever the clock:
      `remaining` counts the unadmitted and the queued positions; the books are kept;
      the schedule announces the runs; every run dispatches the head of the queue, obeys
      the quantum rule and starts eagerly; the CPU is free by the clock; and the waiting
      total covers exactly the finished positions. */
  ghost predicate Steady(ps: seq<Process>, quantum: int, rem: seq<int>, ready: seq<nat>, i: nat, currentTime: int,
                         schedule: seq<Dispatch>, waiting: int, remaining: int, runs: seq<Run>, lines: seq<Line>,
                         done: set<nat>)
  {
    && remaining == |ps| - i + |ready|
    && Books(ps, rem, ready, i, runs, done)
    && Announces(ps, schedule, runs)
    && RrOrder(ps, quantum, runs, lines)
    && QuantumRule(ps, runs, quantum)
    && Eager(ps, runs) && Free(runs) <= currentTime
    && waiting == WaitsDone(ps, runs, done, |ps|)
  }

  /** The loop invariant: the steady facts; the queue and the cursor are those the runs
      leave; and the clock is where the CPU became free, or at the next arrival after an
      idle jump with an empty queue, when that arrival is more than a quantum after the
      CPU became free. */
  ghost predicate Between(ps: seq<Process>, quantum: int, rem: seq<int>, ready: seq<nat>, i: nat, currentTime: int,
                          schedule: seq<Dispatch>, waiting: int, remaining: int, runs: seq<Run>, lines: seq<Line>,
                          done: set<nat>)
  {
    && Steady(ps, quantum, rem, ready, i, currentTime, schedule, waiting, remaining, runs, lines, done)
    && Line(ready, i) == Left(ps, runs, lines)
    && (currentTime == Free(runs) || (ready == [] && i < |ps| && currentTime == ps[i].arrive && Free(runs) + quantum < ps[i].arrive))
  }

  /** One dispatch of the main loop, from the queue the runs so far lead to: pops the
      head of the queue, starts it no earlier than its arrival, records the schedule
      entry, runs it for min(owed, quantum), and then either retires it, adding its
      waiting time, or puts it back at the tail. */
  method RunHead(ps: seq<Process>, quantum: int, rem: seq<int>, ready: seq<nat>, i: nat, currentTime: int,
                 schedule: seq<Dispatch>, waiting: int, remaining: int, ghost runs: seq<Run>, ghost lines: seq<Line>,
                 ghost done: set<nat>)
    returns (rem': seq<int>, ready': seq<nat>, currentTime': int, schedule': seq<Dispatch>, waiting': int,
             remaining': int, ghost runs': seq<Run>, ghost lines': seq<Line>, ghost done': set<nat>)
    requires quantum > 0 && ready != []
    requires Steady(ps, quantum, rem, ready, i, currentTime, schedule, waiting, remaining, runs, lines, done)
    requires Max(currentTime, ps[ready[0]].arrive) == Max(Free(runs), ps[ready[0]].arrive)
    requires Line(ready, i) == Admission(ps, quantum, Left(ps, runs, lines), Free(runs))
    ensures Owed(ps, runs, ready[0]) > 0
    ensures runs' == runs + [Run(ready[0], Max(currentTime, ps[ready[0]].arrive), Min(Owed(ps, runs, ready[0]), quantum))]
    ensures schedule' == schedule + [Dispatch(Max(currentTime, ps[ready[0]].arrive), ps[ready[0]].id)]
    ensures currentTime' == Max(currentTime, ps[ready[0]].arrive) + Min(Owed(ps, runs, ready[0]), quantum)
    ensures lines' == lines + [Line(ready, i)]
    ensures ready' == ready[1..] + (if Owed(ps, runs', ready[0]) > 0 then [ready[0]] else [])
    ensures remaining' == remaining - (if Owed(ps, runs', ready[0]) > 0 then 0 else 1)
    ensures waiting' == waiting + (if Owed(ps, runs', ready[0]) > 0 then 0 else currentTime' - ps[ready[0]].arrive - ps[ready[0]].burst)
    ensures Between(ps, quantum, rem', ready', i, currentTime', schedule', waiting', remaining', runs', lines', done')
    ensures rem' == rem[ready[0] := rem[ready[0]] - Min(rem[ready[0]], quantum)]
    ensures Pending(ps, runs', |ps|) < Pending(ps, runs, |ps|)
  {
    rem' := rem[ready[0] := rem[ready[0]] - Min(rem[ready[0]], quantum)];
    var p := ready[0];
    currentTime' := currentTime;
    if ps[p].arrive > currentTime' {
      currentTime' := ps[p].arrive;
    }
    var runTime := Min(rem[p], quantum);
    var r := Run(p, currentTime', runTime);
    var finished := rem'[p] == 0;
    ready' := if finished then ready[1..] else ready[1..] + [p];
    done' := if finished then done + {p} else done;
    schedule' := schedule + [Dispatch(currentTime', ps[p].id)];
    currentTime' := currentTime' + runTime;
    remaining' := if finished then remaining - 1 else remaining;
    waiting' := waiting + (if finished then currentTime' - ps[p].arrive - ps[p].burst else 0);
    HeadKeeps(ps, quantum, rem, ready, i, currentTime, schedule, waiting, remaining, runs, lines, done, r,
              rem', ready', currentTime', schedule', waiting', remaining', done');
    runs', lines' := runs + [r], lines + [Line(ready, i)];
  }

  /** Dispatching the head of the queue that admission yields, from the clock or its
      arrival, whichever is later, for min(owed, quantum), keeps the loop invariant with
      the run appended, the queue it was dispatched from recorded, the head retired or
      put back at the tail, and its waiting time added when it finishes; the pending
      work drops. */
  lemma HeadKeeps(ps: seq<Process>, quantum: int, rem: seq<int>, ready: seq<nat>, i: nat, currentTime: int,
                  schedule: seq<Dispatch>, waiting: int, remaining: int, runs: seq<Run>, lines: seq<Line>,
                  done: set<nat>, r: Run, rem': seq<int>, ready': seq<nat>, currentTime': int,
                  schedule': seq<Dispatch>, waiting': int, remaining': int, done': set<nat>)
    requires quantum > 0 && ready != []
    requires Steady(ps, quantum, rem, ready, i, currentTime, schedule, waiting, remaining, runs, lines, done)
    requires Line(ready, i) == Admission(ps, quantum, Left(ps, runs, lines), Free(runs))
    requires r == Run(ready[0], Max(Free(runs), ps[ready[0]].arrive), Min(rem[ready[0]], quantum))
    requires rem' == rem[r.pos := rem[r.pos] - r.len]
    requires ready' == if rem'[r.pos] == 0 then ready[1..] else ready[1..] + [r.pos]
    requires done' == if rem'[r.pos] == 0 then done + {r.pos} else done
    requires currentTime' == End(r) && schedule' == schedule + [Dispatch(r.start, ps[r.pos].id)]
    requires remaining' == if rem'[r.pos] == 0 then remaining - 1 else remaining
    requires waiting' == waiting + (if rem'[r.pos] == 0 then currentTime' - ps[r.pos].arrive - ps[r.pos].burst else 0)
    ensures rem[r.pos] == Owed(ps, runs, r.pos) > 0 && rem'[r.pos] == Owed(ps, runs + [r], r.pos)
    ensures Between(ps, quantum, rem', ready', i, currentTime', schedule', waiting', remaining', runs + [r],
                    lines + [Line(ready, i)], done')
    ensures Pending(ps, runs + [r], |ps|) < Pending(ps, runs, |ps|)
  {
    HeadBooks(ps, quantum, rem, ready, i, waiting, remaining, runs, done, r, rem', ready', done');
    HeadTrace(ps, quantum, ready, i, schedule, runs, lines, r, ready');
  }

  /** The books side of a dispatch of the head for min(remaining, quantum): the head
      owed its remaining time, the books and the count of unfinished processes are kept,
      the waiting total grows by completion - arrival - burst exactly when the head
      finishes, and the outstanding work drops. */
  lemma HeadBooks(ps: seq<Process>, quantum: int, rem: seq<int>, ready: seq<nat>, i: nat, waiting: int, remaining: int,
                  runs: seq<Run>, done: set<nat>, r: Run, rem': seq<int>, ready': seq<nat>, done': set<nat>)
    requires quantum > 0 && ready != [] && remaining == |ps| - i + |ready|
    requires Books(ps, rem, ready, i, runs, done) && waiting == WaitsDone(ps, runs, done, |ps|)
    requires r.pos == ready[0] && r.len == Min(rem[ready[0]], quantum)
    requires rem' == rem[r.pos := rem[r.pos] - r.len]
    requires ready' == if rem'[r.pos] == 0 then ready[1..] else ready[1..] + [r.pos]
    requires done' == if rem'[r.pos] == 0 then done + {r.pos} else done
    ensures r.pos < |ps| && rem[r.pos] == Owed(ps, runs, r.pos) > 0 && rem'[r.pos] == Owed(ps, runs + [r], r.pos)
    ensures r.len == Min(quantum, Owed(ps, runs, r.pos)) && r.len > 0
    ensures ready' == if Owed(ps, runs + [r], r.pos) > 0 then ready[1..] + [r.pos] else ready[1..]
    ensures Books(ps, rem', ready', i, runs + [r], done')
    ensures (if rem'[r.pos] == 0 then remaining - 1 else remaining) == |ps| - i + |ready'|
    ensures waiting + (if rem'[r.pos] == 0 then End(r) - ps[r.pos].arrive - ps[r.pos].burst else 0)
            == WaitsDone(ps, runs + [r], done', |ps|)
    ensures Pending(ps, runs + [r], |ps|) < Pending(ps, runs, |ps|)
  {
    assert Drop(ready, 0) == ready[1..];
    RunKeepsBooks(ps, rem, ready, i, runs, done, 0, r, rem', ready', done');
    AppendRun(runs, r, r.pos);
    PendingAppend(ps, runs, r, |ps|);
    RunWaits(ps, runs, done, r, rem'[r.pos] == 0, |ps|);
  }

  /** The trace side of a dispatch of the head: the schedule entry announces the run,
      the FIFO order, the quantum rule and eagerness are kept, and the queue left is the
      rest of the queue with the head put back at the tail when it still owes time. */
  lemma HeadTrace(ps: seq<Process>, quantum: int, ready: seq<nat>, i: nat, schedule: seq<Dispatch>, runs: seq<Run>,
                  lines: seq<Line>, r: Run, ready': seq<nat>)
    requires Announces(ps, schedule, runs) && RrOrder(ps, quantum, runs, lines)
    requires QuantumRule(ps, runs, quantum) && Eager(ps, runs)
    requires Line(ready, i) == Admission(ps, quantum, Left(ps, runs, lines), Free(runs))
    requires ready != [] && r.pos == ready[0] < |ps| && r.start == Max(Free(runs), ps[r.pos].arrive)
    requires r.len == Min(quantum, Owed(ps, runs, r.pos)) && r.len > 0
    requires ready' == if Owed(ps, runs + [r], r.pos) > 0 then ready[1..] + [r.pos] else ready[1..]
    ensures Announces(ps, schedule + [Dispatch(r.start, ps[r.pos].id)], runs + [r])
    ensures RrOrder(ps, quantum, runs + [r], lines + [Line(ready, i)])
    ensures QuantumRule(ps, runs + [r], quantum) && Eager(ps, runs + [r]) && Free(runs + [r]) == End(r)
    ensures Line(ready', i) == Left(ps, runs + [r], lines + [Line(ready, i)])
  {
    HeadOrder(ps, quantum, ready, i, runs, lines, r, ready');
    Extends(runs, r);
    EagerAppend(ps, runs, r);
    QuantumAppend(ps, runs, quantum, r);
    AnnounceRun(ps, schedule, runs, r);
  }

  /** One iteration of the main loop: admission with a quantum of look-ahead; then, when
      the queue is not empty, one dispatch of its head p, from the clock or p's arrival,
      whichever is later, for min(owed, quantum), with p put back at the tail when it
      still owes time; otherwise a jump of the clock to the next arrival with nothing
      run. Some work is done, or more is admitted, or the clock gets closer to the next
      arrival. */
  method Round(ps: seq<Process>, quantum: int, rem: seq<int>, ready: seq<nat>, i: nat, currentTime: int,
               schedule: seq<Dispatch>, waiting: int, remaining: int, ghost runs: seq<Run>, ghost lines: seq<Line>,
               ghost done: set<nat>)
    returns (rem': seq<int>, ready': seq<nat>, i': nat, currentTime': int, schedule': seq<Dispatch>, waiting': int,
             remaining': int, ghost runs': seq<Run>, ghost lines': seq<Line>, ghost done': set<nat>, ghost p: nat)
    requires WellFormedInput(ps) && quantum > 0 && remaining != 0
    requires Between(ps, quantum, rem, ready, i, currentTime, schedule, waiting, remaining, runs, lines, done)
    ensures Between(ps, quantum, rem', ready', i', currentTime', schedule', waiting', remaining', runs', lines', done')
    ensures i' == Arrived(ps, i, currentTime + quantum)
    ensures ready + Range(i, i') != [] ==>
      && p == (ready + Range(i, i'))[0] && p < |ps| && Owed(ps, runs, p) > 0
      && lines' == lines + [Line(ready + Range(i, i'), i')]
      && runs' == runs + [Run(p, Max(currentTime, ps[p].arrive), Min(Owed(ps, runs, p), quantum))]
      && schedule' == schedule + [Dispatch(Max(currentTime, ps[p].arrive), ps[p].id)]
      && currentTime' == Max(currentTime, ps[p].arrive) + Min(Owed(ps, runs, p), quantum)
      && ready' == (ready + Range(i, i'))[1..] + (if Owed(ps, runs', p) > 0 then [p] else [])
      && remaining' == remaining - (if Owed(ps, runs', p) > 0 then 0 else 1)
      && waiting' == waiting + (if Owed(ps, runs', p) > 0 then 0 else currentTime' - ps[p].arrive - ps[p].burst)
    ensures ready + Range(i, i') == [] ==>
      && i' == i < |ps| && currentTime' == ps[i].arrive
      && runs' == runs && lines' == lines && ready' == [] && schedule' == schedule && waiting' == waiting && remaining' == remaining
    ensures i <= i' <= |ps| && 0 <= Pending(ps, runs, |ps|) && Pending(ps, runs', |ps|) <= Pending(ps, runs, |ps|)
    ensures || Pending(ps, runs', |ps|) < Pending(ps, runs, |ps|)
            || i < i'
            || (i == i' && Gap(ps, i', currentTime') < Gap(ps, i, currentTime))
  {
    BooksPending(ps, rem, ready, i, runs, done);
    rem', ready', i' := Admit(ps, rem, ready, i, currentTime + quantum, runs, done);
    if currentTime != Free(runs) {
      assert Arrived(ps, i, Free(runs) + quantum) == i;
    }
    if |ready'| != 0 {
      assert ready == [] ==> ready'[0] == i;
      AdmitLine(ps, quantum, ready, i, currentTime, runs, i');
      p := ready'[0];
      rem', ready', currentTime', schedule', waiting', remaining', runs', lines', done' :=
        RunHead(ps, quantum, rem', ready', i', currentTime, schedule, waiting, remaining, runs, lines, done);
    } else {
      currentTime', schedule', waiting', remaining', runs', lines', done', p :=
        ps[i'].arrive, schedule, waiting, remaining, runs, lines, done, i';
    }
  }

  /** Dispatching the head of the queue that admission yields keeps the FIFO order, and
      the queue left behind is the rest of it, with the head put back at the tail when
      it still owes time. */
  lemma HeadOrder(ps: seq<Process>, quantum: int, ready: seq<nat>, i: nat, runs: seq<Run>, lines: seq<Line>,
                  r: Run, ready': seq<nat>)
    requires RrOrder(ps, quantum, runs, lines)
    requires Line(ready, i) == Admission(ps, quantum, Left(ps, runs, lines), Free(runs))
    requires ready != [] && r.pos == ready[0] < |ps|
    requires ready' == if Owed(ps, runs + [r], r.pos) > 0 then ready[1..] + [r.pos] else ready[1..]
    ensures RrOrder(ps, quantum, runs + [r], lines + [Line(ready, i)])
    ensures Line(ready', i) == Left(ps, runs + [r], lines + [Line(ready, i)])
  {
    RrAppend(ps, quantum, runs, lines, Line(ready, i), r);
  }

  /** The admission the main loop performs at the clock, from the queue and cursor the
      runs leave, is the one `Admission` describes at the moment the CPU became free:
      directly when the clock is there, and through its jump to the next arrival
      otherwise. */
  lemma AdmitLine(ps: seq<Process>, quantum: int, ready: seq<nat>, i: nat, currentTime: int, runs: seq<Run>, i': nat)
    requires i <= |ps|
    requires || currentTime == Free(runs)
             || (ready == [] && i < |ps| && currentTime == ps[i].arrive && Free(runs) + quantum < ps[i].arrive)
    requires i' == Arrived(ps, i, currentTime + quantum)
    ensures ready + Range(i, i') != [] ==> Admission(ps, quantum, Line(ready, i), Free(runs)) == Line(ready + Range(i, i'), i')
  {
    if currentTime != Free(runs) {
      assert Arrived(ps, i, Free(runs) + quantum) == i;
      assert Range(i, i) == [];
      assert ready + Range(i, i') == Range(i, i');
    }
  }

  /** Work conservation and what keeps it between steps of the main loop: the trace is
      work-conserving; a queued position with a smaller position somewhere behind it
      has arrived by the moment the CPU became free (the smaller one was put back
      after it, at the end of a whole quantum); and the last admitted position arrives
      within a quantum of that moment. */
  ghost predicate Busy(ps: seq<Process>, quantum: int, ready: seq<nat>, i: nat, runs: seq<Run>)
  {
    && NoIdle(ps, runs)
    && (forall m :: 0 <= m < |ready| ==> ready[m] < |ps|)
    && (forall a, b :: 0 <= a < b < |ready| && ready[b] < ready[a] ==> ps[ready[a]].arrive <= Free(runs))
    && (0 < i <= |ps| ==> ps[i - 1].arrive <= Free(runs) + quantum)
  }

  /** Admission at the clock appends positions larger than every queued one, in list
      order, so it puts nothing behind a larger position; and every queued position
      arrives within a quantum of the clock. */
  lemma AdmitBusy(ps: seq<Process>, quantum: int, rem: seq<int>, ready: seq<nat>, i: nat, currentTime: int,
                  runs: seq<Run>, done: set<nat>, i': nat, queue: seq<nat>)
    requires WellFormedInput(ps) && Books(ps, rem, ready, i, runs, done) && Busy(ps, quantum, ready, i, runs)
    requires Free(runs) <= currentTime && i' == Arrived(ps, i, currentTime + quantum)
    requires queue == ready + Range(i, i')
    ensures forall a, b :: 0 <= a < b < |queue| && queue[b] < queue[a] ==> ps[queue[a]].arrive <= Free(runs)
    ensures forall a :: 0 <= a < |queue| ==> queue[a] < i' && ps[queue[a]].arrive <= currentTime + quantum
    ensures 0 < i' ==> ps[i' - 1].arrive <= currentTime + quantum
  {
    assert forall m :: 0 <= m < |ready| ==> queue[m] == ready[m] < i;
    assert forall m :: |ready| <= m < |queue| ==> queue[m] == i + (m - |ready|) < i';
    if 0 < i' {
      forall a | 0 <= a < |queue|
        ensures ps[queue[a]].arrive <= ps[i' - 1].arrive
      {
        if queue[a] < i' - 1 {
          assert ArriveAt(ps, queue[a]) <= ArriveAt(ps, i' - 1);
        }
      }
    }
  }

  /** Dispatching the head of the admitted queue, from the later of the clock and its
      arrival, keeps the trace work-conserving: a smaller position that still owes time
      is queued behind the head, so the head has arrived by the moment the CPU became
      free. A head put back at the tail ran a whole quantum from the clock, so every
      position queued before it has arrived by the end of that run. */
  lemma HeadBusy(ps: seq<Process>, quantum: int, queue: seq<nat>, i: nat, currentTime: int, runs: seq<Run>,
                 r: Run, queue': seq<nat>)
    requires WellFormedInput(ps) && quantum > 0 && queue != [] && i <= |ps|
    requires NoIdle(ps, runs) && Free(runs) <= currentTime
    requires forall m :: 0 <= m < |queue| ==> queue[m] < i
    requires Owed(ps, runs, queue[0]) > 0
    requires forall k :: 0 <= k < i && Owed(ps, runs, k) > 0 ==> k in queue
    requires forall a, b :: 0 <= a < b < |queue| && queue[b] < queue[a] ==> ps[queue[a]].arrive <= Free(runs)
    requires forall a :: 0 <= a < |queue| ==> ps[queue[a]].arrive <= currentTime + quantum
    requires 0 < i ==> ps[i - 1].arrive <= currentTime + quantum
    requires Max(currentTime, ps[queue[0]].arrive) == Max(Free(runs), ps[queue[0]].arrive)
    requires r == Run(queue[0], Max(currentTime, ps[queue[0]].arrive), Min(Owed(ps, runs, queue[0]), quantum))
    requires queue' == queue[1..] + (if Owed(ps, runs + [r], queue[0]) > 0 then [queue[0]] else [])
    ensures Busy(ps, quantum, queue', i, runs + [r])
  {
    var p := queue[0];
    OwingLeast(ps, runs, 0, p);
    var o := Owing(ps, runs, 0);
    OwingOwes(ps, runs, 0);
    if o < p {
      var b :| 0 <= b < |queue| && queue[b] == o;
      assert ArriveAt(ps, o) <= ArriveAt(ps, p);
    }
    NoIdleAppend(ps, runs, r);
    AppendRun(runs, r, p);
    forall a, b | 0 <= a < b < |queue'| && queue'[b] < queue'[a]
      ensures ps[queue'[a]].arrive <= End(r)
    {
      assert queue'[a] == queue[a + 1];
    }
  }

  /** One iteration of the main loop, as `Round` states it, keeps the trace
      work-conserving: from the books and the queue before it, the admitted queue has
      every smaller position that still owes time behind its head. */
  lemma RoundBusy(ps: seq<Process>, quantum: int, rem: seq<int>, ready: seq<nat>, i: nat, currentTime: int,
                  runs: seq<Run>, done: set<nat>, i': nat, runs': seq<Run>, ready': seq<nat>)
    requires WellFormedInput(ps) && quantum > 0
    requires Books(ps, rem, ready, i, runs, done) && Busy(ps, quantum, ready, i, runs)
    requires currentTime == Free(runs) || (ready == [] && i < |ps| && currentTime == ps[i].arrive && Free(runs) < currentTime)
    requires i' == Arrived(ps, i, currentTime + quantum)
    requires ready + Range(i, i') != [] ==>
      var p := (ready + Range(i, i'))[0];
      && p < |ps| && Owed(ps, runs, p) > 0
      && runs' == runs + [Run(p, Max(currentTime, ps[p].arrive), Min(Owed(ps, runs, p), quantum))]
      && ready' == (ready + Range(i, i'))[1..] + (if Owed(ps, runs', p) > 0 then [p] else [])
    requires ready + Range(i, i') == [] ==> i' == i && runs' == runs && ready' == []
    ensures Busy(ps, quantum, ready', i', runs')
  {
    var queue := ready + Range(i, i');
    if queue != [] {
      AdmitBusy(ps, quantum, rem, ready, i, currentTime, runs, done, i', queue);
      forall k | 0 <= k < i' && Owed(ps, runs, k) > 0
        ensures k in queue
      {
        if k < i {
          EntryAt(ps, rem, ready, i, runs, done, |ps|, k);
        } else {
          assert queue[|ready| + (k - i)] == k;
        }
      }
      HeadBusy(ps, quantum, queue, i', currentTime, runs, runs'[|runs|], ready');
    }
  }

  /** Runs the list through round robin with the given quantum. Returns the schedule, the
      waiting-time total and its average; `runs` records, per schedule entry, the
      position run and for how long. */
  method RrScheduling(ps: seq<Process>, quantum: int)
    returns (schedule: seq<Dispatch>, waiting: int, average: real, ghost runs: seq<Run>, ghost lines: seq<Line>)
    requires WellFormedInput(ps) && quantum > 0
    ensures |schedule| == |runs|
    ensures forall j :: 0 <= j < |runs| ==>
      runs[j].pos < |ps| && schedule[j] == Dispatch(runs[j].start, ps[runs[j].pos].id)
    ensures forall j :: 0 <= j < |runs| ==> 0 < runs[j].len <= quantum
    ensures QuantumRule(ps, runs, quantum)
    ensures |lines| == |runs|
    ensures forall j :: 0 <= j < |runs| ==> RrStep(ps, quantum, runs[..j], lines[..j], lines[j], runs[j])
    ensures ValidTrace(ps, runs) && Complete(ps, runs)
    ensures Eager(ps, runs)
    ensures forall j :: 0 <= j < |runs| ==> runs[j].start == Max(Free(runs[..j]), ps[runs[j].pos].arrive)
    ensures forall j :: 0 <= j < |runs| ==>
      Owing(ps, runs[..j], 0) < |ps| && runs[j].start == Max(Free(runs[..j]), ps[Owing(ps, runs[..j], 0)].arrive)
    ensures waiting == TotalWait(ps, runs) && waiting >= 0
    ensures average == Average(waiting, |ps|) && average >= 0.0
  {
    var n := |ps|;
    var rem := seq(n, k requires 0 <= k < n => ps[k].burst);
    var currentTime := 0;
    var ready: seq<nat> := [];
    var remaining := n;
    var i := 0;
    ghost var done: set<nat> := {};
    schedule, waiting, runs, lines := [], 0, [], [];
    NoneDone(ps, runs, n);
    BooksStart(ps, rem);
    while remaining != 0
      invariant Between(ps, quantum, rem, ready, i, currentTime, schedule, waiting, remaining, runs, lines, done)
      invariant Busy(ps, quantum, ready, i, runs)
      decreases Pending(ps, runs, n), n - i, Gap(ps, i, currentTime)
    {
      ghost var p;
      ghost var rem0, ready0, i0, time0, runs0, done0 := rem, ready, i, currentTime, runs, done;
      rem, ready, i, currentTime, schedule, waiting, remaining, runs, lines, done, p :=
        Round(ps, quantum, rem, ready, i, currentTime, schedule, waiting, remaining, runs, lines, done);
      RoundBusy(ps, quantum, rem0, ready0, i0, time0, runs0, done0, i, runs, ready);
    }
    BooksClosed(ps, rem, i, runs, done);
    AnnouncedEntries(ps, schedule, runs);
    QuantumBounds(ps, runs, quantum);
    EagerValid(ps, runs);
    EagerStarts(ps, runs);
    NoIdleStarts(ps, runs);
    AllDone(ps, runs, done, n);
    TotalWaitNonNegative(ps, runs);
    average := Average(waiting, n);
  }
}
