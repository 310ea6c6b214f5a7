/** Preemptive shortest-remaining-time-first: a priority queue keyed by remaining time;
    a process is admitted only at its exact arrival tick, one per round, and each run
    lasts until the process finishes or the next arrival, whichever is sooner. */
module Srtf {
  import opened Processes
  import opened Trace
  import opened Ledger

  datatype Option<T> = None | Some(value: T)

  /** Ticks from t until the arrival of list position i, None (an infinite wait) when
      every position has been admitted. */
  function ToNextArrival(ps: seq<Process>, i: nat, t: int): Option<int>
  {
    if i < |ps| then Some(ps[i].arrive - t) else None
  }

  /** The admission cursor after the admission step at tick t: position c joins exactly
      when it arrives at t, and at most one position joins per round. */
  function Admits(ps: seq<Process>, c: nat, t: int): (c': nat)
    ensures c' == c || (c' == c + 1 && c < |ps| && ps[c].arrive == t)
    ensures c < |ps| && ps[c].arrive == t ==> c' == c + 1
  {
    if c < |ps| && ps[c].arrive == t then c + 1 else c
  }

  /** The admission cursor recorded at the last dispatch, 0 before any. */
  function Latest(cursor: seq<nat>): nat
  {
    if cursor == [] then 0 else cursor[|cursor| - 1]
  }

  /** The priority queue's `get`: the index in `ready` of an entry whose remaining time
      is least. Ties go to some least entry; the source breaks them by comparing
      process objects. */
  method ExtractMin(ready: seq<nat>, rem: seq<int>) returns (m: nat)
    requires ready != []
    requires forall x :: 0 <= x < |ready| ==> ready[x] < |rem|
    ensures m < |ready|
    ensures forall x :: 0 <= x < |ready| ==> rem[ready[m]] <= rem[ready[x]]
  {
    m := 0;
    for x := 1 to |ready|
      invariant m < |ready|
      invariant forall y :: 0 <= y < x ==> rem[ready[m]] <= rem[ready[y]]
    {
      if rem[ready[x]] < rem[ready[m]] {
        m := x;
      }
    }
  }

  /** Position p owes no more than any of the positions 0 .. c-1 that still owe
      something. */
  ghost predicate Shortest(ps: seq<Process>, runs: seq<Run>, p: nat, c: nat)
    requires p < |ps| && c <= |ps|
  {
    c == 0 || (Shortest(ps, runs, p, c - 1) && (Owed(ps, runs, c - 1) > 0 ==> Owed(ps, runs, p) <= Owed(ps, runs, c - 1)))
  }

  lemma {:induction false} ShortestAll(ps: seq<Process>, runs: seq<Run>, p: nat, c: nat)
    requires p < |ps| && c <= |ps|
    ensures Shortest(ps, runs, p, c) <==>
      forall k :: 0 <= k < c && Owed(ps, runs, k) > 0 ==> Owed(ps, runs, p) <= Owed(ps, runs, k)
  {
    if c > 0 {
      ShortestAll(ps, runs, p, c - 1);
    }
  }

  /** The SRTF rule for a run r dispatched after the runs `prefix` while positions
      0 .. c-1 were admitted: r runs an admitted position that still owes time and owes
      no more than any admitted position that still owes time; position c-1 has
      arrived by the start of r and position c has not arrived before it; and r lasts
      what its position owes or until the arrival of position c, whichever is sooner
      (the whole owed time when every position has been admitted). */
  ghost predicate SrtfStep(ps: seq<Process>, prefix: seq<Run>, c: nat, r: Run)
  {
    && r.pos < c <= |ps|
    && Owed(ps, prefix, r.pos) > 0
    && Shortest(ps, prefix, r.pos, c)
    && ps[c - 1].arrive <= r.start
    && if c < |ps| then
         r.start <= ps[c].arrive && r.len == Min(Owed(ps, prefix, r.pos), ps[c].arrive - r.start)
       else
         r.len == Owed(ps, prefix, r.pos)
  }

  /** Every run of the trace follows the SRTF rule, with `cursor` recording for each run
      how many positions had been admitted when it was dispatched: since the dispatch
      before it, only the position arriving at the tick of the run was admitted. */
  ghost predicate SrtfRule(ps: seq<Process>, runs: seq<Run>, cursor: seq<nat>)
    decreases |runs|
  {
    && |cursor| == |runs|
    && (runs != [] ==>
         && SrtfRule(ps, runs[..|runs| - 1], cursor[..|cursor| - 1])
         && SrtfStep(ps, runs[..|runs| - 1], cursor[|cursor| - 1], runs[|runs| - 1])
         && cursor[|cursor| - 1] == Admits(ps, Latest(cursor[..|cursor| - 1]), runs[|runs| - 1].start))
  }

  lemma SrtfAppend(ps: seq<Process>, runs: seq<Run>, cursor: seq<nat>, c: nat, r: Run)
    requires SrtfRule(ps, runs, cursor) && SrtfStep(ps, runs, c, r) && c == Admits(ps, Latest(cursor), r.start)
    ensures SrtfRule(ps, runs + [r], cursor + [c])
  {
    assert (runs + [r])[..|runs|] == runs;
    assert (cursor + [c])[..|cursor|] == cursor;
  }

  /** Run by run: each run follows the SRTF rule after the runs before it, and so lasts
      no negative time. */
  lemma {:induction false} SrtfRuleAll(ps: seq<Process>, runs: seq<Run>, cursor: seq<nat>)
    requires SrtfRule(ps, runs, cursor)
    ensures |cursor| == |runs|
    ensures forall j :: 0 <= j < |runs| ==> SrtfStep(ps, runs[..j], cursor[j], runs[j])
    ensures forall j :: 0 <= j < |runs| ==> runs[j].len >= 0
    decreases |runs|
  {
    if runs != [] {
      var last := |runs| - 1;
      var prefix, cprefix := runs[..last], cursor[..last];
      SrtfRuleAll(ps, prefix, cprefix);
      forall j | 0 <= j < |runs|
        ensures SrtfStep(ps, runs[..j], cursor[j], runs[j])
      {
        if j < last {
          assert runs[..j] == prefix[..j] && runs[j] == prefix[j] && cursor[j] == cprefix[j];
        }
      }
      forall j | 0 <= j < |runs|
        ensures runs[j].len >= 0
      {
        StepLength(ps, runs[..j], cursor[j], runs[j]);
      }
    }
  }

  /** A run that follows the SRTF rule lasts no negative time. */
  lemma StepLength(ps: seq<Process>, prefix: seq<Run>, c: nat, r: Run)
    requires SrtfStep(ps, prefix, c, r)
    ensures r.len >= 0
  {
  }

  /** Run by run: the dispatch of run j admitted, since the dispatch before it, only the
      position arriving at the start of run j, if any. */
  lemma {:induction false} AdmitsAll(ps: seq<Process>, runs: seq<Run>, cursor: seq<nat>)
    requires SrtfRule(ps, runs, cursor)
    ensures |cursor| == |runs|
    ensures forall j :: 0 <= j < |runs| ==> cursor[j] == Admits(ps, Latest(cursor[..j]), runs[j].start)
    decreases |runs|
  {
    if runs != [] {
      var last := |runs| - 1;
      var prefix, cprefix := runs[..last], cursor[..last];
      AdmitsAll(ps, prefix, cprefix);
      assert cursor[last] == Admits(ps, Latest(cprefix), runs[last].start);
      forall j | 0 <= j < |runs|
        ensures cursor[j] == Admits(ps, Latest(cursor[..j]), runs[j].start)
      {
        if j < last {
          assert runs[j] == prefix[j] && cursor[j] == cprefix[j] && cursor[..j] == cprefix[..j];
        }
      }
    }
  }

  /** The SRTF rule in plain quantifiers: the position run owes no more than any
      admitted position that still owes time. */
  lemma SrtfStepShortest(ps: seq<Process>, prefix: seq<Run>, c: nat, r: Run)
    requires SrtfStep(ps, prefix, c, r)
    ensures forall k :: 0 <= k < c && Owed(ps, prefix, k) > 0 ==> Owed(ps, prefix, r.pos) <= Owed(ps, prefix, k)
  {
    ShortestAll(ps, prefix, r.pos, c);
  }

  /** When p's remaining time is least in the ready population, p owes no more than any
      admitted position that still owes time. */
  lemma {:induction false} BooksShortest(ps: seq<Process>, rem: seq<int>, ready: seq<nat>, i: nat, runs: seq<Run>,
                                         done: set<nat>, p: nat, c: nat)
    requires Books(ps, rem, ready, i, runs, done) && p < |ps| && c <= i
    requires rem[p] == Owed(ps, runs, p)
    requires forall x :: 0 <= x < |ready| ==> rem[p] <= rem[ready[x]]
    ensures Shortest(ps, runs, p, c)
  {
    if c > 0 {
      var k := c - 1;
      BooksShortest(ps, rem, ready, i, runs, done, p, k);
      EntryAt(ps, rem, ready, i, runs, done, |ps|, k);
      if rem[k] > 0 {
        var x :| 0 <= x < |ready| && ready[x] == k;
      }
    }
  }

  /** What holds between steps of the SRTF main loop, whatever the clock: `remaining`
      counts the unadmitted and the queued positions; the books are kept; the schedule
      announces the runs; every run follows the SRTF rule and starts eagerly; the trace
      is work-conserving; the CPU is free by the clock; the clock has reached the last
      admitted arrival and not passed the next one; and the waiting total covers exactly
      the finished positions. */
  ghost predicate Steady(ps: seq<Process>, rem: seq<int>, ready: seq<nat>, i: nat, currentTime: int,
                         schedule: seq<Dispatch>, waiting: int, remaining: int, runs: seq<Run>, cursor: seq<nat>,
                         done: set<nat>)
  {
    && remaining == |ps| - i + |ready|
    && Books(ps, rem, ready, i, runs, done)
    && Announces(ps, schedule, runs)
    && SrtfRule(ps, runs, cursor)
    && Eager(ps, runs) && Free(runs) <= currentTime
    && NoIdle(ps, runs)
    && (i < |ps| ==> currentTime <= ps[i].arrive)
    && (0 < i <= |ps| ==> ps[i - 1].arrive <= currentTime)
    && waiting == WaitsDone(ps, runs, done, |ps|)
  }

  /** The loop invariant: the steady facts; the admission cursor is the one recorded at
      the last dispatch; and the clock is where the CPU became free, or at the next
      arrival, the first position still owing time, after an idle jump with an empty
      queue. */
  ghost predicate Between(ps: seq<Process>, rem: seq<int>, ready: seq<nat>, i: nat, currentTime: int,
                          schedule: seq<Dispatch>, waiting: int, remaining: int, runs: seq<Run>, cursor: seq<nat>,
                          done: set<nat>)
  {
    && Steady(ps, rem, ready, i, currentTime, schedule, waiting, remaining, runs, cursor, done)
    && i == Latest(cursor)
    && (currentTime == Free(runs) || (ready == [] && i < |ps| && currentTime == ps[i].arrive && Owing(ps, runs, 0) == i))
  }

  /** Admission: the next position joins the queue, owing its burst, exactly when it
      arrives at the current tick; at most one position per round. */
  method AdmitArrived(ps: seq<Process>, rem: seq<int>, ready: seq<nat>, i: nat, currentTime: int,
                      ghost runs: seq<Run>, ghost done: set<nat>)
    returns (rem': seq<int>, ready': seq<nat>, i': nat)
    requires forall k :: 0 <= k < |ps| ==> ps[k].burst > 0
    requires Books(ps, rem, ready, i, runs, done)
    ensures i' == Admits(ps, i, currentTime)
    ensures if i < i'
            then rem' == rem[i := ps[i].burst] && ready' == ready + [i]
            else rem' == rem && ready' == ready
    ensures Books(ps, rem', ready', i', runs, done)
  {
    if i < |ps| && ps[i].arrive == currentTime {
      rem', ready', i' := rem[i := ps[i].burst], ready + [i], i + 1;
      assert Range(i, i + 1) == [i];
      AdmitKeepsBooks(ps, rem, ready, i, runs, done, rem', i');
    } else {
      rem', ready', i' := rem, ready, i;
    }
  }

  /** How long a dispatch at tick t of a position that owes `owed` lasts: what it owes,
      or the ticks until the arrival of position i when that is sooner. */
  function Slice(ps: seq<Process>, i: nat, t: int, owed: int): int
  {
    var toNext := ToNextArrival(ps, i, t);
    if toNext.None? || owed < toNext.value then owed else toNext.value
  }

  /** One dispatch: takes a queued position with the least remaining time, records the
      schedule entry, runs it until it finishes or the next position arrives, whichever
      is sooner, and then either retires it, adding its waiting time, or puts it back
      with its new remaining time. */
  method RunShortest(ps: seq<Process>, rem: seq<int>, ready: seq<nat>, i: nat, currentTime: int,
                     schedule: seq<Dispatch>, waiting: int, remaining: int, ghost runs: seq<Run>,
                     ghost cursor: seq<nat>, ghost done: set<nat>)
    returns (p: nat, ghost m: nat, rem': seq<int>, ready': seq<nat>, currentTime': int, schedule': seq<Dispatch>,
             waiting': int, remaining': int, ghost runs': seq<Run>, ghost cursor': seq<nat>, ghost done': set<nat>)
    requires WellFormedInput(ps) && ready != []
    requires Steady(ps, rem, ready, i, currentTime, schedule, waiting, remaining, runs, cursor, done)
    requires i == Admits(ps, Latest(cursor), currentTime)
    requires || currentTime == Free(runs)
             || (0 < i && ready == [i - 1] && ps[i - 1].arrive == currentTime && Owing(ps, runs, 0) == i - 1)
    ensures m < |ready| && p == ready[m]
    ensures Owing(ps, runs, 0) <= p < i && rem[p] == Owed(ps, runs, p) > 0
    ensures forall x :: 0 <= x < |ready| ==> rem[p] <= rem[ready[x]]
    ensures runs' == runs + [Run(p, currentTime, Slice(ps, i, currentTime, rem[p]))] && cursor' == cursor + [i]
    ensures schedule' == schedule + [Dispatch(currentTime, ps[p].id)]
    ensures currentTime' == currentTime + Slice(ps, i, currentTime, rem[p])
    ensures remaining' == if Slice(ps, i, currentTime, rem[p]) == rem[p] then remaining - 1 else remaining
    ensures waiting' == waiting + (if Slice(ps, i, currentTime, rem[p]) == rem[p] then currentTime' - ps[p].arrive - ps[p].burst else 0)
    ensures rem' == rem[p := rem[p] - Slice(ps, i, currentTime, rem[p])]
    ensures ready' == if Slice(ps, i, currentTime, rem[p]) == rem[p] then Drop(ready, m) else Drop(ready, m) + [p]
    ensures done' == if Slice(ps, i, currentTime, rem[p]) == rem[p] then done + {p} else done
  {
    var k := ExtractMin(ready, rem);
    m, p := k, ready[k];
    ShortestPicks(ps, rem, ready, i, currentTime, runs, done, m);
    var runTime := Slice(ps, i, currentTime, rem[p]);
    rem' := rem[p := rem[p] - runTime];
    var finished := runTime == rem[p];
    ready' := if finished then Drop(ready, k) else Drop(ready, k) + [p];
    done' := if finished then done + {p} else done;
    var r := Run(p, currentTime, runTime);
    runs' := runs + [r];
    schedule' := schedule + [Dispatch(currentTime, ps[p].id)];
    currentTime' := currentTime + runTime;
    remaining' := if finished then remaining - 1 else remaining;
    waiting' := waiting + (if finished then currentTime' - ps[p].arrive - ps[p].burst else 0);
    cursor' := cursor + [i];
  }

  /** The new state `RunShortest` describes keeps the loop invariant; the outstanding
      work does not grow, and it strictly drops unless position i arrives at this very
      tick. */
  lemma DispatchKeeps(ps: seq<Process>, rem: seq<int>, ready: seq<nat>, i: nat, currentTime: int,
                      schedule: seq<Dispatch>, waiting: int, remaining: int, runs: seq<Run>, cursor: seq<nat>,
                      done: set<nat>, p: nat, m: nat, rem': seq<int>, ready': seq<nat>, currentTime': int,
                      schedule': seq<Dispatch>, waiting': int, remaining': int, runs': seq<Run>, cursor': seq<nat>,
                      done': set<nat>)
    requires WellFormedInput(ps) && m < |ready| && p == ready[m]
    requires Steady(ps, rem, ready, i, currentTime, schedule, waiting, remaining, runs, cursor, done)
    requires i == Admits(ps, Latest(cursor), currentTime)
    requires || currentTime == Free(runs)
             || (0 < i && ready == [i - 1] && ps[i - 1].arrive == currentTime && Owing(ps, runs, 0) == i - 1)
    requires forall x :: 0 <= x < |ready| ==> rem[p] <= rem[ready[x]]
    requires runs' == runs + [Run(p, currentTime, Slice(ps, i, currentTime, rem[p]))] && cursor' == cursor + [i]
    requires schedule' == schedule + [Dispatch(currentTime, ps[p].id)]
    requires currentTime' == currentTime + Slice(ps, i, currentTime, rem[p])
    requires remaining' == if Slice(ps, i, currentTime, rem[p]) == rem[p] then remaining - 1 else remaining
    requires waiting' == waiting + (if Slice(ps, i, currentTime, rem[p]) == rem[p] then currentTime' - ps[p].arrive - ps[p].burst else 0)
    requires rem' == rem[p := rem[p] - Slice(ps, i, currentTime, rem[p])]
    requires ready' == if Slice(ps, i, currentTime, rem[p]) == rem[p] then Drop(ready, m) else Drop(ready, m) + [p]
    requires done' == if Slice(ps, i, currentTime, rem[p]) == rem[p] then done + {p} else done
    ensures Between(ps, rem', ready', i, currentTime', schedule', waiting', remaining', runs', cursor', done')
    ensures Pending(ps, runs', |ps|) <= Pending(ps, runs, |ps|)
    ensures Pending(ps, runs', |ps|) < Pending(ps, runs, |ps|) || (i < |ps| && ps[i].arrive == currentTime)
  {
    var r := runs'[|runs|];
    assert r == Run(p, currentTime, Slice(ps, i, currentTime, rem[p]));
    assert (rem'[p] == 0) == (Slice(ps, i, currentTime, rem[p]) == rem[p]);
    ShortestKeeps(ps, rem, ready, i, currentTime, schedule, waiting, remaining, runs, cursor, done, m, r,
                  rem', ready', currentTime', schedule', waiting', remaining', runs', cursor', done');
  }

  /** The dispatch of the queued entry at index m, whose remaining time is least, for its
      slice keeps the loop invariant; the outstanding work does not grow, and it strictly
      drops unless position i arrives at this very tick. */
  lemma ShortestKeeps(ps: seq<Process>, rem: seq<int>, ready: seq<nat>, i: nat, currentTime: int,
                      schedule: seq<Dispatch>, waiting: int, remaining: int, runs: seq<Run>, cursor: seq<nat>,
                      done: set<nat>, m: nat, r: Run, rem': seq<int>, ready': seq<nat>, currentTime': int,
                      schedule': seq<Dispatch>, waiting': int, remaining': int, runs': seq<Run>, cursor': seq<nat>,
                      done': set<nat>)
    requires WellFormedInput(ps) && m < |ready|
    requires Steady(ps, rem, ready, i, currentTime, schedule, waiting, remaining, runs, cursor, done)
    requires i == Admits(ps, Latest(cursor), currentTime)
    requires || currentTime == Free(runs)
             || (0 < i && ready == [i - 1] && ps[i - 1].arrive == currentTime && Owing(ps, runs, 0) == i - 1)
    requires forall x :: 0 <= x < |ready| ==> rem[ready[m]] <= rem[ready[x]]
    requires r == Run(ready[m], currentTime, Slice(ps, i, currentTime, rem[ready[m]]))
    requires rem' == rem[r.pos := rem[r.pos] - r.len]
    requires ready' == if rem'[r.pos] == 0 then Drop(ready, m) else Drop(ready, m) + [r.pos]
    requires done' == if rem'[r.pos] == 0 then done + {r.pos} else done
    requires runs' == runs + [r] && cursor' == cursor + [i]
    requires currentTime' == currentTime + r.len && schedule' == schedule + [Dispatch(currentTime, ps[r.pos].id)]
    requires remaining' == if rem'[r.pos] == 0 then remaining - 1 else remaining
    requires waiting' == waiting + (if rem'[r.pos] == 0 then currentTime' - ps[r.pos].arrive - ps[r.pos].burst else 0)
    ensures Owing(ps, runs, 0) <= r.pos < i && rem[r.pos] == Owed(ps, runs, r.pos) > 0
    ensures Between(ps, rem', ready', i, currentTime', schedule', waiting', remaining', runs', cursor', done')
    ensures Pending(ps, runs', |ps|) <= Pending(ps, runs, |ps|)
    ensures Pending(ps, runs', |ps|) < Pending(ps, runs, |ps|) || (i < |ps| && ps[i].arrive == currentTime)
  {
    assert Books(ps, rem', ready', i, runs', done') && SrtfRule(ps, runs', cursor') by {
      ShortestBooks(ps, rem, ready, i, currentTime, runs, cursor, done, m, r, rem', ready', done');
    }
    ShortestPicks(ps, rem, ready, i, currentTime, runs, done, m);
    AppendKeeps(ps, schedule, runs, done, r, rem'[r.pos] == 0);
    DispatchGlue(ps, ready, i, currentTime, schedule, waiting, remaining, runs, cursor, done, m, r, rem', ready',
                 currentTime', schedule', waiting', remaining', runs', cursor', done');
  }

  /** The facts a dispatch establishes one by one (the books, the SRTF rule, the
      announced, eager and work-conserving trace, the waiting total and the pending work)
      make up the loop invariant after it, with the CPU free exactly at the new clock. */
  lemma DispatchGlue(ps: seq<Process>, ready: seq<nat>, i: nat, currentTime: int, schedule: seq<Dispatch>,
                     waiting: int, remaining: int, runs: seq<Run>, cursor: seq<nat>, done: set<nat>, m: nat, r: Run,
                     rem': seq<int>, ready': seq<nat>, currentTime': int, schedule': seq<Dispatch>, waiting': int,
                     remaining': int, runs': seq<Run>, cursor': seq<nat>, done': set<nat>)
    requires m < |ready| && r.pos < |ps| && r.pos < |rem'| && remaining == |ps| - i + |ready|
    requires (i < |ps| ==> currentTime <= ps[i].arrive) && (0 < i <= |ps| ==> ps[i - 1].arrive <= currentTime)
    requires r.start == currentTime && r.len == Slice(ps, i, currentTime, r.len + rem'[r.pos])
    requires 0 <= r.len && (r.len > 0 || (i < |ps| && ps[i].arrive == currentTime))
    requires ready' == if rem'[r.pos] == 0 then Drop(ready, m) else Drop(ready, m) + [r.pos]
    requires done' == if rem'[r.pos] == 0 then done + {r.pos} else done
    requires runs' == runs + [r] && cursor' == cursor + [i]
    requires currentTime' == currentTime + r.len && schedule' == schedule + [Dispatch(currentTime, ps[r.pos].id)]
    requires remaining' == if rem'[r.pos] == 0 then remaining - 1 else remaining
    requires waiting' == waiting + (if rem'[r.pos] == 0 then currentTime' - ps[r.pos].arrive - ps[r.pos].burst else 0)
    requires Books(ps, rem', ready', i, runs', done') && SrtfRule(ps, runs', cursor')
    requires Announces(ps, schedule', runs') && Eager(ps, runs') && NoIdle(ps, runs') && Free(runs') == End(r)
    requires waiting == WaitsDone(ps, runs, done, |ps|)
    requires WaitsDone(ps, runs', done', |ps|)
             == WaitsDone(ps, runs, done, |ps|) + (if rem'[r.pos] == 0 then End(r) - ps[r.pos].arrive - ps[r.pos].burst else 0)
    requires Pending(ps, runs', |ps|) == Pending(ps, runs, |ps|) - r.len
    ensures Between(ps, rem', ready', i, currentTime', schedule', waiting', remaining', runs', cursor', done')
    ensures Pending(ps, runs', |ps|) <= Pending(ps, runs, |ps|)
    ensures Pending(ps, runs', |ps|) < Pending(ps, runs, |ps|) || (i < |ps| && ps[i].arrive == currentTime)
  {
  }

  /** The queued entry at index m is an admitted unfinished position that has arrived by
      the clock, at or after the first position still owing time; the clock is where the
      CPU became free or the arrival of that first position, whichever is later; and the
      slice is never negative, and is positive unless position i arrives at this very
      tick. */
  lemma ShortestPicks(ps: seq<Process>, rem: seq<int>, ready: seq<nat>, i: nat, currentTime: int, runs: seq<Run>,
                      done: set<nat>, m: nat)
    requires WellFormedInput(ps) && m < |ready|
    requires Books(ps, rem, ready, i, runs, done) && Free(runs) <= currentTime
    requires (i < |ps| ==> currentTime <= ps[i].arrive) && (0 < i <= |ps| ==> ps[i - 1].arrive <= currentTime)
    requires || currentTime == Free(runs)
             || (0 < i && ready == [i - 1] && ps[i - 1].arrive == currentTime && Owing(ps, runs, 0) == i - 1)
    ensures ready[m] < i && ready[m] !in done && ps[ready[m]].arrive <= currentTime
    ensures rem[ready[m]] == Owed(ps, runs, ready[m]) > 0 && Owing(ps, runs, 0) <= ready[m]
    ensures currentTime == Max(Free(runs), ps[ready[m]].arrive)
    ensures currentTime == Max(Free(runs), ps[Owing(ps, runs, 0)].arrive)
    ensures var len := Slice(ps, i, currentTime, rem[ready[m]]);
      0 <= len && (len > 0 || (i < |ps| && ps[i].arrive == currentTime))
  {
    var p := ready[m];
    EntryAt(ps, rem, ready, i, runs, done, |ps|, p);
    OwingLeast(ps, runs, 0, p);
    assert ArriveAt(ps, Owing(ps, runs, 0)) <= ArriveAt(ps, p);
    if p < i - 1 {
      assert ArriveAt(ps, p) <= ArriveAt(ps, i - 1);
    }
  }

  /** The books and the SRTF rule after the dispatch of the queued entry at index m,
      whose remaining time is least, for its slice. */
  lemma ShortestBooks(ps: seq<Process>, rem: seq<int>, ready: seq<nat>, i: nat, currentTime: int, runs: seq<Run>,
                      cursor: seq<nat>, done: set<nat>, m: nat, r: Run, rem': seq<int>, ready': seq<nat>,
                      done': set<nat>)
    requires WellFormedInput(ps) && m < |ready|
    requires Books(ps, rem, ready, i, runs, done) && SrtfRule(ps, runs, cursor)
    requires i == Admits(ps, Latest(cursor), currentTime)
    requires (i < |ps| ==> currentTime <= ps[i].arrive) && (0 < i <= |ps| ==> ps[i - 1].arrive <= currentTime)
    requires forall x :: 0 <= x < |ready| ==> rem[ready[m]] <= rem[ready[x]]
    requires r == Run(ready[m], currentTime, Slice(ps, i, currentTime, rem[ready[m]]))
    requires rem' == rem[r.pos := rem[r.pos] - r.len]
    requires ready' == if rem'[r.pos] == 0 then Drop(ready, m) else Drop(ready, m) + [r.pos]
    requires done' == if rem'[r.pos] == 0 then done + {r.pos} else done
    ensures Books(ps, rem', ready', i, runs + [r], done') && SrtfRule(ps, runs + [r], cursor + [i])
  {
    assert ready[m] < i && rem[ready[m]] > 0;
    RunKeepsBooks(ps, rem, ready, i, runs, done, m, r, rem', ready', done');
    BooksShortest(ps, rem, ready, i, runs, done, r.pos, i);
    SliceStep(ps, runs, i, currentTime, r.pos, rem[r.pos]);
    SrtfAppend(ps, runs, cursor, i, r);
  }

  /** A dispatch at the clock of an admitted position that owes time and owes no more
      than any other, for its slice, follows the SRTF rule. */
  lemma SliceStep(ps: seq<Process>, runs: seq<Run>, i: nat, currentTime: int, p: nat, owed: int)
    requires p < i <= |ps| && owed == Owed(ps, runs, p) > 0 && Shortest(ps, runs, p, i)
    requires ps[i - 1].arrive <= currentTime && (i < |ps| ==> currentTime <= ps[i].arrive)
    ensures SrtfStep(ps, runs, i, Run(p, currentTime, Slice(ps, i, currentTime, owed)))
  {
  }

  /** One iteration of the main loop: admission of the position arriving now, if any;
      then, when an admitted position still owes time, one dispatch at the clock of a
      position p that owes least, for its slice, retiring p when the slice covers what
      it owes; otherwise the queue is empty and the clock jumps to the next arrival with
      nothing run. Some work is done, or a position is admitted, or the clock gets
      closer to the next arrival. */
  method Round(ps: seq<Process>, rem: seq<int>, ready: seq<nat>, i: nat, currentTime: int,
               schedule: seq<Dispatch>, waiting: int, remaining: int, ghost runs: seq<Run>, ghost cursor: seq<nat>,
               ghost done: set<nat>)
    returns (rem': seq<int>, ready': seq<nat>, i': nat, currentTime': int, schedule': seq<Dispatch>, waiting': int,
             remaining': int, ghost runs': seq<Run>, ghost cursor': seq<nat>, ghost done': set<nat>, ghost p: nat)
    requires WellFormedInput(ps) && remaining != 0
    requires Between(ps, rem, ready, i, currentTime, schedule, waiting, remaining, runs, cursor, done)
    ensures Between(ps, rem', ready', i', currentTime', schedule', waiting', remaining', runs', cursor', done')
    ensures i' == Admits(ps, i, currentTime)
    ensures Owing(ps, runs, 0) < i' ==>
      p < i' <= |ps| && Owed(ps, runs, p) > 0 &&
      var len := Slice(ps, i', currentTime, Owed(ps, runs, p));
      && runs' == runs + [Run(p, currentTime, len)] && cursor' == cursor + [i']
      && schedule' == schedule + [Dispatch(currentTime, ps[p].id)] && currentTime' == currentTime + len
      && remaining' == (if len == Owed(ps, runs, p) then remaining - 1 else remaining)
      && waiting' == waiting + (if len == Owed(ps, runs, p) then currentTime' - ps[p].arrive - ps[p].burst else 0)
    ensures i' <= Owing(ps, runs, 0) ==>
      && i' == i < |ps| && currentTime' == ps[i].arrive
      && runs' == runs && cursor' == cursor && schedule' == schedule && waiting' == waiting && remaining' == remaining
    ensures i <= i' <= |ps| && 0 <= Pending(ps, runs, |ps|) && Pending(ps, runs', |ps|) <= Pending(ps, runs, |ps|)
    ensures || Pending(ps, runs', |ps|) < Pending(ps, runs, |ps|)
            || i < i'
            || (i == i' && Gap(ps, i', currentTime') < Gap(ps, i, currentTime))
  {
    BooksPending(ps, rem, ready, i, runs, done);
    rem', ready', i' := AdmitArrived(ps, rem, ready, i, currentTime, runs, done);
    if i < i' < |ps| {
      assert ArriveAt(ps, i) <= ArriveAt(ps, i');
    }
    if |ready'| != 0 {
      var rem0, ready0 := rem', ready';
      ghost var m;
      p, m, rem', ready', currentTime', schedule', waiting', remaining', runs', cursor', done' :=
        RunShortest(ps, rem0, ready0, i', currentTime, schedule, waiting, remaining, runs, cursor, done);
      DispatchKeeps(ps, rem0, ready0, i', currentTime, schedule, waiting, remaining, runs, cursor, done, p, m,
                    rem', ready', currentTime', schedule', waiting', remaining', runs', cursor', done');
    } else {
      IdleOwing(ps, rem, i, runs, done);
      currentTime', schedule', waiting', remaining', runs', cursor', done', p :=
        ps[i'].arrive, schedule, waiting, remaining, runs, cursor, done, i;
    }
  }

  /** Runs the list through SRTF. Returns the schedule, the waiting-time total and its
      average; `runs` records, per schedule entry, the position run and for how long,
      and `cursor` how many positions had been admitted at that dispatch. */
  method SrtfScheduling(ps: seq<Process>)
    returns (schedule: seq<Dispatch>, waiting: int, average: real, ghost runs: seq<Run>, ghost cursor: seq<nat>)
    requires WellFormedInput(ps)
    ensures |schedule| == |runs| == |cursor|
    ensures forall j :: 0 <= j < |runs| ==>
      runs[j].pos < |ps| && schedule[j] == Dispatch(runs[j].start, ps[runs[j].pos].id)
    ensures forall j :: 0 <= j < |runs| ==> SrtfStep(ps, runs[..j], cursor[j], runs[j])
    ensures ValidTrace(ps, runs) && Complete(ps, runs)
    ensures forall j :: 0 <= j < |runs| ==> cursor[j] == Admits(ps, Latest(cursor[..j]), runs[j].start)
    ensures Eager(ps, runs)
    ensures forall j :: 0 <= j < |runs| ==>
      Owing(ps, runs[..j], 0) < |ps| && runs[j].start == Max(Free(runs[..j]), ps[Owing(ps, runs[..j], 0)].arrive)
    ensures waiting == TotalWait(ps, runs) && waiting >= 0
    ensures average == Average(waiting, |ps|) && average >= 0.0
  {
    var n := |ps|;
    var rem := seq(n, k requires 0 <= k < n => ps[k].burst);
    var currentTime := 0;
    var ready: seq<nat> := [];
    var remaining := n;
    var i := 0;
    ghost var done: set<nat> := {};
    schedule, waiting, runs, cursor := [], 0, [], [];
    NoneDone(ps, runs, n);
    BooksStart(ps, rem);
    while remaining != 0
      invariant Between(ps, rem, ready, i, currentTime, schedule, waiting, remaining, runs, cursor, done)
      decreases Pending(ps, runs, n), n - i, Gap(ps, i, currentTime)
    {
      ghost var p;
      rem, ready, i, currentTime, schedule, waiting, remaining, runs, cursor, done, p :=
        Round(ps, rem, ready, i, currentTime, schedule, waiting, remaining, runs, cursor, done);
    }
    BooksClosed(ps, rem, i, runs, done);
    AnnouncedEntries(ps, schedule, runs);
    SrtfRuleAll(ps, runs, cursor);
    AdmitsAll(ps, runs, cursor);
    EagerValid(ps, runs);
    NoIdleStarts(ps, runs);
    AllDone(ps, runs, done, n);
    TotalWaitNonNegative(ps, runs);
    average := Average(waiting, n);
  }
}
