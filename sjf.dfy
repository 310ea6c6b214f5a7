/** Non-preemptive shortest-predicted-job-first: one FIFO per process id, a burst
    prediction per id seeded at 5, the job whose id has the least prediction among ids
    with a queued job runs to completion, and the prediction of its id is then
    smoothed towards the burst it actually took. */
module Sjf {
  import opened Processes
  import opened Trace
  import opened IdQueues

  /** The prediction a never-seen id starts with. */
  const InitialGuess: real := 5.0

  /** Exponential smoothing of a burst prediction: alpha * guess + (1 - alpha) * burst. The
      new prediction lies between the old one and the observed burst; alpha = 1 keeps the
      old prediction and alpha = 0 replaces it by the burst. */
  function Smooth(alpha: real, guess: real, burst: real): (r: real)
    requires 0.0 <= alpha <= 1.0
    ensures guess <= burst ==> guess <= r <= burst
    ensures burst <= guess ==> burst <= r <= guess
    ensures alpha == 1.0 ==> r == guess
    ensures alpha == 0.0 ==> r == burst
  {
    var r := alpha * guess + (1.0 - alpha) * burst;
    Mean(alpha, guess, burst, r);
    r
  }

  /** A weighted mean r of guess and burst, with weight alpha in [0, 1], lies between
      the two values. */
  lemma Mean(alpha: real, guess: real, burst: real, r: real)
    requires 0.0 <= alpha <= 1.0 && r == alpha * guess + (1.0 - alpha) * burst
    ensures guess <= burst ==> guess <= r <= burst
    ensures burst <= guess ==> burst <= r <= guess
  {
    if guess <= burst {
      Product(alpha, burst - guess);
      Product(1.0 - alpha, burst - guess);
    } else {
      Product(alpha, guess - burst);
      Product(1.0 - alpha, guess - burst);
    }
  }

  /** The product of two non-negative reals is non-negative. */
  lemma Product(u: real, v: real)
    requires 0.0 <= u && 0.0 <= v
    ensures 0.0 <= u * v
  {
  }

  /** The prediction held for `id` after the runs: the initial guess, smoothed towards
      the burst of every run of a process with that id, in order. */
  ghost function Prediction(ps: seq<Process>, alpha: real, runs: seq<Run>, id: int): real
    requires 0.0 <= alpha <= 1.0
    decreases |runs|
  {
    if runs == [] then InitialGuess
    else
      var last := runs[|runs| - 1];
      var before := Prediction(ps, alpha, runs[..|runs| - 1], id);
      if last.pos < |ps| && ps[last.pos].id == id then Smooth(alpha, before, ps[last.pos].burst as real) else before
  }

  /** A further run smooths the prediction of its own id and of no other. */
  lemma PredictionAppend(ps: seq<Process>, alpha: real, runs: seq<Run>, r: Run, id: int)
    requires 0.0 <= alpha <= 1.0 && r.pos < |ps|
    ensures Prediction(ps, alpha, runs + [r], id)
         == if ps[r.pos].id == id then Smooth(alpha, Prediction(ps, alpha, runs, id), ps[r.pos].burst as real)
            else Prediction(ps, alpha, runs, id)
  {
    assert (runs + [r])[..|runs|] == runs;
  }

  /** An id none of whose processes has run still has the initial guess. */
  lemma {:induction false} PredictionUnseen(ps: seq<Process>, alpha: real, runs: seq<Run>, id: int)
    requires 0.0 <= alpha <= 1.0
    requires forall j :: 0 <= j < |runs| ==> runs[j].pos < |ps| && ps[runs[j].pos].id != id
    ensures Prediction(ps, alpha, runs, id) == InitialGuess
    decreases |runs|
  {
    if runs != [] {
      var last := |runs| - 1;
      assert forall j :: 0 <= j < last ==> runs[..last][j] == runs[j];
      PredictionUnseen(ps, alpha, runs[..last], id);
    }
  }

  /** The prediction of an id always lies between the least and the greatest of the
      initial guess and the bursts its processes have run. */
  lemma {:induction false} PredictionRange(ps: seq<Process>, alpha: real, runs: seq<Run>, id: int, lo: real, hi: real)
    requires 0.0 <= alpha <= 1.0 && lo <= InitialGuess <= hi
    requires forall j :: 0 <= j < |runs| && runs[j].pos < |ps| && ps[runs[j].pos].id == id ==>
      lo <= ps[runs[j].pos].burst as real <= hi
    ensures lo <= Prediction(ps, alpha, runs, id) <= hi
    decreases |runs|
  {
    if runs != [] {
      var last := |runs| - 1;
      assert forall j :: 0 <= j < last ==> runs[..last][j] == runs[j];
      PredictionRange(ps, alpha, runs[..last], id, lo, hi);
    }
  }

  /** Two jobs of one id with bursts b1 and b2 leave the prediction
      alpha * (alpha * 5 + (1 - alpha) * b1) + (1 - alpha) * b2. */
  lemma TwoJobs(ps: seq<Process>, alpha: real, r1: Run, r2: Run)
    requires 0.0 <= alpha <= 1.0 && r1.pos < |ps| && r2.pos < |ps| && ps[r1.pos].id == ps[r2.pos].id
    ensures Prediction(ps, alpha, [r1, r2], ps[r1.pos].id)
         == alpha * (alpha * 5.0 + (1.0 - alpha) * ps[r1.pos].burst as real) + (1.0 - alpha) * ps[r2.pos].burst as real
  {
    PredictionAppend(ps, alpha, [], r1, ps[r1.pos].id);
    PredictionAppend(ps, alpha, [r1], r2, ps[r1.pos].id);
    assert [r1] + [r2] == [r1, r2];
  }

  /** The prediction map holds, for every id it knows, the prediction the runs so far
      determine. */
  ghost predicate Predicts(ps: seq<Process>, alpha: real, predicted: map<int, real>, runs: seq<Run>)
    requires 0.0 <= alpha <= 1.0
  {
    forall id :: id in predicted ==> predicted[id] == Prediction(ps, alpha, runs, id)
  }

  /** The scheduler's bookkeeping: the queues are kept, the ids with a queue are exactly
      the ids with a prediction, and the predictions are those the runs determine. */
  ghost predicate Books(ps: seq<Process>, alpha: real, ready: map<int, seq<nat>>, predicted: map<int, real>, i: nat,
                        runs: seq<Run>, done: set<nat>)
    requires 0.0 <= alpha <= 1.0
  {
    && Queues(ps, ready, i, runs, done)
    && ready.Keys == predicted.Keys
    && Predicts(ps, alpha, predicted, runs)
  }

  /** Seeding the id of position i, when it is new, keeps the predictions: an id without
      a queue has had no process run. */
  lemma SeedKeeps(ps: seq<Process>, alpha: real, ready: map<int, seq<nat>>, predicted: map<int, real>, i: nat,
                  runs: seq<Run>, done: set<nat>)
    requires 0.0 <= alpha <= 1.0 && i < |ps|
    requires Books(ps, alpha, ready, predicted, i, runs, done)
    ensures Predicts(ps, alpha, if ps[i].id in predicted then predicted else predicted[ps[i].id := InitialGuess], runs)
  {
    var id := ps[i].id;
    if id !in predicted {
      forall j | 0 <= j < |runs|
        ensures runs[j].pos < |ps| && ps[runs[j].pos].id != id
      {
        EntryAt(ps, ready, i, runs, done, |ps|, runs[j].pos);
      }
      PredictionUnseen(ps, alpha, runs, id);
    }
  }

  /** Smoothing the prediction of the id that just ran keeps the predictions. */
  lemma SmoothKeeps(ps: seq<Process>, alpha: real, predicted: map<int, real>, runs: seq<Run>, r: Run)
    requires 0.0 <= alpha <= 1.0 && r.pos < |ps| && ps[r.pos].id in predicted
    requires Predicts(ps, alpha, predicted, runs)
    ensures Predicts(ps, alpha, predicted[ps[r.pos].id := Smooth(alpha, predicted[ps[r.pos].id], ps[r.pos].burst as real)],
                     runs + [r])
  {
    forall id | id in predicted {
      PredictionAppend(ps, alpha, runs, r, id);
    }
  }

  /** Position p's id predicts no more than the id of any position among 0 .. c-1 that
      has not run. */
  ghost predicate Least(ps: seq<Process>, alpha: real, runs: seq<Run>, p: nat, c: nat)
    requires 0.0 <= alpha <= 1.0 && p < |ps| && c <= |ps|
  {
    c == 0 ||
    (&& Least(ps, alpha, runs, p, c - 1)
     && (Work(runs, c - 1) == 0 ==> Prediction(ps, alpha, runs, ps[p].id) <= Prediction(ps, alpha, runs, ps[c - 1].id)))
  }

  lemma {:induction false} LeastAll(ps: seq<Process>, alpha: real, runs: seq<Run>, p: nat, c: nat)
    requires 0.0 <= alpha <= 1.0 && p < |ps| && c <= |ps|
    ensures Least(ps, alpha, runs, p, c) <==>
      forall k :: 0 <= k < c && Work(runs, k) == 0 ==>
        Prediction(ps, alpha, runs, ps[p].id) <= Prediction(ps, alpha, runs, ps[k].id)
  {
    if c > 0 {
      LeastAll(ps, alpha, runs, p, c - 1);
    }
  }

  /** The SJF rule for a run r dispatched after the runs `prefix` while positions
      0 .. c-1 were admitted: r runs an admitted position that has not run; every
      earlier position with its id has run; its id predicts no more than the id of any
      admitted position that has not run; admission took exactly the positions that had
      arrived by the start of r; and r lasts the whole burst. */
  ghost predicate SjfStep(ps: seq<Process>, alpha: real, prefix: seq<Run>, c: nat, r: Run)
    requires 0.0 <= alpha <= 1.0
  {
    && r.pos < c <= |ps|
    && Work(prefix, r.pos) == 0
    && Earlier(ps, prefix, r.pos, r.pos)
    && Least(ps, alpha, prefix, r.pos, c)
    && ps[c - 1].arrive <= r.start
    && (c < |ps| ==> r.start < ps[c].arrive)
    && r.len == ps[r.pos].burst
  }

  /** Every run of the trace follows the SJF rule, with `cursor` recording for each run
      how many positions had been admitted when it was dispatched. */
  ghost predicate SjfRule(ps: seq<Process>, alpha: real, runs: seq<Run>, cursor: seq<nat>)
    requires 0.0 <= alpha <= 1.0
    decreases |runs|
  {
    && |cursor| == |runs|
    && (runs != [] ==>
         && SjfRule(ps, alpha, runs[..|runs| - 1], cursor[..|cursor| - 1])
         && SjfStep(ps, alpha, runs[..|runs| - 1], cursor[|cursor| - 1], runs[|runs| - 1]))
  }

  lemma SjfAppend(ps: seq<Process>, alpha: real, runs: seq<Run>, cursor: seq<nat>, c: nat, r: Run)
    requires 0.0 <= alpha <= 1.0
    requires SjfRule(ps, alpha, runs, cursor) && SjfStep(ps, alpha, runs, c, r)
    ensures SjfRule(ps, alpha, runs + [r], cursor + [c])
  {
    assert (runs + [r])[..|runs|] == runs;
    assert (cursor + [c])[..|cursor|] == cursor;
  }

  /** Run by run: each run follows the SJF rule after the runs before it. */
  lemma {:induction false} SjfRuleAll(ps: seq<Process>, alpha: real, runs: seq<Run>, cursor: seq<nat>)
    requires 0.0 <= alpha <= 1.0
    requires SjfRule(ps, alpha, runs, cursor)
    ensures |cursor| == |runs|
    ensures forall j :: 0 <= j < |runs| ==> SjfStep(ps, alpha, runs[..j], cursor[j], runs[j])
    decreases |runs|
  {
    if runs != [] {
      var last := |runs| - 1;
      var prefix, cprefix := runs[..last], cursor[..last];
      SjfRuleAll(ps, alpha, prefix, cprefix);
      forall j | 0 <= j < last
        ensures SjfStep(ps, alpha, runs[..j], cursor[j], runs[j])
      {
        assert runs[..j] == prefix[..j] && runs[j] == prefix[j] && cursor[j] == cprefix[j];
      }
    }
  }

  /** Under the SJF rule no position is dispatched twice, and processes sharing an id
      are dispatched in list order. */
  lemma SjfOrder(ps: seq<Process>, alpha: real, runs: seq<Run>, cursor: seq<nat>)
    requires 0.0 <= alpha <= 1.0 && (forall k :: 0 <= k < |ps| ==> ps[k].burst > 0)
    requires |cursor| == |runs|
    requires forall j :: 0 <= j < |runs| ==> SjfStep(ps, alpha, runs[..j], cursor[j], runs[j])
    ensures forall j :: 0 <= j < |runs| ==> runs[j].pos < |ps|
    ensures forall j1, j2 :: 0 <= j1 < j2 < |runs| ==> PosAt(runs, j1) != PosAt(runs, j2)
    ensures forall j1, j2 :: 0 <= j1 < j2 < |runs| && ps[PosAt(runs, j1)].id == ps[PosAt(runs, j2)].id ==>
      PosAt(runs, j1) < PosAt(runs, j2)
  {
    forall j | 0 <= j < |runs|
      ensures runs[j].pos < |ps|
    {
      assert SjfStep(ps, alpha, runs[..j], cursor[j], runs[j]);
    }
    forall j1, j2 | 0 <= j1 < j2 < |runs|
      ensures PosAt(runs, j1) != PosAt(runs, j2)
    {
      Dispatched(ps, alpha, runs, cursor, j1, j2);
    }
    forall j1, j2 | 0 <= j1 < j2 < |runs| && ps[PosAt(runs, j1)].id == ps[PosAt(runs, j2)].id
      ensures PosAt(runs, j1) < PosAt(runs, j2)
    {
      Dispatched(ps, alpha, runs, cursor, j1, j2);
      if runs[j2].pos < runs[j1].pos {
        var q := runs[j2].pos;
        assert SjfStep(ps, alpha, runs[..j1], cursor[j1], runs[j1]);
        EarlierAll(ps, runs[..j1], runs[j1].pos, runs[j1].pos);
        FinishIsRunEnd(runs[..j1], q);
        var j0 :| 0 <= j0 < j1 && runs[..j1][j0].pos == q;
        assert runs[..j1][j0] == runs[j0];
        Dispatched(ps, alpha, runs, cursor, j0, j2);
      }
    }
  }

  /** A position dispatched at j1 has received work by any later dispatch j2, so j2 runs
      another position. */
  lemma Dispatched(ps: seq<Process>, alpha: real, runs: seq<Run>, cursor: seq<nat>, j1: nat, j2: nat)
    requires 0.0 <= alpha <= 1.0 && (forall k :: 0 <= k < |ps| ==> ps[k].burst > 0)
    requires |cursor| == |runs| && j1 < j2 < |runs|
    requires forall j :: 0 <= j < |runs| ==> SjfStep(ps, alpha, runs[..j], cursor[j], runs[j])
    ensures runs[j1].pos != runs[j2].pos
  {
    var prefix := runs[..j2];
    forall j | 0 <= j < j2
      ensures prefix[j].len >= 0
    {
      assert SjfStep(ps, alpha, runs[..j], cursor[j], runs[j]);
    }
    WorkCounts(prefix, j1);
    assert SjfStep(ps, alpha, runs[..j1], cursor[j1], runs[j1]);
    assert SjfStep(ps, alpha, prefix, cursor[j2], runs[j2]);
  }

  /** When the chosen id predicts no more than any id with a non-empty queue, the head of
      its queue satisfies the least-prediction part of the SJF rule. */
  lemma {:induction false} BooksLeast(ps: seq<Process>, alpha: real, ready: map<int, seq<nat>>, predicted: map<int, real>,
                                      i: nat, runs: seq<Run>, done: set<nat>, id: int, c: nat)
    requires 0.0 <= alpha <= 1.0 && (forall k :: 0 <= k < |ps| ==> ps[k].burst > 0)
    requires Books(ps, alpha, ready, predicted, i, runs, done) && c <= i
    requires id in ready && ready[id] != []
    requires forall id' :: id' in ready && ready[id'] != [] ==> predicted[id] <= predicted[id']
    ensures ready[id][0] < |ps| && Least(ps, alpha, runs, ready[id][0], c)
  {
    assert Fifo(ps, ready[id], id, i, done);
    if c > 0 {
      var k := c - 1;
      BooksLeast(ps, alpha, ready, predicted, i, runs, done, id, k);
      EntryAt(ps, ready, i, runs, done, |ps|, k);
      if Work(runs, k) == 0 {
        assert k in ready[ps[k].id];
      }
    }
  }

  /** Running the head of the FIFO of an id with least prediction to completion, with
      the admission done, follows the SJF rule and keeps the books once the prediction
      of its id is smoothed. */
  lemma JobStep(ps: seq<Process>, alpha: real, ready: map<int, seq<nat>>, predicted: map<int, real>, i: nat,
                currentTime: int, runs: seq<Run>, done: set<nat>, id: int)
    requires 0.0 <= alpha <= 1.0 && (forall k :: 0 <= k < |ps| ==> ps[k].burst > 0)
    requires Books(ps, alpha, ready, predicted, i, runs, done)
    requires id in ready && ready[id] != []
    requires forall id' :: id' in ready && ready[id'] != [] ==> predicted[id] <= predicted[id']
    requires 0 < i <= |ps| ==> ps[i - 1].arrive <= currentTime
    requires i == |ps| || currentTime < ps[i].arrive
    ensures ready[id][0] < i && ready[id][0] !in done && ps[ready[id][0]].id == id
    ensures SjfStep(ps, alpha, runs, i, Run(ready[id][0], currentTime, ps[ready[id][0]].burst))
    ensures Books(ps, alpha, ready[id := ready[id][1..]],
                  predicted[id := Smooth(alpha, predicted[id], ps[ready[id][0]].burst as real)], i,
                  runs + [Run(ready[id][0], currentTime, ps[ready[id][0]].burst)], done + {ready[id][0]})
  {
    var r := Run(ready[id][0], currentTime, ps[ready[id][0]].burst);
    PopRun(ps, ready, i, runs, done, id, r);
    BooksLeast(ps, alpha, ready, predicted, i, runs, done, id, i);
    SmoothKeeps(ps, alpha, predicted, runs, r);
  }

  /** Admission of one process: it joins the back of the FIFO of its id, created when the
      id has none, and its id gets the initial guess when it has no prediction yet. */
  method AdmitNext(ps: seq<Process>, ready: map<int, seq<nat>>, predicted: map<int, real>, i: nat,
                   ghost alpha: real, ghost runs: seq<Run>, ghost done: set<nat>, ghost lo: nat)
    returns (ready': map<int, seq<nat>>, predicted': map<int, real>)
    requires 0.0 <= alpha <= 1.0 && i < |ps| && lo <= i
    requires Books(ps, alpha, ready, predicted, i, runs, done)
    ensures ready' == ready[ps[i].id := QueueOf(ready, ps[i].id) + [i]]
    ensures predicted' == if ps[i].id in predicted then predicted else predicted[ps[i].id := InitialGuess]
    ensures Books(ps, alpha, ready', predicted', i + 1, runs, done)
    ensures QueuedFrom(ready, lo) ==> QueuedFrom(ready', lo)
  {
    var id := ps[i].id;
    AdmitOne(ps, ready, i, runs, done, lo);
    SeedKeeps(ps, alpha, ready, predicted, i, runs, done);
    predicted' := predicted;
    if id !in predicted' {
      predicted' := predicted'[id := InitialGuess];
    }
    if id !in ready {
      assert QueueOf(ready, id) + [i] == [i];
      ready' := ready[id := [i]];
    } else {
      ready' := ready[id := ready[id] + [i]];
    }
  }

  /** Admission: every position that has arrived by the current tick joins the back of
      the FIFO of its id, and a never-seen id gets the initial guess. */
  method Admit(ps: seq<Process>, ready: map<int, seq<nat>>, predicted: map<int, real>, i: nat, currentTime: int,
               ghost alpha: real, ghost runs: seq<Run>, ghost done: set<nat>)
    returns (ready': map<int, seq<nat>>, predicted': map<int, real>, i': nat)
    requires 0.0 <= alpha <= 1.0
    requires Books(ps, alpha, ready, predicted, i, runs, done)
    ensures i <= i' <= |ps| && i' == Arrived(ps, i, currentTime)
    ensures Books(ps, alpha, ready', predicted', i', runs, done)
    ensures QueuedFrom(ready, i) ==> QueuedFrom(ready', i)
  {
    ready', predicted', i' := ready, predicted, i;
    while i' < |ps| && ps[i'].arrive <= currentTime
      invariant i <= i' <= |ps| && Arrived(ps, i', currentTime) == Arrived(ps, i, currentTime)
      invariant Books(ps, alpha, ready', predicted', i', runs, done)
      invariant QueuedFrom(ready, i) ==> QueuedFrom(ready', i)
    {
      ready', predicted' := AdmitNext(ps, ready', predicted', i', alpha, runs, done, i);
      i' := i' + 1;
    }
  }

  /** The number of queued processes, summed over the FIFOs: zero exactly when every
      FIFO is empty. */
  method ReadyCount(ready: map<int, seq<nat>>) returns (count: nat)
    ensures count == 0 <==> forall id :: id in ready ==> ready[id] == []
  {
    count := 0;
    var keys := ready.Keys;
    while keys != {}
      invariant keys <= ready.Keys
      invariant count == 0 <==> forall id :: id in ready && id !in keys ==> ready[id] == []
      decreases |keys|
    {
      SomeId(keys);
      var id :| id in keys;
      count := count + |ready[id]|;
      keys := keys - {id};
    }
  }

  /** The id to serve: one with a non-empty FIFO whose prediction is least among the ids
      with a non-empty FIFO. */
  method PickShortest(ready: map<int, seq<nat>>, predicted: map<int, real>) returns (id: int)
    requires ready.Keys == predicted.Keys
    requires exists id :: id in ready && ready[id] != []
    ensures id in ready && ready[id] != []
    ensures forall id' :: id' in ready && ready[id'] != [] ==> predicted[id] <= predicted[id']
  {
    var keys := predicted.Keys;
    var found := false;
    id := 0;
    while keys != {}
      invariant keys <= predicted.Keys
      invariant found ==> id in ready && ready[id] != []
      invariant found ==> forall id' :: id' in ready && id' !in keys && ready[id'] != [] ==> predicted[id] <= predicted[id']
      invariant !found ==> forall id' :: id' in ready && id' !in keys ==> ready[id'] == []
      decreases |keys|
    {
      SomeId(keys);
      var k :| k in keys;
      if ready[k] != [] && (!found || predicted[k] < predicted[id]) {
        id, found := k, true;
      }
      keys := keys - {k};
    }
  }

  /** What holds between steps of the SJF main loop, whatever the clock: `remaining`
      counts the unfinished positions; the books are kept; the schedule announces the
      runs; every run follows the SJF rule and starts eagerly; the CPU is free by the
      clock; the trace is work-conserving; the clock has reached the last admitted
      arrival; and the waiting total covers exactly the finished positions. */
  ghost predicate Steady(ps: seq<Process>, alpha: real, ready: map<int, seq<nat>>, predicted: map<int, real>, i: nat,
                         currentTime: int, schedule: seq<Dispatch>, waiting: int, remaining: int, runs: seq<Run>,
                         cursor: seq<nat>, done: set<nat>)
    requires 0.0 <= alpha <= 1.0
  {
    && remaining == |ps| - |done| && |runs| == |done|
    && Books(ps, alpha, ready, predicted, i, runs, done)
    && Announces(ps, schedule, runs)
    && SjfRule(ps, alpha, runs, cursor)
    && Eager(ps, runs) && Free(runs) <= currentTime
    && NoIdle(ps, runs)
    && (0 < i <= |ps| ==> ps[i - 1].arrive <= currentTime)
    && waiting == WaitsDone(ps, runs, done, |ps|)
  }

  /** The loop invariant: the steady facts, and the clock is where the CPU became free,
      or at the next arrival after an idle jump with every queue empty, the arrival of
      the first process that still owes time. */
  ghost predicate Between(ps: seq<Process>, alpha: real, ready: map<int, seq<nat>>, predicted: map<int, real>, i: nat,
                          currentTime: int, schedule: seq<Dispatch>, waiting: int, remaining: int, runs: seq<Run>,
                          cursor: seq<nat>, done: set<nat>)
    requires 0.0 <= alpha <= 1.0
  {
    && Steady(ps, alpha, ready, predicted, i, currentTime, schedule, waiting, remaining, runs, cursor, done)
    && (currentTime == Free(runs) || (QueuedFrom(ready, i) && i < |ps| && currentTime == ps[i].arrive && Owing(ps, runs, 0) == i))
  }

  /** One dispatch: takes the head of the FIFO of an id with least prediction, records
      the schedule entry, runs it to completion, adds its waiting time, and smooths the
      prediction of its id towards its burst; no other prediction changes. */
  method RunJob(ps: seq<Process>, alpha: real, ready: map<int, seq<nat>>, predicted: map<int, real>, i: nat,
                currentTime: int, schedule: seq<Dispatch>, waiting: int, remaining: int, ghost runs: seq<Run>,
                ghost cursor: seq<nat>, ghost done: set<nat>, ghost lo: nat)
    returns (id: int, ready': map<int, seq<nat>>, predicted': map<int, real>, currentTime': int,
             schedule': seq<Dispatch>, waiting': int, remaining': int, ghost runs': seq<Run>, ghost cursor': seq<nat>,
             ghost done': set<nat>)
    requires WellFormedInput(ps) && 0.0 <= alpha <= 1.0
    requires Steady(ps, alpha, ready, predicted, i, currentTime, schedule, waiting, remaining, runs, cursor, done)
    requires exists id :: id in ready && ready[id] != []
    requires i == |ps| || currentTime < ps[i].arrive
    requires currentTime == Free(runs) || (lo <= i && lo < |ps| && QueuedFrom(ready, lo) && ps[lo].arrive == currentTime && Owing(ps, runs, 0) == lo)
    ensures id in ready && ready[id] != [] && Owing(ps, runs, 0) <= ready[id][0] < i
    ensures forall id' :: id' in ready && ready[id'] != [] ==> predicted[id] <= predicted[id']
    ensures ready' == ready[id := ready[id][1..]]
    ensures predicted' == predicted[id := Smooth(alpha, predicted[id], ps[ready[id][0]].burst as real)]
    ensures runs' == runs + [Run(ready[id][0], currentTime, ps[ready[id][0]].burst)] && cursor' == cursor + [i]
    ensures schedule' == schedule + [Dispatch(currentTime, id)]
    ensures currentTime' == currentTime + ps[ready[id][0]].burst
    ensures remaining' == remaining - 1
    ensures waiting' == waiting + (currentTime' - ps[ready[id][0]].arrive - ps[ready[id][0]].burst)
    ensures Between(ps, alpha, ready', predicted', i, currentTime', schedule', waiting', remaining', runs', cursor', done')
  {
    id := PickShortest(ready, predicted);
    var p := ready[id][0];
    JobKeeps(ps, alpha, ready, predicted, i, currentTime, schedule, waiting, remaining, runs, cursor, done, lo, id);
    ready' := ready[id := ready[id][1..]];
    schedule' := schedule + [Dispatch(currentTime, ps[p].id)];
    currentTime' := currentTime + ps[p].burst;
    remaining' := remaining - 1;
    waiting' := waiting + (currentTime' - ps[p].arrive - ps[p].burst);
    predicted' := predicted[id := Smooth(alpha, predicted[id], ps[p].burst as real)];
    runs', cursor', done' := runs + [Run(p, currentTime, ps[p].burst)], cursor + [i], done + {p};
  }

  /** A dispatch of the head of the FIFO of an id with least prediction, with the
      admission done, keeps the loop invariant. */
  lemma JobKeeps(ps: seq<Process>, alpha: real, ready: map<int, seq<nat>>, predicted: map<int, real>, i: nat,
                 currentTime: int, schedule: seq<Dispatch>, waiting: int, remaining: int, runs: seq<Run>,
                 cursor: seq<nat>, done: set<nat>, lo: nat, id: int)
    requires WellFormedInput(ps) && 0.0 <= alpha <= 1.0
    requires Steady(ps, alpha, ready, predicted, i, currentTime, schedule, waiting, remaining, runs, cursor, done)
    requires id in ready && ready[id] != []
    requires forall id' :: id' in ready && ready[id'] != [] ==> predicted[id] <= predicted[id']
    requires i == |ps| || currentTime < ps[i].arrive
    requires currentTime == Free(runs) || (lo <= i && lo < |ps| && QueuedFrom(ready, lo) && ps[lo].arrive == currentTime && Owing(ps, runs, 0) == lo)
    ensures Owing(ps, runs, 0) <= ready[id][0] < i
    ensures var p := ready[id][0];
      Between(ps, alpha, ready[id := ready[id][1..]], predicted[id := Smooth(alpha, predicted[id], ps[p].burst as real)],
              i, currentTime + ps[p].burst, schedule + [Dispatch(currentTime, ps[p].id)],
              waiting + (currentTime + ps[p].burst - ps[p].arrive - ps[p].burst), remaining - 1,
              runs + [Run(p, currentTime, ps[p].burst)], cursor + [i], done + {p})
  {
    var p := ready[id][0];
    var r := Run(p, currentTime, ps[p].burst);
    JobStep(ps, alpha, ready, predicted, i, currentTime, runs, done, id);
    if currentTime != Free(runs) {
      assert lo <= ready[id][0];
    }
    JobClock(ps, i, currentTime, runs, lo, p);
    SjfAppend(ps, alpha, runs, cursor, i, r);
    EagerAppend(ps, runs, r);
    NoIdleAppend(ps, runs, r);
    AnnounceRun(ps, schedule, runs, r);
    FinishRun(ps, runs, done, r, |ps|);
  }

  /** The job p dispatched, which has not run, starts when the CPU is free or when it
      arrived, whichever is later, and equally when the CPU is free or when the first
      process still owing time arrived: the clock is where the CPU became free and the
      job has arrived, or the clock was moved to the arrival of position lo, the first
      process owing time, at or before the job, while the CPU was idle. */
  lemma JobClock(ps: seq<Process>, i: nat, currentTime: int, runs: seq<Run>, lo: nat, p: nat)
    requires WellFormedInput(ps) && p < i <= |ps| && Work(runs, p) == 0
    requires Free(runs) <= currentTime && ps[i - 1].arrive <= currentTime
    requires currentTime == Free(runs) || (lo <= p && ps[lo].arrive == currentTime && Owing(ps, runs, 0) == lo)
    ensures currentTime == Max(Free(runs), ps[p].arrive)
    ensures Owing(ps, runs, 0) <= p && currentTime == Max(Free(runs), ps[Owing(ps, runs, 0)].arrive)
  {
    OwingLeast(ps, runs, 0, p);
    assert ArriveAt(ps, p) <= ArriveAt(ps, i - 1);
    assert ArriveAt(ps, Owing(ps, runs, 0)) <= ArriveAt(ps, p);
    if currentTime != Free(runs) {
      assert ArriveAt(ps, lo) <= ArriveAt(ps, p);
    }
  }

  /** One iteration of the main loop: admission of every process that has arrived by the
      clock, then, when an admitted process still owes time, one dispatch at the clock
      that runs to completion; otherwise every queue is empty and the clock jumps to the
      next arrival with nothing run. A process finishes, or one is admitted, or the clock
      gets closer to the next arrival. */
  method Round(ps: seq<Process>, alpha: real, ready: map<int, seq<nat>>, predicted: map<int, real>, i: nat,
               currentTime: int, schedule: seq<Dispatch>, waiting: int, remaining: int, ghost runs: seq<Run>,
               ghost cursor: seq<nat>, ghost done: set<nat>)
    returns (ready': map<int, seq<nat>>, predicted': map<int, real>, i': nat, currentTime': int,
             schedule': seq<Dispatch>, waiting': int, remaining': int, ghost runs': seq<Run>, ghost cursor': seq<nat>,
             ghost done': set<nat>, ghost p: nat)
    requires WellFormedInput(ps) && 0.0 <= alpha <= 1.0 && remaining != 0
    requires Between(ps, alpha, ready, predicted, i, currentTime, schedule, waiting, remaining, runs, cursor, done)
    ensures Between(ps, alpha, ready', predicted', i', currentTime', schedule', waiting', remaining', runs', cursor', done')
    ensures i' == Arrived(ps, i, currentTime)
    ensures Owing(ps, runs, 0) < i' ==>
      && p < i' && runs' == runs + [Run(p, currentTime, ps[p].burst)] && cursor' == cursor + [i']
      && schedule' == schedule + [Dispatch(currentTime, ps[p].id)]
      && currentTime' == currentTime + ps[p].burst && remaining' == remaining - 1
      && waiting' == waiting + (currentTime' - ps[p].arrive - ps[p].burst)
    ensures i' <= Owing(ps, runs, 0) ==>
      && i' < |ps| && currentTime' == ps[i'].arrive
      && runs' == runs && cursor' == cursor && schedule' == schedule && waiting' == waiting && remaining' == remaining
    ensures i <= i' && 0 <= remaining' <= remaining
    ensures remaining' < remaining || i < i' || (i == i' && Gap(ps, i', currentTime') < Gap(ps, i, currentTime))
  {
    AtMost(done, |ps|);
    ready', predicted', i' := Admit(ps, ready, predicted, i, currentTime, alpha, runs, done);
    if i < i' {
      assert ArriveAt(ps, i' - 1) <= currentTime;
    }
    assert Steady(ps, alpha, ready', predicted', i', currentTime, schedule, waiting, remaining, runs, cursor, done);
    var count := ReadyCount(ready');
    if count != 0 {
      var id;
      ghost var queued := ready';
      id, ready', predicted', currentTime', schedule', waiting', remaining', runs', cursor', done' :=
        RunJob(ps, alpha, ready', predicted', i', currentTime, schedule, waiting, remaining, runs, cursor, done, i);
      p := queued[id][0];
    } else {
      IdleKeeps(ps, alpha, ready', predicted', i', currentTime, schedule, waiting, remaining, runs, cursor, done);
      currentTime', schedule', waiting', remaining', runs', cursor', done', p :=
        ps[i'].arrive, schedule, waiting, remaining, runs, cursor, done, i';
    }
  }

  /** With every queue empty after the admission, the first process still owing time is
      the next arrival, and moving the clock to it keeps the loop invariant. */
  lemma IdleKeeps(ps: seq<Process>, alpha: real, ready: map<int, seq<nat>>, predicted: map<int, real>, i: nat,
                  currentTime: int, schedule: seq<Dispatch>, waiting: int, remaining: int, runs: seq<Run>,
                  cursor: seq<nat>, done: set<nat>)
    requires WellFormedInput(ps) && 0.0 <= alpha <= 1.0 && remaining != 0
    requires Steady(ps, alpha, ready, predicted, i, currentTime, schedule, waiting, remaining, runs, cursor, done)
    requires forall id :: id in ready ==> ready[id] == []
    requires i == |ps| || currentTime < ps[i].arrive
    ensures i < |ps| && Owing(ps, runs, 0) == i && currentTime < ps[i].arrive
    ensures Between(ps, alpha, ready, predicted, i, ps[i].arrive, schedule, waiting, remaining, runs, cursor, done)
  {
    AtMost(done, |ps|);
    QueuesIdle(ps, ready, i, runs, done);
    IdleOwing(ps, ready, i, runs, done);
    if 0 < i {
      assert ArriveAt(ps, i - 1) <= ArriveAt(ps, i);
    }
  }

  /** Runs the list through SJF with smoothing weight alpha. Returns the schedule, the
      waiting-time total and its average; `runs` records, per schedule entry, the
      position run, and `cursor` how many positions had been admitted at that dispatch. */
  method SjfScheduling(ps: seq<Process>, alpha: real)
    returns (schedule: seq<Dispatch>, waiting: int, average: real, ghost runs: seq<Run>, ghost cursor: seq<nat>)
    requires WellFormedInput(ps) && 0.0 <= alpha <= 1.0
    ensures |schedule| == |runs| == |cursor| == |ps|
    ensures forall j :: 0 <= j < |runs| ==>
      runs[j].pos < |ps| && schedule[j] == Dispatch(runs[j].start, ps[runs[j].pos].id)
    ensures forall j :: 0 <= j < |runs| ==> SjfStep(ps, alpha, runs[..j], cursor[j], runs[j])
    ensures forall j1, j2 :: 0 <= j1 < j2 < |runs| ==> PosAt(runs, j1) != PosAt(runs, j2)
    ensures forall j1, j2 :: 0 <= j1 < j2 < |runs| && ps[PosAt(runs, j1)].id == ps[PosAt(runs, j2)].id ==>
      PosAt(runs, j1) < PosAt(runs, j2)
    ensures ValidTrace(ps, runs) && Complete(ps, runs)
    ensures Eager(ps, runs)
    ensures forall j :: 0 <= j < |runs| ==>
      Owing(ps, runs[..j], 0) < |ps| && runs[j].start == Max(Free(runs[..j]), ps[Owing(ps, runs[..j], 0)].arrive)
    ensures waiting == TotalWait(ps, runs) && waiting >= 0
    ensures average == Average(waiting, |ps|) && average >= 0.0
  {
    var n := |ps|;
    var ready: map<int, seq<nat>> := map[];
    var predicted: map<int, real> := map[];
    var currentTime := 0;
    var remaining := n;
    var i := 0;
    ghost var done: set<nat> := {};
    schedule, waiting, runs, cursor := [], 0, [], [];
    SjfStart(ps, alpha);
    while remaining != 0
      invariant Between(ps, alpha, ready, predicted, i, currentTime, schedule, waiting, remaining, runs, cursor, done)
      decreases remaining, n - i, Gap(ps, i, currentTime)
    {
      ghost var p;
      ready, predicted, i, currentTime, schedule, waiting, remaining, runs, cursor, done, p :=
        Round(ps, alpha, ready, predicted, i, currentTime, schedule, waiting, remaining, runs, cursor, done);
    }
    SjfClosed(ps, alpha, ready, predicted, i, currentTime, schedule, waiting, runs, cursor, done);
    average := Average(waiting, n);
  }

  /** Before the main loop: nothing admitted, nothing queued, nothing run, no prediction
      and the clock at 0. */
  lemma SjfStart(ps: seq<Process>, alpha: real)
    requires WellFormedInput(ps) && 0.0 <= alpha <= 1.0
    ensures Between(ps, alpha, map[], map[], 0, 0, [], 0, |ps|, [], [], {})
  {
    NoneDone(ps, [], |ps|);
    QueuesStart(ps);
  }

  /** When the main loop ends, the schedule and the trace have everything the scheduler
      promises. */
  lemma SjfClosed(ps: seq<Process>, alpha: real, ready: map<int, seq<nat>>, predicted: map<int, real>, i: nat,
                  currentTime: int, schedule: seq<Dispatch>, waiting: int, runs: seq<Run>, cursor: seq<nat>,
                  done: set<nat>)
    requires WellFormedInput(ps) && 0.0 <= alpha <= 1.0
    requires Steady(ps, alpha, ready, predicted, i, currentTime, schedule, waiting, 0, runs, cursor, done)
    ensures |schedule| == |runs| == |cursor| == |ps|
    ensures forall j :: 0 <= j < |runs| ==>
      runs[j].pos < |ps| && schedule[j] == Dispatch(runs[j].start, ps[runs[j].pos].id)
    ensures forall j :: 0 <= j < |runs| ==> SjfStep(ps, alpha, runs[..j], cursor[j], runs[j])
    ensures forall j1, j2 :: 0 <= j1 < j2 < |runs| ==> PosAt(runs, j1) != PosAt(runs, j2)
    ensures forall j1, j2 :: 0 <= j1 < j2 < |runs| && ps[PosAt(runs, j1)].id == ps[PosAt(runs, j2)].id ==>
      PosAt(runs, j1) < PosAt(runs, j2)
    ensures ValidTrace(ps, runs) && Complete(ps, runs)
    ensures Eager(ps, runs)
    ensures forall j :: 0 <= j < |runs| ==>
      Owing(ps, runs[..j], 0) < |ps| && runs[j].start == Max(Free(runs[..j]), ps[Owing(ps, runs[..j], 0)].arrive)
    ensures waiting == TotalWait(ps, runs) && waiting >= 0
  {
    NoIdleStarts(ps, runs);
    QueuesClosed(ps, ready, i, runs, done);
    AnnouncedEntries(ps, schedule, runs);
    SjfRuleAll(ps, alpha, runs, cursor);
    SjfOrder(ps, alpha, runs, cursor);
    forall j | 0 <= j < |runs|
      ensures runs[j].len >= 0
    {
      assert SjfStep(ps, alpha, runs[..j], cursor[j], runs[j]);
    }
    EagerValid(ps, runs);
    AllDone(ps, runs, done, |ps|);
    TotalWaitNonNegative(ps, runs);
  }
}
