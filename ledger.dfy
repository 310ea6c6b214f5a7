/** The state the preemptive schedulers (round robin and shortest remaining time) keep
    between dispatches: the remaining time of every position, the ready population, the
    admission cursor and the finished set, and how admission and a dispatch change it. */
module Ledger {
  import opened Processes
  import opened Trace

  /** The bookkeeping kept between dispatches: the ready population holds admitted
      positions that still owe time, each once, and every position's entry (below) is
      in order. */
  ghost predicate Books(ps: seq<Process>, rem: seq<int>, ready: seq<nat>, i: nat, runs: seq<Run>, done: set<nat>)
  {
    && |rem| == |ps| && i <= |ps|
    && Distinct(ready)
    && (forall m :: 0 <= m < |ready| ==> ready[m] < i && rem[ready[m]] > 0)
    && Entries(ps, rem, ready, i, runs, done, |ps|)
  }

  /** The books of position k. Once admitted (k < i) it owes rem[k] >= 0, which is its
      burst minus the work the trace gave it; it is done exactly when it owes nothing
      and queued whenever it owes something. Before admission it has not run and is not
      done. */
  ghost predicate Entry(ps: seq<Process>, rem: seq<int>, ready: seq<nat>, i: nat, runs: seq<Run>, done: set<nat>, k: nat)
    requires k < |ps| == |rem|
  {
    if k < i then
      && rem[k] >= 0
      && Work(runs, k) == ps[k].burst - rem[k]
      && (k in done <==> rem[k] == 0)
      && (rem[k] > 0 ==> k in ready)
    else
      Work(runs, k) == 0 && k !in done
  }

  /** The entries of positions 0 .. n-1 are all in order. */
  ghost predicate Entries(ps: seq<Process>, rem: seq<int>, ready: seq<nat>, i: nat, runs: seq<Run>, done: set<nat>, n: nat)
    requires n <= |ps| == |rem|
  {
    n == 0 || (Entries(ps, rem, ready, i, runs, done, n - 1) && Entry(ps, rem, ready, i, runs, done, n - 1))
  }

  lemma {:induction false} EntryAt(ps: seq<Process>, rem: seq<int>, ready: seq<nat>, i: nat, runs: seq<Run>, done: set<nat>, n: nat, k: nat)
    requires n <= |ps| == |rem| && Entries(ps, rem, ready, i, runs, done, n) && k < n
    ensures Entry(ps, rem, ready, i, runs, done, k)
  {
    if k < n - 1 {
      EntryAt(ps, rem, ready, i, runs, done, n - 1, k);
    }
  }

  /** While the books hold, no position has been given more than its burst. */
  lemma BooksPending(ps: seq<Process>, rem: seq<int>, ready: seq<nat>, i: nat, runs: seq<Run>, done: set<nat>)
    requires Books(ps, rem, ready, i, runs, done)
    requires forall k :: 0 <= k < |ps| ==> ps[k].burst > 0
    ensures Pending(ps, runs, |ps|) >= 0
  {
    forall k | 0 <= k < |ps|
      ensures Work(runs, k) <= ps[k].burst
    {
      EntryAt(ps, rem, ready, i, runs, done, |ps|, k);
    }
    PendingNonNegative(ps, runs, |ps|);
  }

  /** Once everything is admitted and the queue is empty, every position is done and the
      trace gave each its whole burst. */
  lemma BooksClosed(ps: seq<Process>, rem: seq<int>, i: nat, runs: seq<Run>, done: set<nat>)
    requires Books(ps, rem, [], i, runs, done) && i == |ps|
    ensures forall k :: 0 <= k < |ps| ==> k in done
    ensures Complete(ps, runs)
  {
    forall k | 0 <= k < |ps|
      ensures k in done && Work(runs, k) == ps[k].burst
    {
      EntryAt(ps, rem, [], i, runs, done, |ps|, k);
    }
  }

  /** Admission keeps the books: the positions i .. i'-1 join the queue owing their
      burst. */
  lemma AdmitKeepsBooks(ps: seq<Process>, rem: seq<int>, ready: seq<nat>, i: nat, runs: seq<Run>, done: set<nat>,
                        rem': seq<int>, i': nat)
    requires Books(ps, rem, ready, i, runs, done)
    requires forall k :: 0 <= k < |ps| ==> ps[k].burst > 0
    requires i <= i' <= |ps| && |rem'| == |ps|
    requires forall k :: 0 <= k < |ps| ==> rem'[k] == if i <= k < i' then ps[k].burst else rem[k]
    ensures Books(ps, rem', ready + Range(i, i'), i', runs, done)
  {
    var ready' := ready + Range(i, i');
    forall m | 0 <= m < |ready'|
      ensures ready'[m] < i' && rem'[ready'[m]] > 0
    {
      if m < |ready| {
        assert ready'[m] == ready[m];
      }
    }
    forall m1, m2 | 0 <= m1 < m2 < |ready'|
      ensures Slot(ready', m1) != Slot(ready', m2)
    {
      if m2 < |ready| {
        assert Slot(ready, m1) != Slot(ready, m2);
      } else if m1 < |ready| {
        assert ready'[m1] == ready[m1] < i <= ready'[m2];
      }
    }
    AdmitEntries(ps, rem, ready, i, runs, done, rem', i', |ps|);
  }

  lemma {:induction false} AdmitEntries(ps: seq<Process>, rem: seq<int>, ready: seq<nat>, i: nat, runs: seq<Run>,
                                        done: set<nat>, rem': seq<int>, i': nat, n: nat)
    requires n <= |ps| == |rem| == |rem'| && i <= i'
    requires Entries(ps, rem, ready, i, runs, done, n)
    requires forall k :: 0 <= k < |ps| ==> ps[k].burst > 0
    requires forall k :: 0 <= k < |ps| ==> rem'[k] == if i <= k < i' then ps[k].burst else rem[k]
    ensures Entries(ps, rem', ready + Range(i, i'), i', runs, done, n)
  {
    if n > 0 {
      var k := n - 1;
      var ready' := ready + Range(i, i');
      AdmitEntries(ps, rem, ready, i, runs, done, rem', i', k);
      if k < i && rem[k] > 0 {
        assert k in ready;
        var m :| 0 <= m < |ready| && ready[m] == k;
        assert ready'[m] == k;
      } else if i <= k < i' {
        assert ready'[|ready| + (k - i)] == k;
      }
    }
  }

  /** The ready population without its entry at index m. */
  function Drop(ready: seq<nat>, m: nat): (r: seq<nat>)
    requires m < |ready|
    ensures |r| == |ready| - 1
    ensures forall x {:trigger r[x]} :: 0 <= x < |r| ==> r[x] == if x < m then ready[x] else ready[x + 1]
  {
    ready[..m] + ready[m + 1..]
  }

  /** Taking out the entry at index m and, when it still owes time after running for len,
      putting it back at the end keeps the population made of distinct admitted positions
      that owe time. */
  lemma Requeue(rem: seq<int>, ready: seq<nat>, i: nat, m: nat, len: int, rem': seq<int>, ready': seq<nat>)
    requires i <= |rem| && Distinct(ready) && m < |ready|
    requires forall x :: 0 <= x < |ready| ==> ready[x] < i && rem[ready[x]] > 0
    requires 0 <= len <= rem[ready[m]] && rem' == rem[ready[m] := rem[ready[m]] - len]
    requires ready' == if rem'[ready[m]] == 0 then Drop(ready, m) else Drop(ready, m) + [ready[m]]
    ensures Distinct(ready')
    ensures forall x :: 0 <= x < |ready'| ==> ready'[x] < i && rem'[ready'[x]] > 0
  {
    var rest := Drop(ready, m);
    forall x | 0 <= x < |rest|
      ensures rest[x] != ready[m] && rest[x] < i && rem'[rest[x]] > 0
    {
      var y := if x < m then x else x + 1;
      assert rest[x] == ready[y];
      if y < m {
        assert Slot(ready, y) != Slot(ready, m);
      } else {
        assert Slot(ready, m) != Slot(ready, y);
      }
    }
    forall x1, x2 | 0 <= x1 < x2 < |ready'|
      ensures Slot(ready', x1) != Slot(ready', x2)
    {
      if x2 < |rest| {
        var y1, y2 := if x1 < m then x1 else x1 + 1, if x2 < m then x2 else x2 + 1;
        assert Slot(ready, y1) != Slot(ready, y2);
        assert ready'[x1] == ready[y1] && ready'[x2] == ready[y2];
      }
    }
  }

  /** Taking out the entry at index m keeps every other entry, and putting it back at the
      end keeps it too. */
  lemma DropKeeps(ready: seq<nat>, m: nat, back: bool, ready': seq<nat>)
    requires m < |ready|
    requires ready' == if back then Drop(ready, m) + [ready[m]] else Drop(ready, m)
    ensures forall k :: k in ready && k != ready[m] ==> k in ready'
    ensures back ==> ready[m] in ready'
  {
    forall k | k in ready && k != ready[m]
      ensures k in ready'
    {
      var x :| 0 <= x < |ready| && ready[x] == k;
      assert ready'[if x < m then x else x - 1] == k;
    }
    if back {
      assert ready'[|ready'| - 1] == ready[m];
    }
  }

  /** The entries of positions 0 .. n-1 after the run r: a run keeps every other queued
      position queued, and r.pos too while it owes time. */
  lemma {:induction false} RunEntries(ps: seq<Process>, rem: seq<int>, ready: seq<nat>, i: nat, runs: seq<Run>,
                                      done: set<nat>, r: Run, rem': seq<int>, ready': seq<nat>,
                                      done': set<nat>, n: nat)
    requires n <= |ps| == |rem| && r.pos < i <= |ps|
    requires Entries(ps, rem, ready, i, runs, done, n)
    requires 0 <= r.len <= rem[r.pos] && r.pos !in done && rem' == rem[r.pos := rem[r.pos] - r.len]
    requires done' == if rem'[r.pos] == 0 then done + {r.pos} else done
    requires forall k :: k in ready && k != r.pos ==> k in ready'
    requires rem'[r.pos] > 0 ==> r.pos in ready'
    ensures Entries(ps, rem', ready', i, runs + [r], done', n)
  {
    if n > 0 {
      RunEntries(ps, rem, ready, i, runs, done, r, rem', ready', done', n - 1);
      AppendRun(runs, r, n - 1);
    }
  }

  /** Running the entry at index m of the ready population for len ticks, at most what it
      owes, keeps the books: the entry leaves the population, and goes back at the end
      when it still owes time, or into `done` when it does not. The position run was
      admitted and unfinished, and what it owed was its burst minus its work so far. */
  lemma RunKeepsBooks(ps: seq<Process>, rem: seq<int>, ready: seq<nat>, i: nat, runs: seq<Run>, done: set<nat>,
                      m: nat, r: Run, rem': seq<int>, ready': seq<nat>, done': set<nat>)
    requires Books(ps, rem, ready, i, runs, done) && m < |ready|
    requires r.pos == ready[m] && 0 <= r.len <= rem[r.pos]
    requires rem' == rem[r.pos := rem[r.pos] - r.len]
    requires ready' == if rem'[r.pos] == 0 then Drop(ready, m) else Drop(ready, m) + [r.pos]
    requires done' == if rem'[r.pos] == 0 then done + {r.pos} else done
    ensures r.pos < i && r.pos !in done && rem[r.pos] > 0
    ensures rem[r.pos] == Owed(ps, runs, r.pos)
    ensures Books(ps, rem', ready', i, runs + [r], done')
  {
    assert r.pos < i && rem[r.pos] > 0;
    EntryAt(ps, rem, ready, i, runs, done, |ps|, r.pos);
    if rem'[r.pos] == 0 {
      DropKeeps(ready, m, false, ready');
    } else {
      DropKeeps(ready, m, true, ready');
    }
    RunEntries(ps, rem, ready, i, runs, done, r, rem', ready', done', |ps|);
    Requeue(rem, ready, i, m, r.len, rem', ready');
  }

  /** The books before anything is admitted. */
  lemma BooksStart(ps: seq<Process>, rem: seq<int>)
    requires |rem| == |ps|
    ensures Books(ps, rem, [], 0, [], {})
  {
    StartEntries(ps, rem, |ps|);
  }

  lemma {:induction false} StartEntries(ps: seq<Process>, rem: seq<int>, n: nat)
    requires n <= |ps| == |rem|
    ensures Entries(ps, rem, [], 0, [], {}, n)
  {
    if n > 0 {
      StartEntries(ps, rem, n - 1);
    }
  }

  /** With an empty queue, every admitted position has finished and position i has not
      run, so i is the first position that still owes time. */
  lemma IdleOwing(ps: seq<Process>, rem: seq<int>, i: nat, runs: seq<Run>, done: set<nat>)
    requires WellFormedInput(ps) && Books(ps, rem, [], i, runs, done) && i < |ps|
    ensures Owing(ps, runs, 0) == i
  {
    forall k | 0 <= k < i
      ensures Owed(ps, runs, k) <= 0
    {
      EntryAt(ps, rem, [], i, runs, done, |ps|, k);
    }
    EntryAt(ps, rem, [], i, runs, done, |ps|, i);
    OwingIs(ps, runs, 0, i);
  }
}
