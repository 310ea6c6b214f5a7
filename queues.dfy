/** The per-id ready queues of the predictive scheduler: a map from process id to a FIFO
    of admitted list positions with that id that have not run yet, the admission cursor
    and the finished set, and how admission and a dispatch change them. */
module IdQueues {
  import opened Processes
  import opened Trace

  /** The FIFO of `id`, empty when the id has no queue yet. */
  function QueueOf(ready: map<int, seq<nat>>, id: int): seq<nat>
  {
    if id in ready then ready[id] else []
  }

  /** A non-empty set of ids has a member to pick. */
  lemma SomeId(s: set<int>)
    requires s != {}
    ensures exists id :: id in s
  {
    if forall id :: id !in s {
      assert false;
    }
  }

  /** A well-kept FIFO of `id`: admitted, unfinished positions with that id, in
      increasing list order. */
  ghost predicate Fifo(ps: seq<Process>, q: seq<nat>, id: int, i: nat, done: set<nat>)
    requires i <= |ps|
  {
    && (forall x :: 0 <= x < |q| ==> q[x] < i && ps[q[x]].id == id && q[x] !in done)
    && (forall x, y :: 0 <= x < y < |q| ==> Slot(q, x) < Slot(q, y))
  }

  /** Every queued position is at or beyond lo. With lo the admission cursor this says
      every queue is empty. */
  ghost predicate QueuedFrom(ready: map<int, seq<nat>>, lo: nat)
  {
    forall id, x :: id in ready && 0 <= x < |ready[id]| ==> lo <= ready[id][x]
  }

  /** The books of position k. Once admitted (k < i) its id has a queue, and it has
      either run its whole burst and is done, or not run at all and sits in the queue
      of its id. Before admission it has not run. */
  ghost predicate Entry(ps: seq<Process>, ready: map<int, seq<nat>>, i: nat, runs: seq<Run>, done: set<nat>, k: nat)
    requires k < |ps|
  {
    if k < i then
      && ps[k].id in ready
      && if k in done then Work(runs, k) == ps[k].burst
         else Work(runs, k) == 0 && k in ready[ps[k].id]
    else
      Work(runs, k) == 0
  }

  /** The entries of positions 0 .. n-1 are all in order. */
  ghost predicate Entries(ps: seq<Process>, ready: map<int, seq<nat>>, i: nat, runs: seq<Run>, done: set<nat>, n: nat)
    requires n <= |ps|
  {
    n == 0 || (Entries(ps, ready, i, runs, done, n - 1) && Entry(ps, ready, i, runs, done, n - 1))
  }

  /** The bookkeeping kept between dispatches: finished positions and the positions of
      the runs were admitted, every queue is a well-kept FIFO of its id, and every
      position's entry is in order. */
  ghost predicate Queues(ps: seq<Process>, ready: map<int, seq<nat>>, i: nat, runs: seq<Run>, done: set<nat>)
  {
    && i <= |ps|
    && (forall k :: k in done ==> k < i)
    && (forall j :: 0 <= j < |runs| ==> runs[j].pos < i)
    && (forall id :: id in ready ==> Fifo(ps, ready[id], id, i, done))
    && Entries(ps, ready, i, runs, done, |ps|)
  }

  lemma {:induction false} EntryAt(ps: seq<Process>, ready: map<int, seq<nat>>, i: nat, runs: seq<Run>,
                                   done: set<nat>, n: nat, k: nat)
    requires n <= |ps| && Entries(ps, ready, i, runs, done, n) && k < n
    ensures Entry(ps, ready, i, runs, done, k)
  {
    if k < n - 1 {
      EntryAt(ps, ready, i, runs, done, n - 1, k);
    }
  }

  /** The books before anything is admitted. */
  lemma QueuesStart(ps: seq<Process>)
    ensures Queues(ps, map[], 0, [], {})
  {
    StartEntries(ps, |ps|);
  }

  lemma {:induction false} StartEntries(ps: seq<Process>, n: nat)
    requires n <= |ps|
    ensures Entries(ps, map[], 0, [], {}, n)
  {
    if n > 0 {
      StartEntries(ps, n - 1);
    }
  }

  /** Admitting position i at the back of the FIFO of its id keeps the books, and every
      queue still holds only positions at or beyond lo when it did before. */
  lemma AdmitOne(ps: seq<Process>, ready: map<int, seq<nat>>, i: nat, runs: seq<Run>, done: set<nat>, lo: nat)
    requires Queues(ps, ready, i, runs, done) && i < |ps| && lo <= i
    ensures Queues(ps, ready[ps[i].id := QueueOf(ready, ps[i].id) + [i]], i + 1, runs, done)
    ensures QueuedFrom(ready, lo) ==> QueuedFrom(ready[ps[i].id := QueueOf(ready, ps[i].id) + [i]], lo)
  {
    var id := ps[i].id;
    var ready' := ready[id := QueueOf(ready, id) + [i]];
    forall id' | id' in ready'
      ensures Fifo(ps, ready'[id'], id', i + 1, done)
    {
      if id' != id {
        assert ready'[id'] == ready[id'];
      } else {
        var q := QueueOf(ready, id);
        if id in ready {
          assert Fifo(ps, ready[id], id, i, done);
        }
        forall x, y | 0 <= x < y < |q| + 1
          ensures Slot(q + [i], x) < Slot(q + [i], y)
        {
          if y < |q| {
            assert Slot(q, x) < Slot(q, y);
          } else {
            assert (q + [i])[x] == q[x] < i;
          }
        }
      }
    }
    AdmitEntries(ps, ready, i, runs, done, |ps|);
  }

  lemma {:induction false} AdmitEntries(ps: seq<Process>, ready: map<int, seq<nat>>, i: nat, runs: seq<Run>,
                                        done: set<nat>, n: nat)
    requires n <= |ps| && i < |ps| && Entries(ps, ready, i, runs, done, n)
    requires forall k :: k in done ==> k < i
    ensures Entries(ps, ready[ps[i].id := QueueOf(ready, ps[i].id) + [i]], i + 1, runs, done, n)
  {
    if n > 0 {
      var k := n - 1;
      var id := ps[i].id;
      var ready' := ready[id := QueueOf(ready, id) + [i]];
      AdmitEntries(ps, ready, i, runs, done, k);
      if k < i && k !in done {
        var x :| 0 <= x < |ready[ps[k].id]| && ready[ps[k].id][x] == k;
        assert ready'[ps[k].id][x] == k;
      } else if k == i {
        assert ready'[id][|QueueOf(ready, id)|] == k;
      }
    }
  }

  /** Every position among 0 .. c-1 with the id of position p has run. */
  ghost predicate Earlier(ps: seq<Process>, runs: seq<Run>, p: nat, c: nat)
    requires p < |ps| && c <= |ps|
  {
    c == 0 || (Earlier(ps, runs, p, c - 1) && (ps[c - 1].id == ps[p].id ==> Work(runs, c - 1) > 0))
  }

  lemma {:induction false} EarlierAll(ps: seq<Process>, runs: seq<Run>, p: nat, c: nat)
    requires p < |ps| && c <= |ps|
    ensures Earlier(ps, runs, p, c) <==> forall k :: 0 <= k < c && ps[k].id == ps[p].id ==> Work(runs, k) > 0
  {
    if c > 0 {
      EarlierAll(ps, runs, p, c - 1);
    }
  }

  /** Running the head of a non-empty FIFO for its whole burst keeps the books: the head
      leaves its queue and becomes done. The head was admitted, had not run, and every
      earlier position with its id had already run. */
  lemma PopRun(ps: seq<Process>, ready: map<int, seq<nat>>, i: nat, runs: seq<Run>, done: set<nat>, id: int, r: Run)
    requires Queues(ps, ready, i, runs, done) && (forall k :: 0 <= k < |ps| ==> ps[k].burst > 0)
    requires id in ready && ready[id] != [] && r.pos == ready[id][0] && r.len == ps[r.pos].burst
    ensures r.pos < i && r.pos !in done && ps[r.pos].id == id && Work(runs, r.pos) == 0
    ensures Earlier(ps, runs, r.pos, r.pos)
    ensures Queues(ps, ready[id := ready[id][1..]], i, runs + [r], done + {r.pos})
  {
    var p := r.pos;
    var ready' := ready[id := ready[id][1..]];
    assert Fifo(ps, ready[id], id, i, done);
    EntryAt(ps, ready, i, runs, done, |ps|, p);
    forall x | 0 < x < |ready[id]|
      ensures p < ready[id][x]
    {
      assert Slot(ready[id], 0) < Slot(ready[id], x);
    }
    forall k | 0 <= k < p && ps[k].id == id
      ensures Work(runs, k) > 0
    {
      EntryAt(ps, ready, i, runs, done, |ps|, k);
    }
    EarlierAll(ps, runs, p, p);
    forall id' | id' in ready'
      ensures Fifo(ps, ready'[id'], id', i, done + {p})
    {
      if id' != id {
        assert ready'[id'] == ready[id'];
        assert Fifo(ps, ready[id'], id', i, done);
      } else {
        var q := ready[id];
        forall x, y | 0 <= x < y < |q| - 1
          ensures Slot(q[1..], x) < Slot(q[1..], y)
        {
          assert Slot(q, x + 1) < Slot(q, y + 1);
        }
      }
    }
    forall j | 0 <= j < |runs + [r]|
      ensures (runs + [r])[j].pos < i
    {
      if j < |runs| {
        assert (runs + [r])[j] == runs[j];
      }
    }
    PopEntries(ps, ready, i, runs, done, id, r, |ps|);
  }

  lemma {:induction false} PopEntries(ps: seq<Process>, ready: map<int, seq<nat>>, i: nat, runs: seq<Run>,
                                      done: set<nat>, id: int, r: Run, n: nat)
    requires n <= |ps| && Entries(ps, ready, i, runs, done, n)
    requires id in ready && ready[id] != [] && r.pos == ready[id][0] && r.pos < i <= |ps|
    requires r.len == ps[r.pos].burst && ps[r.pos].id == id && r.pos !in done && Work(runs, r.pos) == 0
    ensures Entries(ps, ready[id := ready[id][1..]], i, runs + [r], done + {r.pos}, n)
  {
    if n > 0 {
      var k := n - 1;
      var ready' := ready[id := ready[id][1..]];
      PopEntries(ps, ready, i, runs, done, id, r, k);
      AppendRun(runs, r, k);
      if k < i && k !in done && k != r.pos {
        var x :| 0 <= x < |ready[ps[k].id]| && ready[ps[k].id][x] == k;
        if ps[k].id == id {
          assert ready'[id][x - 1] == k;
        }
      }
    }
  }

  /** A set of positions below n with n members holds every position below n. */
  lemma Filled(done: set<nat>, n: nat)
    requires forall k :: k in done ==> k < n
    requires |done| >= n
    ensures forall k :: 0 <= k < n ==> k in done
  {
    forall k | 0 <= k < n
      ensures k in done
    {
      if k !in done {
        Bounded(done, n, k);
      }
    }
  }

  /** A set of positions below n that misses one of them has fewer than n members. */
  lemma {:induction false} Bounded(s: set<nat>, n: nat, miss: nat)
    requires forall k :: k in s ==> k < n
    requires miss < n && miss !in s
    ensures |s| < n
    decreases n
  {
    if n - 1 == miss {
      AtMost(s, n - 1);
    } else if n - 1 in s {
      Bounded(s - {n - 1}, n - 1, miss);
    } else {
      Bounded(s, n - 1, miss);
    }
  }

  /** A set of positions below n has at most n members. */
  lemma {:induction false} AtMost(s: set<nat>, n: nat)
    requires forall k :: k in s ==> k < n
    ensures |s| <= n
    decreases n
  {
    if n == 0 {
      assert forall x :: x !in s;
    } else {
      AtMost(s - {n - 1}, n - 1);
    }
  }

  /** A set holding every position below n has at least n members. */
  lemma {:induction false} Covers(s: set<nat>, n: nat)
    requires forall k :: 0 <= k < n ==> k in s
    ensures |s| >= n
    decreases n
  {
    if n > 0 {
      Covers(s - {n - 1}, n - 1);
    }
  }

  /** Once as many positions are done as there are processes, every position is done and
      the trace gave every process its whole burst. */
  lemma QueuesClosed(ps: seq<Process>, ready: map<int, seq<nat>>, i: nat, runs: seq<Run>, done: set<nat>)
    requires Queues(ps, ready, i, runs, done) && |done| >= |ps|
    ensures forall k :: 0 <= k < |ps| ==> k in done
    ensures Complete(ps, runs)
  {
    Filled(done, |ps|);
    forall k | 0 <= k < |ps|
      ensures Work(runs, k) == ps[k].burst
    {
      assert k in done && k < i;
      EntryAt(ps, ready, i, runs, done, |ps|, k);
    }
  }

  /** With every queue empty, an unfinished process lies beyond the admission cursor. */
  lemma QueuesIdle(ps: seq<Process>, ready: map<int, seq<nat>>, i: nat, runs: seq<Run>, done: set<nat>)
    requires Queues(ps, ready, i, runs, done) && |done| < |ps|
    requires forall id :: id in ready ==> ready[id] == []
    ensures i < |ps|
  {
    if i == |ps| {
      forall k | 0 <= k < |ps|
        ensures k in done
      {
        EntryAt(ps, ready, i, runs, done, |ps|, k);
      }
      Covers(done, |ps|);
    }
  }

  /** With every queue empty, every admitted process has finished and position i has not
      run, so i is the first position that still owes time. */
  lemma IdleOwing(ps: seq<Process>, ready: map<int, seq<nat>>, i: nat, runs: seq<Run>, done: set<nat>)
    requires WellFormedInput(ps) && Queues(ps, ready, i, runs, done) && i < |ps|
    requires forall id :: id in ready ==> ready[id] == []
    ensures Owing(ps, runs, 0) == i
  {
    forall k | 0 <= k < i
      ensures Owed(ps, runs, k) <= 0
    {
      EntryAt(ps, ready, i, runs, done, |ps|, k);
    }
    EntryAt(ps, ready, i, runs, done, |ps|, i);
    OwingIs(ps, runs, 0, i);
  }
}
