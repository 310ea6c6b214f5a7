/** The entities every scheduler shares: the process record, the schedule entry and
    the ghost record of a run segment that explains each schedule entry. */
module Processes {

  /** A process as read from the input: its identity, the tick at which it arrives
      and the CPU time it needs. The source's mutable `remaining_time` is kept by
      each scheduler run in a sequence of its own, indexed by list position. */
  datatype Process = Process(id: int, arrive: int, burst: int)

  /** One schedule entry: the tick at which the CPU switches to a process, and its id. */
  datatype Dispatch = Dispatch(time: int, id: int)

  /** What happened behind one schedule entry: the list position that ran, the tick it
      started at and how long it ran. */
  datatype Run = Run(pos: nat, start: int, len: int)

  /** Arrival tick of list position k. Sortedness is stated over this function so that
      it is used only where a proof names it. */
  function ArriveAt(ps: seq<Process>, k: nat): int
    requires k < |ps|
  {
    ps[k].arrive
  }

  /** The list position run j ran. Pairwise facts about a trace are stated over this
      function so that they are used only where a proof names two runs. */
  function PosAt(runs: seq<Run>, j: nat): nat
    requires j < |runs|
  {
    runs[j].pos
  }

  /** The input every scheduler expects: non-empty, sorted by arrival, arrivals
      non-negative, bursts positive. */
  predicate WellFormedInput(ps: seq<Process>)
  {
    && |ps| > 0
    && (forall k :: 0 <= k < |ps| ==> ps[k].arrive >= 0 && ps[k].burst > 0)
    && (forall k1, k2 :: 0 <= k1 < k2 < |ps| ==> ArriveAt(ps, k1) <= ArriveAt(ps, k2))
  }

  /** Entry m of a sequence of list positions; pairwise facts about a sequence are
      stated on it, so that they are used only where a proof names two entries. */
  function Slot(s: seq<nat>, m: nat): nat
    requires m < |s|
  {
    s[m]
  }

  /** No list position occurs twice. */
  predicate Distinct(s: seq<nat>)
  {
    forall m1, m2 :: 0 <= m1 < m2 < |s| ==> Slot(s, m1) != Slot(s, m2)
  }

  /** The list positions lo, lo+1, ..., hi-1, in order. */
  function Range(lo: nat, hi: nat): (r: seq<nat>)
    requires lo <= hi
    ensures |r| == hi - lo
    ensures forall m :: 0 <= m < |r| ==> r[m] == lo + m
    decreases hi - lo
  {
    if lo == hi then [] else [lo] + Range(lo + 1, hi)
  }

  /** Extending a range by one appends its new upper end. */
  lemma RangeExtend(lo: nat, hi: nat)
    requires lo <= hi
    ensures Range(lo, hi + 1) == Range(lo, hi) + [hi]
  {
    assert Range(lo, hi + 1)[hi - lo] == hi;
  }

  function Max(a: int, b: int): int
  {
    if a < b then b else a
  }

  function Min(a: int, b: int): int
  {
    if a <= b then a else b
  }

  /** The admission cursor after admitting, from position i on, every process that has
      arrived by `limit`: the first position from i on that arrives later, or |ps|. */
  function Arrived(ps: seq<Process>, i: nat, limit: int): (c: nat)
    ensures i <= c && (i <= |ps| ==> c <= |ps|)
    ensures forall k :: i <= k < c ==> k < |ps| && ps[k].arrive <= limit
    ensures c < |ps| ==> limit < ps[c].arrive
    decreases |ps| - i
  {
    if i < |ps| && ps[i].arrive <= limit then Arrived(ps, i + 1, limit) else i
  }

  /** Ticks from t until the arrival of list position i, 0 when it has arrived by t or
      when every position has been admitted. */
  function Gap(ps: seq<Process>, i: nat, t: int): nat
  {
    if i < |ps| && t < ps[i].arrive then ps[i].arrive - t else 0
  }
}
