/**
 * How the dispatcher cuts the frame indices `0 .. total-1` into one
 * contiguous, half-open range per worker.
 */
module Dispatcher {
  import opened Wrappers

  /** More workers than this make the process pool unstable. */
  const MaxThreads: nat := 16

  /** `THREADS = min(cpu_count(), MAX_THREADS)`; `cpu_count()` is at least 1. */
  function ThreadBound(cpuCount: nat): (t: nat)
    requires cpuCount >= 1
    ensures 1 <= t <= MaxThreads && t <= cpuCount
    ensures t == cpuCount || t == MaxThreads
  {
    if cpuCount < MaxThreads then cpuCount else MaxThreads
  }

  lemma MulMonotonic(a: int, b: int, c: nat)
    requires a <= b
    ensures a * c <= b * c
  {
    assert b * c - a * c == (b - a) * c;
  }

  /** The ceiling of `a / b`: the least `q` with `q * b >= a`. */
  function CeilDiv(a: nat, b: nat): (q: nat)
    requires b >= 1
    ensures q * b >= a
    ensures q == 0 || (q - 1) * b < a
  {
    var q := (a + b - 1) / b;
    var m := (a + b - 1) % b;
    assert a + b - 1 == q * b + m;
    assert (q - 1) * b == q * b - b;
    q
  }

  lemma CeilDivLeast(a: nat, b: nat, m: nat)
    requires b >= 1 && m * b >= a
    ensures CeilDiv(a, b) <= m
  {
    var q := CeilDiv(a, b);
    if q > m {
      MulMonotonic(m, q - 1, b);
    }
  }

  /** `pool_size` (frames per worker) and `threads` (number of workers). */
  datatype Plan = Plan(poolSize: nat, threads: nat)

  /**
   * The facts the dispatcher relies on: at least one frame per chunk, between
   * one and `bound` workers, no more workers than frames, and `threads` chunks
   * of `poolSize` frames are just enough to hold all frames.
   */
  predicate ValidPlan(total: nat, bound: nat, plan: Plan)
  {
    && 1 <= plan.poolSize
    && 1 <= plan.threads <= bound
    && plan.threads <= total
    && (plan.threads - 1) * plan.poolSize < total <= plan.threads * plan.poolSize
  }

  /**
   * `pool_size = ceil(total / THREADS)`, `threads = ceil(total / pool_size)`.
   * With no frames the source divides by a zero `pool_size` and fails when
   * it converts the resulting NaN to an integer: `None`.
   */
  function PlanChunks(total: nat, bound: nat): (r: Option<Plan>)
    requires bound >= 1
    ensures r.None? <==> total == 0
    ensures r.Some? ==> ValidPlan(total, bound, r.value)
    ensures r.Some? ==> (r.value.poolSize - 1) * bound < total <= r.value.poolSize * bound
  {
    if total == 0 then None
    else
      var poolSize := CeilDiv(total, bound);
      var threads := CeilDiv(total, poolSize);
      CeilDivLeast(total, poolSize, bound);
      MulMonotonic(1, poolSize, total);
      CeilDivLeast(total, poolSize, total);
      Some(Plan(poolSize, threads))
  }

  /** The half-open index range `[lo, hi)`, Python's `range(lo, hi)`. */
  datatype Range = Range(lo: int, hi: int)

  /** The ranges the dispatcher builds: chunk `j` starts at `poolSize * j`;
      all but the last end where the next starts, the last ends at `total`. */
  function Partition(total: nat, plan: Plan): (ranges: seq<Range>)
    ensures |ranges| == plan.threads
    ensures plan.threads > 0 ==> ranges[0].lo == 0 && ranges[plan.threads - 1].hi == total
    ensures forall j :: 0 < j < |ranges| ==> ranges[j].lo == ranges[j - 1].hi
  {
    seq(plan.threads, j requires 0 <= j < plan.threads =>
      Range(plan.poolSize * j,
            if j < plan.threads - 1 then plan.poolSize * (j + 1) else total))
  }

  method FrameRanges(total: nat, plan: Plan) returns (ranges: seq<Range>)
    ensures ranges == Partition(total, plan)
  {
    ranges := [];
    var j := 0;
    while j < plan.threads
      invariant 0 <= j <= plan.threads
      invariant ranges == Partition(total, plan)[..j]
    {
      var hi := if j < plan.threads - 1 then plan.poolSize * (j + 1) else total;
      ranges := ranges + [Range(plan.poolSize * j, hi)];
      j := j + 1;
    }
  }

  /**
   * Under a valid plan the ranges follow one another without gap from 0 to
   * `total`, none is empty, and none is longer than `poolSize`.
   */
  lemma PartitionIsContiguous(total: nat, bound: nat, plan: Plan)
    requires ValidPlan(total, bound, plan)
    ensures var r := Partition(total, plan);
      && |r| == plan.threads
      && r[0].lo == 0
      && r[|r| - 1].hi == total
      && (forall j :: 0 <= j < |r| - 1 ==> r[j].hi == r[j + 1].lo)
      && (forall j :: 0 <= j < |r| ==> r[j].lo < r[j].hi <= r[j].lo + plan.poolSize)
      && (forall j :: 0 <= j < |r| ==> 0 <= r[j].lo && r[j].hi <= total)
  {
    var r := Partition(total, plan);
    forall j | 0 <= j < plan.threads
      ensures r[j].lo < r[j].hi <= r[j].lo + plan.poolSize
      ensures 0 <= r[j].lo && r[j].hi <= total
    {
      RangeBounds(total, bound, plan, j);
    }
  }

  /** One range under a valid plan: non-empty, at most `poolSize` long,
      within the frames, and starting where the previous one ends. */
  lemma RangeBounds(total: nat, bound: nat, plan: Plan, j: nat)
    requires ValidPlan(total, bound, plan)
    requires j < plan.threads
    ensures var r := Partition(total, plan)[j];
      0 <= r.lo < r.hi <= r.lo + plan.poolSize && r.hi <= total
    ensures Partition(total, plan)[j].lo == (if j == 0 then 0 else Partition(total, plan)[j - 1].hi)
  {
    var p, t := plan.poolSize, plan.threads;
    var r := Partition(total, plan)[j];
    assert r.lo == p * j;
    if j == t - 1 {
      assert total <= t * p == (t - 1) * p + p;
    } else {
      assert r.hi == p * j + p;
      MulMonotonic(j + 1, t - 1, p);
    }
  }

  predicate Contains(r: Range, i: int) { r.lo <= i < r.hi }

  /** The range that holds frame index `i`: the `i / poolSize`-th. */
  lemma RangeOf(total: nat, bound: nat, plan: Plan, i: int) returns (j: nat)
    requires ValidPlan(total, bound, plan)
    requires 0 <= i < total
    ensures j == i / plan.poolSize
    ensures j < plan.threads && Contains(Partition(total, plan)[j], i)
  {
    var p, t := plan.poolSize, plan.threads;
    j := i / p;
    var m := i % p;
    assert i == p * j + m && 0 <= m < p;
    if j >= t {
      MulMonotonic(t, j, p);
      assert false;
    }
    if j < t - 1 {
      assert p * (j + 1) == p * j + p;
    }
  }

  /** An index lies in some range exactly when it is a frame index. */
  lemma PartitionCovers(total: nat, bound: nat, plan: Plan, i: int)
    requires ValidPlan(total, bound, plan)
    ensures (0 <= i < total) <==>
      exists j :: 0 <= j < plan.threads && Contains(Partition(total, plan)[j], i)
  {
    var r := Partition(total, plan);
    var t := plan.threads;
    if 0 <= i < total {
      var j := RangeOf(total, bound, plan, i);
    } else {
      PartitionIsContiguous(total, bound, plan);
      RangesAreOrdered(total, bound, plan);
      forall j | 0 <= j < t
        ensures !Contains(r[j], i)
      {
        if 0 < j {
          assert r[0].hi <= r[j].lo;
        }
        if j < t - 1 {
          assert r[j].hi <= r[t - 1].lo;
        }
      }
    }
  }

  /** A range ends no later than any later range starts. */
  lemma {:induction false} RangesAreOrdered(total: nat, bound: nat, plan: Plan)
    requires ValidPlan(total, bound, plan)
    ensures var r := Partition(total, plan);
      forall j, k :: 0 <= j < k < |r| ==> r[j].hi <= r[k].lo
  {
    var r := Partition(total, plan);
    var p, t := plan.poolSize, plan.threads;
    forall j, k | 0 <= j < k < t
      ensures r[j].hi <= r[k].lo
    {
      MulMonotonic(j + 1, k, p);
    }
  }

  /** No frame index belongs to two ranges. */
  lemma PartitionIsDisjoint(total: nat, bound: nat, plan: Plan, i: int, j: nat, k: nat)
    requires ValidPlan(total, bound, plan)
    requires j < k < plan.threads
    ensures !(Contains(Partition(total, plan)[j], i) && Contains(Partition(total, plan)[k], i))
  {
    RangesAreOrdered(total, bound, plan);
  }
}
