/**
 * The aggregate counts the stats context computes from the whole task list
 * (src/context/TaskStatsContext.jsx), independent of filter and sort.
 */
module TaskStats {
  import opened Tasks
  import opened Sequences

  datatype Stats = Stats(
    total: int,
    completed: int,
    pending: int,
    completionRate: int,
    priorityStats: map<Priority, int>)

  /** The count kept for a priority; one the tally never met reads as zero. */
  function CountOf(m: map<Priority, int>, p: Priority): int {
    if p in m then m[p] else 0
  }

  /** One step of the per-priority tally: the count of `p` goes up by one. */
  function Bump(acc: map<Priority, int>, p: Priority): map<Priority, int> {
    acc[p := CountOf(acc, p) + 1]
  }

  /** The tally folded over the tasks from left to right, starting from `acc`. */
  function Tally(acc: map<Priority, int>, tasks: seq<Task>): (r: map<Priority, int>)
    ensures acc.Keys <= r.Keys
    ensures forall p :: CountOf(acc, p) <= CountOf(r, p)
    decreases |tasks|
  {
    if tasks == [] then acc else Tally(Bump(acc, tasks[0].priority), tasks[1..])
  }

  /**
   * The completed share of the list in whole percent, or 0 for an empty
   * list: the nearest whole percentage, halves rounded up, computed in exact
   * integer arithmetic.
   */
  function CompletionRate(completed: nat, total: nat): (rate: int)
    ensures total == 0 ==> rate == 0
    ensures total > 0 ==> 2 * total * rate <= 200 * completed + total < 2 * total * rate + 2 * total
    ensures completed <= total ==> 0 <= rate <= 100
    ensures 0 < total == completed ==> rate == 100
  {
    if total > 0 then
      var rate := (200 * completed + total) / (2 * total);
      RoundingBounds(completed, total, rate);
      rate
    else 0
  }

  lemma RoundingBounds(completed: nat, total: nat, rate: int)
    requires total > 0 && rate == (200 * completed + total) / (2 * total)
    ensures 2 * total * rate <= 200 * completed + total < 2 * total * rate + 2 * total
    ensures completed <= total ==> 0 <= rate <= 100
    ensures completed == total ==> rate == 100
  {
    var d, n := 2 * total, 200 * completed + total;
    assert d * rate <= n < d * rate + d;
    assert d * 0 < d * (rate + 1);
    FactorLess(d, 0, rate + 1);
    if completed <= total {
      assert d * rate < d * 101;
      FactorLess(d, rate, 101);
    }
    if completed == total {
      assert d * 100 < d * (rate + 1);
      FactorLess(d, 100, rate + 1);
    }
  }

  /** Dividing both sides of `d * x < d * y` by a positive `d`. */
  lemma FactorLess(d: int, x: int, y: int)
    requires d > 0 && d * x < d * y
    ensures x < y
  {
  }

  /** The stats object the provider memoises. */
  function ComputeStats(tasks: seq<Task>): (r: Stats)
    ensures r.total == |tasks| && r.completed + r.pending == r.total
    ensures 0 <= r.completed <= r.total && 0 <= r.completionRate <= 100
  {
    var total := |tasks|;
    var completed := |Filter(IsCompleted, tasks)|;
    Stats(total, completed, total - completed, CompletionRate(completed, total), Tally(map[], tasks))
  }

  /** Tallying adds, per priority, the number of tasks with that priority; it creates a key only for a priority it meets. */
  lemma {:induction false} TallyCounts(acc: map<Priority, int>, tasks: seq<Task>, p: Priority)
    ensures CountOf(Tally(acc, tasks), p) == CountOf(acc, p) + |OfPriority(tasks, p)|
    ensures p in Tally(acc, tasks) <==> p in acc || |OfPriority(tasks, p)| > 0
    decreases |tasks|
  {
    if tasks != [] {
      TallyCounts(Bump(acc, tasks[0].priority), tasks[1..], p);
    }
  }

  /** Every task has exactly one of the three priorities. */
  lemma {:induction false} PriorityCountsSum(tasks: seq<Task>)
    ensures |OfPriority(tasks, High)| + |OfPriority(tasks, Medium)| + |OfPriority(tasks, Low)| == |tasks|
  {
    if tasks != [] {
      PriorityCountsSum(tasks[1..]);
    }
  }

  /**
   * What the stats say about the list: the total is its length, the completed
   * and pending counts are those of completed and incomplete tasks and add up
   * to the total, the rate is the rounded completed percentage (0 for no
   * tasks, 100 when every task is done), and the priority map holds, for each
   * priority that occurs, how many tasks have it, the counts adding up to the total.
   */
  lemma StatsMeaning(tasks: seq<Task>)
    ensures ComputeStats(tasks).total == |tasks|
    ensures ComputeStats(tasks).completed == |Filter(IsCompleted, tasks)|
    ensures ComputeStats(tasks).pending == |Filter(IsPending, tasks)|
    ensures 0 <= ComputeStats(tasks).pending <= ComputeStats(tasks).total
    ensures 0 <= ComputeStats(tasks).completionRate <= 100
    ensures tasks == [] ==> ComputeStats(tasks).completionRate == 0
    ensures tasks != [] && (forall i :: 0 <= i < |tasks| ==> tasks[i].completed) ==> ComputeStats(tasks).completionRate == 100
    ensures forall p :: CountOf(ComputeStats(tasks).priorityStats, p) == |OfPriority(tasks, p)|
    ensures forall p :: p in ComputeStats(tasks).priorityStats <==> |OfPriority(tasks, p)| > 0
    ensures CountOf(ComputeStats(tasks).priorityStats, High) + CountOf(ComputeStats(tasks).priorityStats, Medium)
          + CountOf(ComputeStats(tasks).priorityStats, Low) == ComputeStats(tasks).total
  {
    FilterPartition(IsCompleted, IsPending, tasks);
    if tasks != [] && (forall i :: 0 <= i < |tasks| ==> tasks[i].completed) {
      FilterKeepsAll(IsCompleted, tasks);
    }
    forall p ensures CountOf(ComputeStats(tasks).priorityStats, p) == |OfPriority(tasks, p)|
      ensures p in ComputeStats(tasks).priorityStats <==> |OfPriority(tasks, p)| > 0
    {
      TallyCounts(map[], tasks, p);
    }
    PriorityCountsSum(tasks);
  }

  /** The stats depend only on which tasks there are, not on their order (a reorder changes nothing). */
  lemma StatsPermutationInvariant(s: seq<Task>, t: seq<Task>)
    requires multiset(s) == multiset(t)
    ensures ComputeStats(s) == ComputeStats(t)
  {
    assert |s| == |multiset(s)| == |multiset(t)| == |t|;
    FilterPermutation(IsCompleted, s, t);
    var m, n := ComputeStats(s).priorityStats, ComputeStats(t).priorityStats;
    forall p ensures CountOf(m, p) == CountOf(n, p) && (p in m <==> p in n) {
      TallyCounts(map[], s, p);
      TallyCounts(map[], t, p);
      FilterPermutation((x: Task) => x.priority == p, s, t);
    }
    assert m.Keys == n.Keys;
    assert forall p | p in m :: m[p] == CountOf(m, p) == CountOf(n, p) == n[p];
    assert m == n;
  }
}
