/** The rebuild pipeline of SchedulerService as functions: simulate a schedule for a few
    candidate day counts and keep the most balanced one. */
module Rebuilding {
  import opened Sums
  import opened TaskItems
  import opened DaySchedules
  import opened Placement
  import opened Ordering

  /** Candidate day counts tried beyond the estimate. */
  const CandidateExtra: int := 2

  // ---------------------------------------------------------------------------
  // SimulateSchedule

  /** Days 1..n, all empty. */
  function InitialDays(n: int): (r: seq<Day>)
    ensures |r| == (if n > 0 then n else 0)
    ensures forall i :: 0 <= i < |r| ==> r[i] == NewDay(i + 1)
    decreases if n > 0 then n else 0
  {
    if n <= 0 then [] else InitialDays(n - 1) + [NewDay(n)]
  }

  lemma {:induction false} InitialDaysFacts(n: int, id: string)
    ensures WellFormed(InitialDays(n))
    ensures PlacedMinutes(InitialDays(n), id) == 0 && RowCount(InitialDays(n), id) == 0
  {
    var days := InitialDays(n);
    forall k | 0 <= k < |days|
      ensures days[k].dayNumber == k + 1 && DayOk(days[k]) && EffectiveLoad(days[k]) <= Capacity
      ensures DayMinutesOf(id)(days[k]) == 0 && DayRowsOf(id)(days[k]) == 0
    {
      assert days[k] == NewDay(k + 1);
    }
    SumOfZeros(days, DayMinutesOf(id));
    SumOfZeros(days, DayRowsOf(id));
  }

  /** The tasks distributed one after the other, in list order. */
  function DistributeAll(tasks: seq<TaskItem>, days: seq<Day>): seq<Day>
    decreases |tasks|
  {
    if tasks == [] then days
    else Distribute(tasks[|tasks| - 1], DistributeAll(tasks[..|tasks| - 1], days))
  }

  /** SimulateSchedule's result: days 1..initialDays, then every task distributed. */
  function Simulate(initialDays: int, tasks: seq<TaskItem>): seq<Day>
  {
    DistributeAll(tasks, InitialDays(initialDays))
  }

  /** The minutes task `id` is owed: the positive lengths of the tasks carrying that id. */
  function TaskShare(id: string): TaskItem -> int
  {
    (t: TaskItem) => if t.id == id && t.TotalMinutes() > 0 then t.TotalMinutes() else 0
  }

  function IdOccurrence(id: string): TaskItem -> int
  {
    (t: TaskItem) => if t.id == id then 1 else 0
  }

  ghost predicate DistinctIds(tasks: seq<TaskItem>)
  {
    forall i, j :: 0 <= i < j < |tasks| ==> tasks[i].id != tasks[j].id
  }

  /** Conservation over a whole run: every id gains exactly what its tasks are owed. */
  lemma {:induction false} DistributeAllTally(tasks: seq<TaskItem>, days: seq<Day>, id: string)
    ensures PlacedMinutes(DistributeAll(tasks, days), id) == PlacedMinutes(days, id) + Sum(tasks, TaskShare(id))
    decreases |tasks|
  {
    if tasks != [] {
      var n := |tasks| - 1;
      DistributeAllTally(tasks[..n], days, id);
      DistributeTally(tasks[n], DistributeAll(tasks[..n], days), id);
    }
  }

  lemma {:induction false} DistributeAllWellFormed(tasks: seq<TaskItem>, days: seq<Day>)
    requires WellFormed(days)
    ensures WellFormed(DistributeAll(tasks, days)) && |DistributeAll(tasks, days)| >= |days|
    decreases |tasks|
  {
    if tasks != [] {
      var n := |tasks| - 1;
      DistributeAllWellFormed(tasks[..n], days);
      DistributeWellFormed(tasks[n], DistributeAll(tasks[..n], days));
    }
  }

  /** Tasks with other ids never add or remove a row of `id`. */
  lemma {:induction false} DistributeAllKeepsRows(tasks: seq<TaskItem>, days: seq<Day>, id: string)
    requires Sum(tasks, IdOccurrence(id)) == 0
    ensures RowCount(DistributeAll(tasks, days), id) == RowCount(days, id)
    decreases |tasks|
  {
    if tasks != [] {
      var n := |tasks| - 1;
      SumNonNegative(tasks[..n], IdOccurrence(id));
      DistributeAllKeepsRows(tasks[..n], days, id);
      DistributeTally(tasks[n], DistributeAll(tasks[..n], days), id);
    }
  }

  /** The one task carrying an id, indivisible and at most a day long, ends as one row. */
  lemma {:induction false} DistributeAllSingleRow(tasks: seq<TaskItem>, days: seq<Day>, t: TaskItem)
    requires t in tasks && Sum(tasks, IdOccurrence(t.id)) == 1
    requires !t.Divisible() && 0 < t.TotalMinutes() <= Capacity
    requires RowCount(days, t.id) == 0
    ensures RowCount(DistributeAll(tasks, days), t.id) == 1
    decreases |tasks|
  {
    var n := |tasks| - 1;
    var prefix := tasks[..n];
    assert tasks == prefix + [tasks[n]];
    SumNonNegative(prefix, IdOccurrence(t.id));
    if tasks[n].id == t.id {
      if t in prefix {
        var k :| 0 <= k < n && prefix[k] == t;
        SumTermBound(prefix, k, IdOccurrence(t.id));
      }
      assert tasks[n] == t;
      DistributeAllKeepsRows(prefix, days, t.id);
      IndivisibleTaskTakesOneRow(t, DistributeAll(prefix, days));
    } else {
      DistributeAllSingleRow(prefix, days, t);
      DistributeTally(tasks[n], DistributeAll(prefix, days), t.id);
    }
  }

  /** With distinct ids, a task is owed exactly its own positive length. */
  lemma {:induction false} DistinctShares(tasks: seq<TaskItem>, k: int)
    requires DistinctIds(tasks) && 0 <= k < |tasks|
    ensures Sum(tasks, TaskShare(tasks[k].id)) == TaskShare(tasks[k].id)(tasks[k])
    ensures Sum(tasks, IdOccurrence(tasks[k].id)) == 1
    decreases |tasks|
  {
    var n := |tasks| - 1;
    var id := tasks[k].id;
    if k == n {
      forall j | 0 <= j < n
        ensures TaskShare(id)(tasks[..n][j]) == 0 && IdOccurrence(id)(tasks[..n][j]) == 0
      {
      }
      SumOfZeros(tasks[..n], TaskShare(id));
      SumOfZeros(tasks[..n], IdOccurrence(id));
    } else {
      DistinctShares(tasks[..n], k);
    }
  }

  // ---------------------------------------------------------------------------
  // EvaluateSchedule

  /** The source's `double` metric: `double.MaxValue` for no days, else an integer spread. */
  datatype Metric = MaxValue | Spread(value: int)

  /** `a < b` on the source's doubles. */
  predicate Better(a: Metric, b: Metric)
  {
    a.Spread? && (b.MaxValue? || a.value < b.value)
  }

  function HeaviestDay(days: seq<Day>): (k: nat)
    requires |days| > 0
    ensures k < |days| && forall j :: 0 <= j < |days| ==> EffectiveLoad(days[j]) <= EffectiveLoad(days[k])
  {
    if |days| == 1 then 0
    else
      var k := HeaviestDay(days[..|days| - 1]);
      if EffectiveLoad(days[|days| - 1]) > EffectiveLoad(days[k]) then |days| - 1 else k
  }

  function LightestDay(days: seq<Day>): (k: nat)
    requires |days| > 0
    ensures k < |days| && forall j :: 0 <= j < |days| ==> EffectiveLoad(days[k]) <= EffectiveLoad(days[j])
  {
    if |days| == 1 then 0
    else
      var k := LightestDay(days[..|days| - 1]);
      if EffectiveLoad(days[|days| - 1]) < EffectiveLoad(days[k]) then |days| - 1 else k
  }

  /** EvaluateSchedule: the gap between the heaviest and the lightest day; no days at all
      score worst. */
  function EvaluateSchedule(days: seq<Day>): (r: Metric)
    ensures r.MaxValue? <==> |days| == 0
  {
    if |days| == 0 then MaxValue
    else
      var hi := HeaviestDay(days);
      var lo := LightestDay(days);
      Spread(EffectiveLoad(days[hi]) - EffectiveLoad(days[lo]))
  }

  /** The score of a non-empty schedule is the largest difference between the loads of
      two of its days: no pair differs by more, and some pair differs by exactly that. */
  lemma {:induction false} EvaluateScheduleMeaning(days: seq<Day>)
    requires |days| > 0
    ensures EvaluateSchedule(days).Spread? && EvaluateSchedule(days).value >= 0
    ensures forall i, j :: 0 <= i < |days| && 0 <= j < |days| ==>
              EffectiveLoad(days[i]) - EffectiveLoad(days[j]) <= EvaluateSchedule(days).value
    ensures exists i, j :: 0 <= i < |days| && 0 <= j < |days| &&
              EffectiveLoad(days[i]) - EffectiveLoad(days[j]) == EvaluateSchedule(days).value
  {
    var hi := HeaviestDay(days);
    var lo := LightestDay(days);
    assert EffectiveLoad(days[hi]) - EffectiveLoad(days[lo]) == EvaluateSchedule(days).value;
  }

  // ---------------------------------------------------------------------------
  // RebuildSchedule

  /** The loop `if (metric < bestMetric) { keep }` over the candidates' metrics in order:
      the first metric that beats every earlier one and that no later one beats. */
  function SelectBest(metrics: seq<Metric>): (r: Option<nat>)
    ensures r.Some? ==> r.value < |metrics| && metrics[r.value].Spread?
    ensures r.Some? ==> forall i :: 0 <= i < r.value ==> Better(metrics[r.value], metrics[i])
    ensures r.Some? ==> forall i :: r.value < i < |metrics| ==> !Better(metrics[i], metrics[r.value])
    ensures r.None? <==> forall i :: 0 <= i < |metrics| ==> metrics[i].MaxValue?
  {
    if metrics == [] then None
    else
      var n := |metrics| - 1;
      var best := SelectBest(metrics[..n]);
      var bestMetric := if best.Some? then metrics[best.value] else MaxValue;
      if Better(metrics[n], bestMetric) then Some(n) else best
  }

  /** One more turn of the selection loop: the prefix grows from `k` to `next == k + 1`
      metrics. */
  lemma {:induction false} SelectBestStep(metrics: seq<Metric>, k: int, next: int)
    requires 0 <= k < |metrics| && next == k + 1
    ensures var best := SelectBest(metrics[..k]);
      SelectBest(metrics[..next])
      == if Better(metrics[k], if best.Some? then metrics[best.value] else MaxValue) then Some(k) else best
  {
    assert metrics[..next][..k] == metrics[..k];
  }

  /** One turn of RebuildSchedule's loop over candidate `k`: the schedule it simulates is
      candidate `k`, its metric is the `k`-th one, and the selection over the first `next`
      metrics keeps `k` exactly when that metric beats the best so far. */
  lemma {:induction false} SelectionTurn(tasks: seq<TaskItem>, k: int, next: int, n: int,
                                         simulated: seq<Day>, metric: Metric,
                                         best: Option<nat>, bestMetric: Metric)
    requires 0 <= k <= CandidateExtra && next == k + 1 && n == CandidateDays(tasks, k)
    requires simulated == Simulate(n, SortTasks(tasks)) && metric == EvaluateSchedule(simulated)
    requires best == SelectBest(Metrics(Candidates(tasks))[..k])
    requires bestMetric == if best.Some? then Metrics(Candidates(tasks))[best.value] else MaxValue
    ensures simulated == Candidates(tasks)[k] && metric == Metrics(Candidates(tasks))[k]
    ensures SelectBest(Metrics(Candidates(tasks))[..next])
         == if Better(metric, bestMetric) then Some(k) else best
  {
    CandidateIs(tasks, k, n);
    SelectBestStep(Metrics(Candidates(tasks)), k, next);
  }

  function TaskMinutes(t: TaskItem): int
  {
    t.TotalMinutes()
  }

  /** Exact integer ceiling of `minutes / Capacity`, for any sign. */
  function CeilDays(minutes: int): (n: int)
    ensures (n - 1) * Capacity < minutes <= n * Capacity
  {
    -((-minutes) / Capacity)
  }

  /** `max(1, ceil(sum / Capacity))`: the fewest days (at least one) whose capacity covers
      the sum of the task lengths. */
  function EstimatedDays(tasks: seq<TaskItem>): (n: int)
    ensures n >= 1
    ensures var total := Sum(tasks, TaskMinutes);
      (total <= Capacity ==> n == 1) && (total > 0 ==> (n - 1) * Capacity < total <= n * Capacity)
  {
    var d := CeilDays(Sum(tasks, TaskMinutes));
    if d > 1 then d else 1
  }

  /** The schedules simulated for day counts estimate .. estimate + CandidateExtra. */
  function Candidates(tasks: seq<TaskItem>): (r: seq<seq<Day>>)
    ensures |r| == CandidateExtra + 1
    ensures forall i :: 0 <= i < |r| ==> r[i] == Candidate(tasks, i)
  {
    seq(CandidateExtra + 1, i => Candidate(tasks, i))
  }

  /** The schedule simulated for `estimate + k` days over the sorted tasks. */
  function Candidate(tasks: seq<TaskItem>, k: int): seq<Day>
  {
    Simulate(CandidateDays(tasks, k), SortTasks(tasks))
  }

  /** The day count candidate `k` starts from: the estimate plus `k`. */
  function CandidateDays(tasks: seq<TaskItem>, k: int): int
  {
    EstimatedDays(tasks) + k
  }

  /** RebuildSchedule's new ScheduleDays. The source would store null if no candidate had
      a day; that never happens (see RebuildShape), and the model writes no day there. */
  function Rebuild(tasks: seq<TaskItem>): seq<Day>
  {
    var candidates := Candidates(tasks);
    match SelectBest(Metrics(candidates))
    case Some(b) => candidates[b]
    case None => []
  }

  function Metrics(candidates: seq<seq<Day>>): (r: seq<Metric>)
    ensures |r| == |candidates| && forall i :: 0 <= i < |r| ==> r[i] == EvaluateSchedule(candidates[i])
  {
    seq(|candidates|, i requires 0 <= i < |candidates| => EvaluateSchedule(candidates[i]))
  }

  /** A simulation keeps its initial days, stays well-formed and places every id's share. */
  lemma {:induction false} SimulateFacts(n: int, tasks: seq<TaskItem>, id: string)
    ensures |Simulate(n, tasks)| >= n && WellFormed(Simulate(n, tasks))
    ensures PlacedMinutes(Simulate(n, tasks), id) == Sum(tasks, TaskShare(id))
  {
    InitialDaysFacts(n, id);
    DistributeAllWellFormed(tasks, InitialDays(n));
    DistributeAllTally(tasks, InitialDays(n), id);
  }

  /** Candidate `b` has a spread strictly below every earlier candidate's and no later
      candidate's spread is below it. */
  ghost predicate FirstMostBalanced(candidates: seq<seq<Day>>, b: int)
  {
    0 <= b < |candidates| && EvaluateSchedule(candidates[b]).Spread?
    && (forall i :: 0 <= i < b ==> Better(EvaluateSchedule(candidates[b]), EvaluateSchedule(candidates[i])))
    && (forall i :: b < i < |candidates| ==> !Better(EvaluateSchedule(candidates[i]), EvaluateSchedule(candidates[b])))
  }

  /** Candidate `i` is the simulation of the sorted tasks over `n` days, `n` being the
      estimate plus `i`, and its metric is the `i`-th one. */
  lemma {:induction false} CandidateIs(tasks: seq<TaskItem>, i: int, n: int)
    requires 0 <= i <= CandidateExtra && n == CandidateDays(tasks, i)
    ensures Candidates(tasks)[i] == Simulate(n, SortTasks(tasks))
    ensures Metrics(Candidates(tasks))[i] == EvaluateSchedule(Simulate(n, SortTasks(tasks)))
  {
    assert Candidates(tasks)[i] == Candidate(tasks, i);
  }

  /** Every candidate: at least as many days as it starts with, well-formed, and every
      id carries exactly what its tasks are owed. */
  lemma {:induction false} CandidateFacts(tasks: seq<TaskItem>, i: int, id: string)
    requires 0 <= i <= CandidateExtra
    ensures var c := Candidates(tasks)[i];
      |c| >= EstimatedDays(tasks) + i && WellFormed(c)
      && PlacedMinutes(c, id) == Sum(tasks, TaskShare(id))
  {
    var n := CandidateDays(tasks, i);
    CandidateIs(tasks, i, n);
    SimulateFacts(n, SortTasks(tasks), id);
    SortSum(tasks, TaskShare(id));
  }

  /** The rebuilt schedule is one of the candidates, simulated over the sorted tasks for
      estimate + b days: the first one of least spread. */
  lemma {:induction false} RebuildPicksFirstMostBalanced(tasks: seq<TaskItem>)
    ensures exists b :: FirstMostBalanced(Candidates(tasks), b) && Rebuild(tasks) == Candidates(tasks)[b]
  {
    var b := RebuildSelects(tasks);
    assert FirstMostBalanced(Candidates(tasks), b);
  }

  /** The first candidate has a day, so the selection always keeps some candidate `b`, and
      the rebuilt schedule is that candidate. */
  lemma {:induction false} RebuildSelects(tasks: seq<TaskItem>) returns (b: int)
    ensures 0 <= b <= CandidateExtra && SelectBest(Metrics(Candidates(tasks))) == Some(b)
    ensures Rebuild(tasks) == Candidates(tasks)[b]
  {
    CandidateFacts(tasks, 0, "");
    assert Metrics(Candidates(tasks))[0].Spread?;
    b := SelectBest(Metrics(Candidates(tasks))).value;
  }

  /** After a rebuild there is at least one day, and the schedule is well-formed: days
      numbered 1..N, every row positive, no task twice on a day, every divisible row
      starting on its own day, and no day over capacity. */
  lemma {:induction false} RebuildShape(tasks: seq<TaskItem>)
    ensures |Rebuild(tasks)| >= 1 && WellFormed(Rebuild(tasks))
  {
    var b := RebuildSelects(tasks);
    CandidateFacts(tasks, b, "");
  }

  /** RebuildShape and RebuildConserves together, for every id at once. */
  lemma {:induction false} RebuildFacts(tasks: seq<TaskItem>)
    ensures |Rebuild(tasks)| >= 1 && WellFormed(Rebuild(tasks))
    ensures forall id :: PlacedMinutes(Rebuild(tasks), id) == Sum(tasks, TaskShare(id))
  {
    RebuildShape(tasks);
    forall id
      ensures PlacedMinutes(Rebuild(tasks), id) == Sum(tasks, TaskShare(id))
    {
      RebuildConserves(tasks, id);
    }
  }

  /** Conservation after a rebuild: every id holds exactly what its tasks are owed. */
  lemma {:induction false} RebuildConserves(tasks: seq<TaskItem>, id: string)
    ensures PlacedMinutes(Rebuild(tasks), id) == Sum(tasks, TaskShare(id))
  {
    var b := RebuildSelects(tasks);
    CandidateFacts(tasks, b, id);
  }

  /** With distinct ids, each task's rows hold exactly its length (nothing for a
      non-positive length). */
  lemma {:induction false} RebuildPlacesEachTask(tasks: seq<TaskItem>, k: int)
    requires DistinctIds(tasks) && 0 <= k < |tasks|
    ensures PlacedMinutes(Rebuild(tasks), tasks[k].id)
         == (if tasks[k].TotalMinutes() > 0 then tasks[k].TotalMinutes() else 0)
  {
    RebuildConserves(tasks, tasks[k].id);
    DistinctShares(tasks, k);
  }

  /** With distinct ids, an indivisible task of at most one day's capacity sits on exactly
      one row of the rebuilt schedule. */
  lemma {:induction false} RebuildIndivisibleOneRow(tasks: seq<TaskItem>, k: int)
    requires DistinctIds(tasks) && 0 <= k < |tasks|
    requires !tasks[k].Divisible() && 0 < tasks[k].TotalMinutes() <= Capacity
    ensures RowCount(Rebuild(tasks), tasks[k].id) == 1
  {
    var t := tasks[k];
    DistinctShares(tasks, k);
    SortSum(tasks, IdOccurrence(t.id));
    assert t in multiset(tasks);
    var b := RebuildSelects(tasks);
    CandidateSingleRow(tasks, b, t);
  }

  /** Every candidate holds the only task carrying its id, indivisible and at most a day
      long, on exactly one row. */
  lemma {:induction false} CandidateSingleRow(tasks: seq<TaskItem>, i: int, t: TaskItem)
    requires 0 <= i <= CandidateExtra
    requires t in multiset(SortTasks(tasks)) && Sum(SortTasks(tasks), IdOccurrence(t.id)) == 1
    requires !t.Divisible() && 0 < t.TotalMinutes() <= Capacity
    ensures |Candidates(tasks)[i]| >= 1 && RowCount(Candidates(tasks)[i], t.id) == 1
  {
    var n := CandidateDays(tasks, i);
    CandidateIs(tasks, i, n);
    CandidateFacts(tasks, i, t.id);
    InitialDaysFacts(n, t.id);
    DistributeAllSingleRow(SortTasks(tasks), InitialDays(n), t);
  }

  /** A task list without `id` owes it nothing. */
  lemma {:induction false} NoShareWithoutId(tasks: seq<TaskItem>, id: string)
    requires Sum(tasks, IdOccurrence(id)) == 0
    ensures Sum(tasks, TaskShare(id)) == 0
  {
    forall k | 0 <= k < |tasks|
      ensures TaskShare(id)(tasks[k]) == 0
    {
      SumTermBound(tasks, k, IdOccurrence(id));
    }
    SumOfZeros(tasks, TaskShare(id));
  }

  /** A simulation over tasks without `id` holds no row and no minute of it. */
  lemma {:induction false} SimulateWithoutId(n: int, tasks: seq<TaskItem>, id: string)
    requires Sum(tasks, IdOccurrence(id)) == 0
    ensures RowCount(Simulate(n, tasks), id) == 0 && PlacedMinutes(Simulate(n, tasks), id) == 0
  {
    NoShareWithoutId(tasks, id);
    SimulateFacts(n, tasks, id);
    InitialDaysFacts(n, id);
    DistributeAllKeepsRows(tasks, InitialDays(n), id);
  }

  lemma {:induction false} CandidateWithoutId(tasks: seq<TaskItem>, i: int, id: string)
    requires Sum(tasks, IdOccurrence(id)) == 0 && 0 <= i <= CandidateExtra
    ensures var c := Candidates(tasks)[i];
      |c| >= 1 && RowCount(c, id) == 0 && PlacedMinutes(c, id) == 0
  {
    var n := CandidateDays(tasks, i);
    CandidateIs(tasks, i, n);
    SortSum(tasks, IdOccurrence(id));
    SimulateWithoutId(n, SortTasks(tasks), id);
    SimulateFacts(n, SortTasks(tasks), id);
  }

  /** With no task carrying `id`, the rebuilt schedule has no row and no minute of it. */
  lemma {:induction false} RebuildWithoutId(tasks: seq<TaskItem>, id: string)
    requires Sum(tasks, IdOccurrence(id)) == 0
    ensures RowCount(Rebuild(tasks), id) == 0 && PlacedMinutes(Rebuild(tasks), id) == 0
  {
    var b := RebuildSelects(tasks);
    CandidateWithoutId(tasks, b, id);
  }

  /** With distinct ids, removing a task removes the only task carrying its id. */
  lemma {:induction false} RemovedIdAbsent(tasks: seq<TaskItem>, i: int)
    requires DistinctIds(tasks) && 0 <= i < |tasks|
    ensures Sum(tasks[..i] + tasks[i + 1..], IdOccurrence(tasks[i].id)) == 0
  {
    var rest := tasks[..i] + tasks[i + 1..];
    forall k | 0 <= k < |rest|
      ensures IdOccurrence(tasks[i].id)(rest[k]) == 0
    {
      if k < i {
        assert rest[k] == tasks[k];
      } else {
        assert rest[k] == tasks[k + 1];
      }
    }
    SumOfZeros(rest, IdOccurrence(tasks[i].id));
  }

  /** With distinct ids, the schedule rebuilt after removing a task has no row of it. */
  lemma {:induction false} DeletedTaskLeavesNoRow(tasks: seq<TaskItem>, i: int)
    requires DistinctIds(tasks) && 0 <= i < |tasks|
    ensures RowCount(Rebuild(tasks[..i] + tasks[i + 1..]), tasks[i].id) == 0
  {
    RemovedIdAbsent(tasks, i);
    RebuildWithoutId(tasks[..i] + tasks[i + 1..], tasks[i].id);
  }

  /** A schedule rebuilt from tasks none of which carries `id` has no row of it. */
  lemma {:induction false} AbsentIdHasNoRow(tasks: seq<TaskItem>, id: string)
    requires forall k :: 0 <= k < |tasks| ==> tasks[k].id != id
    ensures RowCount(Rebuild(tasks), id) == 0
  {
    forall k | 0 <= k < |tasks|
      ensures IdOccurrence(id)(tasks[k]) == 0
    {
    }
    SumOfZeros(tasks, IdOccurrence(id));
    RebuildWithoutId(tasks, id);
  }
}
