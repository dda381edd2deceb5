/** The placement loop of SchedulerService: how one task's minutes are spread over a
    list of days (DistributeTask with CalculateAvailableMinutes and CreateNewDay). */
module Placement {
  import opened Sums
  import opened TaskItems
  import opened TaskAssignments
  import opened DaySchedules

  /** CalculateAvailableMinutes: what is left of the day, less one break when the day
      already has rows (the source tests for any row, not for an active one). */
  function AvailableMinutes(d: Day): int
  {
    RemainingMinutes(d) - (if |d.assignments| > 0 then BreakTime else 0)
  }

  /** When every row is positive, the available minutes are the capacity left once the
      break that one more active row would bring is paid for. */
  lemma {:induction false} AvailableMinutesMeaning(d: Day)
    requires AllPositive(d)
    ensures AvailableMinutes(d) == Capacity - EffectiveLoad(d) - (if ActiveCount(d) > 0 then BreakTime else 0)
  {
    AllPositiveActiveCount(d);
  }

  // ---------------------------------------------------------------------------
  // What every day of a simulated schedule keeps

  /** A row is positive, and a divisible row names the day it sits on as its start day
      and a window of more than one day. */
  ghost predicate RowOk(a: Assignment, dayNumber: int)
  {
    a.minutes > 0 && (a.isDivisible ==> a.taskStartDay == dayNumber && a.taskAvailableDays > 1)
  }

  /** Every row is as above and no task has two rows on the day. */
  ghost predicate DayOk(d: Day)
  {
    && (forall j :: 0 <= j < |d.assignments| ==> RowOk(d.assignments[j], d.dayNumber))
    && (forall j, k :: 0 <= j < k < |d.assignments| ==> d.assignments[j].taskId != d.assignments[k].taskId)
  }

  /** Days are numbered 1..N in list order, each day is as above and within capacity. */
  ghost predicate WellFormed(days: seq<Day>)
  {
    forall i :: 0 <= i < |days| ==>
      days[i].dayNumber == i + 1 && DayOk(days[i]) && EffectiveLoad(days[i]) <= Capacity
  }

  /** A well-formed schedule keeps every divisible row inside the window it records. */
  lemma {:induction false} WindowBound(days: seq<Day>, i: int, j: int)
    requires WellFormed(days) && 0 <= i < |days| && 0 <= j < |days[i].assignments|
    requires days[i].assignments[j].isDivisible
    ensures var a := days[i].assignments[j];
      a.taskStartDay <= days[i].dayNumber < a.taskStartDay + a.taskAvailableDays
  {
    assert RowOk(days[i].assignments[j], days[i].dayNumber);
  }

  // ---------------------------------------------------------------------------
  // Minutes and rows of one task, across a day and across a schedule

  function MinutesOfTask(id: string): Assignment -> int
  {
    (a: Assignment) => if a.taskId == id then a.minutes else 0
  }

  function RowOfTask(id: string): Assignment -> int
  {
    (a: Assignment) => if a.taskId == id then 1 else 0
  }

  function DayMinutesOf(id: string): Day -> int
  {
    (d: Day) => Sum(d.assignments, MinutesOfTask(id))
  }

  function DayRowsOf(id: string): Day -> int
  {
    (d: Day) => Sum(d.assignments, RowOfTask(id))
  }

  /** Total minutes the rows of task `id` hold, over all days. */
  function PlacedMinutes(days: seq<Day>, id: string): int
  {
    Sum(days, DayMinutesOf(id))
  }

  /** Number of rows of task `id`, over all days. */
  function RowCount(days: seq<Day>, id: string): int
  {
    Sum(days, DayRowsOf(id))
  }

  lemma {:induction false} RowCountsNonNegative(days: seq<Day>, id: string)
    ensures forall k :: 0 <= k < |days| ==> DayRowsOf(id)(days[k]) >= 0
    ensures RowCount(days, id) >= 0
  {
    forall k | 0 <= k < |days|
      ensures DayRowsOf(id)(days[k]) >= 0
    {
      SumNonNegative(days[k].assignments, RowOfTask(id));
    }
    SumNonNegative(days, DayRowsOf(id));
  }

  // ---------------------------------------------------------------------------
  // CreateNewDay

  /** The list with day `Count + 1` appended. */
  function WithNewDay(days: seq<Day>): seq<Day>
  {
    days + [NewDay(|days| + 1)]
  }

  lemma {:induction false} WithNewDayFacts(days: seq<Day>, id: string)
    ensures PlacedMinutes(WithNewDay(days), id) == PlacedMinutes(days, id)
    ensures RowCount(WithNewDay(days), id) == RowCount(days, id)
    ensures WellFormed(days) ==> WellFormed(WithNewDay(days))
  {
    SumAppend(days, NewDay(|days| + 1), DayMinutesOf(id));
    SumAppend(days, NewDay(|days| + 1), DayRowsOf(id));
  }

  // ---------------------------------------------------------------------------
  // Choosing a day

  predicate CanTake(d: Day, need: int)
  {
    AvailableMinutes(d) >= need
  }

  /** `days.Where(d => available(d) >= need).OrderBy(d => d.EffectiveLoad).FirstOrDefault()`.
      The source's `> 0` filter is `need == 1` on integers. */
  function LeastLoadedEligible(days: seq<Day>, need: int): (r: Option<nat>)
    ensures r.Some? ==> r.value < |days| && CanTake(days[r.value], need)
  {
    if days == [] then None
    else
      var n := |days| - 1;
      var best := LeastLoadedEligible(days[..n], need);
      if CanTake(days[n], need) && (best.None? || EffectiveLoad(days[n]) < EffectiveLoad(days[best.value]))
      then Some(n)
      else best
  }

  /** The chosen day has the least load of the eligible days, and OrderBy being stable, every
      earlier eligible day has strictly more; no day is chosen exactly when none is eligible. */
  lemma {:induction false} LeastLoadedEligibleMeaning(days: seq<Day>, need: int)
    ensures var r := LeastLoadedEligible(days, need);
      (r.Some? ==> forall j :: 0 <= j < |days| && CanTake(days[j], need) ==>
                     EffectiveLoad(days[r.value]) <= EffectiveLoad(days[j]))
      && (r.Some? ==> forall j :: 0 <= j < r.value && CanTake(days[j], need) ==>
                        EffectiveLoad(days[r.value]) < EffectiveLoad(days[j]))
      && (r.None? <==> forall j :: 0 <= j < |days| ==> !CanTake(days[j], need))
  {
    if days != [] {
      var n := |days| - 1;
      LeastLoadedEligibleMeaning(days[..n], need);
      assert forall j :: 0 <= j < n ==> days[..n][j] == days[j];
    }
  }

  /** The day a pass writes to: the chosen eligible day, or a day appended for it. */
  function Target(days: seq<Day>, need: int): (r: (seq<Day>, nat))
    ensures r.1 < |r.0|
    ensures AvailableMinutes(r.0[r.1]) >= Min(need, Capacity)
    ensures r.0 == days || r.0 == WithNewDay(days)
  {
    match LeastLoadedEligible(days, need)
    case Some(i) => (days, i)
    case None => (WithNewDay(days), |days|)
  }

  // ---------------------------------------------------------------------------
  // Writing minutes to a day

  function IsRowOf(id: string): Assignment -> bool
  {
    (a: Assignment) => a.taskId == id
  }

  /** The row a task gets on a day where it has none: the five-argument form for a
      divisible task, the three-argument form otherwise (the source calls a four-argument
      form that does not exist; its evident intent is the indivisible row). */
  function NewRow(t: TaskItem, m: int, dayNumber: int): Assignment
  {
    if t.Divisible() then DivisibleAssignment(t.id, t.name, m, dayNumber, t.availableDays)
    else IndivisibleAssignment(t.id, t.name, m)
  }

  /** Adds `m` minutes of `t` to the day: into the task's first row there, else as a new row. */
  function AssignMinutes(d: Day, t: TaskItem, m: int): (r: Day)
    ensures r.dayNumber == d.dayNumber
  {
    match FirstWhere(d.assignments, IsRowOf(t.id))
    case Some(i) =>
      var row := d.assignments[i];
      d.(assignments := d.assignments[i := row.(minutes := row.minutes + m)])
    case None =>
      d.(assignments := d.assignments + [NewRow(t, m, d.dayNumber)])
  }

  /** The task's minutes on the day grow by `m`, nobody else's change, the task's row count
      on the day becomes one if it was zero, and no other task gains or loses a row. */
  lemma {:induction false} AssignTally(d: Day, t: TaskItem, m: int, id: string)
    ensures DayMinutesOf(id)(AssignMinutes(d, t, m)) == DayMinutesOf(id)(d) + (if id == t.id then m else 0)
    ensures id != t.id ==> DayRowsOf(id)(AssignMinutes(d, t, m)) == DayRowsOf(id)(d)
    ensures id == t.id && DayRowsOf(id)(d) == 0 ==> DayRowsOf(id)(AssignMinutes(d, t, m)) == 1
  {
    var rows := d.assignments;
    match FirstWhere(rows, IsRowOf(t.id))
    case Some(i) =>
      var row := rows[i];
      var grown := row.(minutes := row.minutes + m);
      SumUpdate(rows, i, grown, MinutesOfTask(id));
      SumUpdate(rows, i, grown, RowOfTask(id));
      if id == t.id {
        SumNonNegativeRows(rows, id);
        SumTermBound(rows, i, RowOfTask(id));
      }
    case None =>
      SumAppend(rows, NewRow(t, m, d.dayNumber), MinutesOfTask(id));
      SumAppend(rows, NewRow(t, m, d.dayNumber), RowOfTask(id));
      if id == t.id {
        SumOfZeros(rows, RowOfTask(id));
      }
  }

  lemma {:induction false} SumNonNegativeRows(rows: seq<Assignment>, id: string)
    ensures forall k :: 0 <= k < |rows| ==> RowOfTask(id)(rows[k]) >= 0
  {
  }

  /** Writing at least one and at most the available minutes keeps the day consistent and
      within capacity. */
  lemma {:induction false} AssignKeepsDayOk(d: Day, t: TaskItem, m: int)
    requires DayOk(d) && 1 <= m <= AvailableMinutes(d)
    ensures DayOk(AssignMinutes(d, t, m)) && EffectiveLoad(AssignMinutes(d, t, m)) <= Capacity
  {
    assert AllPositive(d) by {
      forall j | 0 <= j < |d.assignments| ensures d.assignments[j].minutes > 0 {
        assert RowOk(d.assignments[j], d.dayNumber);
      }
    }
    AllPositiveActiveCount(d);
    match FirstWhere(d.assignments, IsRowOf(t.id))
    case Some(i) =>
      GrowKeepsDayOk(d, i, m);
      GrowActiveRow(d, i, m);
    case None =>
      var row := NewRow(t, m, d.dayNumber);
      AppendKeepsDayOk(d, row);
      AppendActiveRow(d, row);
  }

  /** Growing a row by a positive amount keeps every row as it was in all but its minutes. */
  lemma {:induction false} GrowKeepsDayOk(d: Day, i: int, m: int)
    requires DayOk(d) && 0 <= i < |d.assignments| && m >= 1
    ensures var row := d.assignments[i];
      DayOk(d.(assignments := d.assignments[i := row.(minutes := row.minutes + m)]))
  {
    var rows := d.assignments;
    var row := rows[i];
    var grown := rows[i := row.(minutes := row.minutes + m)];
    assert RowOk(row, d.dayNumber);
    forall j | 0 <= j < |grown|
      ensures grown[j].taskId == rows[j].taskId && RowOk(grown[j], d.dayNumber)
    {
      assert RowOk(rows[j], d.dayNumber);
    }
  }

  /** Appending a positive row for a task with no row on the day keeps the day consistent. */
  lemma {:induction false} AppendKeepsDayOk(d: Day, a: Assignment)
    requires DayOk(d) && RowOk(a, d.dayNumber)
    requires forall j :: 0 <= j < |d.assignments| ==> d.assignments[j].taskId != a.taskId
    ensures DayOk(d.(assignments := d.assignments + [a]))
  {
    var rows := d.assignments;
    var more := rows + [a];
    forall j | 0 <= j < |more|
      ensures RowOk(more[j], d.dayNumber)
    {
      if j < |rows| {
        assert more[j] == rows[j];
        assert RowOk(rows[j], d.dayNumber);
      }
    }
    forall j, k | 0 <= j < k < |more|
      ensures more[j].taskId != more[k].taskId
    {
      assert more[j] == rows[j];
      if k < |rows| {
        assert more[k] == rows[k];
      }
    }
  }

  // ---------------------------------------------------------------------------
  // One pass of the loop, and the loop

  /** The result of writing to one day: the days, the index written to, the minutes written. */
  datatype Placed = Placed(days: seq<Day>, day: nat, minutes: int)

  /** The shared core of both branches of a pass: choose the day (appending one if no day
      takes `need`), and write `min(remaining, available)` minutes of `t` to it. Whenever
      `need` is between 1 and `remaining`, at least one minute is written. */
  function Place(t: TaskItem, days: seq<Day>, remaining: int, need: int): (s: Placed)
    requires 1 <= need <= remaining
    ensures s.day < |s.days| && |s.days| >= |days|
    ensures 1 <= s.minutes <= remaining
    ensures need == remaining && need <= Capacity ==> s.minutes == remaining
  {
    var (ds, c) := Target(days, need);
    var m := Min(remaining, AvailableMinutes(ds[c]));
    Placed(ds[c := AssignMinutes(ds[c], t, m)], c, m)
  }

  /** The loop variables of DistributeTask: the days, the minutes still to place and the
      splits still allowed. */
  datatype Progress = Progress(days: seq<Day>, remaining: int, splits: int)

  /** One pass of the `while (minutesRemaining > 0)` loop. Each pass places at least one
      minute and never more than remain. */
  function Pass(t: TaskItem, p: Progress): (q: Progress)
    requires p.remaining > 0
    ensures 0 <= q.remaining < p.remaining
    ensures |q.days| >= |p.days|
  {
    if t.Divisible() && p.splits > 1 then
      // a divisible task before its last split: any day with room
      var s := Place(t, p.days, p.remaining, 1);
      Progress(s.days, p.remaining - s.minutes, p.splits - 1)
    else
      // an indivisible task, or the last split: a day that takes all that remains
      var s := Place(t, p.days, p.remaining, p.remaining);
      var rest := p.remaining - s.minutes;
      Progress(if rest > 0 && AvailableMinutes(s.days[s.day]) <= 0 then WithNewDay(s.days) else s.days,
               rest, p.splits)
  }

  /** Runs passes until no minute remains. */
  function DistributeFrom(t: TaskItem, p: Progress): seq<Day>
    decreases if p.remaining > 0 then p.remaining else 0
  {
    if p.remaining <= 0 then p.days else DistributeFrom(t, Pass(t, p))
  }

  /** DistributeTask's effect on the list of days. */
  function Distribute(t: TaskItem, days: seq<Day>): seq<Day>
  {
    DistributeFrom(t, Progress(days, t.TotalMinutes(), t.availableDays))
  }

  lemma {:induction false} TargetTally(days: seq<Day>, need: int, id: string)
    ensures PlacedMinutes(Target(days, need).0, id) == PlacedMinutes(days, id)
    ensures RowCount(Target(days, need).0, id) == RowCount(days, id)
    ensures WellFormed(days) ==> WellFormed(Target(days, need).0)
  {
    WithNewDayFacts(days, id);
  }

  /** Writing to day `c` changes the task totals by what the day's totals change by. */
  lemma {:induction false} UpdateTally(ds: seq<Day>, c: int, d: Day, id: string)
    requires 0 <= c < |ds|
    ensures PlacedMinutes(ds[c := d], id) == PlacedMinutes(ds, id) - DayMinutesOf(id)(ds[c]) + DayMinutesOf(id)(d)
    ensures RowCount(ds[c := d], id) == RowCount(ds, id) - DayRowsOf(id)(ds[c]) + DayRowsOf(id)(d)
  {
    SumUpdate(ds, c, d, DayMinutesOf(id));
    SumUpdate(ds, c, d, DayRowsOf(id));
  }

  /** Writing adds the minutes written to `t` and nothing to any other task; other tasks
      keep their rows; a task with no row yet gets exactly one. */
  lemma {:induction false} PlaceTally(t: TaskItem, days: seq<Day>, remaining: int, need: int, id: string)
    requires 1 <= need <= remaining
    ensures var s := Place(t, days, remaining, need);
      PlacedMinutes(s.days, id) == PlacedMinutes(days, id) + (if id == t.id then s.minutes else 0)
    ensures id != t.id ==> RowCount(Place(t, days, remaining, need).days, id) == RowCount(days, id)
    ensures id == t.id && RowCount(days, id) == 0 ==> RowCount(Place(t, days, remaining, need).days, id) == 1
  {
    var (ds, c) := Target(days, need);
    TargetTally(days, need, id);
    var m := Min(remaining, AvailableMinutes(ds[c]));
    AssignTally(ds[c], t, m, id);
    UpdateTally(ds, c, AssignMinutes(ds[c], t, m), id);
    if id == t.id && RowCount(days, id) == 0 {
      RowCountsNonNegative(ds, id);
      SumTermBound(ds, c, DayRowsOf(id));
    }
  }

  /** Writing keeps a well-formed schedule well-formed. */
  lemma {:induction false} PlaceWellFormed(t: TaskItem, days: seq<Day>, remaining: int, need: int)
    requires 1 <= need <= remaining && WellFormed(days)
    ensures WellFormed(Place(t, days, remaining, need).days)
  {
    var (ds, c) := Target(days, need);
    TargetTally(days, need, "");
    var m := Min(remaining, AvailableMinutes(ds[c]));
    var d := AssignMinutes(ds[c], t, m);
    AssignKeepsDayOk(ds[c], t, m);
    UpdateWellFormed(ds, c, d);
  }

  /** Replacing one day of a well-formed schedule by a consistent day with the same number
      and within capacity keeps the schedule well-formed. */
  lemma {:induction false} UpdateWellFormed(ds: seq<Day>, c: int, d: Day)
    requires WellFormed(ds) && 0 <= c < |ds|
    requires d.dayNumber == ds[c].dayNumber && DayOk(d) && EffectiveLoad(d) <= Capacity
    ensures WellFormed(ds[c := d])
  {
  }

  /** A pass adds to task `t` exactly the minutes it takes off `remaining`, and leaves the
      minutes and rows of every other task as they were. */
  lemma {:induction false} PassTally(t: TaskItem, p: Progress, id: string)
    requires p.remaining > 0
    ensures var q := Pass(t, p);
      PlacedMinutes(q.days, id) == PlacedMinutes(p.days, id) + (if id == t.id then p.remaining - q.remaining else 0)
    ensures id != t.id ==> RowCount(Pass(t, p).days, id) == RowCount(p.days, id)
  {
    var need := if t.Divisible() && p.splits > 1 then 1 else p.remaining;
    PlaceTally(t, p.days, p.remaining, need, id);
    WithNewDayFacts(Place(t, p.days, p.remaining, need).days, id);
  }

  /** A pass keeps a well-formed schedule well-formed. */
  lemma {:induction false} PassWellFormed(t: TaskItem, p: Progress)
    requires p.remaining > 0 && WellFormed(p.days)
    ensures WellFormed(Pass(t, p).days)
  {
    var need := if t.Divisible() && p.splits > 1 then 1 else p.remaining;
    PlaceWellFormed(t, p.days, p.remaining, need);
    WithNewDayFacts(Place(t, p.days, p.remaining, need).days, "");
  }

  /** Conservation: distributing places exactly the remaining minutes for `t` (none when
      nothing remains) and leaves every other task's minutes and rows untouched. */
  lemma {:induction false} DistributeFromTally(t: TaskItem, p: Progress, id: string)
    ensures PlacedMinutes(DistributeFrom(t, p), id)
         == PlacedMinutes(p.days, id) + (if id == t.id && p.remaining > 0 then p.remaining else 0)
    ensures id != t.id ==> RowCount(DistributeFrom(t, p), id) == RowCount(p.days, id)
    decreases if p.remaining > 0 then p.remaining else 0
  {
    if p.remaining > 0 {
      PassTally(t, p, id);
      DistributeFromTally(t, Pass(t, p), id);
    }
  }

  /** Distributing keeps a well-formed schedule well-formed and removes no day. */
  lemma {:induction false} DistributeFromWellFormed(t: TaskItem, p: Progress)
    requires WellFormed(p.days)
    ensures WellFormed(DistributeFrom(t, p)) && |DistributeFrom(t, p)| >= |p.days|
    decreases if p.remaining > 0 then p.remaining else 0
  {
    if p.remaining > 0 {
      PassWellFormed(t, p);
      DistributeFromWellFormed(t, Pass(t, p));
    }
  }

  /** The task's minutes grow by its length (by nothing for a zero or negative length),
      and every other task keeps its minutes and its rows. */
  lemma {:induction false} DistributeTally(t: TaskItem, days: seq<Day>, id: string)
    ensures PlacedMinutes(Distribute(t, days), id)
         == PlacedMinutes(days, id) + (if id == t.id && t.TotalMinutes() > 0 then t.TotalMinutes() else 0)
    ensures id != t.id ==> RowCount(Distribute(t, days), id) == RowCount(days, id)
  {
    DistributeFromTally(t, Progress(days, t.TotalMinutes(), t.availableDays), id);
  }

  /** Distributing keeps a well-formed schedule well-formed and removes no day. */
  lemma {:induction false} DistributeWellFormed(t: TaskItem, days: seq<Day>)
    requires WellFormed(days)
    ensures WellFormed(Distribute(t, days)) && |Distribute(t, days)| >= |days|
  {
    DistributeFromWellFormed(t, Progress(days, t.TotalMinutes(), t.availableDays));
  }

  /** An indivisible task of at most one day's capacity, not yet on the schedule, ends up
      as exactly one row: a single pass places all of it on a single day. */
  lemma {:induction false} IndivisibleTaskTakesOneRow(t: TaskItem, days: seq<Day>)
    requires !t.Divisible() && 0 < t.TotalMinutes() <= Capacity
    requires RowCount(days, t.id) == 0
    ensures RowCount(Distribute(t, days), t.id) == 1
  {
    var p := Progress(days, t.TotalMinutes(), t.availableDays);
    PlaceTally(t, days, p.remaining, p.remaining, t.id);
    assert Pass(t, p).days == Place(t, days, p.remaining, p.remaining).days;
    assert Pass(t, p).remaining == 0;
    assert DistributeFrom(t, Pass(t, p)) == Pass(t, p).days;
    assert Distribute(t, days) == DistributeFrom(t, Pass(t, p));
  }
}
