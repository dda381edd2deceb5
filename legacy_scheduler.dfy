/** The older Scheduler model class: first fit for an indivisible task, and an even,
    truncating split over days 1..availableDays for a divisible one, with no capacity check. */
module Legacy {
  import opened Sums
  import opened TaskItems
  import opened TaskAssignments
  import opened DaySchedules
  import opened Placement

  /** C#'s `/` on `int`: the quotient truncated toward zero, so it has the dividend's sign
      and the remainder `a - q * b` has it too. */
  function TruncDiv(a: int, b: int): (q: int)
    requires b > 0
    ensures a >= 0 ==> q >= 0 && q * b <= a < q * b + b
    ensures a < 0 ==> q <= 0 && q * b - b < a <= q * b
  {
    if a >= 0 then a / b else -((-a) / b)
  }

  /** A day keeps its rows and gains one more at the end. */
  function AddRow(d: Day, a: Assignment): Day
  {
    d.(assignments := d.assignments + [a])
  }

  /** The row of an indivisible task. The source passes the task's name where the row's
      constructor expects the id and the name, so the name fills both. */
  function LegacyRow(task: TaskItem): Assignment
  {
    IndivisibleAssignment(task.name, task.name, task.TotalMinutes())
  }

  /** The row of a divisible task on day `dayNumber`, holding `minutes`. */
  function SplitRow(task: TaskItem, minutes: int, dayNumber: int): Assignment
  {
    DivisibleAssignment(task.name, task.name, minutes, dayNumber, task.availableDays)
  }

  /** A day fits the task when its remaining minutes cover the task plus a break, the break
      being charged when the day has any row at all. */
  predicate FitsOn(d: Day, minutes: int)
  {
    RemainingMinutes(d) >= minutes + (if |d.assignments| > 0 then BreakTime else 0)
  }

  function Fits(minutes: int): Day -> bool
  {
    (d: Day) => FitsOn(d, minutes)
  }

  /** The indivisible branch: the first day that fits gets the row; if none fits, a day
      numbered `Count + 1` is appended holding only the row. */
  function InsertIndivisible(task: TaskItem, days: seq<Day>): seq<Day>
  {
    match FirstWhere(days, Fits(task.TotalMinutes()))
    case Some(i) => days[i := AddRow(days[i], LegacyRow(task))]
    case None => days + [AddRow(NewDay(|days| + 1), LegacyRow(task))]
  }

  /** The days after `n` turns of the divisible branch's loop: each of the first `n`
      positions, appended as an empty day with its number when missing, gains one row of
      `TruncDiv(total, availableDays)` minutes. */
  function SplitPrefix(task: TaskItem, days: seq<Day>, n: nat): (r: seq<Day>)
    requires task.availableDays > 0
    ensures |r| == (if |days| > n then |days| else n)
  {
    var share := TruncDiv(task.TotalMinutes(), task.availableDays);
    var count := if |days| > n then |days| else n;
    seq(count, i => SplitDay(task, days, n, share, i))
  }

  /** Position `i` after `n` turns of the divisible loop. */
  function SplitDay(task: TaskItem, days: seq<Day>, n: nat, share: int, i: int): Day
  {
    var d := if 0 <= i < |days| then days[i] else NewDay(i + 1);
    if i < n then AddRow(d, SplitRow(task, share, i + 1)) else d
  }

  /** Scheduler.InsertTask's effect on the list of days. */
  function LegacyInsert(task: TaskItem, days: seq<Day>): seq<Day>
  {
    if !task.Divisible() then InsertIndivisible(task, days)
    else SplitPrefix(task, days, task.availableDays)
  }

  // ---------------------------------------------------------------------------
  // Properties

  /** The first day that fits gets the task; no other day changes. */
  lemma {:induction false} LegacyUsesFirstFit(task: TaskItem, days: seq<Day>, k: int)
    requires !task.Divisible() && 0 <= k < |days| && FitsOn(days[k], task.TotalMinutes())
    requires forall j :: 0 <= j < k ==> !FitsOn(days[j], task.TotalMinutes())
    ensures LegacyInsert(task, days) == days[k := AddRow(days[k], LegacyRow(task))]
  {
    var r := FirstWhere(days, Fits(task.TotalMinutes()));
    assert Fits(task.TotalMinutes())(days[k]);
    assert r.Some? && r.value == k;
  }

  /** When no day fits, one day numbered `Count + 1` is appended and it holds only the task. */
  lemma {:induction false} LegacyOpensDay(task: TaskItem, days: seq<Day>)
    requires !task.Divisible()
    requires forall j :: 0 <= j < |days| ==> !FitsOn(days[j], task.TotalMinutes())
    ensures var r := LegacyInsert(task, days);
      |r| == |days| + 1 && r[..|days|] == days
      && r[|days|].dayNumber == |days| + 1 && r[|days|].assignments == [LegacyRow(task)]
  {
  }

  /** A day that fits a task of positive length stays within capacity after taking it. */
  lemma {:induction false} FitKeepsCapacity(d: Day, a: Assignment)
    requires a.minutes > 0 && FitsOn(d, a.minutes)
    ensures EffectiveLoad(AddRow(d, a)) <= Capacity
  {
    AppendActiveRow(d, a);
    ActiveCountAtMostRows(d);
  }

  /** The indivisible branch never pushes an existing day over capacity: every day of the
      old list is either unchanged or was within capacity with room for the task. */
  lemma {:induction false} LegacyIndivisibleRespectsCapacity(task: TaskItem, days: seq<Day>)
    requires !task.Divisible() && task.TotalMinutes() > 0
    ensures var r := LegacyInsert(task, days);
      |r| >= |days| && forall k :: 0 <= k < |days| ==> r[k] == days[k] || EffectiveLoad(r[k]) <= Capacity
  {
    match FirstWhere(days, Fits(task.TotalMinutes()))
    case Some(i) =>
      assert Fits(task.TotalMinutes())(days[i]);
      FitKeepsCapacity(days[i], LegacyRow(task));
    case None =>
  }

  /** A divisible task adds minutes under its name only: one truncated share per turn. */
  lemma {:induction false} AddRowTally(d: Day, a: Assignment, id: string)
    ensures DayMinutesOf(id)(AddRow(d, a)) == DayMinutesOf(id)(d) + MinutesOfTask(id)(a)
  {
    SumAppend(d.assignments, a, MinutesOfTask(id));
  }

  /** One more turn of the divisible loop, in terms of the previous turn's days. */
  lemma {:induction false} SplitStep(task: TaskItem, days: seq<Day>, n: nat)
    requires task.availableDays > 0
    ensures var p := SplitPrefix(task, days, n);
      var grown := if |p| < n + 1 then p + [NewDay(n + 1)] else p;
      SplitPrefix(task, days, n + 1)
      == grown[n := AddRow(grown[n], SplitRow(task, TruncDiv(task.TotalMinutes(), task.availableDays), n + 1))]
  {
    var p := SplitPrefix(task, days, n);
    var grown := if |p| < n + 1 then p + [NewDay(n + 1)] else p;
    var row := SplitRow(task, TruncDiv(task.TotalMinutes(), task.availableDays), n + 1);
    var q := SplitPrefix(task, days, n + 1);
    var expected := grown[n := AddRow(grown[n], row)];
    assert |q| == |expected|;
    forall i | 0 <= i < |q|
      ensures q[i] == expected[i]
    {
      if i < n || i > n {
        assert q[i] == p[i];
      }
    }
  }

  /** One more turn adds one share under the task's name. */
  lemma {:induction false} SplitTallyStep(task: TaskItem, days: seq<Day>, m: nat)
    requires task.availableDays > 0
    ensures PlacedMinutes(SplitPrefix(task, days, m + 1), task.name)
         == PlacedMinutes(SplitPrefix(task, days, m), task.name) + TruncDiv(task.TotalMinutes(), task.availableDays)
  {
    var share := TruncDiv(task.TotalMinutes(), task.availableDays);
    var p := SplitPrefix(task, days, m);
    var grown := if |p| < m + 1 then p + [NewDay(m + 1)] else p;
    var row := SplitRow(task, share, m + 1);
    SplitStep(task, days, m);
    assert PlacedMinutes(grown, task.name) == PlacedMinutes(p, task.name) by {
      if |p| < m + 1 {
        SumAppend(p, NewDay(m + 1), DayMinutesOf(task.name));
      }
    }
    SumUpdate(grown, m, AddRow(grown[m], row), DayMinutesOf(task.name));
    AddRowTally(grown[m], row, task.name);
  }

  /** After `n` turns the name holds `n` shares more than before. */
  lemma {:induction false} SplitPrefixTally(task: TaskItem, days: seq<Day>, n: nat)
    requires task.availableDays > 0
    ensures PlacedMinutes(SplitPrefix(task, days, n), task.name)
         == PlacedMinutes(days, task.name) + n * TruncDiv(task.TotalMinutes(), task.availableDays)
  {
    var share := TruncDiv(task.TotalMinutes(), task.availableDays);
    if n == 0 {
      SplitPrefixZero(task, days);
    } else {
      SplitPrefixTally(task, days, n - 1);
      SplitTallyStep(task, days, n - 1);
      assert (n - 1) * share + share == n * share;
    }
  }

  /** No turn yet: the days as they were. */
  lemma {:induction false} SplitPrefixZero(task: TaskItem, days: seq<Day>)
    requires task.availableDays > 0
    ensures SplitPrefix(task, days, 0) == days
  {
    var p := SplitPrefix(task, days, 0);
    forall i | 0 <= i < |days|
      ensures p[i] == days[i]
    {
    }
  }

  /** The divisible branch: days 1..availableDays exist afterwards, each of them holds one
      more row of the truncated share, and the name gains `availableDays` shares in total.
      For a non-negative length the minutes lost to truncation are exactly the remainder. */
  lemma {:induction false} LegacySplitFacts(task: TaskItem, days: seq<Day>)
    requires task.Divisible()
    ensures var r := LegacyInsert(task, days);
      var share := TruncDiv(task.TotalMinutes(), task.availableDays);
      |r| >= task.availableDays && |r| >= |days|
      && (forall i :: 0 <= i < task.availableDays ==>
            r[i].assignments[|r[i].assignments| - 1] == SplitRow(task, share, i + 1))
      && PlacedMinutes(r, task.name) == PlacedMinutes(days, task.name) + task.availableDays * share
    ensures task.TotalMinutes() >= 0 ==>
      task.TotalMinutes() - task.availableDays * TruncDiv(task.TotalMinutes(), task.availableDays)
      == task.TotalMinutes() % task.availableDays
  {
    SplitPrefixTally(task, days, task.availableDays);
  }

  /** Insertion only appends: every old day keeps its number and its rows as a prefix,
      days appended are numbered by position, and a list numbered 1..N stays so. */
  lemma {:induction false} LegacyOnlyAppends(task: TaskItem, days: seq<Day>)
    ensures var r := LegacyInsert(task, days);
      |r| >= |days|
      && (forall i :: 0 <= i < |days| ==>
            r[i].dayNumber == days[i].dayNumber
            && |r[i].assignments| >= |days[i].assignments|
            && r[i].assignments[..|days[i].assignments|] == days[i].assignments)
      && (forall i :: |days| <= i < |r| ==> r[i].dayNumber == i + 1)
    ensures (forall i :: 0 <= i < |days| ==> days[i].dayNumber == i + 1) ==>
      forall i :: 0 <= i < |LegacyInsert(task, days)| ==> LegacyInsert(task, days)[i].dayNumber == i + 1
  {
    var r := LegacyInsert(task, days);
    if !task.Divisible() {
      match FirstWhere(days, Fits(task.TotalMinutes()))
      case Some(k) =>
        assert (days[k].assignments + [LegacyRow(task)])[..|days[k].assignments|] == days[k].assignments;
      case None =>
    } else {
      forall i | 0 <= i < |days|
        ensures r[i].dayNumber == days[i].dayNumber
        ensures |r[i].assignments| >= |days[i].assignments|
        ensures r[i].assignments[..|days[i].assignments|] == days[i].assignments
      {
        var row := SplitRow(task, TruncDiv(task.TotalMinutes(), task.availableDays), i + 1);
        assert (days[i].assignments + [row])[..|days[i].assignments|] == days[i].assignments;
      }
    }
  }

  /** The day list of the older scheduler. */
  class Scheduler {
    var scheduleDays: seq<Day>

    /** Starts with day 1, empty. */
    constructor ()
      ensures scheduleDays == [NewDay(1)]
    {
      scheduleDays := [NewDay(1)];
    }

    /** InsertTask, proved against LegacyInsert. */
    method InsertTask(task: TaskItem)
      modifies this
      ensures scheduleDays == LegacyInsert(task, old(scheduleDays))
    {
      if !task.Divisible() {
        var i := 0;
        while i < |scheduleDays|
          invariant 0 <= i <= |scheduleDays|
          invariant scheduleDays == old(scheduleDays)
          invariant forall j :: 0 <= j < i ==> !FitsOn(scheduleDays[j], task.TotalMinutes())
        {
          var day := scheduleDays[i];
          if RemainingMinutes(day) >= task.TotalMinutes() + (if |day.assignments| > 0 then BreakTime else 0) {
            LegacyUsesFirstFit(task, scheduleDays, i);
            scheduleDays := scheduleDays[i := AddRow(day, LegacyRow(task))];
            return;
          }
          i := i + 1;
        }
        LegacyOpensDay(task, scheduleDays);
        var newDay := |scheduleDays| + 1;
        scheduleDays := scheduleDays + [NewDay(newDay)];
        scheduleDays := scheduleDays[newDay - 1 := AddRow(scheduleDays[newDay - 1], LegacyRow(task))];
      } else {
        var perDay := TruncDiv(task.TotalMinutes(), task.availableDays);
        for i := 0 to task.availableDays
          invariant scheduleDays == SplitPrefix(task, old(scheduleDays), i)
        {
          SplitStep(task, old(scheduleDays), i);
          if |scheduleDays| < i + 1 {
            scheduleDays := scheduleDays + [NewDay(i + 1)];
          }
          scheduleDays := scheduleDays[i := AddRow(scheduleDays[i], SplitRow(task, perDay, i + 1))];
        }
      }
    }
  }
}
