/** One day of the schedule and the load figures derived from its rows. */
module DaySchedules {
  import opened Sums
  import opened TaskAssignments

  /** Minutes a day can hold. */
  const Capacity: int := 600
  /** Minutes charged between two active rows of the same day. */
  const BreakTime: int := 15

  datatype Day = Day(dayNumber: int, assignments: seq<Assignment>)

  /** A row counts towards the load only while its minutes are positive. */
  function ActiveMinutes(a: Assignment): int
  {
    if a.minutes > 0 then a.minutes else 0
  }

  function ActiveRow(a: Assignment): int
  {
    if a.minutes > 0 then 1 else 0
  }

  /** Sum of the minutes of the active rows. */
  function TotalMinutes(d: Day): int
  {
    Sum(d.assignments, ActiveMinutes)
  }

  /** Number of active rows. */
  function ActiveCount(d: Day): int
  {
    Sum(d.assignments, ActiveRow)
  }

  /** Minutes of work plus one break between each two consecutive active rows. */
  function EffectiveLoad(d: Day): int
  {
    var count := ActiveCount(d);
    TotalMinutes(d) + (if count > 0 then (count - 1) * BreakTime else 0)
  }

  function RemainingMinutes(d: Day): (r: int)
    ensures r + EffectiveLoad(d) == Capacity
  {
    Capacity - EffectiveLoad(d)
  }

  /** The constructor: an empty day with the given number. */
  function NewDay(dayNumber: int): (d: Day)
    ensures d.dayNumber == dayNumber && d.assignments == []
    ensures TotalMinutes(d) == 0 && EffectiveLoad(d) == 0 && RemainingMinutes(d) == Capacity
  {
    Day(dayNumber, [])
  }

  /** Every row of the day has positive minutes, so "has rows" and "has active rows" agree. */
  ghost predicate AllPositive(d: Day)
  {
    forall j :: 0 <= j < |d.assignments| ==> d.assignments[j].minutes > 0
  }

  lemma {:induction false} ActiveFiguresNonNegative(d: Day)
    ensures TotalMinutes(d) >= 0 && ActiveCount(d) >= 0
  {
    SumNonNegative(d.assignments, ActiveMinutes);
    SumNonNegative(d.assignments, ActiveRow);
  }

  /** The load is never below the minutes of work; the two agree exactly when at most
      one row is active, and a day with no active row has load 0. */
  lemma {:induction false} LoadBounds(d: Day)
    ensures 0 <= TotalMinutes(d) <= EffectiveLoad(d)
    ensures EffectiveLoad(d) == TotalMinutes(d) <==> ActiveCount(d) <= 1
    ensures ActiveCount(d) == 0 ==> EffectiveLoad(d) == 0
  {
    ActiveFiguresNonNegative(d);
    var rows := d.assignments;
    if ActiveCount(d) == 0 {
      forall k | 0 <= k < |rows|
        ensures ActiveMinutes(rows[k]) == 0
      {
        SumTermBound(rows, k, ActiveRow);
      }
      SumOfZeros(rows, ActiveMinutes);
    }
  }

  /** Appending an active row adds its minutes, plus one break if the day already had
      an active row. */
  lemma {:induction false} AppendActiveRow(d: Day, a: Assignment)
    requires a.minutes > 0
    ensures EffectiveLoad(d.(assignments := d.assignments + [a]))
         == EffectiveLoad(d) + a.minutes + (if ActiveCount(d) > 0 then BreakTime else 0)
  {
    SumAppend(d.assignments, a, ActiveMinutes);
    SumAppend(d.assignments, a, ActiveRow);
    ActiveFiguresNonNegative(d);
  }

  /** A row with zero or negative minutes changes nothing. */
  lemma {:induction false} AppendInactiveRow(d: Day, a: Assignment)
    requires a.minutes <= 0
    ensures TotalMinutes(d.(assignments := d.assignments + [a])) == TotalMinutes(d)
    ensures EffectiveLoad(d.(assignments := d.assignments + [a])) == EffectiveLoad(d)
  {
    SumAppend(d.assignments, a, ActiveMinutes);
    SumAppend(d.assignments, a, ActiveRow);
  }

  /** Adding minutes to a row that is already active adds exactly those minutes. */
  lemma {:induction false} GrowActiveRow(d: Day, i: int, m: int)
    requires 0 <= i < |d.assignments| && d.assignments[i].minutes > 0 && m >= 0
    ensures var row := d.assignments[i];
      EffectiveLoad(d.(assignments := d.assignments[i := row.(minutes := row.minutes + m)]))
      == EffectiveLoad(d) + m
  {
    var row := d.assignments[i];
    var grown := row.(minutes := row.minutes + m);
    SumUpdate(d.assignments, i, grown, ActiveMinutes);
    SumUpdate(d.assignments, i, grown, ActiveRow);
  }

  /** When all rows are positive, every row is active. */
  lemma {:induction false} AllPositiveActiveCount(d: Day)
    requires AllPositive(d)
    ensures ActiveCount(d) == |d.assignments|
    decreases |d.assignments|
  {
    if d.assignments != [] {
      var n := |d.assignments| - 1;
      AllPositiveActiveCount(d.(assignments := d.assignments[..n]));
    }
  }

  /** Only rows can be active. */
  lemma {:induction false} ActiveCountAtMostRows(d: Day)
    ensures ActiveCount(d) <= |d.assignments|
    decreases |d.assignments|
  {
    if d.assignments != [] {
      var n := |d.assignments| - 1;
      ActiveCountAtMostRows(d.(assignments := d.assignments[..n]));
    }
  }
}
