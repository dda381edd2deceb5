/** SchedulerService: the stored task list and the schedule rebuilt from it after every
    change. Days and tasks are values here; the service's two lists are its fields. */
module Service {
  import opened Sums
  import opened TaskItems
  import opened DaySchedules
  import opened Placement
  import opened Ordering
  import opened Rebuilding

  function HasId(id: string): TaskItem -> bool
  {
    (t: TaskItem) => t.id == id
  }

  /** With distinct ids, a delete leaves no row of the id: the first task carrying it is
      removed and the rest rebuilt, or no task carries it and the current schedule (a
      rebuild, or the empty one before the first change) has none. */
  lemma {:induction false} DeleteLeavesNoRow(tasks: seq<TaskItem>, days: seq<Day>, id: string)
    requires DistinctIds(tasks) && (days == Rebuild(tasks) || (tasks == [] && days == []))
    ensures match FirstWhere(tasks, HasId(id))
      case None => RowCount(days, id) == 0
      case Some(i) => RowCount(Rebuild(tasks[..i] + tasks[i + 1..]), id) == 0
  {
    match FirstWhere(tasks, HasId(id))
    case None =>
      if days == Rebuild(tasks) {
        assert forall k :: 0 <= k < |tasks| ==> !HasId(id)(tasks[k]);
        AbsentIdHasNoRow(tasks, id);
      }
    case Some(i) =>
      assert HasId(id)(tasks[i]);
      DeletedTaskLeavesNoRow(tasks, i);
  }

  class SchedulerService {
    /** Every task received so far, in arrival order. */
    var allTasks: seq<TaskItem>
    /** The current schedule. */
    var scheduleDays: seq<Day>

    /** The schedule is the rebuild of the task list, except before the first change,
        when both are empty. */
    ghost predicate Valid()
      reads this
    {
      scheduleDays == Rebuild(allTasks) || (allTasks == [] && scheduleDays == [])
    }

    constructor ()
      ensures allTasks == [] && scheduleDays == [] && Valid()
    {
      allTasks := [];
      scheduleDays := [];
    }

    /** AddTask: the task is appended and the schedule rebuilt; the new schedule has a day,
        is well-formed, and holds exactly what each id is owed. */
    method AddTask(newTask: TaskItem)
      modifies this
      ensures allTasks == old(allTasks) + [newTask] && scheduleDays == Rebuild(allTasks)
      ensures Valid() && |scheduleDays| >= 1 && WellFormed(scheduleDays)
      ensures forall id :: PlacedMinutes(scheduleDays, id) == Sum(allTasks, TaskShare(id))
    {
      allTasks := allTasks + [newTask];
      RebuildSchedule();
      RebuildFacts(allTasks);
    }

    /** UpdateTask: the first stored task with the same id takes the new name, hours and
        days (so it becomes equal to `updatedTask`) and the schedule is rebuilt; an unknown
        id changes nothing. */
    method UpdateTask(updatedTask: TaskItem)
      modifies this
      ensures match FirstWhere(old(allTasks), HasId(updatedTask.id))
        case None => allTasks == old(allTasks) && scheduleDays == old(scheduleDays)
        case Some(i) => allTasks == old(allTasks)[i := updatedTask] && scheduleDays == Rebuild(allTasks)
      ensures old(Valid()) ==> Valid()
    {
      var existing := FirstWhere(allTasks, HasId(updatedTask.id));
      if existing.Some? {
        var i := existing.value;
        var existingTask := allTasks[i];
        existingTask := existingTask.(name := updatedTask.name);
        existingTask := existingTask.(totalHours := updatedTask.totalHours);
        existingTask := existingTask.(availableDays := updatedTask.availableDays);
        allTasks := allTasks[i := existingTask];
        RebuildSchedule();
      }
    }

    /** DeleteTask: the first stored task with that id is removed and the schedule rebuilt;
        an unknown id changes nothing. When the ids were distinct, the task leaves no row
        behind. */
    method DeleteTask(taskId: string)
      modifies this
      ensures match FirstWhere(old(allTasks), HasId(taskId))
        case None => allTasks == old(allTasks) && scheduleDays == old(scheduleDays)
        case Some(i) => allTasks == old(allTasks)[..i] + old(allTasks)[i + 1..] && scheduleDays == Rebuild(allTasks)
      ensures old(Valid()) ==> Valid()
      ensures old(Valid()) && old(DistinctIds(allTasks)) ==> RowCount(scheduleDays, taskId) == 0
    {
      if Valid() && DistinctIds(allTasks) {
        DeleteLeavesNoRow(allTasks, scheduleDays, taskId);
      }
      var found := FirstWhere(allTasks, HasId(taskId));
      if found.Some? {
        var i := found.value;
        allTasks := allTasks[..i] + allTasks[i + 1..];
        RebuildSchedule();
      }
    }

    /** RebuildSchedule: simulates the sorted tasks over estimate .. estimate + 2 days and
        keeps the first schedule of least spread, which is `Rebuild` of the task list
        (RebuildFacts proves it has a day, is well-formed and conserves every id). */
    method RebuildSchedule()
      modifies this
      ensures allTasks == old(allTasks) && scheduleDays == Rebuild(allTasks)
    {
      ghost var tasks := allTasks;
      var sortedTasks := SortTasks(allTasks);
      var estimatedDays := EstimatedDays(allTasks);
      var candidateExtra := CandidateExtra;
      var bestSchedule: Option<seq<Day>> := None;
      var bestMetric := MaxValue;
      ghost var candidates := Candidates(tasks);
      ghost var metrics := Metrics(candidates);
      ghost var best: Option<nat> := None;
      ghost var tried := 0;
      var candidateDays := estimatedDays;
      while candidateDays <= estimatedDays + candidateExtra
        invariant allTasks == tasks
        invariant estimatedDays <= candidateDays <= estimatedDays + candidateExtra + 1
        invariant tried == candidateDays - estimatedDays
        invariant best == SelectBest(metrics[..tried])
        invariant bestMetric == (if best.Some? then metrics[best.value] else MaxValue)
        invariant bestSchedule == (if best.Some? then Some(candidates[best.value]) else None)
        decreases estimatedDays + candidateExtra - candidateDays
      {
        ghost var k := tried;
        ghost var next := k + 1;
        var simulated := SimulateSchedule(candidateDays, sortedTasks);
        var metric := EvaluateSchedule(simulated);
        SelectionTurn(tasks, k, next, candidateDays, simulated, metric, best, bestMetric);
        if Better(metric, bestMetric) {
          bestMetric := metric;
          bestSchedule := Some(simulated);
          best := Some(k);
        }
        candidateDays := candidateDays + 1;
        tried := next;
      }
      assert tried == |metrics|;
      assert metrics[..tried] == metrics;
      scheduleDays := if bestSchedule.Some? then bestSchedule.value else [];
    }

    /** SimulateSchedule: days 1..initialDays, then each task distributed in list order; the
        result keeps those days (SimulateFacts proves it well-formed and conserving). */
    method SimulateSchedule(initialDays: int, tasks: seq<TaskItem>) returns (days: seq<Day>)
      ensures days == Simulate(initialDays, tasks)
      ensures |days| >= initialDays
    {
      days := [];
      var i := 1;
      while i <= initialDays
        invariant 1 <= i <= (if initialDays > 0 then initialDays + 1 else 1)
        invariant days == InitialDays(i - 1)
      {
        days := days + [NewDay(i)];
        i := i + 1;
      }
      for k := 0 to |tasks|
        invariant days == DistributeAll(tasks[..k], InitialDays(initialDays))
      {
        assert tasks[..k + 1][..k] == tasks[..k];
        days := DistributeTask(tasks[k], days);
      }
      assert tasks[..|tasks|] == tasks;
      SimulateFacts(initialDays, tasks, "");
    }

    /** Appends day `Count + 1`, empty, and returns its index. */
    method CreateNewDay(days: seq<Day>) returns (days': seq<Day>, newDay: nat)
      ensures days' == WithNewDay(days) && newDay == |days|
      ensures |days'| == |days| + 1 && days'[..|days|] == days
      ensures days'[newDay].dayNumber == |days| + 1 && days'[newDay].assignments == []
      ensures AvailableMinutes(days'[newDay]) == Capacity
      ensures WellFormed(days) ==> WellFormed(days')
    {
      var newDayNumber := |days| + 1;
      days' := days + [NewDay(newDayNumber)];
      newDay := |days|;
      WithNewDayFacts(days, "");
    }


    /** DistributeTask: the greedy loop, pass by pass, on a local copy of the day list. */
    method DistributeTask(t: TaskItem, days: seq<Day>) returns (result: seq<Day>)
      ensures result == Distribute(t, days)
      ensures PlacedMinutes(result, t.id)
           == PlacedMinutes(days, t.id) + (if t.TotalMinutes() > 0 then t.TotalMinutes() else 0)
      ensures WellFormed(days) ==> WellFormed(result) && |result| >= |days|
    {
      result := days;
      var minutesRemaining := t.TotalMinutes();
      var splitsAllowed := t.availableDays;
      while minutesRemaining > 0
        invariant DistributeFrom(t, Progress(result, minutesRemaining, splitsAllowed)) == Distribute(t, days)
        decreases minutesRemaining
      {
        ghost var before := Progress(result, minutesRemaining, splitsAllowed);
        if t.Divisible() && splitsAllowed > 1 {
          var candidate := LeastLoadedEligible(result, 1);
          var c: nat;
          if candidate.None? {
            result, c := CreateNewDay(result);
          } else {
            c := candidate.value;
          }
          var availableMinutes := AvailableMinutes(result[c]);
          var minutesToAssign := Min(minutesRemaining, availableMinutes);
          result := result[c := AssignMinutes(result[c], t, minutesToAssign)];
          minutesRemaining := minutesRemaining - minutesToAssign;
          splitsAllowed := splitsAllowed - 1;
        } else {
          var candidate := LeastLoadedEligible(result, minutesRemaining);
          var c: nat;
          if candidate.None? {
            result, c := CreateNewDay(result);
          } else {
            c := candidate.value;
          }
          var availableMinutes := AvailableMinutes(result[c]);
          var minutesToAssign := Min(minutesRemaining, availableMinutes);
          result := result[c := AssignMinutes(result[c], t, minutesToAssign)];
          minutesRemaining := minutesRemaining - minutesToAssign;
          if minutesRemaining > 0 && AvailableMinutes(result[c]) <= 0 {
            var spare;
            result, spare := CreateNewDay(result);
          }
        }
        assert Pass(t, before) == Progress(result, minutesRemaining, splitsAllowed);
      }
      DistributeTally(t, days, t.id);
      if WellFormed(days) {
        DistributeWellFormed(t, days);
      }
    }
  }
}
