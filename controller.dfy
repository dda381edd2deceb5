/** SchedulerController: admission of a new task before it reaches the service, and the
    read of the current schedule. */
module Controller {
  import opened Sums
  import opened TaskItems
  import opened DaySchedules
  import opened Placement
  import opened Rebuilding
  import opened Service

  /** The reply to a POST: accepted, or one of the two rejections. */
  datatype Outcome = Ok | TooLongForOneDay | DoesNotFitInDays

  /** An indivisible task longer than one day's capacity is rejected first; a divisible task
      longer than the capacity of all its days is rejected next; anything else is accepted. */
  function Admission(t: TaskItem): (r: Outcome)
    ensures r == TooLongForOneDay <==> !t.Divisible() && t.TotalMinutes() > Capacity
    ensures r == DoesNotFitInDays <==> t.Divisible() && t.TotalMinutes() > Capacity * t.availableDays
    ensures r == Ok <==> t.TotalMinutes() <= (if t.Divisible() then Capacity * t.availableDays else Capacity)
  {
    if !t.Divisible() && t.TotalMinutes() > Capacity then TooLongForOneDay
    else if t.Divisible() && t.TotalMinutes() > Capacity * t.availableDays then DoesNotFitInDays
    else Ok
  }

  /** An accepted indivisible task with a positive length and a fresh id sits on exactly one
      row of the schedule the service rebuilds. */
  lemma {:induction false} AdmittedIndivisibleTaskTakesOneRow(tasks: seq<TaskItem>, t: TaskItem)
    requires Admission(t) == Ok && !t.Divisible() && t.TotalMinutes() > 0
    requires DistinctIds(tasks + [t])
    ensures RowCount(Rebuild(tasks + [t]), t.id) == 1
  {
    RebuildIndivisibleOneRow(tasks + [t], |tasks|);
  }

  /** An accepted task with a positive length and a fresh id has all its minutes on the
      schedule the service rebuilds. */
  lemma {:induction false} AdmittedTaskFullyPlaced(tasks: seq<TaskItem>, t: TaskItem)
    requires Admission(t) == Ok && t.TotalMinutes() > 0
    requires DistinctIds(tasks + [t])
    ensures PlacedMinutes(Rebuild(tasks + [t]), t.id) == t.TotalMinutes()
  {
    RebuildPlacesEachTask(tasks + [t], |tasks|);
  }

  class SchedulerController {
    const service: SchedulerService

    constructor (service: SchedulerService)
      ensures this.service == service
    {
      this.service := service;
    }

    /** GET: the service's current schedule. */
    method GetSchedule() returns (days: seq<Day>)
      ensures days == service.scheduleDays
    {
      days := service.scheduleDays;
    }

    /** POST: a rejected task leaves the service untouched; an accepted one is appended to
        the service's tasks and the schedule is rebuilt. */
    method AddTask(task: TaskItem) returns (r: Outcome)
      modifies service
      ensures r == Admission(task)
      ensures r != Ok ==> unchanged(service)
      ensures r == Ok ==>
        service.allTasks == old(service.allTasks) + [task]
        && service.scheduleDays == Rebuild(service.allTasks)
        && |service.scheduleDays| >= 1 && WellFormed(service.scheduleDays)
    {
      if !task.Divisible() && task.TotalMinutes() > Capacity {
        return TooLongForOneDay;
      } else if task.Divisible() && task.TotalMinutes() > Capacity * task.availableDays {
        return DoesNotFitInDays;
      }
      service.AddTask(task);
      return Ok;
    }
  }
}
