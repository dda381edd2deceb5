/** One row of a day's plan: the minutes of one task placed on that day. */
module TaskAssignments {

  /** `taskStartDay` and `taskAvailableDays` are meaningful for divisible rows only;
      the indivisible constructor leaves them at the integer default 0. */
  datatype Assignment = Assignment(
    taskId: string,
    taskName: string,
    minutes: int,
    isDivisible: bool,
    taskStartDay: int,
    taskAvailableDays: int)

  /** The three-argument constructor, for rows of indivisible tasks. */
  function IndivisibleAssignment(taskId: string, taskName: string, minutes: int): (a: Assignment)
    ensures a.taskId == taskId && a.taskName == taskName && a.minutes == minutes
    ensures !a.isDivisible && a.taskStartDay == 0 && a.taskAvailableDays == 0
  {
    Assignment(taskId, taskName, minutes, false, 0, 0)
  }

  /** The five-argument constructor, for rows of divisible tasks, recording their window. */
  function DivisibleAssignment(taskId: string, taskName: string, minutes: int,
                               taskStartDay: int, taskAvailableDays: int): (a: Assignment)
    ensures a.taskId == taskId && a.taskName == taskName && a.minutes == minutes
    ensures a.isDivisible
    ensures a.taskStartDay == taskStartDay && a.taskAvailableDays == taskAvailableDays
  {
    Assignment(taskId, taskName, minutes, true, taskStartDay, taskAvailableDays)
  }
}
