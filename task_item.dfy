/** A task as the scheduler receives it: a name, a length in whole hours and the
    number of days it may be spread over. */
module TaskItems {

  /** `id` is the identity the source draws from a fresh GUID at construction; here it
      is an input, so two tasks share an id only if the caller says so. */
  datatype TaskItem = TaskItem(id: string, name: string, totalHours: int, availableDays: int)
  {
    /** Length in minutes: always a whole number of hours. */
    function TotalMinutes(): (m: int)
      ensures m % 60 == 0 && m / 60 == totalHours
    {
      totalHours * 60
    }

    /** A task may be split over several days exactly when it is given more than one. */
    predicate Divisible()
    {
      availableDays > 1
    }
  }

  /** The constructor: stores its arguments unchanged, with `id` in place of the GUID. */
  function NewTaskItem(id: string, name: string, totalHours: int, availableDays: int): (t: TaskItem)
    ensures t.id == id && t.name == name
    ensures t.totalHours == totalHours && t.availableDays == availableDays
    ensures t.TotalMinutes() == 60 * totalHours
  {
    TaskItem(id, name, totalHours, availableDays)
  }
}
