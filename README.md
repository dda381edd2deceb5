# Task scheduler engine, modelled in Dafny

The engine comes from a small ASP.NET task planner. Each task has a length in whole hours and a number of days it may be spread over. The engine places every task onto a list of days. A day holds at most 600 minutes, and 15 minutes of break are charged between two rows on the same day.

`SchedulerService` keeps every task it has received. After each add, update or delete it rebuilds the schedule from scratch, in four steps:

- Sort the tasks by available days, then by length.
- Simulate three schedules. They start from `estimate`, `estimate + 1` and `estimate + 2` empty days, where `estimate` is the day count that the total length needs.
- Place each task with a greedy loop (`DistributeTask`). The loop always picks the least-loaded day that can take the next portion, and opens a new day when none can.
- Keep the first simulated schedule whose gap between its heaviest and lightest day is the smallest.

Around the service sit three more pieces:

- the task and row records;
- the load figures of a day;
- the admission check of the HTTP controller.

The repository also has an older `Scheduler` class that is no longer used. It places an indivisible task by first fit and splits a divisible one evenly, with integer division, over days 1..D.

Layout, one module per source file or concern:

| file | module | source |
|---|---|---|
| `sums.dfy` | `Sums` | option type, first match (`FirstOrDefault`), sums over a sequence |
| `task_item.dfy` | `TaskItems` | `Models/TaskItem.cs` |
| `task_assignment.dfy` | `TaskAssignments` | `Models/TaskAssignment.cs` |
| `day_schedule.dfy` | `DaySchedules` | `Models/DaySchedule.cs` |
| `placement.dfy` | `Placement` | `DistributeTask`, `CalculateAvailableMinutes` and `CreateNewDay` as functions, with their lemmas |
| `ordering.dfy` | `Ordering` | `SortTasks` |
| `rebuild.dfy` | `Rebuilding` | `SimulateSchedule`, `EvaluateSchedule` and `RebuildSchedule` as functions, with their lemmas |
| `service.dfy` | `Service` | the `SchedulerService` class and its methods |
| `legacy_scheduler.dfy` | `Legacy` | `Models/Scheduler.cs` |
| `controller.dfy` | `Controller` | `Controllers/SchedulerController.cs` |

How state is represented:

- Tasks, days and rows are values (datatypes).
- The service, the older scheduler and the controller are classes, whose fields are the lists the source mutates.
- Where the source changes state, the method is proved equal to a function: `DistributeTask` to `Placement.Distribute`, `SimulateSchedule` to `Rebuilding.Simulate`, `RebuildSchedule` to `Rebuilding.Rebuild`, and `InsertTask` to `Legacy.LegacyInsert`. The properties are then proved as lemmas about those functions.

What the model proves about a rebuilt schedule (`WellFormed`):

- Days are numbered 1..N in order.
- Every row is positive.
- No task has two rows on one day.
- Every divisible row records, as its start day, the day it sits on.
- No day goes over 600 minutes.

It also proves that every task id holds exactly the positive minutes of its tasks (conservation).

Some constructor calls in the source match no declared constructor, and the model resolves them as follows:

- `SchedulerService.cs` lines 159 and 201 call a four-argument `TaskAssignment` constructor. The model uses the three-argument, indivisible row there, which is what those branches evidently intend.
- `Scheduler.cs` lines 20, 28 and 41 pass the task's name first to two- and four-argument forms. The model uses the name as both id and name, with the indivisible or divisible row as the branch implies.

Where the code and its comments disagree, the model follows the code:

- The comment at `SchedulerService.cs:138-139` promises an even split of divisible tasks. The code assigns `min(remaining, available)` (line 140), so a 900-minute task over 3 days on an empty schedule ends up as 600 + 300.
- The code has no rebalancing pass and never drops empty days.
- Before the first change the service's schedule is empty (`SchedulerService.cs:11`), not one empty day.

## Model

| member | source | states |
|---|---|---|
| Sums.FirstWhere | BACKEND/TaskManager/TaskManager/Services/SchedulerService.cs:23 | `FirstOrDefault` with a predicate: the index of the first element that satisfies it, or none exactly when no element does |
| TaskItems.TaskItem.TotalMinutes | BACKEND/TaskManager/TaskManager/Models/TaskItem.cs:9 | the length in minutes is a whole number of hours: a multiple of 60 whose quotient by 60 is `totalHours` |
| TaskItems.TaskItem.Divisible | BACKEND/TaskManager/TaskManager/Models/TaskItem.cs:10 | definition: a task is divisible exactly when it has more than one available day; the split branches of `Pass` and `LegacyInsert` turn on it |
| TaskItems.NewTaskItem | BACKEND/TaskManager/TaskManager/Models/TaskItem.cs:12-18 | the constructor stores name, hours and available days unchanged, with the id given rather than drawn; its length is 60 × hours |
| TaskAssignments.IndivisibleAssignment | BACKEND/TaskManager/TaskManager/Models/TaskAssignment.cs:13-19 | the three-argument constructor keeps id, name and minutes; the row is not divisible and its window fields stay 0 |
| TaskAssignments.DivisibleAssignment | BACKEND/TaskManager/TaskManager/Models/TaskAssignment.cs:22-30 | the five-argument constructor keeps id, name and minutes; the row is divisible and records the start day and window as given |
| DaySchedules.TotalMinutes | BACKEND/TaskManager/TaskManager/Models/DaySchedule.cs:11 | definition: the sum of the minutes of the rows with positive minutes; properties in LoadBounds, AppendActiveRow, AppendInactiveRow, GrowActiveRow |
| DaySchedules.ActiveCount | BACKEND/TaskManager/TaskManager/Models/DaySchedule.cs:17-18 | definition: the number of rows with positive minutes; properties in AllPositiveActiveCount, ActiveCountAtMostRows |
| DaySchedules.EffectiveLoad | BACKEND/TaskManager/TaskManager/Models/DaySchedule.cs:13-21 | definition: the active minutes plus one 15-minute break between each two active rows; properties in LoadBounds, AppendActiveRow, AppendInactiveRow, GrowActiveRow |
| DaySchedules.RemainingMinutes | BACKEND/TaskManager/TaskManager/Models/DaySchedule.cs:22 | remaining minutes and load always add up to the capacity of 600 |
| DaySchedules.NewDay | BACKEND/TaskManager/TaskManager/Models/DaySchedule.cs:24-27 | a new day has the given number, no rows, no minutes, load 0 and 600 minutes remaining |
| DaySchedules.LoadBounds | BACKEND/TaskManager/TaskManager/Models/DaySchedule.cs:11-21 | 0 ≤ active minutes ≤ load; load equals the minutes exactly when at most one row is active; no active row means load 0 |
| DaySchedules.AppendActiveRow | BACKEND/TaskManager/TaskManager/Models/DaySchedule.cs:11-21 | appending a positive row raises the load by its minutes, plus one 15-minute break if the day already had an active row |
| DaySchedules.AppendInactiveRow | BACKEND/TaskManager/TaskManager/Models/DaySchedule.cs:11 | a row with zero or negative minutes changes neither the minutes nor the load |
| DaySchedules.GrowActiveRow | BACKEND/TaskManager/TaskManager/Models/DaySchedule.cs:11-21 | adding minutes to an active row raises the load by exactly those minutes |
| DaySchedules.AllPositiveActiveCount | BACKEND/TaskManager/TaskManager/Models/DaySchedule.cs:13-18 | when every row is positive, every row is active, so "has rows" and "has active rows" agree |
| DaySchedules.ActiveCountAtMostRows | BACKEND/TaskManager/TaskManager/Models/DaySchedule.cs:17-18 | the active rows are never more than the rows |
| Placement.AvailableMinutes | BACKEND/TaskManager/TaskManager/Services/SchedulerService.cs:218-226 | definition: remaining minutes less one break when the day has any row; properties in AvailableMinutesMeaning, Target, AssignKeepsDayOk |
| Placement.AvailableMinutesMeaning | BACKEND/TaskManager/TaskManager/Services/SchedulerService.cs:218-226 | on a day of positive rows, the available minutes are what is left after the break one more active row would bring |
| Placement.WindowBound | BACKEND/TaskManager/TaskManager/Services/SchedulerService.cs:150-155 | in a well-formed schedule every divisible row lies inside the window `[start, start + availableDays)` it records |
| Placement.WithNewDay | BACKEND/TaskManager/TaskManager/Services/SchedulerService.cs:229-235 | definition: appends an empty day numbered `Count + 1`; properties in WithNewDayFacts and the method CreateNewDay |
| Placement.WithNewDayFacts | BACKEND/TaskManager/TaskManager/Services/SchedulerService.cs:229-235 | appending day `Count + 1` moves no task's minutes or rows and keeps a schedule well-formed |
| Placement.CanTake | BACKEND/TaskManager/TaskManager/Services/SchedulerService.cs:116 | definition: the `Where` filter, available minutes at least the need; used by LeastLoadedEligible and LeastLoadedEligibleMeaning |
| Placement.LeastLoadedEligible | BACKEND/TaskManager/TaskManager/Services/SchedulerService.cs:116-118 | the chosen day is in the list and has at least `need` available minutes |
| Placement.LeastLoadedEligibleMeaning | BACKEND/TaskManager/TaskManager/Services/SchedulerService.cs:116-118 | no eligible day has less load than the chosen one; every earlier eligible day has strictly more (stable order); none exactly when no day is eligible |
| Placement.Target | BACKEND/TaskManager/TaskManager/Services/SchedulerService.cs:116-122 | the day written to (chosen, or appended when none qualifies) has at least `min(need, 600)` available minutes |
| Placement.NewRow | BACKEND/TaskManager/TaskManager/Services/SchedulerService.cs:150-161 | definition: the five-argument divisible row recording the day and window, else the indivisible row (also lines 192-203); properties in AppendKeepsDayOk, AssignTally, WindowBound |
| Placement.AssignMinutes | BACKEND/TaskManager/TaskManager/Services/SchedulerService.cs:143-162 | writing minutes keeps the day's number; what it adds is stated by AssignTally and AssignKeepsDayOk |
| Placement.AssignTally | BACKEND/TaskManager/TaskManager/Services/SchedulerService.cs:143-162 | the task's minutes on the day grow by exactly the amount written, no other task's minutes or rows change, and a task without a row gets exactly one |
| Placement.AssignKeepsDayOk | BACKEND/TaskManager/TaskManager/Services/SchedulerService.cs:140-162 | writing between 1 and the available minutes keeps rows positive and unique per task, start days right, and the load within 600 |
| Placement.GrowKeepsDayOk | BACKEND/TaskManager/TaskManager/Services/SchedulerService.cs:143-147 | adding minutes to the task's existing row keeps every row positive with its id, start day and window |
| Placement.AppendKeepsDayOk | BACKEND/TaskManager/TaskManager/Services/SchedulerService.cs:148-161 | a new row for a task with no row on the day keeps one row per task on the day |
| Placement.Place | BACKEND/TaskManager/TaskManager/Services/SchedulerService.cs:140-164 | each pass writes at least one and at most the remaining minutes; when the whole remainder fits in one day it is written at once |
| Placement.Pass | BACKEND/TaskManager/TaskManager/Services/SchedulerService.cs:111-213 | one loop pass strictly lowers the remaining minutes, never below 0, and never removes a day |
| Placement.DistributeFrom | BACKEND/TaskManager/TaskManager/Services/SchedulerService.cs:114-213 | definition: the `while (minutesRemaining > 0)` loop as passes until nothing remains, terminating because each Pass lowers the remainder; properties in DistributeTally and DistributeWellFormed |
| Placement.Distribute | BACKEND/TaskManager/TaskManager/Services/SchedulerService.cs:106-215 | definition: the loop started from the length and available days of the task; properties in DistributeTally, DistributeWellFormed, IndivisibleTaskTakesOneRow; the method DistributeTask is proved to compute it |
| Placement.DistributeTally | BACKEND/TaskManager/TaskManager/Services/SchedulerService.cs:106-215 | distributing a task adds exactly its positive length to its id, and nothing to any other id's minutes or rows |
| Placement.DistributeWellFormed | BACKEND/TaskManager/TaskManager/Services/SchedulerService.cs:106-215 | a well-formed schedule stays well-formed (numbering, positive rows, one row per task per day, start days, load ≤ 600) and loses no day |
| Placement.IndivisibleTaskTakesOneRow | BACKEND/TaskManager/TaskManager/Services/SchedulerService.cs:172-183 | an indivisible task of 1..600 minutes not yet on the schedule ends as exactly one row |
| Ordering.Precedes | BACKEND/TaskManager/TaskManager/Services/SchedulerService.cs:91-96 | definition: the strict `OrderBy(AvailableDays).ThenBy(TotalMinutes)` comparison; properties in SortTasksOrdered |
| Ordering.Insert | BACKEND/TaskManager/TaskManager/Services/SchedulerService.cs:91-96 | definition: one step of the stable sort, placing a task before the first task that does not precede it; properties in InsertMultiset, InsertSorted, InsertWithKey, InsertSum |
| Ordering.SortTasks | BACKEND/TaskManager/TaskManager/Services/SchedulerService.cs:91-96 | the result is a permutation of the tasks (same length, same multiset) |
| Ordering.SortTasksOrdered | BACKEND/TaskManager/TaskManager/Services/SchedulerService.cs:91-96 | the result is ordered by available days and then by length, and tasks that tie on both keep their original order (stable sort) |
| Ordering.InsertSorted | BACKEND/TaskManager/TaskManager/Services/SchedulerService.cs:91-96 | inserting a task into a sorted list keeps it sorted |
| Ordering.InsertWithKey | BACKEND/TaskManager/TaskManager/Services/SchedulerService.cs:91-96 | an inserted task comes first among the tasks of its key, and every other key's tasks keep their order |
| Ordering.SortSum | BACKEND/TaskManager/TaskManager/Services/SchedulerService.cs:91-96 | any per-task total is the same before and after sorting |
| Rebuilding.InitialDays | BACKEND/TaskManager/TaskManager/Services/SchedulerService.cs:76-80 | the simulation starts from days numbered 1..n, all empty (none when n ≤ 0) |
| Rebuilding.InitialDaysFacts | BACKEND/TaskManager/TaskManager/Services/SchedulerService.cs:76-80 | the initial days are well-formed and hold no minute or row of any task |
| Rebuilding.DistributeAll | BACKEND/TaskManager/TaskManager/Services/SchedulerService.cs:82-85 | definition: `foreach` over the tasks, distributing each in list order; properties in DistributeAllTally, DistributeAllWellFormed, DistributeAllKeepsRows, DistributeAllSingleRow |
| Rebuilding.DistributeAllTally | BACKEND/TaskManager/TaskManager/Services/SchedulerService.cs:82-85 | distributing a list of tasks adds to each id exactly the positive lengths of its tasks |
| Rebuilding.DistributeAllWellFormed | BACKEND/TaskManager/TaskManager/Services/SchedulerService.cs:82-85 | distributing a list of tasks keeps a schedule well-formed and loses no day |
| Rebuilding.DistributeAllKeepsRows | BACKEND/TaskManager/TaskManager/Services/SchedulerService.cs:82-85 | tasks with other ids never add or remove a row of an id |
| Rebuilding.DistributeAllSingleRow | BACKEND/TaskManager/TaskManager/Services/SchedulerService.cs:82-85 | the only task with its id, indivisible and 1..600 minutes long, ends as exactly one row |
| Rebuilding.Simulate | BACKEND/TaskManager/TaskManager/Services/SchedulerService.cs:74-88 | definition: the initial days, then every task distributed; properties in SimulateFacts; the method SimulateSchedule is proved to compute it |
| Rebuilding.SimulateFacts | BACKEND/TaskManager/TaskManager/Services/SchedulerService.cs:74-88 | a simulation keeps at least its initial days, is well-formed, and gives every id exactly what its tasks are owed |
| Rebuilding.HeaviestDay | BACKEND/TaskManager/TaskManager/Services/SchedulerService.cs:245 | an index of a day whose load is at least every other day's |
| Rebuilding.LightestDay | BACKEND/TaskManager/TaskManager/Services/SchedulerService.cs:244 | an index of a day whose load is at most every other day's |
| Rebuilding.EvaluateSchedule | BACKEND/TaskManager/TaskManager/Services/SchedulerService.cs:239-247 | the worst score (`double.MaxValue`) exactly when there is no day |
| Rebuilding.EvaluateScheduleMeaning | BACKEND/TaskManager/TaskManager/Services/SchedulerService.cs:239-247 | the score of a non-empty schedule is non-negative, no two days' loads differ by more, and some two differ by exactly that |
| Rebuilding.SelectBest | BACKEND/TaskManager/TaskManager/Services/SchedulerService.cs:55-68 | with strict `<`, the kept candidate beats every earlier one and no later one beats it; nothing is kept exactly when every candidate scores worst |
| Rebuilding.SelectBestStep | BACKEND/TaskManager/TaskManager/Services/SchedulerService.cs:63-67 | one more loop turn keeps the new candidate exactly when it beats the best so far |
| Rebuilding.SelectionTurn | BACKEND/TaskManager/TaskManager/Services/SchedulerService.cs:59-67 | one loop turn simulates exactly candidate k with the k-th metric, and the selection over one more metric keeps k exactly when that metric beats the best so far |
| Rebuilding.CeilDays | BACKEND/TaskManager/TaskManager/Services/SchedulerService.cs:52 | exact integer ceiling of minutes / 600: `(n - 1) × 600 < minutes ≤ n × 600` |
| Rebuilding.EstimatedDays | BACKEND/TaskManager/TaskManager/Services/SchedulerService.cs:51-52 | at least one day; for a positive total, the fewest days whose capacity covers the total length |
| Rebuilding.Candidates | BACKEND/TaskManager/TaskManager/Services/SchedulerService.cs:59-61 | three candidates, the k-th simulating the sorted tasks over estimate + k days |
| Rebuilding.CandidateFacts | BACKEND/TaskManager/TaskManager/Services/SchedulerService.cs:59-61 | every candidate has at least estimate + k days, is well-formed and conserves every id |
| Rebuilding.Rebuild | BACKEND/TaskManager/TaskManager/Services/SchedulerService.cs:47-71 | definition: the selected candidate of the sorted tasks over estimate .. estimate + 2 days; properties in RebuildSelects, RebuildPicksFirstMostBalanced, RebuildFacts and the Rebuild* lemmas below; the method RebuildSchedule is proved to compute it |
| Rebuilding.RebuildSelects | BACKEND/TaskManager/TaskManager/Services/SchedulerService.cs:55-70 | the first candidate has a day and so a finite score, hence some candidate is always kept and the schedule is never left null |
| Rebuilding.RebuildPicksFirstMostBalanced | BACKEND/TaskManager/TaskManager/Services/SchedulerService.cs:52-70 | the rebuilt schedule is a candidate whose spread is strictly below every earlier candidate's and not above any later one's |
| Rebuilding.RebuildShape | BACKEND/TaskManager/TaskManager/Services/SchedulerService.cs:47-71 | a rebuilt schedule has at least one day and is well-formed |
| Rebuilding.RebuildFacts | BACKEND/TaskManager/TaskManager/Services/SchedulerService.cs:47-71 | a rebuilt schedule has a day, is well-formed, and conserves every id at once |
| Rebuilding.RebuildConserves | BACKEND/TaskManager/TaskManager/Services/SchedulerService.cs:47-71 | after a rebuild every id holds exactly the positive lengths of its tasks |
| Rebuilding.RebuildPlacesEachTask | BACKEND/TaskManager/TaskManager/Services/SchedulerService.cs:47-71 | with distinct ids, each task's rows hold exactly its length (nothing for a non-positive one) |
| Rebuilding.RebuildIndivisibleOneRow | BACKEND/TaskManager/TaskManager/Services/SchedulerService.cs:172-183 | with distinct ids, an indivisible task of 1..600 minutes sits on exactly one row of the rebuilt schedule |
| Rebuilding.RebuildWithoutId | BACKEND/TaskManager/TaskManager/Services/SchedulerService.cs:47-71 | with no task carrying an id, the rebuilt schedule has no row and no minute of it |
| Rebuilding.RemovedIdAbsent | BACKEND/TaskManager/TaskManager/Services/SchedulerService.cs:37-40 | with distinct ids, removing a task leaves no task with its id |
| Rebuilding.DeletedTaskLeavesNoRow | BACKEND/TaskManager/TaskManager/Services/SchedulerService.cs:35-43 | with distinct ids, the schedule rebuilt after a delete has no row of the deleted task |
| Rebuilding.AbsentIdHasNoRow | BACKEND/TaskManager/TaskManager/Services/SchedulerService.cs:37-38 | a schedule rebuilt from tasks none of which carries an id has no row of it |
| Service.DeleteLeavesNoRow | BACKEND/TaskManager/TaskManager/Services/SchedulerService.cs:35-43 | with distinct ids, a delete leaves no row of the id: when a task carries it, the rebuild without that task has none; when none does, the current schedule (a rebuild, or the empty initial one) has none |
| Service.SchedulerService.constructor | BACKEND/TaskManager/TaskManager/Services/SchedulerService.cs:10-11 | a new service has no task and an empty schedule |
| Service.SchedulerService.AddTask | BACKEND/TaskManager/TaskManager/Services/SchedulerService.cs:14-18 | the task is appended and the schedule becomes the rebuild of the list: at least one day, well-formed, every id conserved |
| Service.SchedulerService.UpdateTask | BACKEND/TaskManager/TaskManager/Services/SchedulerService.cs:21-32 | the first task with the id takes the new name, hours and days and the schedule is rebuilt; an unknown id changes neither list |
| Service.SchedulerService.DeleteTask | BACKEND/TaskManager/TaskManager/Services/SchedulerService.cs:35-43 | exactly the first task with the id is removed and the schedule rebuilt; an unknown id changes nothing; with distinct ids no row of it remains |
| Service.SchedulerService.RebuildSchedule | BACKEND/TaskManager/TaskManager/Services/SchedulerService.cs:47-71 | the loop over the three day counts leaves the task list alone and sets the schedule to `Rebuild` of it, the first most balanced candidate (RebuildFacts: at least one day, well-formed, conserving) |
| Service.SchedulerService.SimulateSchedule | BACKEND/TaskManager/TaskManager/Services/SchedulerService.cs:74-88 | the loops build days 1..n and distribute the tasks in order, giving `Simulate(n, tasks)`, with at least n days |
| Service.SchedulerService.DistributeTask | BACKEND/TaskManager/TaskManager/Services/SchedulerService.cs:106-215 | the while loop computes `Distribute`; the task's id gains exactly its positive length; a well-formed schedule stays well-formed and loses no day |
| Service.SchedulerService.CreateNewDay | BACKEND/TaskManager/TaskManager/Services/SchedulerService.cs:229-235 | appends an empty day numbered `Count + 1` with 600 available minutes, returns its index, keeps the old days and well-formedness |
| Legacy.TruncDiv | BACKEND/TaskManager/TaskManager/Models/Scheduler.cs:33 | C# integer division: the quotient has the dividend's sign and rounds toward zero |
| Legacy.SplitPrefix | BACKEND/TaskManager/TaskManager/Models/Scheduler.cs:34-42 | after n turns the list is as long as the old list or n, whichever is more |
| Legacy.FitsOn | BACKEND/TaskManager/TaskManager/Models/Scheduler.cs:18 | definition: the first-fit test, remaining minutes covering the task plus a break when the day has any row; properties in LegacyUsesFirstFit, FitKeepsCapacity |
| Legacy.LegacyRow | BACKEND/TaskManager/TaskManager/Models/Scheduler.cs:20 | definition: the indivisible row, with the task name as both id and name; properties in LegacyUsesFirstFit, LegacyOpensDay |
| Legacy.InsertIndivisible | BACKEND/TaskManager/TaskManager/Models/Scheduler.cs:13-29 | definition: the first day that fits gets the row, else day `Count + 1` is appended with it; properties in LegacyUsesFirstFit, LegacyOpensDay, LegacyIndivisibleRespectsCapacity |
| Legacy.SplitRow | BACKEND/TaskManager/TaskManager/Models/Scheduler.cs:41 | definition: the divisible row of one share on day `i + 1`; properties in SplitTallyStep, LegacySplitFacts |
| Legacy.SplitDay | BACKEND/TaskManager/TaskManager/Models/Scheduler.cs:34-42 | definition: position `i` after `n` turns of the split loop; properties in SplitStep |
| Legacy.LegacyInsert | BACKEND/TaskManager/TaskManager/Models/Scheduler.cs:11-44 | definition: the indivisible branch, or the split loop run `availableDays` times; properties in LegacyUsesFirstFit, LegacyOpensDay, LegacySplitFacts, LegacyOnlyAppends; the method InsertTask is proved to compute it |
| Legacy.LegacyUsesFirstFit | BACKEND/TaskManager/TaskManager/Models/Scheduler.cs:16-23 | an indivisible task goes to the first day, in list order, whose remaining minutes cover it plus a break when the day has rows; no other day changes |
| Legacy.LegacyOpensDay | BACKEND/TaskManager/TaskManager/Models/Scheduler.cs:26-28 | when no day fits, exactly one day numbered `Count + 1` is appended, holding only the task |
| Legacy.FitKeepsCapacity | BACKEND/TaskManager/TaskManager/Models/Scheduler.cs:18-20 | a day that passes the first-fit test stays within 600 after taking a task of positive length |
| Legacy.LegacyIndivisibleRespectsCapacity | BACKEND/TaskManager/TaskManager/Models/Scheduler.cs:13-23 | every old day is either unchanged or within 600 after an indivisible insert of positive length |
| Legacy.AddRowTally | BACKEND/TaskManager/TaskManager/Models/Scheduler.cs:41 | appending a row adds its minutes to its id on that day |
| Legacy.SplitStep | BACKEND/TaskManager/TaskManager/Models/Scheduler.cs:34-42 | one loop turn appends day i + 1 if it is missing, then adds one share row to position i |
| Legacy.SplitTallyStep | BACKEND/TaskManager/TaskManager/Models/Scheduler.cs:41 | one loop turn adds exactly one share to the task's name |
| Legacy.SplitPrefixTally | BACKEND/TaskManager/TaskManager/Models/Scheduler.cs:33-42 | after n turns the task's name holds n shares more than before |
| Legacy.SplitPrefixZero | BACKEND/TaskManager/TaskManager/Models/Scheduler.cs:34 | before the first turn the days are unchanged |
| Legacy.LegacySplitFacts | BACKEND/TaskManager/TaskManager/Models/Scheduler.cs:30-43 | a divisible task leaves at least D days; each of days 1..D ends with a row of `T / D` minutes; D × (T / D) minutes are placed, and for T ≥ 0 the dropped minutes are exactly `T mod D` |
| Legacy.LegacyOnlyAppends | BACKEND/TaskManager/TaskManager/Models/Scheduler.cs:11-44 | insertion only appends rows and days: old days keep their number and rows, appended days are numbered by position, and a list numbered 1..N stays so |
| Legacy.Scheduler.constructor | BACKEND/TaskManager/TaskManager/Models/Scheduler.cs:7-10 | a new scheduler has exactly one day, numbered 1, with no rows |
| Legacy.Scheduler.InsertTask | BACKEND/TaskManager/TaskManager/Models/Scheduler.cs:11-44 | the first-fit loop and the split loop compute `LegacyInsert` |
| Controller.Admission | BACKEND/TaskManager/TaskManager/Controllers/SchedulerController.cs:26-33 | an indivisible task over 600 minutes, and a divisible one over 600 × its days, are rejected; exactly the others are accepted (both bounds inclusive) |
| Controller.AdmittedIndivisibleTaskTakesOneRow | BACKEND/TaskManager/TaskManager/Controllers/SchedulerController.cs:26-36 | an accepted indivisible task with a positive length and a fresh id sits on exactly one row of the rebuilt schedule |
| Controller.AdmittedTaskFullyPlaced | BACKEND/TaskManager/TaskManager/Controllers/SchedulerController.cs:30-36 | an accepted task with a positive length and a fresh id has all its minutes on the rebuilt schedule |
| Controller.SchedulerController.constructor | BACKEND/TaskManager/TaskManager/Controllers/SchedulerController.cs:12-15 | the controller keeps the service it is given |
| Controller.SchedulerController.GetSchedule | BACKEND/TaskManager/TaskManager/Controllers/SchedulerController.cs:17-20 | returns the service's schedule unchanged |
| Controller.SchedulerController.AddTask | BACKEND/TaskManager/TaskManager/Controllers/SchedulerController.cs:22-37 | the reply is the admission outcome; a rejected task leaves the service untouched; an accepted one is appended once and the schedule rebuilt, well-formed |

## Left out

- Host setup in `Program.cs`, the `ISchedulerService` interface (no logic) and the browser front end are not part of this model.
- HTTP concerns of the controller (model binding, the `BadRequest` and `Ok` objects, the message texts) are reduced to the `Outcome` datatype.
- The task id is an input: the constructor's `Guid.NewGuid()` is nondeterministic.
- Integers are unbounded. `TotalHours * 60`, the LINQ sums, the loads and the controller's `DaySchedule.Capacity * task.AvailableDays` (`SchedulerController.cs:30`) could overflow 32-bit `int` in the source, which is not modelled. For the controller's product this changes the decision: from 3,579,140 available days on, the product wraps (at exactly 3,579,140 it is negative, so the source rejects every divisible task of non-negative length), while `Controller.Admission` accepts any length up to 600 × days.
- The `double` metric and `Math.Ceiling` are replaced by the exact `Metric` datatype and integer ceiling division. For `int` totals they agree.
- Values replace objects, so aliasing is not captured. `DistributeTask` and `CreateNewDay` change the caller's list and its `DaySchedule` objects in place; the model returns the new list. `UpdateTask` writes into the stored `TaskItem` object, which a caller holding the same object would also see.
- The re-checks at `SchedulerService.cs:127-136` are not modelled as code. The first tests `!Divisible` inside the divisible branch. The second tests for no available minutes on a day that was chosen for having some. Neither can fire, and `Placement.Target` proves the chosen day has at least one available minute.
- The null `ScheduleDays` that `RebuildSchedule` would store when no candidate had a day cannot occur (`Rebuilding.RebuildShape`). `Rebuilding.Rebuild` writes an empty list in that branch.
- Null tasks and null lists are not modelled.
- Concurrency is not modelled: the service is a shared singleton with no locking.
- Service.SchedulerService.SimulateSchedule: its contract states only the link to `Rebuilding.Simulate` and the day count. Well-formedness and conservation of the result are proved about `Simulate` by `Rebuilding.SimulateFacts`.
- Service.SchedulerService.DeleteTask: that no row of the deleted task remains is stated only when the ids were distinct, because the source allows several tasks with one id and removes only the first.
