/** SortTasks: `OrderBy(AvailableDays).ThenBy(TotalMinutes)`, a stable sort, written as
    an insertion sort. */
module Ordering {
  import opened Sums
  import opened TaskItems

  /** `a` sorts strictly before `b`: fewer available days, or as many and fewer minutes. */
  predicate Precedes(a: TaskItem, b: TaskItem)
  {
    a.availableDays < b.availableDays
    || (a.availableDays == b.availableDays && a.TotalMinutes() < b.TotalMinutes())
  }

  ghost predicate Sorted(s: seq<TaskItem>)
  {
    forall i, j :: 0 <= i < j < |s| ==> !Precedes(s[j], s[i])
  }

  predicate HasKey(t: TaskItem, days: int, minutes: int)
  {
    t.availableDays == days && t.TotalMinutes() == minutes
  }

  /** The tasks of `s` whose sort key is `(days, minutes)`, in their order in `s`. */
  function WithKey(s: seq<TaskItem>, days: int, minutes: int): seq<TaskItem>
  {
    if s == [] then []
    else (if HasKey(s[0], days, minutes) then [s[0]] else []) + WithKey(s[1..], days, minutes)
  }

  /** Places `x` just before the first task that does not sort strictly before it. */
  function Insert(x: TaskItem, s: seq<TaskItem>): seq<TaskItem>
  {
    if s == [] || !Precedes(s[0], x) then [x] + s
    else [s[0]] + Insert(x, s[1..])
  }

  lemma {:induction false} InsertMultiset(x: TaskItem, s: seq<TaskItem>)
    ensures multiset(Insert(x, s)) == multiset(s) + multiset{x}
    ensures |Insert(x, s)| == |s| + 1
  {
    if s != [] && Precedes(s[0], x) {
      InsertMultiset(x, s[1..]);
      assert s == [s[0]] + s[1..];
    }
  }

  /** No task of `s` sorts strictly before `y`. */
  ghost predicate NoneBefore(s: seq<TaskItem>, y: TaskItem)
  {
    forall j :: 0 <= j < |s| ==> !Precedes(s[j], y)
  }

  lemma {:induction false} SortedCons(h: TaskItem, t: seq<TaskItem>)
    requires Sorted(t) && NoneBefore(t, h)
    ensures Sorted([h] + t)
  {
    var r := [h] + t;
    forall i, j | 0 <= i < j < |r|
      ensures !Precedes(r[j], r[i])
    {
      var j' := j - 1;
      assert r[j] == t[j'];
      if i > 0 {
        var i' := i - 1;
        assert r[i] == t[i'];
      }
    }
  }

  lemma {:induction false} InsertNoneBefore(x: TaskItem, s: seq<TaskItem>, y: TaskItem)
    requires NoneBefore(s, y) && !Precedes(x, y)
    ensures NoneBefore(Insert(x, s), y)
  {
    var r := Insert(x, s);
    if s == [] || !Precedes(s[0], x) {
      assert r == [x] + s;
      forall j | 0 < j < |r|
        ensures !Precedes(r[j], y)
      {
        var j' := j - 1;
        assert r[j] == s[j'];
      }
    } else {
      var rest := Insert(x, s[1..]);
      assert NoneBefore(s[1..], y) by {
        forall j | 0 <= j < |s| - 1
          ensures !Precedes(s[1..][j], y)
        {
          var j' := j + 1;
          assert s[1..][j] == s[j'];
        }
      }
      InsertNoneBefore(x, s[1..], y);
      assert r == [s[0]] + rest;
      forall j | 0 < j < |r|
        ensures !Precedes(r[j], y)
      {
        var j' := j - 1;
        assert r[j] == rest[j'];
      }
    }
  }

  lemma {:induction false} InsertSorted(x: TaskItem, s: seq<TaskItem>)
    requires Sorted(s)
    ensures Sorted(Insert(x, s))
  {
    if s == [] || !Precedes(s[0], x) {
      assert NoneBefore(s, x) by {
        forall j | 0 <= j < |s|
          ensures !Precedes(s[j], x)
        {
          if j > 0 {
            assert !Precedes(s[j], s[0]);
          }
        }
      }
      SortedCons(x, s);
    } else {
      var tail := s[1..];
      assert Sorted(tail) by {
        forall i, j | 0 <= i < j < |tail|
          ensures !Precedes(tail[j], tail[i])
        {
          var i', j' := i + 1, j + 1;
          assert tail[i] == s[i'] && tail[j] == s[j'];
        }
      }
      assert NoneBefore(tail, s[0]) by {
        forall j | 0 <= j < |tail|
          ensures !Precedes(tail[j], s[0])
        {
          var j' := j + 1;
          assert tail[j] == s[j'];
        }
      }
      InsertSorted(x, tail);
      InsertNoneBefore(x, tail, s[0]);
      SortedCons(s[0], Insert(x, tail));
    }
  }

  /** Inserting `x` puts it first among the tasks that share its key, and leaves every
      other key's tasks in their order. */
  lemma {:induction false} InsertWithKey(x: TaskItem, s: seq<TaskItem>, days: int, minutes: int)
    ensures WithKey(Insert(x, s), days, minutes)
         == (if HasKey(x, days, minutes) then [x] else []) + WithKey(s, days, minutes)
  {
    var r := Insert(x, s);
    var own := if HasKey(x, days, minutes) then [x] else [];
    if s == [] || !Precedes(s[0], x) {
      assert r == [x] + s;
      assert r[1..] == s;
      assert WithKey(r, days, minutes) == own + WithKey(s, days, minutes);
    } else {
      var tail := s[1..];
      var rest := Insert(x, tail);
      var head := if HasKey(s[0], days, minutes) then [s[0]] else [];
      InsertWithKey(x, tail, days, minutes);
      assert r == [s[0]] + rest;
      assert r[1..] == rest;
      assert WithKey(r, days, minutes) == head + (own + WithKey(tail, days, minutes));
      assert WithKey(s, days, minutes) == head + WithKey(tail, days, minutes);
      assert head == [] || own == [];
    }
  }

  lemma {:induction false} InsertSum(x: TaskItem, s: seq<TaskItem>, f: TaskItem -> int)
    ensures Sum(Insert(x, s), f) == f(x) + Sum(s, f)
  {
    if s == [] || !Precedes(s[0], x) {
      SumPrepend(x, s, f);
    } else {
      InsertSum(x, s[1..], f);
      SumPrepend(s[0], Insert(x, s[1..]), f);
      SumPrepend(s[0], s[1..], f);
      assert [s[0]] + s[1..] == s;
    }
  }

  /** SortTasks: the same tasks, rearranged (SortTasksOrdered proves the order). */
  function SortTasks(tasks: seq<TaskItem>): (r: seq<TaskItem>)
    ensures |r| == |tasks| && multiset(r) == multiset(tasks)
  {
    if tasks == [] then []
    else
      var rest := SortTasks(tasks[1..]);
      InsertMultiset(tasks[0], rest);
      assert tasks == [tasks[0]] + tasks[1..];
      Insert(tasks[0], rest)
  }

  /** The sorted tasks are ordered by available days and then by minutes, and the tasks
      that tie on both keep their original order (the sort is stable). */
  lemma {:induction false} SortTasksOrdered(tasks: seq<TaskItem>)
    ensures Sorted(SortTasks(tasks))
    ensures forall days, minutes :: WithKey(SortTasks(tasks), days, minutes) == WithKey(tasks, days, minutes)
  {
    if tasks != [] {
      var rest := SortTasks(tasks[1..]);
      SortTasksOrdered(tasks[1..]);
      InsertSorted(tasks[0], rest);
      assert tasks == [tasks[0]] + tasks[1..];
      forall days, minutes
        ensures WithKey(SortTasks(tasks), days, minutes) == WithKey(tasks, days, minutes)
      {
        InsertWithKey(tasks[0], rest, days, minutes);
      }
    }
  }

  /** Any per-task total over the list is the same before and after sorting. */
  lemma {:induction false} SortSum(tasks: seq<TaskItem>, f: TaskItem -> int)
    ensures Sum(SortTasks(tasks), f) == Sum(tasks, f)
  {
    if tasks != [] {
      SortSum(tasks[1..], f);
      InsertSum(tasks[0], SortTasks(tasks[1..]), f);
      SumPrepend(tasks[0], tasks[1..], f);
      assert tasks == [tasks[0]] + tasks[1..];
    }
  }
}
