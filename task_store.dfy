/**
 * The task endpoints of the backend: `add_task` stores a record and
 * returns it, `get_tasks` lists one day, `get_week_tasks` lists today
 * through today + 7. The database is a sequence of records with
 * increasing ids; dates are day numbers.
 */
module TaskStore {

  type Date = int

  datatype Task = Task(id: nat, date: Date, text: string)

  /** The records, in stored order, whose date lies in `[lo, hi]`. */
  function DatedBetween(tasks: seq<Task>, lo: Date, hi: Date): (r: seq<Task>)
    ensures |r| <= |tasks|
    decreases |tasks|
  {
    if tasks == [] then []
    else (if lo <= tasks[0].date <= hi then [tasks[0]] else []) + DatedBetween(tasks[1..], lo, hi)
  }

  /** A record is in the answer exactly when it is stored and its date lies in `[lo, hi]`. */
  lemma {:induction false} DatedBetweenMembers(tasks: seq<Task>, lo: Date, hi: Date)
    ensures forall t :: t in DatedBetween(tasks, lo, hi) <==> t in tasks && lo <= t.date <= hi
    decreases |tasks|
  {
    if tasks != [] {
      DatedBetweenMembers(tasks[1..], lo, hi);
      assert tasks == [tasks[0]] + tasks[1..];
    }
  }

  /** Querying after an append gives the earlier answer, followed by the new record if it matches. */
  lemma {:induction false} DatedBetweenAppend(tasks: seq<Task>, t: Task, lo: Date, hi: Date)
    ensures DatedBetween(tasks + [t], lo, hi)
            == DatedBetween(tasks, lo, hi) + (if lo <= t.date <= hi then [t] else [])
    decreases |tasks|
  {
    if tasks == [] {
      assert tasks + [t] == [t];
    } else {
      var s := tasks + [t];
      assert s[0] == tasks[0] && s[1..] == tasks[1..] + [t];
      DatedBetweenAppend(tasks[1..], t, lo, hi);
      var head := if lo <= tasks[0].date <= hi then [tasks[0]] else [];
      var tail := if lo <= t.date <= hi then [t] else [];
      calc {
        DatedBetween(s, lo, hi);
        head + DatedBetween(tasks[1..] + [t], lo, hi);
        head + (DatedBetween(tasks[1..], lo, hi) + tail);
        (head + DatedBetween(tasks[1..], lo, hi)) + tail;
        DatedBetween(tasks, lo, hi) + tail;
      }
    }
  }

  class TaskStore {
    var tasks: seq<Task>
    var nextId: nat

    /** Ids increase along the sequence and stay below the next id to hand out. */
    ghost predicate Valid()
      reads this
    {
      && (forall i :: 0 <= i < |tasks| ==> tasks[i].id < nextId)
      && (forall i, j :: 0 <= i < j < |tasks| ==> tasks[i].id < tasks[j].id)
    }

    constructor()
      ensures Valid() && tasks == []
    {
      tasks := [];
      nextId := 1;
    }

    /** `add_task`: append one record with a fresh id and return it. */
    method AddTask(date: Date, text: string) returns (t: Task)
      requires Valid()
      modifies this
      ensures Valid()
      ensures t.date == date && t.text == text && t.id == old(nextId)
      ensures tasks == old(tasks) + [t]
      ensures forall u :: u in old(tasks) ==> u.id != t.id
      ensures GetTasks(date) == old(GetTasks(date)) + [t]
    {
      t := Task(nextId, date, text);
      DatedBetweenAppend(tasks, t, date, date);
      tasks := tasks + [t];
      nextId := nextId + 1;
    }

    /** `get_tasks(date)`: exactly the records of that day. */
    function GetTasks(d: Date): (r: seq<Task>)
      reads this
      ensures forall t :: t in r <==> t in tasks && t.date == d
    {
      DatedBetweenMembers(tasks, d, d);
      DatedBetween(tasks, d, d)
    }

    /** `get_week_tasks()`: exactly the records from today to today + 7, both included. */
    function GetWeekTasks(today: Date): (r: seq<Task>)
      reads this
      ensures forall t :: t in r <==> t in tasks && today <= t.date <= today + 7
      ensures forall t :: t in r ==> t.date != today - 1 && t.date != today + 8
    {
      DatedBetweenMembers(tasks, today, today + 7);
      DatedBetween(tasks, today, today + 7)
    }
  }
}
