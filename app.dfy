/** The task-lifecycle rules of the Kivy layout in `main.py`, with the widgets
    taken away: the due-now reminder scan, the done flag, removal by value and
    the creation of a task from the five date and time spinners. */
module App {
  import opened Options
  import opened Stamps

  /** One dictionary of the layout's list. `notified` is `None` when the key is
      absent, as in a list loaded from a file written before the key existed. */
  datatype Task = Task(text: string, date: string, done: bool, notified: Option<bool>)

  /** What a spinner shows: its placeholder label or one of its numeric values. */
  datatype Field = Placeholder | Chosen(value: int)

  const PickDateMessage := "Выберите дату и время задачи"
  const BadDateMessage := "Неверная дата или время"
  const TaskTextPrefix := "Задача на "
  const AlertPrefix := "Время задачи: "

  /** `task.get("notified")` is truthy. */
  predicate Notified(t: Task)
  {
    t.notified.Some? && t.notified.value
  }

  /** The condition under which the reminder scan fires for a task. */
  predicate Due(t: Task, now: string)
    ensures Due(t, now) <==> !t.done && (t.notified == None || t.notified == Some(false)) && t.date == now
  {
    assert t.notified.Some? ==> t.notified == Some(t.notified.value);
    !t.done && !Notified(t) && t.date == now
  }

  /** The popup text shown for a task that has come due. */
  function Alert(t: Task): string
  {
    AlertPrefix + t.text
  }

  /** A task after one scan at minute `now`. */
  function Fired(t: Task, now: string): (r: Task)
    ensures r.text == t.text && r.date == t.date && r.done == t.done
    ensures Due(t, now) ==> Notified(r)
    ensures !Due(t, now) ==> r == t
    ensures !Due(r, now)
  {
    if Due(t, now) then t.(notified := Some(true)) else t
  }

  /** The list after one reminder scan at minute `now`. */
  function Scan(ts: seq<Task>, now: string): (r: seq<Task>)
    ensures |r| == |ts|
    ensures forall i :: 0 <= i < |ts| ==>
      r[i].text == ts[i].text && r[i].date == ts[i].date && r[i].done == ts[i].done
    ensures forall i :: 0 <= i < |ts| && Due(ts[i], now) ==> Notified(r[i])
    ensures forall i :: 0 <= i < |ts| && !Due(ts[i], now) ==> r[i] == ts[i]
    ensures forall i :: 0 <= i < |ts| && Notified(ts[i]) ==> Notified(r[i])
    ensures forall i :: 0 <= i < |ts| ==> !Due(r[i], now)
  {
    seq(|ts|, i requires 0 <= i < |ts| => Fired(ts[i], now))
  }

  /** The popups one scan at minute `now` shows, in list order. */
  function Alerts(ts: seq<Task>, now: string): (r: seq<string>)
    ensures |r| <= |ts|
  {
    if ts == [] then []
    else
      var last := ts[|ts| - 1];
      Alerts(ts[..|ts| - 1], now) + (if Due(last, now) then [Alert(last)] else [])
  }

  /** The positions of the tasks that are due at minute `now`, in increasing order. */
  function DueIndices(ts: seq<Task>, now: string): (r: seq<nat>)
    ensures forall k :: 0 <= k < |r| ==> r[k] < |ts| && Due(ts[r[k]], now)
    ensures forall i :: 0 <= i < |ts| && Due(ts[i], now) ==> i in r
    ensures forall k, l :: 0 <= k < l < |r| ==> r[k] < r[l]
  {
    if ts == [] then []
    else
      var init := ts[..|ts| - 1];
      assert forall i :: 0 <= i < |init| ==> init[i] == ts[i];
      DueIndices(init, now) + (if Due(ts[|ts| - 1], now) then [|ts| - 1] else [])
  }

  /** The positions of the tasks that are due at minute `now`, as a set. */
  function DueSet(ts: seq<Task>, now: string): set<int>
  {
    set i | 0 <= i < |ts| && Due(ts[i], now)
  }

  /** The popups of one scan are, in list order, the alerts of exactly the
      tasks that were due when it started, each once. */
  lemma {:induction false} AlertsAreDueTasks(ts: seq<Task>, now: string)
    ensures |Alerts(ts, now)| == |DueIndices(ts, now)|
    ensures forall k :: 0 <= k < |Alerts(ts, now)| ==>
      Alerts(ts, now)[k] == Alert(ts[DueIndices(ts, now)[k]])
  {
    if ts != [] {
      var n := |ts| - 1;
      var init := ts[..n];
      AlertsAreDueTasks(init, now);
      var a, d := Alerts(init, now), DueIndices(init, now);
      var extra := if Due(ts[n], now) then [Alert(ts[n])] else [];
      var extraIndex := if Due(ts[n], now) then [n] else [];
      assert Alerts(ts, now) == a + extra;
      assert DueIndices(ts, now) == d + extraIndex;
      forall k | 0 <= k < |a|
        ensures Alerts(ts, now)[k] == Alert(ts[DueIndices(ts, now)[k]])
      {
        assert init[d[k]] == ts[d[k]];
      }
    }
  }

  /** One scan shows exactly as many popups as there were due tasks when it started. */
  lemma {:induction false} AlertCount(ts: seq<Task>, now: string)
    ensures |Alerts(ts, now)| == |DueSet(ts, now)|
  {
    if ts != [] {
      var n := |ts| - 1;
      var init := ts[..n];
      AlertCount(init, now);
      assert forall i :: 0 <= i < n ==> init[i] == ts[i];
      if Due(ts[n], now) {
        assert DueSet(ts, now) == DueSet(init, now) + {n};
      } else {
        assert DueSet(ts, now) == DueSet(init, now);
      }
    }
  }

  /** A list in which nothing is due produces no popups. */
  lemma {:induction false} NothingDueNoAlerts(ts: seq<Task>, now: string)
    requires forall i :: 0 <= i < |ts| ==> !Due(ts[i], now)
    ensures Alerts(ts, now) == []
  {
    if ts != [] {
      NothingDueNoAlerts(ts[..|ts| - 1], now);
    }
  }

  /** A second scan at the same minute changes nothing and shows no popup. */
  lemma ScanIdempotent(ts: seq<Task>, now: string)
    ensures Scan(Scan(ts, now), now) == Scan(ts, now)
    ensures Alerts(Scan(ts, now), now) == []
  {
    NothingDueNoAlerts(Scan(ts, now), now);
  }

  /** Setting the done flag of one task changes whether that task is due and
      no other: marking it done cancels its reminder, and clearing the flag
      re-arms it only if it has not fired yet. */
  lemma ToggleDueSet(ts: seq<Task>, i: int, v: bool, now: string)
    requires 0 <= i < |ts|
    ensures DueSet(ts[i := ts[i].(done := v)], now)
      == if !v && !Notified(ts[i]) && ts[i].date == now then DueSet(ts, now) + {i}
         else DueSet(ts, now) - {i}
  {
  }

  /** The task `confirm_task` creates for a minute. */
  function NewTask(dt: DateTime): (t: Task)
    requires Valid(dt)
    ensures t.date == Stamp(dt) && t.text == TaskTextPrefix + t.date
    ensures !t.done && t.notified == Some(false)
  {
    Task(TaskTextPrefix + Stamp(dt), Stamp(dt), false, Some(false))
  }

  /** A newly created task is due at the minute it was created for and at no
      other minute. */
  lemma NewTaskDueExactlyAt(dt: DateTime, now: DateTime)
    requires Valid(dt) && Valid(now)
    ensures Due(NewTask(dt), Stamp(now)) <==> dt == now
  {
    StampInjective(dt, now);
  }

  /** What `confirm_task` decides about the five spinners. */
  datatype Verdict = MissingField | InvalidDate | Accepted(dt: DateTime)

  predicate AnyPlaceholder(day: Field, month: Field, year: Field, hour: Field, minute: Field)
  {
    day.Placeholder? || month.Placeholder? || year.Placeholder? || hour.Placeholder? || minute.Placeholder?
  }

  /** The checks of `confirm_task`: every spinner must hold a value, and the
      values must make a valid minute. */
  function Check(day: Field, month: Field, year: Field, hour: Field, minute: Field): (v: Verdict)
    ensures v == MissingField <==> AnyPlaceholder(day, month, year, hour, minute)
    ensures v.Accepted? <==> (!AnyPlaceholder(day, month, year, hour, minute)
      && Valid(DateTime(year.value, month.value, day.value, hour.value, minute.value)))
    ensures v.Accepted? ==>
      v.dt == DateTime(year.value, month.value, day.value, hour.value, minute.value)
  {
    if AnyPlaceholder(day, month, year, hour, minute) then MissingField
    else
      var dt := DateTime(year.value, month.value, day.value, hour.value, minute.value);
      if Valid(dt) then Accepted(dt) else InvalidDate
  }

  /** A day past the end of its month is refused, whatever the other spinners hold. */
  lemma DayBeyondMonthRejected(day: int, month: int, year: int, hour: int, minute: int)
    requires 1 <= month <= 12 && day > DaysInMonth(year, month)
    ensures Check(Chosen(day), Chosen(month), Chosen(year), Chosen(hour), Chosen(minute)) == InvalidDate
  {
  }

  /** The year spinner offers 2025, 2026 and 2027, none of them a leap year,
      so February 29 is never accepted. */
  lemma NoLeapDayInOfferedYears(year: int, hour: int, minute: int)
    requires 2025 <= year <= 2027
    ensures Check(Chosen(29), Chosen(2), Chosen(year), Chosen(hour), Chosen(minute)) == InvalidDate
  {
  }

  /** The layout: its task list, the five spinners, and the list it last wrote
      to the tasks file. */
  class ToDoLayout {
    var tasks: seq<Task>
    var day: Field
    var month: Field
    var year: Field
    var hour: Field
    var minute: Field
    /** The list as last written by `save_tasks`; `None` until the first write. */
    var saved: Option<seq<Task>>

    /** `__init__` with the widgets left out: the spinners show their
        placeholders and the list is what `load_tasks` read, `stored`, or
        empty when the file was missing or did not parse. */
    constructor (stored: Option<seq<Task>>)
      ensures tasks == (if stored.Some? then stored.value else [])
      ensures day == Placeholder && month == Placeholder && year == Placeholder
      ensures hour == Placeholder && minute == Placeholder
      ensures saved == None
    {
      tasks := if stored.Some? then stored.value else [];
      day, month, year, hour, minute := Placeholder, Placeholder, Placeholder, Placeholder, Placeholder;
      saved := None;
    }

    /** `save_tasks`: the whole list overwrites the file. */
    method SaveTasks()
      modifies this`saved
      ensures saved == Some(tasks)
    {
      saved := Some(tasks);
    }

    /** `check_tasks` at minute `now`: every due task is marked notified, with
        one popup for each, and the list is saved after each one. */
    method CheckTasks(now: string) returns (alerts: seq<string>)
      modifies this`tasks, this`saved
      ensures tasks == Scan(old(tasks), now)
      ensures alerts == Alerts(old(tasks), now)
      ensures saved == if alerts == [] then old(saved) else Some(tasks)
    {
      alerts := [];
      var i := 0;
      while i < |tasks|
        invariant 0 <= i <= |tasks| == |old(tasks)|
        invariant forall j :: 0 <= j < i ==> tasks[j] == Fired(old(tasks)[j], now)
        invariant forall j :: i <= j < |tasks| ==> tasks[j] == old(tasks)[j]
        invariant alerts == Alerts(old(tasks)[..i], now)
        invariant saved == if alerts == [] then old(saved) else Some(tasks)
      {
        assert old(tasks)[..i + 1][..i] == old(tasks)[..i];
        var task := tasks[i];
        if !task.done && !Notified(task) && task.date == now {
          alerts := alerts + [Alert(task)];
          tasks := tasks[i := task.(notified := Some(true))];
          SaveTasks();
        }
        i := i + 1;
      }
      assert old(tasks)[..i] == old(tasks);
    }

    /** `toggle_done`: the task at `index` takes the checkbox state `active`;
        the list is saved. */
    method ToggleDone(active: bool, index: int)
      requires 0 <= index < |tasks|
      modifies this`tasks, this`saved
      ensures tasks == old(tasks)[index := old(tasks)[index].(done := active)]
      ensures saved == Some(tasks)
    {
      tasks := tasks[index := tasks[index].(done := active)];
      SaveTasks();
    }

    /** `remove_task`: `list.remove` drops the first task equal to `task` and
        the list is saved; when no task is equal it raises `ValueError`
        (`removed` is false) before anything changes or is saved. */
    method RemoveTask(task: Task) returns (removed: bool)
      modifies this`tasks, this`saved
      ensures removed == (task in old(tasks))
      ensures removed ==> tasks == RemoveFirst(old(tasks), task) && saved == Some(tasks)
      ensures !removed ==> tasks == old(tasks) && saved == old(saved)
    {
      removed := task in tasks;
      if removed {
        tasks := RemoveFirst(tasks, task);
        SaveTasks();
      }
    }

    /** `confirm_task`: refuse with a popup while a spinner shows its
        placeholder or the values make no valid minute; otherwise append the
        new task, reset the spinners and save. */
    method ConfirmTask() returns (popup: Option<string>)
      modifies this
      ensures old(Check(day, month, year, hour, minute)) == MissingField ==>
        popup == Some(PickDateMessage) && tasks == old(tasks) && saved == old(saved)
        && day == old(day) && month == old(month) && year == old(year)
        && hour == old(hour) && minute == old(minute)
      ensures old(Check(day, month, year, hour, minute)) == InvalidDate ==>
        popup == Some(BadDateMessage) && tasks == old(tasks) && saved == old(saved)
        && day == old(day) && month == old(month) && year == old(year)
        && hour == old(hour) && minute == old(minute)
      ensures old(Check(day, month, year, hour, minute)).Accepted? ==>
        popup == None
        && tasks == old(tasks) + [NewTask(old(Check(day, month, year, hour, minute)).dt)]
        && day == Placeholder && month == Placeholder && year == Placeholder
        && hour == Placeholder && minute == Placeholder
        && saved == Some(tasks)
    {
      var verdict := Check(day, month, year, hour, minute);
      match verdict
      case MissingField =>
        popup := Some(PickDateMessage);
      case InvalidDate =>
        popup := Some(BadDateMessage);
      case Accepted(dt) =>
        tasks := tasks + [NewTask(dt)];
        day, month, year, hour, minute := Placeholder, Placeholder, Placeholder, Placeholder, Placeholder;
        SaveTasks();
        popup := None;
    }
  }

  /** The position of the first element equal to `t`. */
  function IndexOf(s: seq<Task>, t: Task): (k: nat)
    requires t in s
    ensures k < |s| && s[k] == t
    ensures forall j :: 0 <= j < k ==> s[j] != t
  {
    if s[0] == t then 0 else 1 + IndexOf(s[1..], t)
  }

  /** `list.remove` on values: the list without its first element equal to
      `t`, or the list itself when there is none. */
  function RemoveFirst(s: seq<Task>, t: Task): (r: seq<Task>)
    ensures t !in s ==> r == s
    ensures t in s ==> |r| == |s| - 1
    ensures t in s ==> forall j :: 0 <= j < IndexOf(s, t) ==> r[j] == s[j]
    ensures t in s ==> forall j :: IndexOf(s, t) <= j < |r| ==> r[j] == s[j + 1]
  {
    if s == [] then []
    else if s[0] == t then s[1..]
    else [s[0]] + RemoveFirst(s[1..], t)
  }

  /** Removing by value takes away exactly one copy of `t` and keeps every
      other element: the result is the old list less one `t`, as a multiset. */
  lemma {:induction false} RemoveFirstMultiset(s: seq<Task>, t: Task)
    requires t in s
    ensures multiset(RemoveFirst(s, t)) == multiset(s) - multiset{t}
  {
    assert s == [s[0]] + s[1..];
    if s[0] != t {
      RemoveFirstMultiset(s[1..], t);
    }
  }
}
