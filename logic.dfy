/** The list operations of `logic.py`. The caller owns a Python list of
    dictionaries with the keys `title`, `note` and `date`; each operation
    changes that list in place and hands the same list object back. */
module Logic {

  /** One dictionary of the list. */
  datatype Task = Task(title: string, note: string, date: string)

  /** The caller's list object. Its identity matters: every operation returns
      the very object it was given. */
  class TaskList {
    var items: seq<Task>

    constructor (items: seq<Task>)
      ensures this.items == items
    {
      this.items := items;
    }
  }

  /** The bounds check `0 <= index < len(tasks)` that guards deletion and editing. */
  predicate InRange(s: seq<Task>, index: int)
  {
    0 <= index < |s|
  }

  /** The list after `del tasks[index]` when the index passes the bounds check,
      the list itself otherwise. */
  function Deleted(s: seq<Task>, index: int): (r: seq<Task>)
    ensures InRange(s, index) ==> |r| == |s| - 1
    ensures InRange(s, index) ==> forall j :: 0 <= j < index ==> r[j] == s[j]
    ensures InRange(s, index) ==> forall j :: index <= j < |r| ==> r[j] == s[j + 1]
    ensures !InRange(s, index) ==> r == s
  {
    if InRange(s, index) then s[..index] + s[index + 1..] else s
  }

  /** The list after the record at `index` has had its title and note replaced,
      when the index passes the bounds check; the list itself otherwise. */
  function Edited(s: seq<Task>, index: int, title: string, note: string): (r: seq<Task>)
    ensures |r| == |s|
    ensures forall j :: 0 <= j < |s| && j != index ==> r[j] == s[j]
    ensures InRange(s, index) ==>
      r[index].title == title && r[index].note == note && r[index].date == s[index].date
    ensures !InRange(s, index) ==> r == s
  {
    if InRange(s, index) then s[index := s[index].(title := title, note := note)] else s
  }

  /** `add_task`: append a new record and return the same list. */
  method AddTask(tasks: TaskList, title: string, note: string, date: string) returns (r: TaskList)
    modifies tasks
    ensures r == tasks
    ensures |tasks.items| == |old(tasks.items)| + 1
    ensures tasks.items[..|old(tasks.items)|] == old(tasks.items)
    ensures tasks.items[|old(tasks.items)|] == Task(title, note, date)
  {
    tasks.items := tasks.items + [Task(title, note, date)];
    r := tasks;
  }

  /** `delete_task`: remove the record at `index` if it is in range, and
      return the same list. */
  method DeleteTask(tasks: TaskList, index: int) returns (r: TaskList)
    modifies tasks
    ensures r == tasks
    ensures tasks.items == Deleted(old(tasks.items), index)
  {
    if 0 <= index < |tasks.items| {
      tasks.items := tasks.items[..index] + tasks.items[index + 1..];
    }
    r := tasks;
  }

  /** `edit_task`: replace the title and the note of the record at `index` if
      it is in range, and return the same list. */
  method EditTask(tasks: TaskList, index: int, newTitle: string, newNote: string) returns (r: TaskList)
    modifies tasks
    ensures r == tasks
    ensures tasks.items == Edited(old(tasks.items), index, newTitle, newNote)
  {
    if 0 <= index < |tasks.items| {
      tasks.items := tasks.items[index := tasks.items[index].(title := newTitle)];
      tasks.items := tasks.items[index := tasks.items[index].(note := newNote)];
    }
    r := tasks;
  }

  /** Deleting the record that was just added gives back the list as it was
      before the addition. */
  lemma DeleteUndoesAdd(s: seq<Task>, t: Task)
    ensures Deleted(s + [t], |s|) == s
  {
  }

  /** Editing a record and then editing it back to its old title and note
      restores the list. */
  lemma EditUndoesEdit(s: seq<Task>, index: int, title: string, note: string)
    requires InRange(s, index)
    ensures Edited(Edited(s, index, title, note), index, s[index].title, s[index].note) == s
  {
  }

  /** Editing twice at the same index with the same values is the same as editing once. */
  lemma EditIdempotent(s: seq<Task>, index: int, title: string, note: string)
    ensures Edited(Edited(s, index, title, note), index, title, note) == Edited(s, index, title, note)
  {
  }

  /** An edit never changes which dates the list holds, position by position. */
  lemma EditKeepsDates(s: seq<Task>, index: int, title: string, note: string)
    ensures forall j :: 0 <= j < |s| ==> Edited(s, index, title, note)[j].date == s[j].date
  {
  }
}
