# To-do list task lifecycle, modelled in Dafny

This project models the core of a small to-do list application: an
in-memory list of task records and the operations that change it. It has two
independent parts, because the repository keeps two record shapes that share no code:

- `logic.py` works on a caller-owned list of `{title, note, date}` dictionaries.
  `add_task` appends a record. `delete_task` and `edit_task` act at a position
  that passes the bounds check `0 <= index < len(tasks)` and do nothing otherwise.
  All three mutate the list in place and return that same list object.
  Module `Logic` (logic.dfy) has a class `TaskList` for the list object and one
  method per function. `DeleteTask` and `EditTask` are specified by the pure
  functions `Deleted` and `Edited`; `AddTask` states the new list in its own
  postconditions.
- `main.py` holds a Kivy layout whose list holds `{text, date, done, notified}`
  dictionaries. Module `App` (app.dfy) has the class `ToDoLayout` with the list,
  the five date/time spinners and the last list written to the tasks file. Its
  methods are:
  - the once-a-minute reminder scan `check_tasks`, a per-task state machine
    (pending, fired, done);
  - `toggle_done`;
  - `remove_task` (Python's `list.remove`: the first equal element goes);
  - `confirm_task`, which validates the spinners and appends a new task.

  Module `Stamps` (stamps.dfy) holds the pure helpers: Python's `datetime`
  field validation and the `%Y-%m-%d %H:%M` rendering. It also has a parser
  that inverts the rendering, used to prove that comparing stamps is comparing minutes.
- Module `Options` (options.dfy) holds the `Option` type: a dictionary key that
  may be absent, a popup that may not be shown, a file that may not have been read.

Modelling choices:
- The clock reading `datetime.now().strftime(...)` becomes the parameter `now`.
- The popups become return values. `CheckTasks` returns the alert texts and
  `ConfirmTask` returns the refusal message.
- Writing the file is the field `saved`. The list that `load_tasks` reads is
  the constructor's parameter.
- A missing `notified` key is `None`, and the scan treats it like `false`, as
  `task.get("notified")` does.

Three behaviours of the code worth knowing:
- `add_task` in `logic.py` stores only `title`, `note` and `date`. It sets no
  `done` or `notified` flags and does not refuse an empty title.
- `remove_task` removes by value equality, not by identity.
- A missing `notified` key counts as not notified.

## Model

| member | source | states |
|---|---|---|
| Logic.AddTask | logic.py:1-3 | returns the list object it was given; the length grows by exactly one, every earlier record keeps its position and value, and the last record has the given title, note and date |
| Logic.DeleteTask | logic.py:5-8 | returns the list object it was given, whose new contents are `Deleted` of the old contents at that index |
| Logic.Deleted | logic.py:5-8 | for an index in range: one record shorter, records before the index unchanged, records after it shifted down by one; for a negative index or one at or past the end (including on an empty list): the list unchanged |
| Logic.EditTask | logic.py:10-14 | returns the list object it was given, whose new contents are `Edited` of the old contents |
| Logic.Edited | logic.py:10-14 | the length never changes and every other record is unchanged; in range, the record gets the new title and note and keeps its date; out of range, the list is unchanged |
| Logic.DeleteUndoesAdd | logic.py:1-8 | deleting at the position `add_task` just filled gives back the list as before the addition |
| Logic.EditUndoesEdit | logic.py:10-14 | editing a record back to its old title and note restores the list |
| Logic.EditIdempotent | logic.py:10-14 | repeating an edit with the same values changes nothing more |
| Logic.EditKeepsDates | logic.py:10-14 | no edit changes the date at any position |
| Stamps.DaysInMonth | main.py:79-85 | 28 to 31 days; 29 exactly for February of a leap year, 28 for February otherwise, 30 exactly for April, June, September and November |
| Stamps.Valid | main.py:79-88 | the field ranges `datetime` accepts without `ValueError`; a valid day is between 1 and 31, at most 29 in February, and 29 February only in a leap year |
| Stamps.Stamp | main.py:91-92 | the rendering is 16 characters with `-`, `-`, space and `:` at positions 4, 7, 10 and 13 |
| Stamps.DigitsRoundTrip | main.py:92 | a zero-padded field of the stamp has the field's width, holds only digits and reads back as the field's value |
| Stamps.NumberRoundTrip | main.py:92 | a field of digits that is read and written back at its own width is unchanged |
| Stamps.StampRoundTrip | main.py:92 | every valid minute renders to a well-formed stamp that parses back to the same minute |
| Stamps.ParseRoundTrip | main.py:92 | every string that parses to a valid minute is exactly that minute's rendering |
| Stamps.StampInjective | main.py:143-145 | two valid minutes have equal stamps if and only if they are the same minute |
| App.Check | main.py:72-88 | `MissingField` exactly when some spinner shows its placeholder; `Accepted` exactly when none does and the values make a valid `datetime`, carrying those values; `InvalidDate` otherwise |
| App.DayBeyondMonthRejected | main.py:78-88 | a day past the end of its month (31 in a 30-day month, 29 February in a common year) is refused |
| App.NoLeapDayInOfferedYears | main.py:78-88 | with any of the years the spinner offers, 29 February is refused |
| App.NewTask | main.py:90-95 | the new task's date is the minute's stamp, its text is the prefix followed by that stamp, `done` is false and `notified` is false |
| App.NewTaskDueExactlyAt | main.py:90-95 | a newly created task is due at the minute it was created for and at no other minute |
| App.Due | main.py:145 | a task is due exactly when it is not done, its `notified` key is absent or false, and its date equals `now` |
| App.Fired | main.py:145-147 | one task after a scan: text, date and done unchanged; a due task becomes notified, any other task is unchanged; afterwards it is not due |
| App.Alerts | main.py:146 | the popups of one scan in list order, at most one per task; `AlertsAreDueTasks` gives their content |
| App.Scan | main.py:144-147 | length, order, text, date and done never change; every task due at the start is notified afterwards; every other task is untouched; a notified task stays notified; nothing is due afterwards |
| App.DueIndices | main.py:144-146 | the positions, strictly increasing, of exactly the tasks that are not done, not notified (a missing key counts as not notified) and dated `now` |
| App.AlertsAreDueTasks | main.py:144-146 | the scan's popups are, in list order, the alert texts of exactly the due tasks, one each |
| App.AlertCount | main.py:145-146 | the number of popups equals the number of tasks that were due when the scan started |
| App.NothingDueNoAlerts | main.py:145 | when no task is due, the scan shows no popup |
| App.ScanIdempotent | main.py:145-147 | a second scan at the same minute changes nothing and shows no popup |
| App.ToggleDueSet | main.py:108-109 | setting one task's done flag changes whether that task is due and no other: done cancels its reminder, and clearing the flag re-arms it only if it has not fired |
| App.IndexOf | main.py:114 | the position of the first element equal to the task |
| App.RemoveFirst | main.py:114 | with no equal element the list is unchanged; otherwise the list is the part before the first equal element followed by the part after it |
| App.RemoveFirstMultiset | main.py:114 | as a multiset, the result is the old list less exactly one copy of the task |
| App.ToDoLayout.constructor | main.py:58-61 | the spinners show their placeholders and the list is what loading produced, or empty when the file was missing or did not parse |
| App.ToDoLayout.SaveTasks | main.py:161-163 | the file holds the whole current list |
| App.ToDoLayout.CheckTasks | main.py:142-148 | the new list is `Scan` of the old one, the popups are `Alerts` of the old one, and the list is saved if at least one popup was shown |
| App.ToDoLayout.ToggleDone | main.py:108-111 | that task's `done` takes the checkbox state, nothing else in the list changes, and the list is saved |
| App.ToDoLayout.RemoveTask | main.py:113-116 | succeeds exactly when an equal task is in the list, and then removes the first one and saves; otherwise (`ValueError`) nothing changes and nothing is saved |
| App.ToDoLayout.ConfirmTask | main.py:70-106 | a placeholder gives the "choose a date" popup and an invalid date the "invalid date" popup, each with nothing changed; otherwise one `NewTask` is appended, the spinners are reset and the list is saved |

## Left out

- Widgets, layout, background drawing, `refresh_tasks` and `show_popup` (main.py:19-56, 66-68, 118-140, 150-152) are presentation only; popup texts are returned instead of shown.
- `Clock.schedule_interval` and `datetime.now()` are event-loop timing and the wall clock; the minute being checked is the parameter `now`.
- JSON persistence (`json.dump`/`json.load`, `storage.py`) is file I/O: a write is the field `saved`, a read is the constructor's parameter, and write failures are not modelled.
- `ui.py` (the tkinter front end) and `config.py` are not part of this model.
- App.ToDoLayout.ToggleDone: the task is named by its position in the list, not by a reference to the dictionary; a dictionary that appears twice in the list (aliasing) is not modelled, and neither is a callback bound to a task no longer in the list.
- App.ToDoLayout.CheckTasks: each task is a value, so the same dictionary object appearing twice in the list is not modelled.
- App.ToDoLayout.RemoveTask: the `ValueError` that escapes from `list.remove` is the result `false`; what the event loop does with the exception is not modelled.
- Logic.EditTask: each record is a value, so another reference to an edited dictionary outside the list does not see the edit.
- Spinner texts are `Field` values (the placeholder or an integer). The substring test for the placeholder and the `int()` conversion of a chosen value are not modelled: they cannot fail on the values the spinners offer.
- Stamps.Stamp: the year is always zero-padded to four digits; the platform's `strftime` may not pad years below 1000, which the year spinner (2025 to 2027) never offers.
- Python equality quirks such as `True == 1` in dictionary comparison, and records loaded without a `done` key (a `KeyError` in the source), are not modelled.
