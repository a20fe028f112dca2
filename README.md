# To-do list data core, in Dafny

A model of the data core of the `ToDoApp` window in the ToDoList desktop
application. The window keeps the tasks of one calendar month in memory: a map
from `YYYY-MM-DD` dates to lists of `[text, done]` tasks. It stores each month
in a file named `task_data_YYYY_MM.dat`. The tasks of the active date are held
twice, as the task records and as the parallel list of texts the list box
shows. A task is marked done by putting a check mark and a space
(`"✓ "`) in front of its stored text.

The model has four modules:

- `Text` (text.dfy): Python's `str.strip()` with its white-space set, and
  slicing with clamped bounds.
- `Tasks` (tasks.dfy): the task record, the check-mark convention, and the
  list edits: append, delete by position, toggle, edit. Lemmas state what
  each edit keeps.
- `MonthStore` (store.dfy): the resident month, the month files (a map from
  file name to month), `data_dict_var_update`, saving, loading and the date
  switch. These are functions over a `Session` value: files, resident month,
  active date and active day. Lemmas cover saving and switching in sequence.
- `App` (app.dfy): the class `ToDoApp`. Its fields are the ones todo_app.py
  updates in place. Its methods follow the program's statements. Each method
  ties the new state to the functions above and keeps the object invariant
  `Valid()`:
  - the two lists are parallel;
  - every done task carries the check mark;
  - no date of the resident month or of any file has an empty list;
  - an edit in progress points into the list.

The list box selection becomes an optional position argument. The entry field
is the `entry` field. The `app_data` directory is the `files` field.

Behaviour of the code worth knowing:

- The add and edit guards test the entry before stripping it. So an entry of
  only white space is accepted, and it stores a task with empty text
  (`Tasks.BlankEntryAddsEmptyTask`).
- The check-mark convention goes one way only. A done task always starts with
  the mark. But a task that is not done may start with the mark too, if the
  user typed it.
- The code has no storage error handling. A file that cannot be written
  raises out of the button or window-close callback. A file that cannot be
  read at start-up raises out of `__init__` (todo_app.py:50), so the window
  never opens. The model has no error path for either.

## Model

| member | source | states |
|---|---|---|
| `Text.Take` | ToDoList/todo_app.py:260 | `s[:n]` is the first `n` code points of `s`, or all of `s` when it is shorter |
| `Text.Drop` | ToDoList/todo_app.py:208-209 | `s[n:]` is what follows the first `n` code points, empty when `s` is not longer than `n` |
| `Text.Slice` | ToDoList/todo_app.py:274 | `s[i:j]` holds the code points from `i` up to, not including, `j`, with both bounds clamped to the string; it has `min(j, len(s)) - i` of them when `i < j` and `i < len(s)`, and none otherwise |
| `Text.Strip` | ToDoList/todo_app.py:185-186 | the stored text is one contiguous piece of the entry with only white space cut from either end; it has no white space at either end; it is empty exactly when the entry is all white space; a stripped entry is kept as is |
| `Tasks.Texts` | ToDoList/todo_app.py:265 | the display list built from a day has the same length and, at every position, that task's text |
| `Tasks.NewItem` | ToDoList/todo_app.py:185 | an added task is not done, its text is the stripped entry (see `Text.Strip`), with no white space at either end, and it is empty exactly when the entry is all white space |
| `Tasks.RemoveAt` | ToDoList/todo_app.py:196-197 | `del` at a position removes one element; earlier elements keep their positions and later ones move down by one, so [A,B,C] without B is [A,C] |
| `Tasks.Toggled` | ToDoList/todo_app.py:206-215 | toggling flips `done`; a task that becomes done gains the check mark in front of its old text; a marked task that becomes undone loses exactly the mark |
| `Tasks.Prefill` | ToDoList/todo_app.py:333-336 | begin-edit pre-fills the entry with a done task's text minus its check mark, and with an undone task's text verbatim |
| `Tasks.Edited` | ToDoList/todo_app.py:364-371 | committing an edit keeps `done` and sets the text to the stripped entry, with the check mark put back in front when the task is done |
| `Tasks.ToggleTwice` | ToDoList/todo_app.py:203-215 | toggling a task twice gives back its first text and flag, for every task that keeps the marker invariant |
| `Tasks.EditPrefillRestores` | ToDoList/todo_app.py:364-371 | committing the pre-filled entry unchanged gives back the task, when its unmarked text has no white space at either end |
| `Tasks.AppendKeeps` | ToDoList/todo_app.py:185-186 | appending a task to both lists keeps them parallel and keeps every done task marked |
| `Tasks.RemoveKeeps` | ToDoList/todo_app.py:196-197 | deleting one position from both lists keeps them parallel and keeps every done task marked |
| `Tasks.ReplaceKeeps` | ToDoList/todo_app.py:207-215 | replacing a task and its shown text at one position keeps the lists parallel and, for a marked replacement, keeps every done task marked |
| `Tasks.BlankEntryAddsEmptyTask` | ToDoList/todo_app.py:184-185 | every non-empty entry of white space alone passes the add guard and adds a task with empty text |
| `MonthStore.DayOf` | ToDoList/todo_app.py:264 | `get(date, [])` gives the date's list when it is a key and an empty list otherwise; in a month without empty days it is empty exactly when the date is no key, and in a well-formed month its done tasks are marked |
| `MonthStore.MonthKey` | ToDoList/todo_app.py:287 | the year-and-month part of a date is its first seven code points, or all of it when it is shorter |
| `MonthStore.FileName` | ToDoList/todo_app.py:260 | a month's file name starts with `task_data_`, ends with `.dat`, and has between 15 and 21 characters |
| `MonthStore.Fetched` | ToDoList/todo_app.py:261-268 | loading a file gives the month it holds and an empty month when there is no file; from well-formed files the month is well-formed and empty exactly when the file is missing |
| `MonthStore.FileNameParts` | ToDoList/todo_app.py:260 | for a `YYYY-MM-DD` date the file name is exactly `task_data_YYYY_MM.dat`: 21 characters, with the year at positions 10-13, `_` at 14 and the month at 15-16 |
| `MonthStore.MonthTestNeedsDates` | ToDoList/todo_app.py:287 | the date entry is free text, and for strings that are not dates the `[:7]` test and the file name can disagree: `2024-05-10` and `2024x05-11` differ in the test but share a file |
| `MonthStore.Commit` | ToDoList/todo_app.py:302-307 | after the update the active date is a key exactly when its list is non-empty, reading the date back gives the list, every other date is untouched, and a month without empty days stays without them |
| `MonthStore.Stored` | ToDoList/todo_app.py:275-282 | a non-empty month is written to its file; an empty month removes the file; no other file changes |
| `MonthStore.Flush` | ToDoList/todo_app.py:271-282 | saving keeps date and day; the resident month becomes `Commit` of the old month and the active day, so the active date stays in it exactly when its list is non-empty and every other date is kept; the month's file exists exactly when the month is non-empty and then holds it; every other file keeps its presence and its contents; the invariants are kept |
| `MonthStore.Open` | ToDoList/todo_app.py:258-269 | loading makes resident the date's month file, or an empty month when there is none; the day is that date's list, or empty; loading from well-formed files gives a well-formed session |
| `MonthStore.Switch` | ToDoList/todo_app.py:284-299 | a date switch lands on the new date with its list read from the resident month; within a month no file changes and the resident month becomes `Commit` of the old month and the old day; across months the files are those of a save of the old session and the resident month is the new date's file as saved; the invariants are kept |
| `MonthStore.SameMonthSameFile` | ToDoList/todo_app.py:287 | for `YYYY-MM-DD` dates, the `[:7]` month test holds exactly when the two dates have the same file name |
| `MonthStore.StoredThenFetched` | ToDoList/todo_app.py:271-282 | writing a month and reading its file back gives the month; an empty month reads back as empty |
| `MonthStore.CommitUnchanged` | ToDoList/todo_app.py:302-307 | writing back a day that is unchanged leaves a month without empty days unchanged |
| `MonthStore.FlushThenOpen` | ToDoList/todo_app.py:258-282 | loading the active date right after a save gives back the saved month and the same task list |
| `MonthStore.FlushIdempotent` | ToDoList/todo_app.py:271-282 | saving twice gives the same files and state as saving once |
| `MonthStore.PruneRemovesFile` | ToDoList/todo_app.py:302-307 | when the active date was the only date with tasks and all of them are deleted, saving leaves no file for the month |
| `MonthStore.SwitchAcrossMonths` | ToDoList/todo_app.py:294-297 | a switch to another month leaves the old month's file holding the committed month (or absent if it is empty), leaves every other file with the same presence and contents, and loads the new month's file as it was before the switch |
| `MonthStore.SwitchAwayAndBack` | ToDoList/todo_app.py:284-299 | going to another month and straight back, with no edits, is the same as one save: the same files, resident month and task list |
| `MonthStore.SwitchWithinMonthAndBack` | ToDoList/todo_app.py:287-293 | going to another date of the same month and straight back, with no edits, touches no file and gives back the task list |
| `App.ToDoApp.constructor` | ToDoList/todo_app.py:39-50 | start-up has no edit in progress and an empty entry, loads today's month from its file, and establishes the invariant |
| `App.ToDoApp.LoadTaskFromFile` | ToDoList/todo_app.py:258-269 | the state becomes `Open` of the files at the active date, with the display list built from the day |
| `App.ToDoApp.CommitDay` | ToDoList/todo_app.py:302-307 | the resident month becomes `Commit` of the old month and the active day; nothing else changes |
| `App.ToDoApp.SaveTaskToFile` | ToDoList/todo_app.py:271-282 | the state becomes `Flush` of the old state; the lists, edit state and entry are unchanged |
| `App.ToDoApp.Exit` | ToDoList/todo_app.py:309-311 | closing the window saves: the state becomes `Flush` of the old state |
| `App.ToDoApp.LoadTaskForDate` | ToDoList/todo_app.py:284-300 | the state becomes `Switch` of the old state to the new date; the display list is rebuilt from the new day and no edit is in progress |
| `App.ToDoApp.WidgetsReset` | ToDoList/todo_app.py:338-362 | the edit ends and the entry is cleared only when asked; the data is untouched |
| `App.ToDoApp.AddNewTask` | ToDoList/todo_app.py:183-191 | a non-empty entry appends the stripped text as an undone task to both lists and clears the entry; an empty entry changes nothing; the lists stay parallel |
| `App.ToDoApp.DeleteTask` | ToDoList/todo_app.py:193-201 | the selected position leaves both lists and the rest keep their order; with no selection nothing changes |
| `App.ToDoApp.ToggleCompletion` | ToDoList/todo_app.py:203-219 | the selected task becomes its `Toggled` version and its shown text follows in the display list; the edit state is reset with or without a selection |
| `App.ToDoApp.EditButtonAction` | ToDoList/todo_app.py:313-336 | with a selection, an edit of the selected task begins, and the entry holds its `Prefill`, the text without the check mark for a done task; with no selection, `curselection()[0]` fails before anything is set, so the edit state and entry are unchanged; the data is untouched either way |
| `App.ToDoApp.EditTask` | ToDoList/todo_app.py:364-374 | a non-empty entry replaces the edited task with its `Edited` version in both lists; an empty entry changes no task; the edit ends and the entry is cleared |

## Left out

- ToDoList/custom_widgets.py is not part of this model. It is the date-picker
  widget, and the date it yields enters the model as the argument of
  `LoadTaskForDate`.
- Widget layout, fonts, themes, the icon and the scrollbar
  (`frame_*`, `task_list_scrollbar_update`) are left out. They are
  presentation only.
- The colour configuration in `load_completed_task`,
  `task_completion_format` and `task_completion_undo_format` is left out. It
  only styles list box rows.
- Button enabling and the rebinding of commands and keys in
  `widgets_reset`, `edit_button_action` and
  `task_completion_and_edit_button_update` are left out. Only the `task_index`
  editing flag is modelled.
- App.ToDoApp.LoadTaskForDate requires that no edit is in progress. The window
  disables the date button while editing, so the source never switches dates
  mid-edit.
- App.ToDoApp.constructor requires that every existing month file is
  well-formed: non-empty, no empty day, and done tasks marked. This holds for
  files this program wrote. Files from elsewhere are not modelled.
- The pickle encoding and the `os.path`, `os.mkdir` and `os.remove` calls are
  left out. The directory of month files is an abstract map from file name to
  month, so encoding round-trips hold by construction.
- `date.today()` and `mainloop` are left out. Today's date is a constructor
  argument.
- Python list aliasing is left out. After a load, the active day's list is
  the same object as the month's entry for that date. The model uses value
  semantics instead. This changes nothing observable, because the day is
  written back into the month before every save or date switch, which are the
  only places the month is read.
- Read and write failures (a corrupt file, a full disk) are left out. The
  source has no handling for them. They raise out of the callback, or out of
  `__init__` when the file is read at start-up.
- App.ToDoApp.EditButtonAction: the `IndexError` todo_app.py raises when
  nothing is selected becomes a call that changes nothing. The exception
  itself is not signalled, since Tk only reports it and the window carries on.
