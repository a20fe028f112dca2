/** The to-do window's data state and the operations its buttons and keys
    run on it. The widgets are left out: the list box selection comes in as
    an optional position, the entry field is the `entry` field, and the
    `app_data` directory is the `files` map from file name to month. */
module App {
  import opened Text
  import opened Tasks
  import opened MonthStore

  class ToDoApp {
    /** The month files on disk, by file name. */
    var files: Files
    /** The resident month (`data_dict_var`). */
    var month: Month
    /** The active date (`date_var`). */
    var date: string
    /** The active day's tasks (`data_dict_items_list`). */
    var items: Day
    /** The texts shown in the list box (`data_task_list`). */
    var display: seq<string>
    /** The position being edited, `None` when no edit is in progress (`task_index`). */
    var taskIndex: Option<nat>
    /** The text of the entry field (`task_string_var`). */
    var entry: string

    /** The object invariant: the two lists are parallel, done tasks carry
        the check mark, no date of the resident month or of any file is
        empty, and an edit in progress points into the list. */
    ghost predicate Valid()
      reads this
    {
      DataValid() && (taskIndex.Some? ==> taskIndex.value < |items|)
    }

    /** The invariant without its edit-position part. */
    ghost predicate DataValid()
      reads this
    {
      SessionOk(Snapshot()) && Parallel(display, items)
    }

    /** The data part of the window as a value. */
    function Snapshot(): Session
      reads this
    {
      Session(files, month, date, items)
    }

    /** Start-up: no edit in progress, an empty entry, and today's month
        loaded from its file. */
    constructor (today: string, disk: Files)
      requires FilesOk(disk)
      ensures Valid()
      ensures Snapshot() == Open(disk, today)
      ensures display == Texts(items)
      ensures taskIndex == None && entry == ""
    {
      files := disk;
      month := map[];
      items := [];
      display := [];
      taskIndex := None;
      entry := "";
      date := today;
      new;
      LoadTaskFromFile();
    }

    /** `load_task_from_file`: the resident month becomes the month in the
        active date's file (empty when there is no file), and the active
        day and the display list are read from it. */
    method LoadTaskFromFile()
      requires FilesOk(files) && taskIndex == None
      modifies this
      ensures Valid()
      ensures Snapshot() == Open(old(files), old(date))
      ensures display == Texts(items)
      ensures taskIndex == None && entry == old(entry)
    {
      var f := FileName(date);
      if f in files {
        month := files[f];
        items := DayOf(month, date);
        display := Texts(items);
      } else {
        month := map[];
        items := [];
        display := [];
      }
    }

    /** `data_dict_var_update`: the active day is written back into the
        resident month, or its date removed when the day is empty. */
    method CommitDay()
      requires Valid()
      modifies this
      ensures Valid()
      ensures month == Commit(old(month), date, items)
      ensures date in month <==> |items| > 0
      ensures files == old(files) && date == old(date) && items == old(items)
      ensures display == old(display) && taskIndex == old(taskIndex) && entry == old(entry)
    {
      var size := |items|;
      if size > 0 {
        month := month[date := items];
      } else if size == 0 && date in month {
        month := month - {date};
      }
    }

    /** `save_task_to_file`: commit the active day, then write the month to
        its file, or remove the file when the month has become empty. */
    method SaveTaskToFile()
      requires Valid()
      modifies this
      ensures Valid()
      ensures Snapshot() == Flush(old(Snapshot()))
      ensures display == old(display) && taskIndex == old(taskIndex) && entry == old(entry)
    {
      CommitDay();
      var f := FileName(date);
      if |month| > 0 {
        files := files[f := month];
      } else if f in files {
        files := files - {f};
      }
      assert files == Stored(old(files), f, month);
      assert Snapshot() == Flush(old(Snapshot())) by {
        assert month == Commit(old(month), old(date), old(items));
      }
    }

    /** `exit_by_x`: closing the window saves the resident month. */
    method Exit()
      requires Valid()
      modifies this
      ensures Valid()
      ensures Snapshot() == Flush(old(Snapshot()))
      ensures display == old(display) && taskIndex == old(taskIndex) && entry == old(entry)
    {
      SaveTaskToFile();
    }

    /** `load_task_for_date`: show the tasks of `newDate`. The date control is
        disabled while an edit is in progress, so no edit is. */
    method LoadTaskForDate(newDate: string)
      requires Valid() && taskIndex == None
      modifies this
      ensures Valid()
      ensures Snapshot() == Switch(old(Snapshot()), newDate)
      ensures display == Texts(items)
      ensures taskIndex == None && entry == old(entry)
    {
      WidgetsReset(false);
      if MonthKey(date) == MonthKey(newDate) {
        CommitDay();
        date := newDate;
        items := DayOf(month, date);
        display := Texts(items);
      } else {
        SaveTaskToFile();
        date := newDate;
        LoadTaskFromFile();
      }
    }

    /** `widgets_reset`: end any edit, and clear the entry when `erase`. */
    method WidgetsReset(erase: bool)
      requires DataValid()
      modifies this
      ensures Valid()
      ensures taskIndex == None
      ensures entry == if erase then "" else old(entry)
      ensures Snapshot() == old(Snapshot()) && display == old(display)
    {
      taskIndex := None;
      if erase {
        entry := "";
      }
    }

    /** `add_new_task`: a non-empty entry appends its stripped text as a task
        that is not done, to both lists, and clears the entry; an empty entry
        changes nothing. The test is on the entry before stripping. */
    method AddNewTask()
      requires Valid()
      modifies this
      ensures Valid()
      ensures old(entry) != "" ==>
        && items == old(items) + [NewItem(old(entry))]
        && display == old(display) + [Strip(old(entry))]
        && entry == "" && taskIndex == None
      ensures old(entry) == "" ==>
        items == old(items) && display == old(display) && taskIndex == old(taskIndex)
      ensures entry == ""
      ensures files == old(files) && month == old(month) && date == old(date)
    {
      if entry != "" {
        var it := NewItem(entry);
        AppendKeeps(display, items, it);
        items := items + [it];
        display := display + [it.text];
        entry := "";
        WidgetsReset(true);
      }
    }

    /** `delete_task`: the selected task leaves both lists and the tasks
        after it move up one place; with no selection nothing changes. */
    method DeleteTask(selection: Option<nat>)
      requires Valid()
      requires selection.Some? ==> selection.value < |items|
      modifies this
      ensures Valid()
      ensures selection.Some? ==>
        && items == RemoveAt(old(items), selection.value)
        && display == RemoveAt(old(display), selection.value)
        && taskIndex == None
      ensures selection.None? ==>
        items == old(items) && display == old(display) && taskIndex == old(taskIndex)
      ensures files == old(files) && month == old(month) && date == old(date)
      ensures entry == old(entry)
    {
      if selection.Some? {
        var i := selection.value;
        RemoveKeeps(display, items, i);
        items := RemoveAt(items, i);
        display := RemoveAt(display, i);
        WidgetsReset(false);
      }
    }

    /** `task_completion_button_action`: the selected task flips between done
        and not done, its text gaining or losing the check mark in both
        lists. Any edit state is reset, with or without a selection. */
    method ToggleCompletion(selection: Option<nat>)
      requires Valid()
      requires selection.Some? ==> selection.value < |items|
      modifies this
      ensures Valid()
      ensures selection.Some? ==>
        var i := selection.value;
        && items == old(items)[i := Toggled(old(items)[i])]
        && display == old(display)[i := items[i].text]
      ensures selection.None? ==> items == old(items) && display == old(display)
      ensures taskIndex == None && entry == old(entry)
      ensures files == old(files) && month == old(month) && date == old(date)
    {
      if selection.Some? {
        var i := selection.value;
        ReplaceKeeps(display, items, i, Toggled(items[i]));
        if items[i].done {
          items := items[i := Item(Drop(items[i].text, 2), false)];
          display := display[i := Drop(display[i], 2)];
        } else {
          items := items[i := Item(CheckMark + items[i].text, true)];
          display := display[i := CheckMark + display[i]];
        }
      }
      WidgetsReset(false);
    }

    /** `edit_button_action`: editing of the selected task begins, and the
        entry shows its text, without the check mark when it is done. With
        no selection, reading the first selected position fails before
        anything is set, so nothing changes. */
    method EditButtonAction(selection: Option<nat>)
      requires Valid()
      requires selection.Some? ==> selection.value < |items|
      modifies this
      ensures Valid()
      ensures selection.Some? ==>
        var i := selection.value;
        && taskIndex == Some(i)
        && entry == Prefill(items[i])
        && (items[i].done ==> CheckMark + entry == items[i].text)
      ensures selection.None? ==> taskIndex == old(taskIndex) && entry == old(entry)
      ensures Snapshot() == old(Snapshot()) && display == old(display)
    {
      if selection.Some? {
        taskIndex := Some(selection.value);
        if items[taskIndex.value].done {
          entry := Drop(display[taskIndex.value], 2);
        } else {
          entry := display[taskIndex.value];
        }
      }
    }

    /** `edit_task`: a non-empty entry replaces the text of the task being
        edited, in both lists, keeping whether it is done and putting the
        check mark back on a done task; an empty entry changes no task.
        Either way the edit ends and the entry is cleared. */
    method EditTask()
      requires Valid()
      requires entry != "" ==> taskIndex.Some?
      modifies this
      ensures Valid()
      ensures old(entry) != "" ==>
        var i := old(taskIndex).value;
        && items == old(items)[i := Edited(old(items)[i], old(entry))]
        && display == old(display)[i := items[i].text]
      ensures old(entry) == "" ==> items == old(items) && display == old(display)
      ensures taskIndex == None && entry == ""
      ensures files == old(files) && month == old(month) && date == old(date)
    {
      if entry != "" {
        var i := taskIndex.value;
        ReplaceKeeps(display, items, i, Edited(items[i], entry));
        var taskText;
        if items[i].done {
          taskText := CheckMark + Strip(entry);
        } else {
          taskText := Strip(entry);
        }
        items := items[i := Item(taskText, items[i].done)];
        display := display[i := taskText];
      }
      WidgetsReset(true);
    }
  }
}
