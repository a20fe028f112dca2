/** One day's task list: the task record, the check-mark convention for done
    tasks, and the list edits the to-do window performs on it (append,
    delete by position, toggle completion, replace the text). */
module Tasks {
  import opened Text

  datatype Option<T> = None | Some(value: T)

  /** A stored task, the two-element list `[text, done]` that todo_app.py stores. */
  datatype Item = Item(text: string, done: bool)

  /** The tasks of one date, in display order. */
  type Day = seq<Item>

  /** The glyph and space put in front of the text of a done task. */
  const CheckMark: string := "\U{2713} "

  predicate Marked(s: string) {
    |s| >= 2 && s[..2] == CheckMark
  }

  /** The marker invariant: every done task's text starts with the check mark. */
  predicate MarkedDay(day: Day) {
    forall i :: 0 <= i < |day| ==> day[i].done ==> Marked(day[i].text)
  }

  /** The display list shows, position by position, the texts of the tasks. */
  predicate Parallel(display: seq<string>, day: Day) {
    |display| == |day| && forall i :: 0 <= i < |day| ==> display[i] == day[i].text
  }

  /** The display list built from a day's tasks (`[item[0] for item in day]`). */
  function Texts(day: Day): (r: seq<string>)
    ensures Parallel(r, day)
  {
    if day == [] then [] else [day[0].text] + Texts(day[1..])
  }

  /** The task an entry adds: its stripped text, not done. */
  function NewItem(entry: string): (it: Item)
    ensures !it.done && it.text == Strip(entry) && Stripped(it.text)
    ensures it.text == [] <==> AllSpace(entry)
  {
    Item(Strip(entry), false)
  }

  /** `del s[i]`: the element at `i` leaves, those before keep their
      positions, those after move down by one. */
  function RemoveAt<T>(s: seq<T>, i: nat): (r: seq<T>)
    requires i < |s|
    ensures |r| == |s| - 1
    ensures forall k :: 0 <= k < i ==> r[k] == s[k]
    ensures forall k :: i <= k < |r| ==> r[k] == s[k + 1]
  {
    s[..i] + s[i + 1..]
  }

  /** Completion toggle of one task: a task that was not done becomes done
      and gains the check mark; a done task becomes not done and loses its
      first two code points. */
  function Toggled(it: Item): (r: Item)
    ensures r.done == !it.done
    ensures r.done ==> Marked(r.text) && r.text[2..] == it.text
    ensures !r.done && Marked(it.text) ==> CheckMark + r.text == it.text
  {
    if it.done then Item(Drop(it.text, 2), false) else Item(CheckMark + it.text, true)
  }

  /** What the entry field is pre-filled with when editing `it` begins: the
      text without its check mark when done, the text itself otherwise. */
  function Prefill(it: Item): (s: string)
    ensures it.done && Marked(it.text) ==> CheckMark + s == it.text
    ensures !it.done ==> s == it.text
  {
    if it.done then Drop(it.text, 2) else it.text
  }

  /** The task after an edit is committed with the entry `entry`: the stripped
      entry becomes the text, done-ness is kept, and a done task gets the
      check mark back. */
  function Edited(it: Item, entry: string): (r: Item)
    ensures r.done == it.done
    ensures r.done ==> Marked(r.text) && r.text[2..] == Strip(entry)
    ensures !r.done ==> r.text == Strip(entry)
  {
    Item(if it.done then CheckMark + Strip(entry) else Strip(entry), it.done)
  }

  /** Toggling twice gives back the task, text and flag alike, whenever the
      task keeps the marker invariant. */
  lemma ToggleTwice(it: Item)
    requires it.done ==> Marked(it.text)
    ensures Toggled(Toggled(it)) == it
  {
  }

  /** Committing the pre-filled entry unchanged gives back the task, as long
      as its text (without the mark) has no white space at either end. */
  lemma EditPrefillRestores(it: Item)
    requires it.done ==> Marked(it.text)
    requires Stripped(Prefill(it))
    ensures Edited(it, Prefill(it)) == it
  {
  }

  /** Appending a task to both lists keeps them parallel, and keeps the
      marker invariant when the new task keeps it. */
  lemma AppendKeeps(display: seq<string>, day: Day, it: Item)
    requires Parallel(display, day) && MarkedDay(day)
    requires it.done ==> Marked(it.text)
    ensures Parallel(display + [it.text], day + [it]) && MarkedDay(day + [it])
  {
  }

  /** Deleting the same position from both lists keeps them parallel and
      keeps the marker invariant. */
  lemma RemoveKeeps(display: seq<string>, day: Day, i: nat)
    requires Parallel(display, day) && MarkedDay(day) && i < |day|
    ensures Parallel(RemoveAt(display, i), RemoveAt(day, i))
    ensures MarkedDay(RemoveAt(day, i))
  {
  }

  /** Replacing a task and its shown text at the same position keeps the
      lists parallel, and keeps the marker invariant when the new task
      keeps it. */
  lemma ReplaceKeeps(display: seq<string>, day: Day, i: nat, it: Item)
    requires Parallel(display, day) && MarkedDay(day) && i < |day|
    requires it.done ==> Marked(it.text)
    ensures Parallel(display[i := it.text], day[i := it]) && MarkedDay(day[i := it])
  {
  }

  /** The add guard looks at the unstripped entry, so any non-empty entry of
      white space alone is accepted and adds a task with empty text. */
  lemma BlankEntryAddsEmptyTask(entry: string)
    requires entry != "" && AllSpace(entry)
    ensures NewItem(entry) == Item("", false)
  {
  }
}
