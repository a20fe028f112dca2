/** The resident month and the month files. A month maps `YYYY-MM-DD`
    strings to that date's tasks; the files map file names to the month each
    one holds. A session is the data part of the window: the files, the
    resident month, the active date and the active day's tasks. */
module MonthStore {
  import opened Text
  import opened Tasks

  type Month = map<string, Day>
  type Files = map<string, Month>

  /** `month.get(date, [])`: the date's list when it is a key, empty
      otherwise. In a month without empty days the result is empty exactly
      when the date is not a key, and done tasks in it are marked. */
  function DayOf(m: Month, date: string): (d: Day)
    ensures date in m ==> d == m[date]
    ensures date !in m ==> d == []
    ensures NoEmptyDay(m) ==> (d == [] <==> date !in m)
    ensures MonthOk(m) ==> MarkedDay(d)
  {
    if date in m then m[date] else []
  }

  /** No date of the month is kept with an empty task list. */
  predicate NoEmptyDay(m: Month) {
    forall d :: d in m ==> m[d] != []
  }

  predicate MonthOk(m: Month) {
    NoEmptyDay(m) && forall d :: d in m ==> MarkedDay(m[d])
  }

  /** Every file holds a non-empty month that keeps the month invariants
      (the only files are those this program wrote). */
  predicate FilesOk(files: Files) {
    forall f :: f in files ==> |files[f]| > 0 && MonthOk(files[f])
  }

  /** Writing the active day back into the month (`data_dict_var_update`):
      the date is a key exactly when its list is non-empty, it then maps to
      that list, every other date is untouched, and the month invariants
      are kept. */
  function Commit(m: Month, date: string, day: Day): (r: Month)
    ensures date in r <==> |day| > 0
    ensures DayOf(r, date) == day
    ensures forall d :: d != date ==> (d in r <==> d in m)
    ensures forall d :: d != date && d in r ==> r[d] == m[d]
    ensures MonthOk(m) && MarkedDay(day) ==> MonthOk(r)
  {
    if |day| > 0 then m[date := day]
    else if date in m then m - {date}
    else m
  }

  predicate IsDigit(c: char) {
    '0' <= c <= '9'
  }

  /** A date as the date picker produces it, `YYYY-MM-DD`. */
  predicate IsDate(d: string) {
    |d| == 10 && d[4] == '-' && d[7] == '-'
    && forall k :: 0 <= k < 10 && k != 4 && k != 7 ==> IsDigit(d[k])
  }

  /** The year and month part of a date, `date[:7]`: its first seven code
      points, or all of it when it is shorter. */
  function MonthKey(date: string): (k: string)
    ensures |date| >= 7 ==> k == date[..7]
    ensures |date| < 7 ==> k == date
  {
    Take(date, 7)
  }

  /** The file of a date's month, `task_data_{date[:4]}_{date[5:7]}.dat`:
      a fixed prefix and extension around at most four and at most two code
      points of the date. */
  function FileName(date: string): (f: string)
    ensures 15 <= |f| <= 21
    ensures f[..10] == "task_data_" && f[|f| - 4..] == ".dat"
  {
    "task_data_" + Slice(date, 0, 4) + "_" + Slice(date, 5, 7) + ".dat"
  }

  /** Writing a month to its file (the tail of `save_task_to_file`): a
      non-empty month replaces the file, an empty one removes it; no other
      file changes. */
  function Stored(files: Files, f: string, m: Month): (r: Files)
    ensures f in r <==> |m| > 0
    ensures f in r ==> r[f] == m
    ensures forall g :: g != f ==> (g in r <==> g in files)
    ensures forall g :: g != f && g in r ==> r[g] == files[g]
    ensures FilesOk(files) && MonthOk(m) ==> FilesOk(r)
  {
    if |m| > 0 then files[f := m]
    else if f in files then files - {f}
    else files
  }

  /** The month a file holds, empty when there is no such file. From
      well-formed files the month is well-formed, and it is empty exactly
      when the file is missing. */
  function Fetched(files: Files, f: string): (m: Month)
    ensures f in files ==> m == files[f]
    ensures f !in files ==> m == map[]
    ensures FilesOk(files) ==> MonthOk(m) && (|m| == 0 <==> f !in files)
  {
    if f in files then files[f] else map[]
  }

  datatype Session = Session(files: Files, month: Month, date: string, day: Day)

  predicate SessionOk(s: Session) {
    FilesOk(s.files) && MonthOk(s.month) && MarkedDay(s.day)
  }

  /** `save_task_to_file`: commit the active day, then store the month under
      the active date's file name. */
  function Flush(s: Session): (r: Session)
    ensures r.date == s.date && r.day == s.day
    ensures r.month == Commit(s.month, s.date, s.day)
    ensures s.date in r.month <==> |s.day| > 0
    ensures var f := FileName(s.date);
            (f in r.files <==> |r.month| > 0) && (f in r.files ==> r.files[f] == r.month)
    ensures forall g :: g != FileName(s.date) ==> (g in r.files <==> g in s.files)
    ensures forall g :: g != FileName(s.date) && g in r.files ==> r.files[g] == s.files[g]
    ensures SessionOk(s) ==> SessionOk(r)
  {
    var m := Commit(s.month, s.date, s.day);
    Session(Stored(s.files, FileName(s.date), m), m, s.date, s.day)
  }

  /** `load_task_from_file`: the month of the date's file (or an empty month
      when there is none) and that date's tasks in it. */
  function Open(files: Files, date: string): (r: Session)
    ensures r.files == files && r.date == date
    ensures r.month == Fetched(files, FileName(date))
    ensures r.day == DayOf(r.month, date)
    ensures FilesOk(files) ==> SessionOk(r)
  {
    var f := FileName(date);
    if f in files then Session(files, files[f], date, DayOf(files[f], date))
    else Session(files, map[], date, [])
  }

  /** `load_task_for_date`: within the same month the active day is committed
      to the resident month and the new day read from it, touching no file;
      across months the old month is saved and the new one loaded. */
  function Switch(s: Session, newDate: string): (r: Session)
    ensures r.date == newDate
    ensures r.day == DayOf(r.month, newDate)
    ensures MonthKey(s.date) == MonthKey(newDate) ==>
              r.files == s.files && r.month == Commit(s.month, s.date, s.day)
    ensures MonthKey(s.date) != MonthKey(newDate) ==>
              r.files == Flush(s).files && r.month == Fetched(Flush(s).files, FileName(newDate))
    ensures SessionOk(s) ==> SessionOk(r)
  {
    if MonthKey(s.date) == MonthKey(newDate) then
      var m := Commit(s.month, s.date, s.day);
      Session(s.files, m, newDate, DayOf(m, newDate))
    else
      Open(Flush(s).files, newDate)
  }

  /** The file name of a date is `task_data_YYYY_MM.dat`: its year at
      positions 10-13 and its month at 15-16. */
  lemma FileNameParts(d: string)
    requires IsDate(d)
    ensures |FileName(d)| == 21
    ensures FileName(d)[10..14] == d[..4] && FileName(d)[15..17] == d[5..7]
    ensures FileName(d) == "task_data_" + d[..4] + "_" + d[5..7] + ".dat"
  {
  }

  /** For strings that are not `YYYY-MM-DD` dates the two tests part ways:
      these two strings have different `[:7]` parts but the same file name,
      so a switch between them saves and reloads one and the same file. */
  lemma MonthTestNeedsDates()
    ensures MonthKey("2024-05-10") != MonthKey("2024x05-11")
    ensures FileName("2024-05-10") == FileName("2024x05-11")
  {
    assert MonthKey("2024-05-10")[4] != MonthKey("2024x05-11")[4];
  }

  /** Two dates share a file exactly when they share year and month, so
      the month test of a date switch decides whether any file is touched. */
  lemma {:induction false} SameMonthSameFile(d1: string, d2: string)
    requires IsDate(d1) && IsDate(d2)
    ensures MonthKey(d1) == MonthKey(d2) <==> FileName(d1) == FileName(d2)
  {
    FileNameParts(d1);
    FileNameParts(d2);
    if FileName(d1) == FileName(d2) {
      assert d1[..4] == d2[..4] && d1[5..7] == d2[5..7];
      assert d1[..7] == d2[..7] by {
        forall k | 0 <= k < 7 ensures d1[k] == d2[k] {
          if k < 4 { assert d1[k] == d1[..4][k]; assert d2[k] == d2[..4][k]; }
          else if k > 4 { assert d1[k] == d1[5..7][k - 5]; assert d2[k] == d2[5..7][k - 5]; }
        }
      }
    }
    if MonthKey(d1) == MonthKey(d2) {
      assert d1[..4] == d1[..7][..4] && d2[..4] == d2[..7][..4];
      assert d1[5..7] == d1[..7][5..] && d2[5..7] == d2[..7][5..];
    }
  }

  /** Storing a month and reading the same file back gives that month; an
      empty month reads back as the empty month from the missing file. */
  lemma StoredThenFetched(files: Files, f: string, m: Month)
    ensures Fetched(Stored(files, f, m), f) == m
  {
  }

  /** Committing the day that is already stored changes nothing, given that
      the month keeps no empty day. */
  lemma CommitUnchanged(m: Month, date: string)
    requires NoEmptyDay(m)
    ensures Commit(m, date, DayOf(m, date)) == m
  {
  }

  /** Reloading the active date right after a save gives back exactly what
      was saved: the pruned month and the same task list. */
  lemma FlushThenOpen(s: Session)
    ensures Open(Flush(s).files, s.date) == Flush(s)
  {
  }

  /** Saving twice leaves the same files and state as saving once. */
  lemma FlushIdempotent(s: Session)
    ensures Flush(Flush(s)) == Flush(s)
  {
    var r := Flush(s);
    assert Commit(r.month, s.date, s.day) == r.month;
  }

  /** Deleting every task of the only populated date and saving removes the
      month's file. */
  lemma PruneRemovesFile(s: Session)
    requires s.day == []
    requires forall d :: d in s.month ==> d == s.date
    ensures FileName(s.date) !in Flush(s).files
  {
  }

  /** Switching to a date of another month saves the old month under its
      own file (removing the file when the month is empty), leaves every
      other file as it was, and makes resident the new month's file as it
      was before the switch. */
  lemma {:induction false} SwitchAcrossMonths(s: Session, d: string)
    requires IsDate(s.date) && IsDate(d) && MonthKey(s.date) != MonthKey(d)
    ensures var r := Switch(s, d);
            var m := Commit(s.month, s.date, s.day);
            && Fetched(r.files, FileName(s.date)) == m
            && (forall g :: g != FileName(s.date) ==> (g in r.files <==> g in s.files))
            && (forall g :: g != FileName(s.date) && g in r.files ==> r.files[g] == s.files[g])
            && r.month == Fetched(s.files, FileName(d))
            && r.day == DayOf(Fetched(s.files, FileName(d)), d)
  {
    SameMonthSameFile(s.date, d);
    var m := Commit(s.month, s.date, s.day);
    StoredThenFetched(s.files, FileName(s.date), m);
  }

  /** Going to a date of another month and straight back, with no change in
      between, is the same as one save: the files, the resident month and
      the task list are those of `Flush`. */
  lemma {:induction false} SwitchAwayAndBack(s: Session, d: string)
    requires SessionOk(s)
    requires IsDate(s.date) && IsDate(d) && MonthKey(s.date) != MonthKey(d)
    ensures Switch(Switch(s, d), s.date) == Flush(s)
  {
    SameMonthSameFile(s.date, d);
    var f2 := FileName(d);
    var t := Switch(s, d);
    var saved := Flush(s);
    assert t == Open(saved.files, d);
    CommitUnchanged(t.month, d);
    var back := Flush(t);
    assert back.files == saved.files by {
      if f2 in saved.files {
        assert back.files == saved.files[f2 := saved.files[f2]];
      }
    }
    FlushThenOpen(s);
  }

  /** Going to another date of the same month and straight back, with no
      change in between, touches no file and gives back the task list; the
      resident month is the committed one. */
  lemma SwitchWithinMonthAndBack(s: Session, d: string)
    requires MonthOk(s.month)
    requires MonthKey(s.date) == MonthKey(d)
    ensures var back := Switch(Switch(s, d), s.date);
            back == Session(s.files, Commit(s.month, s.date, s.day), s.date, s.day)
  {
  }
}
