/**
 * The task list of the task manager: the module-level `tasks` array and
 * `selectedDate` filter, with what the form and the per-task buttons do to
 * them, and the two views derived from them (the visible list and the
 * calendar's "has tasks" flag). Task ids (`Date.now()` in the page) and the
 * form's field values are parameters.
 */
module Tasks {
  import opened Wrappers
  import opened Seqs
  import opened JsStrings

  /** A task record `{ id, name, date, done }`; `date` is the date input's `YYYY-MM-DD` value. */
  datatype Task = Task(id: int, name: string, date: string, done: bool)

  /** The filter predicate of delete and edit: `(t) => t.id !== id`. */
  function IdIsNot(id: int): Task -> bool
  {
    (t: Task) => t.id != id
  }

  /** The filter predicate of the date view: `(t) => t.date === date`. */
  function DateIs(date: string): Task -> bool
  {
    (t: Task) => t.date == date
  }

  /**
   * `tasks.filter((t) => t.id !== id)`, the new task list after deleting
   * or starting to edit the task with that id (taskmanager.js:161, :171).
   */
  function WithoutId(tasks: seq<Task>, id: int): (r: seq<Task>)
    ensures forall t :: t in r <==> t in tasks && t.id != id
  {
    Filter(tasks, IdIsNot(id))
  }

  /**
   * Removing by id drops every task carrying that id, keeps every other
   * task as often as it occurred, and keeps their relative order.
   */
  lemma WithoutIdKeepsOthers(tasks: seq<Task>, id: int, t: Task)
    ensures IsSubsequence(WithoutId(tasks, id), tasks)
    ensures multiset(WithoutId(tasks, id))[t] == if t.id == id then 0 else multiset(tasks)[t]
  {
    FilterIsSubsequence(tasks, IdIsNot(id));
    FilterCount(tasks, IdIsNot(id), t);
  }

  /** No two tasks share an id (what `Date.now()` ids are meant to give). */
  predicate UniqueIds(tasks: seq<Task>)
  {
    forall j, k :: 0 <= j < k < |tasks| ==> tasks[j].id != tasks[k].id
  }

  /** Removing an id no task carries changes nothing. */
  lemma WithoutAbsentId(tasks: seq<Task>, id: int)
    requires forall j :: 0 <= j < |tasks| ==> tasks[j].id != id
    ensures WithoutId(tasks, id) == tasks
  {
    forall t | t in tasks ensures IdIsNot(id)(t) {
      var j :| 0 <= j < |tasks| && tasks[j] == t;
    }
    FilterUnchanged(tasks, IdIsNot(id));
  }

  /** With unique ids, deleting the id of the task at position k removes exactly that task. */
  lemma DeleteUniqueId(tasks: seq<Task>, k: int)
    requires UniqueIds(tasks) && 0 <= k < |tasks|
    ensures WithoutId(tasks, tasks[k].id) == tasks[..k] + tasks[k + 1..]
  {
    var id := tasks[k].id;
    var before, after := tasks[..k], tasks[k + 1..];
    assert tasks == before + ([tasks[k]] + after);
    FilterAppend(before, [tasks[k]] + after, IdIsNot(id));
    FilterAppend([tasks[k]], after, IdIsNot(id));
    assert Filter([tasks[k]], IdIsNot(id)) == [];
    forall j | 0 <= j < |before| ensures before[j].id != id {
      assert before[j] == tasks[j];
    }
    forall j | 0 <= j < |after| ensures after[j].id != id {
      assert after[j] == tasks[k + 1 + j];
    }
    WithoutAbsentId(before, id);
    WithoutAbsentId(after, id);
  }

  /** The task `Create` appends (taskmanager.js:193), for an already trimmed name. */
  function NewTask(id: int, name: string, date: string): Task
  {
    Task(id, name, date, false)
  }

  /**
   * Editing a task right after creating it with an id no other task has
   * gives back the list as it was before the creation.
   */
  lemma EditUndoesCreate(tasks: seq<Task>, id: int, name: string, date: string)
    requires forall j :: 0 <= j < |tasks| ==> tasks[j].id != id
    ensures WithoutId(tasks + [NewTask(id, name, date)], id) == tasks
  {
    FilterAppend(tasks, [NewTask(id, name, date)], IdIsNot(id));
    WithoutAbsentId(tasks, id);
    assert Filter([NewTask(id, name, date)], IdIsNot(id)) == [];
  }

  /** Creating a task with a fresh id keeps ids unique. */
  lemma CreateKeepsIdsUnique(tasks: seq<Task>, id: int, name: string, date: string)
    requires UniqueIds(tasks)
    requires forall t :: t in tasks ==> t.id != id
    ensures UniqueIds(tasks + [NewTask(id, name, date)])
  {
    var r := tasks + [NewTask(id, name, date)];
    forall j, k | 0 <= j < k < |r| ensures r[j].id != r[k].id {
      if k == |tasks| {
        assert r[j] in tasks;
      }
    }
  }

  /** The task list after clicking the done button of the task at position i (taskmanager.js:148). */
  function Toggled(tasks: seq<Task>, i: int): (r: seq<Task>)
    requires 0 <= i < |tasks|
    ensures |r| == |tasks|
    ensures r[i].done == !tasks[i].done
    ensures r[i].id == tasks[i].id && r[i].name == tasks[i].name && r[i].date == tasks[i].date
    ensures forall j :: 0 <= j < |tasks| && j != i ==> r[j] == tasks[j]
  {
    tasks[i := tasks[i].(done := !tasks[i].done)]
  }

  /** Clicking the done button twice restores the list. */
  lemma ToggleTwice(tasks: seq<Task>, i: int)
    requires 0 <= i < |tasks|
    ensures Toggled(Toggled(tasks, i), i) == tasks
  {
    var r := Toggled(Toggled(tasks, i), i);
    assert forall j :: 0 <= j < |tasks| ==> r[j] == tasks[j];
  }

  /**
   * The list `renderTasks` shows (taskmanager.js:124-127): every task while
   * no date is selected (`selectedDate` is null or empty), otherwise the
   * tasks of the selected date.
   */
  function Visible(tasks: seq<Task>, selected: Option<string>): (r: seq<Task>)
    ensures forall t :: t in r <==>
              t in tasks && (selected.None? || selected.value == "" || t.date == selected.value)
  {
    if selected.Some? && selected.value != "" then Filter(tasks, DateIs(selected.value)) else tasks
  }

  /**
   * The visible list keeps insertion order and, for a selected date, holds
   * each task of that date exactly as often as the task list does; with no
   * date selected (null or empty) it is the whole list.
   */
  lemma VisibleInOrder(tasks: seq<Task>, selected: Option<string>, t: Task)
    ensures IsSubsequence(Visible(tasks, selected), tasks)
    ensures selected.None? || selected.value == "" ==> Visible(tasks, selected) == tasks
    ensures selected.Some? && selected.value != "" ==>
              multiset(Visible(tasks, selected))[t] ==
              if t.date == selected.value then multiset(tasks)[t] else 0
  {
    if selected.Some? && selected.value != "" {
      FilterIsSubsequence(tasks, DateIs(selected.value));
      FilterCount(tasks, DateIs(selected.value), t);
    } else {
      SubsequenceOfItself(tasks);
    }
  }

  lemma {:induction false} SubsequenceOfItself(s: seq<Task>)
    ensures IsSubsequence(s, s)
  {
    if s != [] {
      SubsequenceOfItself(s[1..]);
    }
  }

  /** The calendar's `has-tasks` flag (taskmanager.js:104): some task has this date. */
  predicate HasTasksOn(tasks: seq<Task>, date: string)
  {
    exists t :: t in tasks && t.date == date
  }

  /** A calendar day is flagged exactly when selecting it shows a non-empty list. */
  lemma FlagMatchesVisible(tasks: seq<Task>, date: string)
    requires date != ""
    ensures HasTasksOn(tasks, date) <==> Visible(tasks, Some(date)) != []
  {
    var r := Visible(tasks, Some(date));
    if r != [] {
      assert r[0] in r;
    }
  }

  /** The page's task state: the `tasks` array and the `selectedDate` filter. */
  class TaskStore {
    var tasks: seq<Task>
    var selectedDate: Option<string>

    /**
     * Start-up (taskmanager.js:14-15, :51-58, :403): the stored list, or the
     * empty list when nothing (or nothing parseable) is stored; no date selected.
     */
    constructor (saved: Option<seq<Task>>)
      ensures tasks == (if saved.Some? then saved.value else [])
      ensures selectedDate == None
    {
      tasks := if saved.Some? then saved.value else [];
      selectedDate := None;
    }

    /**
     * Submitting the task form (taskmanager.js:189-193): a name that trims to
     * nothing, or an empty date, is ignored; otherwise the task is appended
     * with the trimmed name and `done` false, and nothing else changes.
     */
    method Create(rawName: string, date: string, id: int) returns (created: bool)
      modifies this
      ensures created <==> Trim(rawName) != "" && date != ""
      ensures created ==> tasks == old(tasks) + [NewTask(id, Trim(rawName), date)]
      ensures !created ==> tasks == old(tasks)
      ensures selectedDate == old(selectedDate)
    {
      var name := Trim(rawName);
      if name == "" || date == "" {
        return false;
      }
      tasks := tasks + [NewTask(id, name, date)];
      created := true;
    }

    /** The done button of the task at position i (taskmanager.js:147-148). */
    method ToggleDone(i: int)
      requires 0 <= i < |tasks|
      modifies this
      ensures tasks == Toggled(old(tasks), i)
      ensures selectedDate == old(selectedDate)
    {
      tasks := Toggled(tasks, i);
    }

    /** The delete button of a task with this id (taskmanager.js:170-171). */
    method Delete(id: int)
      modifies this
      ensures tasks == WithoutId(old(tasks), id)
      ensures selectedDate == old(selectedDate)
    {
      tasks := WithoutId(tasks, id);
    }

    /**
     * The edit button of the task at position i (taskmanager.js:157-161):
     * hands its name and date back to the form, then removes every task
     * with its id.
     */
    method BeginEdit(i: int) returns (name: string, date: string)
      requires 0 <= i < |tasks|
      modifies this
      ensures name == old(tasks[i].name) && date == old(tasks[i].date)
      ensures tasks == WithoutId(old(tasks), old(tasks[i].id))
      ensures selectedDate == old(selectedDate)
    {
      name, date := tasks[i].name, tasks[i].date;
      tasks := WithoutId(tasks, tasks[i].id);
    }

    /** Clicking a calendar day (taskmanager.js:107-108). */
    method SelectDate(date: string)
      modifies this
      ensures selectedDate == Some(date)
      ensures tasks == old(tasks)
    {
      selectedDate := Some(date);
    }
  }
}
