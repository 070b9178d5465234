# Task manager stores in Dafny

A model of the data logic of `taskmanager.js`, a single-page task and exam
tracker. The page keeps two module-level arrays and changes them from DOM
event handlers:

- the **task list** (`tasks`, records `{id, name, date, done}`) with the
  calendar's `selectedDate` filter: the form creates tasks, each task's
  buttons toggle, edit or delete it, and the list and calendar show a view
  of it;
- the **exam list** (`exams`, records `{subject, date}` addressed by
  position) edited in a modal: save overwrites the selected exam or appends
  one, remove splices the selected one out, and `removePastExams` drops
  exams whose well-formed date is before today.

Two date-string helpers sit beside them: `formatDate` (`year-MM-DD`) and
`formatExamDateForDisplay` (`YYYY-MM-DD` to `DD/MM/YYYY`).

The handlers' logic is pulled out of the DOM wiring. The two arrays become
the classes `Tasks.TaskStore` and `Exams.ExamStore`, whose `seq` fields the
methods reassign, as the page reassigns or mutates its arrays. The filters
the page rebuilds the arrays with (`tasks.filter`, `exams.filter`) are pure
functions over sequences, all built on one `Seqs.Filter`. Task ids
(`Date.now()`), today's date (`formatDate(new Date())`), the form values and
the modal's confirmation answer are parameters.

Files:

- `wrappers.dfy`: `Option`.
- `seqs.dfy`: `Array.prototype.filter` and the facts about it (membership,
  order, multiplicity, idempotence, concatenation).
- `js_strings.dfy`: `String.prototype.trim` and the string `<` operator.
- `dates.dfy`: `formatDate`, the `^\d{4}-\d{2}-\d{2}$` test,
  `formatExamDateForDisplay`, and the proof that string order of ISO dates
  is calendar order.
- `tasks.dfy`: the task list.
- `exams.dfy`: the exam list.

Four choices follow the page's code where a reader might expect otherwise:

- The done button flips the flag of the task object it was rendered for.
  It does not look the task up by id, so `ToggleDone` takes the task's
  position.
- Delete and edit remove every task with the task's id, not only one task.
  `DeleteUniqueId` shows that exactly one task goes when ids are unique.
- Creating a task and pruning exams return nothing in the code. The model
  returns only whether the task was created, which is whether the form is
  reset.
- A selected date is applied only when it is truthy. A null or empty
  `selectedDate` shows every task.

## Model

| member | source | states |
|---|---|---|
| `JsStrings.Trim` | taskmanager.js:189 | The trimmed name is the part of the input left between leading and trailing white space, and it starts and ends with a non-white character. It is empty exactly when the input is all white space. |
| `JsStrings.LexLessTotal` | taskmanager.js:259 | String `<` is irreflexive, and of two different strings exactly one is smaller than the other. |
| `Dates.TwoDigitsValue` | taskmanager.js:43-44 | `String(n).padStart(2, "0")` for a month or day is two digits that read back as n. |
| `Dates.FormatDateParses` | taskmanager.js:41-46 | For a four-digit year, `formatDate` gives the `YYYY-MM-DD` shape, and its year, month and day fields read back as the inputs. |
| `Dates.IsoOrderIsChronological` | taskmanager.js:258-259 | For two well-formed `YYYY-MM-DD` strings, string `<` holds exactly when the first date is earlier on the calendar. |
| `Dates.FormatDateOrder` | taskmanager.js:41-46 | Two `formatDate` strings with four-digit years compare as strings exactly as their dates compare on the calendar. |
| `Dates.DisplayRoundTrip` | taskmanager.js:228-233 | A well-formed ISO date is displayed in the `DD/MM/YYYY` shape, and reading that back gives the ISO string. Any other input is returned unchanged. |
| `Dates.DisplayOfFormatDate` | taskmanager.js:228-233 | Displaying a `formatDate` string with a four-digit year gives `DD/MM/YYYY` built from the same zero-padded day, month and year. |
| `Tasks.WithoutId` | taskmanager.js:171 | After a delete or edit, a task remains exactly when it was in the list and does not carry the removed id. |
| `Tasks.WithoutIdKeepsOthers` | taskmanager.js:161 | Removing by id keeps the other tasks in their relative order. Each other task stays as often as it occurred, and no task with that id remains. |
| `Tasks.WithoutAbsentId` | taskmanager.js:171 | Deleting an id that no task carries leaves the list unchanged. |
| `Tasks.DeleteUniqueId` | taskmanager.js:170-171 | With unique ids, deleting the id of the task at position k removes exactly that one task. |
| `Tasks.EditUndoesCreate` | taskmanager.js:157-161 | Editing a task right after creating it with a fresh id gives back the list as it was before the create. |
| `Tasks.CreateKeepsIdsUnique` | taskmanager.js:193 | Appending a task whose id is fresh keeps all ids distinct. |
| `Tasks.Toggled` | taskmanager.js:148 | Toggling flips `done` on the one task and keeps its id, name and date. Every other task and the length stay the same. |
| `Tasks.ToggleTwice` | taskmanager.js:147-148 | Toggling the same task twice restores the original list. |
| `Tasks.Visible` | taskmanager.js:124-127 | A task is shown exactly when no date is selected (null or empty) or when its date equals the selected one. |
| `Tasks.VisibleInOrder` | taskmanager.js:124-127 | The shown list keeps insertion order. With no selected date (null or empty) it is the whole list. With a selected date each task of that date appears as often as in the list, and no other task appears; the list may be empty. |
| `Tasks.FlagMatchesVisible` | taskmanager.js:104 | A calendar day is flagged "has tasks" exactly when selecting it shows a non-empty list. |
| `Tasks.TaskStore.constructor` | taskmanager.js:51-58 | At start-up the list is the stored list, or empty when nothing parseable is stored. No date is selected. |
| `Tasks.TaskStore.Create` | taskmanager.js:189-193 | A name that trims to empty, or an empty date, leaves the list unchanged. Otherwise exactly one task with the trimmed name, the given date, the given id and `done` false is appended, and the earlier tasks are untouched. |
| `Tasks.TaskStore.ToggleDone` | taskmanager.js:147-148 | The new list is the old one with that task toggled. The selected date does not change. |
| `Tasks.TaskStore.Delete` | taskmanager.js:170-171 | The new list is the old one without the tasks carrying that id. |
| `Tasks.TaskStore.BeginEdit` | taskmanager.js:157-161 | Returns the task's name and date for the form, then removes every task with its id. |
| `Tasks.TaskStore.SelectDate` | taskmanager.js:107-108 | Clicking a day selects its date and leaves the tasks alone. |
| `Exams.DueTodayIsCurrent` | taskmanager.js:259 | An exam dated exactly today is current, so pruning keeps it: `date >= today` holds for equal strings. |
| `Exams.Prune` | taskmanager.js:254-260 | An exam survives pruning exactly when it was in the list and its date is missing, not of the `YYYY-MM-DD` shape, or not string-less than today. |
| `Exams.PruneKeepsOrder` | taskmanager.js:257-260 | The pruned list is a subsequence of the input. Each surviving exam keeps its multiplicity, and expired ones are gone entirely. |
| `Exams.PruneIdempotent` | taskmanager.js:257-260 | Pruning twice with the same today equals pruning once. |
| `Exams.PrunedIff` | taskmanager.js:257-260 | Pruning leaves a list unchanged exactly when every exam in it is current. |
| `Exams.PruneDropsExactlyPast` | taskmanager.js:255-259 | With today from `formatDate` and a four-digit year, a well-formed exam date is kept exactly when it is not earlier than today on the calendar. |
| `Exams.Upsert` | taskmanager.js:348-353 | With a selected index, only that entry changes and the length is kept. Otherwise the exam is appended after the unchanged old entries. |
| `Exams.RemoveAt` | taskmanager.js:378 | The list loses exactly the entry at the index. It is one shorter and keeps the others in order. |
| `Exams.SaveOnPrunedList` | taskmanager.js:348-356 | Saving a current exam into an already pruned list, then pruning, gives exactly the upsert. |
| `Exams.SaveNewThenPrune` | taskmanager.js:352-356 | Appending and then pruning gives the pruned old list, followed by the new exam exactly when it is current. |
| `Exams.RemoveOnPrunedList` | taskmanager.js:378-380 | Removing from a pruned list and pruning again gives exactly the splice. |
| `Exams.ExamStore.constructor` | taskmanager.js:251 | At start-up the list is the stored list, even an empty one, or the three default exams when nothing parseable is stored. |
| `Exams.ExamStore.RemovePastExams` | taskmanager.js:254-260 | The new list is the pruned old list. |
| `Exams.ExamStore.Save` | taskmanager.js:338-356 | An empty subject or date is rejected with `EmptySubjectOrDate` and changes nothing. Otherwise the result is the upsert of the old list, pruned. |
| `Exams.ExamStore.Remove` | taskmanager.js:369-380 | An index that selects no exam is rejected with `NoExamSelected`, and a declined confirmation is `Cancelled`. Neither changes the list. Otherwise the result is the old list without that entry, pruned. |

## Left out

- Rendering is not modelled: the calendar strip's elements, the task `li`s and their buttons, the exam list, the exam selector's options, the screen navigation and the modal's show/hide. The calendar's "selected" class is a plain equality and is left out too.
- The 30-day window of the calendar strip is not modelled, because it relies on the JavaScript `Date` day rollover of `setDate`. `formatDate` takes the date's local year, month and day as integers.
- `localStorage` and `JSON.parse`/`JSON.stringify` are not modelled: loading is the constructors' `Option` argument, and the write-through saves after each change have no counterpart. Stored data of another shape is not modelled: a stored `null` list, null array entries, or non-string dates.
- An exam whose stored date is `undefined` or `null` is modelled by the empty string. Both take the "missing date" branch of the prune.
- Theme toggling is not modelled. It is UI state only.
- The form fields are not modelled, nor is keeping the exam selector's fields in sync with the chosen exam.
- Timers and dialogs are left out: the hourly `setInterval`, `alert`, `confirm` and `console.log`. Alerts are the `Rejected` outcomes, and the confirmation is the `confirmed` parameter of `Remove`.
- `Date.now()` and `new Date()` are not modelled: task ids and today's string are parameters. Id collisions are allowed: delete and edit then remove every task with that id, as the page does.
- String `<` is modelled by Unicode code point; JavaScript compares UTF-16 code units. The two orders agree whenever one of the strings is ASCII, as every well-formed exam date is.
- `formatDate` is modelled for every year (with a minus sign for negative ones). The facts about its output hold only for four-digit years, because other years do not give the `YYYY-MM-DD` shape.
- `ToggleDone` and `BeginEdit` require the position of an existing task. The page attaches these buttons only to rendered tasks.
