/**
 * The exam list of the task manager: the module-level `exams` array,
 * addressed by position, with the modal's save and remove actions and the
 * pruning of exams whose date has passed. "Today" is the string
 * `formatDate(new Date())` and is passed in; the selector's index is the
 * number of the chosen option, -1 when none is chosen.
 */
module Exams {
  import opened Wrappers
  import opened Seqs
  import opened JsStrings
  import opened Dates

  /** An exam record `{ subject, date }`; a missing date is the empty string. */
  datatype Exam = Exam(subject: string, date: string)

  /** The two conditions the modal reports with an alert. */
  datatype ExamError = EmptySubjectOrDate | NoExamSelected

  /** What a modal action did: changed the list, was cancelled at the confirmation, or was refused. */
  datatype Outcome = Applied | Cancelled | Rejected(error: ExamError)

  /** `defaultExams` (taskmanager.js:245-249), used when nothing is stored. */
  const DefaultExams: seq<Exam> := [
    Exam("פרקי מכונות", "2025-12-20"),
    Exam("דינמיקה", "2025-12-22"),
    Exam("תרמודינמיקה", "2025-12-25")
  ]

  /**
   * The test `removePastExams` keeps an exam by (taskmanager.js:258-259):
   * a missing date, or one not of the `YYYY-MM-DD` shape, always stays;
   * a well-formed date stays when it is `>=` today as a string.
   */
  predicate IsCurrent(e: Exam, today: string)
  {
    e.date == "" || !IsIsoShape(e.date) || !LexLess(e.date, today)
  }

  /** An exam dated exactly today survives pruning: `date >= today` holds for equal strings. */
  lemma {:induction false} DueTodayIsCurrent(subject: string, today: string)
    ensures IsCurrent(Exam(subject, today), today)
  {
    LexLessTotal(today, today);
  }

  function CurrentOn(today: string): Exam -> bool
  {
    (e: Exam) => IsCurrent(e, today)
  }

  /** The exam list after `removePastExams` (taskmanager.js:254-260). */
  function Prune(exams: seq<Exam>, today: string): (r: seq<Exam>)
    ensures |r| <= |exams|
    ensures forall e :: e in r <==> e in exams && IsCurrent(e, today)
  {
    Filter(exams, CurrentOn(today))
  }

  /**
   * Pruning keeps the surviving exams in order, each as often as it
   * occurred, and drops every occurrence of the others.
   */
  lemma PruneKeepsOrder(exams: seq<Exam>, today: string, e: Exam)
    ensures IsSubsequence(Prune(exams, today), exams)
    ensures multiset(Prune(exams, today))[e] == if IsCurrent(e, today) then multiset(exams)[e] else 0
  {
    FilterIsSubsequence(exams, CurrentOn(today));
    FilterCount(exams, CurrentOn(today), e);
  }

  /** Pruning twice with the same today is pruning once. */
  lemma PruneIdempotent(exams: seq<Exam>, today: string)
    ensures Prune(Prune(exams, today), today) == Prune(exams, today)
  {
    FilterIdempotent(exams, CurrentOn(today));
  }

  /** A list that pruning leaves alone holds current exams only, and conversely. */
  lemma PrunedIff(exams: seq<Exam>, today: string)
    ensures Prune(exams, today) == exams <==> forall e :: e in exams ==> IsCurrent(e, today)
  {
    FilterUnchanged(exams, CurrentOn(today));
  }

  /**
   * With today produced by `formatDate` for a four-digit year, a well-formed
   * exam date is kept exactly when it is not earlier than today on the calendar.
   */
  lemma PruneDropsExactlyPast(e: Exam, year: int, month: int, day: int)
    requires 1000 <= year <= 9999 && 1 <= month <= 12 && 1 <= day <= 31
    requires IsIsoShape(e.date)
    ensures IsCurrent(e, FormatDate(year, month, day)) <==>
            !Before(Year(e.date), Month(e.date), Day(e.date), year, month, day)
  {
    FormatDateParses(year, month, day);
    IsoOrderIsChronological(e.date, FormatDate(year, month, day));
  }

  /** The selector's index names an existing exam (`selectedIndex >= 0 && exams[selectedIndex]`). */
  predicate Selects(exams: seq<Exam>, index: int)
  {
    0 <= index < |exams|
  }

  /**
   * The list change of saving (taskmanager.js:348-353): with a selected
   * exam, only its subject and date change; otherwise the exam is appended.
   */
  function Upsert(exams: seq<Exam>, index: int, e: Exam): (r: seq<Exam>)
    ensures Selects(exams, index) ==>
              |r| == |exams| && r[index] == e &&
              forall j :: 0 <= j < |exams| && j != index ==> r[j] == exams[j]
    ensures !Selects(exams, index) ==> |r| == |exams| + 1 && r[..|exams|] == exams && r[|exams|] == e
  {
    if Selects(exams, index) then exams[index := e] else exams + [e]
  }

  /** `exams.splice(index, 1)` (taskmanager.js:378): the exam at index leaves, the others close ranks in order. */
  function RemoveAt(exams: seq<Exam>, index: int): (r: seq<Exam>)
    requires Selects(exams, index)
    ensures |r| == |exams| - 1
    ensures forall j :: 0 <= j < index ==> r[j] == exams[j]
    ensures forall j :: index <= j < |r| ==> r[j] == exams[j + 1]
  {
    exams[..index] + exams[index + 1..]
  }

  /**
   * Saving a current exam into a list that is already pruned (the modal
   * prunes when it opens) prunes nothing: the result is the plain upsert.
   */
  lemma SaveOnPrunedList(exams: seq<Exam>, index: int, e: Exam, today: string)
    requires Prune(exams, today) == exams
    requires IsCurrent(e, today)
    ensures Prune(Upsert(exams, index, e), today) == Upsert(exams, index, e)
  {
    PrunedIff(exams, today);
    var r := Upsert(exams, index, e);
    forall x | x in r ensures IsCurrent(x, today) {
      var j :| 0 <= j < |r| && r[j] == x;
      if j != index && j < |exams| {
        assert exams[j] in exams;
      }
    }
    PrunedIff(r, today);
  }

  /**
   * Appending and then pruning prunes the old list and keeps the new exam
   * at the end exactly when it is current.
   */
  lemma SaveNewThenPrune(exams: seq<Exam>, index: int, e: Exam, today: string)
    requires !Selects(exams, index)
    ensures Prune(Upsert(exams, index, e), today) ==
            Prune(exams, today) + (if IsCurrent(e, today) then [e] else [])
  {
    assert Upsert(exams, index, e) == exams + [e];
    FilterAppend(exams, [e], CurrentOn(today));
    assert [e][1..] == [];
  }

  /** Removing from a pruned list and pruning again prunes nothing. */
  lemma RemoveOnPrunedList(exams: seq<Exam>, index: int, today: string)
    requires Selects(exams, index)
    requires Prune(exams, today) == exams
    ensures Prune(RemoveAt(exams, index), today) == RemoveAt(exams, index)
  {
    PrunedIff(exams, today);
    var r := RemoveAt(exams, index);
    forall x | x in r ensures IsCurrent(x, today) {
      var j :| 0 <= j < |r| && r[j] == x;
      if j < index {
        assert exams[j] in exams;
      } else {
        assert exams[j + 1] in exams;
      }
    }
    PrunedIff(r, today);
  }

  /** The page's exam state: the `exams` array. */
  class ExamStore {
    var exams: seq<Exam>

    /**
     * Start-up (taskmanager.js:215-222, :251): the stored list (an empty one
     * included), or the default exams when nothing parseable is stored.
     */
    constructor (saved: Option<seq<Exam>>)
      ensures exams == (if saved.Some? then saved.value else DefaultExams)
    {
      exams := if saved.Some? then saved.value else DefaultExams;
    }

    /** `removePastExams()` (taskmanager.js:254-260), run at start-up, hourly and after each change. */
    method RemovePastExams(today: string)
      modifies this
      ensures exams == Prune(old(exams), today)
    {
      exams := Prune(exams, today);
    }

    /**
     * The modal's save button (taskmanager.js:338-356): an empty subject or
     * date is refused and changes nothing; otherwise the selected exam is
     * overwritten, or a new one appended, and the list is pruned.
     */
    method Save(index: int, subject: string, date: string, today: string) returns (outcome: Outcome)
      modifies this
      ensures outcome == if subject == "" || date == "" then Rejected(EmptySubjectOrDate) else Applied
      ensures outcome.Rejected? ==> exams == old(exams)
      ensures outcome.Applied? ==> exams == Prune(Upsert(old(exams), index, Exam(subject, date)), today)
    {
      if subject == "" || date == "" {
        return Rejected(EmptySubjectOrDate);
      }
      exams := Upsert(exams, index, Exam(subject, date));
      RemovePastExams(today);
      outcome := Applied;
    }

    /**
     * The modal's remove button (taskmanager.js:369-380): no selected exam is
     * refused; a declined confirmation changes nothing; otherwise the
     * selected exam is spliced out and the list is pruned.
     */
    method Remove(index: int, confirmed: bool, today: string) returns (outcome: Outcome)
      modifies this
      ensures outcome == if !Selects(old(exams), index) then Rejected(NoExamSelected)
                         else if !confirmed then Cancelled
                         else Applied
      ensures !outcome.Applied? ==> exams == old(exams)
      ensures outcome.Applied? ==> exams == Prune(RemoveAt(old(exams), index), today)
    {
      if index < 0 || index >= |exams| {
        return Rejected(NoExamSelected);
      }
      if !confirmed {
        return Cancelled;
      }
      exams := RemoveAt(exams, index);
      RemovePastExams(today);
      outcome := Applied;
    }
  }
}
