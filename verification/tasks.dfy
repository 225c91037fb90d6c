/** The task collection of the to-do list: the task record, text
    validation, and the add / delete / update / edit / filter operations of
    `TodoList` in script.js, as pure functions over an immutable sequence.
    The sequence is in insertion order; display order comes from Sorting. */
module Tasks {
  import opened Wrappers
  import opened Text
  import Seqs

  /** Shortest accepted task text, in UTF-16 code units. */
  const MinTextLength: nat := 3
  /** Longest accepted task text, in UTF-16 code units. */
  const MaxTextLength: nat := 255
  /** The search term is applied only from this length on. */
  const MinSearchLength: nat := 2

  /** A task. `id` is the creation timestamp the caller supplies; `date` is the
      due date as a timestamp, `None` for the empty (falsy) date string. */
  datatype Task = Task(id: int, text: string, date: Option<int>)

  datatype ValidationError = TooShort | TooLong

  /** The result of a user action: the new task list and the message shown, if any. */
  datatype Outcome = Outcome(tasks: seq<Task>, error: Option<ValidationError>)

  /** The length window every stored text is meant to satisfy. */
  predicate InWindow(text: string) {
    MinTextLength <= JsLength(text) <= MaxTextLength
  }

  /** `validateTask`: accepts exactly the texts inside the window; a short text
      is reported as too short, a long one as too long. */
  function Validate(text: string, date: Option<int>): (r: Option<ValidationError>)
    ensures r.None? <==> InWindow(text)
    ensures r == Some(TooShort) <==> JsLength(text) < MinTextLength
    ensures r == Some(TooLong) <==> JsLength(text) > MaxTextLength
  {
    if JsLength(text) < MinTextLength then Some(TooShort)
    else if JsLength(text) > MaxTextLength then Some(TooLong)
    else None
  }

  /** The date argument of `validateTask` plays no part in the verdict. */
  lemma ValidateIgnoresDate(text: string, d1: Option<int>, d2: Option<int>)
    ensures Validate(text, d1) == Validate(text, d2)
  {
  }

  /** `addTask` with the input's raw text, the date field and the clock reading
      `id`: a rejected text leaves the list alone and reports why; an accepted
      one appends exactly one task with the trimmed text at the end. */
  function AddTask(tasks: seq<Task>, input: string, date: Option<int>, id: int): (r: Outcome)
    ensures r.error.None? <==> InWindow(Trim(input))
    ensures r.error.Some? ==> r.tasks == tasks
    ensures r.error == Some(TooShort) <==> JsLength(Trim(input)) < MinTextLength
    ensures r.error.None? ==>
      && |r.tasks| == |tasks| + 1
      && r.tasks[..|tasks|] == tasks
      && r.tasks[|tasks|] == Task(id, Trim(input), date)
  {
    var text := Trim(input);
    match Validate(text, date)
    case Some(e) => Outcome(tasks, Some(e))
    case None => Outcome(tasks + [Task(id, text, date)], None)
  }

  /** `deleteTask`: no task with `id` remains, every other task is kept with
      its multiplicity and in its original relative order. */
  function DeleteTask(tasks: seq<Task>, id: int): (r: seq<Task>)
    ensures forall t :: t in r ==> t.id != id
    ensures forall t :: t in tasks && t.id != id ==> t in r
    ensures forall t :: multiset(r)[t] == if t.id == id then 0 else multiset(tasks)[t]
    ensures Seqs.IsSubsequence(r, tasks)
  {
    Seqs.Keep(tasks, (t: Task) => t.id != id)
  }

  predicate HasId(tasks: seq<Task>, id: int) {
    exists t :: t in tasks && t.id == id
  }

  /** Deleting an id that is not present changes nothing. */
  lemma DeleteAbsent(tasks: seq<Task>, id: int)
    requires !HasId(tasks, id)
    ensures DeleteTask(tasks, id) == tasks
  {
    Seqs.KeepAll(tasks, (t: Task) => t.id != id);
  }

  /** Deleting the same id twice is deleting it once. */
  lemma DeleteIdempotent(tasks: seq<Task>, id: int)
    ensures DeleteTask(DeleteTask(tasks, id), id) == DeleteTask(tasks, id)
  {
    DeleteAbsent(DeleteTask(tasks, id), id);
  }

  /** `i` is the position of the first task carrying `id`. */
  predicate FirstWithId(tasks: seq<Task>, id: int, i: int) {
    0 <= i < |tasks| && tasks[i].id == id && forall j :: 0 <= j < i ==> tasks[j].id != id
  }

  /** `Array.prototype.find` on the id: the position of the first match, or
      `None` when no task has the id. */
  function FindIndex(tasks: seq<Task>, id: int): (r: Option<nat>)
    ensures r.Some? ==> FirstWithId(tasks, id, r.value)
    ensures r.None? <==> !HasId(tasks, id)
    decreases |tasks|
  {
    if |tasks| == 0 then None
    else if tasks[0].id == id then Some(0)
    else
      match FindIndex(tasks[1..], id)
      case None =>
        assert tasks == [tasks[0]] + tasks[1..];
        None
      case Some(i) =>
        assert tasks[1..][i] in tasks;
        Some(i + 1)
  }

  /** `updateTask`: the first task carrying `id` gets the new text and date and
      keeps its id; every other position, the length and all ids are unchanged. */
  function UpdateTask(tasks: seq<Task>, id: int, text: string, date: Option<int>): (r: seq<Task>)
    ensures |r| == |tasks|
    ensures forall i :: 0 <= i < |tasks| ==>
      r[i] == if FirstWithId(tasks, id, i) then Task(id, text, date) else tasks[i]
  {
    match FindIndex(tasks, id)
    case None => tasks
    case Some(i) => tasks[i := tasks[i].(text := text, date := date)]
  }

  /** Updating an id that is not present changes nothing. */
  lemma UpdateAbsent(tasks: seq<Task>, id: int, text: string, date: Option<int>)
    requires !HasId(tasks, id)
    ensures UpdateTask(tasks, id, text, date) == tasks
  {
    assert forall i :: 0 <= i < |tasks| ==> !FirstWithId(tasks, id, i) by {
      forall i | 0 <= i < |tasks| ensures !FirstWithId(tasks, id, i) {
        assert tasks[i] in tasks;
      }
    }
  }

  /** The `saveChanges` guard of the edit mode: the edited text is trimmed and
      validated; a rejected text reports the error and leaves every task as it
      was; an accepted one is written by `updateTask`. */
  function SaveEdit(tasks: seq<Task>, id: int, input: string, date: Option<int>): (r: Outcome)
    ensures r.error.None? <==> InWindow(Trim(input))
    ensures r.error.Some? ==> r.tasks == tasks
    ensures r.error == Some(TooShort) <==> JsLength(Trim(input)) < MinTextLength
    ensures r.error.None? ==> r.tasks == UpdateTask(tasks, id, Trim(input), date)
  {
    var text := Trim(input);
    match Validate(text, date)
    case Some(e) => Outcome(tasks, Some(e))
    case None => Outcome(UpdateTask(tasks, id, text, date), None)
  }

  /** A task matches a lower-cased search term when its lower-cased text contains it. */
  predicate Matches(t: Task, term: string) {
    Contains(Lower(t.text), term)
  }

  /** `getFilteredTasks` with the stored search term: a term shorter than two
      code units leaves the list whole; otherwise exactly the matching tasks
      remain, with their multiplicities, in insertion order. */
  function FilterTasks(tasks: seq<Task>, term: string): (r: seq<Task>)
    ensures JsLength(term) < MinSearchLength ==> r == tasks
    ensures |r| <= |tasks|
    ensures Seqs.IsSubsequence(r, tasks)
    ensures JsLength(term) >= MinSearchLength ==> forall t :: t in r <==> t in tasks && Matches(t, term)
    ensures JsLength(term) >= MinSearchLength ==>
      forall t :: multiset(r)[t] == if Matches(t, term) then multiset(tasks)[t] else 0
  {
    if JsLength(term) < MinSearchLength then
      Seqs.SubsequenceReflexive(tasks);
      tasks
    else
      Seqs.Keep(tasks, (t: Task) => Matches(t, term))
  }

  /** A term every task matches leaves the list as it is. */
  lemma FilterAllMatch(tasks: seq<Task>, term: string)
    requires forall t :: t in tasks ==> Matches(t, term)
    ensures FilterTasks(tasks, term) == tasks
  {
    if JsLength(term) >= MinSearchLength {
      Seqs.KeepAll(tasks, (t: Task) => Matches(t, term));
    }
  }

  /** Filtering the filtered list again with the same term changes nothing. */
  lemma FilterIdempotent(tasks: seq<Task>, term: string)
    ensures FilterTasks(FilterTasks(tasks, term), term) == FilterTasks(tasks, term)
  {
    if JsLength(term) >= MinSearchLength {
      Seqs.KeepIdempotent(tasks, (t: Task) => Matches(t, term));
    }
  }

  /** Narrowing the search (a term that contains the current one) can only
      drop tasks: the narrower result is a subsequence of the wider one. */
  lemma FilterNarrowing(tasks: seq<Task>, wide: string, narrow: string)
    requires Contains(narrow, wide)
    ensures Seqs.IsSubsequence(FilterTasks(tasks, narrow), FilterTasks(tasks, wide))
  {
    if JsLength(wide) < MinSearchLength {
      assert FilterTasks(tasks, wide) == tasks;
    } else {
      assert JsLength(narrow) >= MinSearchLength by {
        var i :| OccursAt(narrow, wide, i);
        JsLengthSlice(narrow, i, i + |wide|);
      }
      forall t: Task | Matches(t, narrow) ensures Matches(t, wide) {
        ContainsTransitive(Lower(t.text), narrow, wide);
      }
      Seqs.KeepStronger(tasks, (t: Task) => Matches(t, narrow), (t: Task) => Matches(t, wide));
    }
  }
}
