/** The `TodoList` state as far as data goes: the task list, the stored
    search term and the sort method, with the transitions the event handlers
    trigger and the view `render` displays (filter, then sort). */
module TodoList {
  import opened Wrappers
  import opened Text
  import opened Tasks
  import opened Sorting
  import Seqs

  datatype Store = Store(tasks: seq<Task>, searchTerm: string, sortMethod: string)

  /** The result of a user action on the store, with the message shown, if any. */
  datatype Step = Step(store: Store, error: Option<ValidationError>)

  /** What the constructor sets up: no tasks, no search, 'date-desc'. */
  const Initial: Store := Store([], "", InitialSortMethod)

  /** Every stored text is trimmed and inside the length window, and the
      search term is lower case. Texts loaded from storage are not covered. */
  predicate Valid(st: Store) {
    ValidTexts(st.tasks) && IsLower(st.searchTerm)
  }

  predicate ValidTexts(tasks: seq<Task>) {
    forall t :: t in tasks ==> Trimmed(t.text) && InWindow(t.text)
  }

  lemma InitialValid()
    ensures Valid(Initial)
  {
  }

  /** The form's submit handler. Acceptance keeps the store valid. */
  function Add(st: Store, input: string, date: Option<int>, id: int): (r: Step)
    ensures r.error.None? <==> InWindow(Trim(input))
    ensures r.error.Some? ==> r.store == st
    ensures r.error == Some(TooShort) <==> JsLength(Trim(input)) < MinTextLength
    ensures r.store.searchTerm == st.searchTerm && r.store.sortMethod == st.sortMethod
    ensures r.error.None? ==> r.store.tasks == st.tasks + [Task(id, Trim(input), date)]
    ensures Valid(st) ==> Valid(r.store)
  {
    var o := AddTask(st.tasks, input, date, id);
    assert o.error.None? ==> o.tasks == st.tasks + [Task(id, Trim(input), date)];
    Step(st.(tasks := o.tasks), o.error)
  }

  /** An accepted text is appended, trimmed, at the end of the list. */
  lemma AddAccepted(st: Store, input: string, date: Option<int>, id: int, text: string)
    requires Trim(input) == text && InWindow(text)
    ensures Add(st, input, date, id) == Step(st.(tasks := st.tasks + [Task(id, text, date)]), None)
  {
  }

  /** The delete button's handler: the list is what `deleteTask` leaves, so
      no task with the id remains and every task with another id survives. */
  function Delete(st: Store, id: int): (r: Store)
    ensures r.tasks == DeleteTask(st.tasks, id)
    ensures !HasId(r.tasks, id)
    ensures forall t :: t in st.tasks && t.id != id ==> t in r.tasks
    ensures r.searchTerm == st.searchTerm && r.sortMethod == st.sortMethod
    ensures Valid(st) ==> Valid(r)
  {
    st.(tasks := DeleteTask(st.tasks, id))
  }

  /** Writing a text inside the window over the first match keeps every
      stored text trimmed and inside the window. */
  lemma UpdateKeepsTextsValid(tasks: seq<Task>, id: int, text: string, date: Option<int>)
    requires ValidTexts(tasks)
    requires Trimmed(text) && InWindow(text)
    ensures ValidTexts(UpdateTask(tasks, id, text, date))
  {
    var u := UpdateTask(tasks, id, text, date);
    forall t | t in u ensures Trimmed(t.text) && InWindow(t.text) {
      var i :| 0 <= i < |u| && u[i] == t;
      if !FirstWithId(tasks, id, i) {
        assert tasks[i] in tasks;
      }
    }
  }

  /** Enter or blur in edit mode: a rejected text reports the error and changes
      nothing; an accepted one writes the trimmed text and the date over the
      first task carrying the id and leaves every other task, the search term
      and the sort method alone. Only validated text reaches the list, so the
      edit path keeps the store valid. */
  function Edit(st: Store, id: int, input: string, date: Option<int>): (r: Step)
    ensures r.error.None? <==> InWindow(Trim(input))
    ensures r.error.Some? ==> r.store == st
    ensures r.error == Some(TooShort) <==> JsLength(Trim(input)) < MinTextLength
    ensures r.store == st.(tasks := SaveEdit(st.tasks, id, input, date).tasks)
    ensures |r.store.tasks| == |st.tasks|
    ensures r.error.None? ==> forall i :: 0 <= i < |st.tasks| ==>
      r.store.tasks[i] == if FirstWithId(st.tasks, id, i) then Task(id, Trim(input), date) else st.tasks[i]
    ensures Valid(st) ==> Valid(r.store)
  {
    var o := SaveEdit(st.tasks, id, input, date);
    assert Valid(st) ==> ValidTexts(o.tasks) by {
      if Valid(st) && o.error.None? {
        UpdateKeepsTextsValid(st.tasks, id, Trim(input), date);
      }
    }
    Step(st.(tasks := o.tasks), o.error)
  }

  /** The search box's input handler: the term is stored lower-cased. */
  function SetSearch(st: Store, input: string): (r: Store)
    ensures r.searchTerm == Lower(input)
    ensures IsLower(r.searchTerm) && |r.searchTerm| == |input|
    ensures r.tasks == st.tasks && r.sortMethod == st.sortMethod
    ensures Valid(st) ==> Valid(r)
  {
    st.(searchTerm := Lower(input))
  }

  /** The sort select's change handler: the chosen value is stored as is. */
  function SetSort(st: Store, sortMethod: string): (r: Store)
    ensures r.sortMethod == sortMethod
    ensures r.tasks == st.tasks && r.searchTerm == st.searchTerm
    ensures Valid(st) ==> Valid(r)
  {
    st.(sortMethod := sortMethod)
  }

  /** The list `render` sets out to draw: `getSortedTasks(getFilteredTasks())`.
      Without an active term it holds every stored task; with one, exactly the
      matching stored tasks, each as often as it is stored. In the date modes
      dated tasks come first, ordered by timestamp as the mode dictates.
      Whether the page then draws it depends on the highlight pattern built
      from the term, which this function does not model. */
  function View(st: Store, collate: (string, string) -> int): (r: seq<Task>)
    ensures multiset(r) <= multiset(st.tasks)
    ensures JsLength(st.searchTerm) < MinSearchLength ==> multiset(r) == multiset(st.tasks)
    ensures JsLength(st.searchTerm) >= MinSearchLength ==>
      forall t :: multiset(r)[t] == if Matches(t, st.searchTerm) then multiset(st.tasks)[t] else 0
    ensures JsLength(st.searchTerm) >= MinSearchLength ==>
      forall t :: t in r <==> t in st.tasks && Matches(t, st.searchTerm)
    ensures ModeOf(st.sortMethod) != TextAsc ==>
      forall i, j :: 0 <= i < j < |r| && r[j].date.Some? ==> r[i].date.Some?
    ensures ModeOf(st.sortMethod) == DateDesc ==>
      forall i, j :: 0 <= i < j < |r| && r[i].date.Some? && r[j].date.Some? ==> r[i].date.value <= r[j].date.value
    ensures ModeOf(st.sortMethod) == DateAsc ==>
      forall i, j :: 0 <= i < j < |r| && r[i].date.Some? && r[j].date.Some? ==> r[i].date.value >= r[j].date.value
  {
    var f := FilterTasks(st.tasks, st.searchTerm);
    var r := SortTasks(f, st.sortMethod, collate);
    Seqs.SubsequenceBounds(f, st.tasks);
    PermutedFilterContents(st.tasks, f, r, st.searchTerm);
    r
  }

  /** A reordering `r` of the filtered list `f` shows the same tasks, as often. */
  lemma PermutedFilterContents(tasks: seq<Task>, f: seq<Task>, r: seq<Task>, term: string)
    requires multiset(r) == multiset(f)
    requires forall t :: t in f ==> t in tasks
    requires JsLength(term) < MinSearchLength ==> f == tasks
    requires JsLength(term) >= MinSearchLength ==>
      forall t :: multiset(f)[t] == if Matches(t, term) then multiset(tasks)[t] else 0
    ensures multiset(r) <= multiset(tasks)
    ensures JsLength(term) >= MinSearchLength ==>
      forall t :: t in r <==> t in tasks && Matches(t, term)
  {
    if JsLength(term) >= MinSearchLength {
      assert forall t :: multiset(f)[t] <= multiset(tasks)[t];
      forall t ensures t in r <==> t in tasks && Matches(t, term) {
        assert t in r <==> t in multiset(r);
        assert t in tasks <==> t in multiset(tasks);
      }
    }
  }
}
