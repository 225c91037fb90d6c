# To-do list task engine, modelled in Dafny

This project models the data logic of the `TodoList` class of a browser
to-do list widget (`script.js`). The logic covers:

- validating task text against a length window of 3 to 255;
- adding a trimmed task with a caller-supplied id and an optional due date;
- deleting by id;
- updating the first task with a given id, and the edit-mode guard that
  validates before updating;
- filtering by a lower-cased search term once it has two characters;
- sorting a copy of the list by the three comparators of the sort select.

Everything is a pure function over an immutable `seq<Task>`. The `Task`
datatype has three fields:

- `id: int`, the `Date.now()` reading, passed in by the caller;
- `text: string`;
- `date: Option<int>`, a due-date timestamp, with `None` for the empty
  (falsy) date string.

Modules:

- `Wrappers`: `Option`.
- `Seqs`: `Keep`, an order-preserving filter (`Array.prototype.filter`), and
  `IsSubsequence`, which describes what `Keep` returns.
- `Text`: the string primitives the code calls. `trim` and `toLowerCase` are
  modelled over ASCII. `includes` is proved equivalent to "occurs at some
  index". `length` counts UTF-16 code units: characters outside the Basic
  Multilingual Plane count twice, as in JavaScript.
- `Tasks`: the task record, `validateTask`, `addTask`, `deleteTask`,
  `updateTask`, the `saveChanges` guard, and `getFilteredTasks`.
- `Sorting`: the `getSortedTasks` comparator written out branch by branch,
  and a stable insertion sort.
- `TodoList`: the object's state (tasks, stored search term, sort method),
  the transitions the event handlers trigger, the view `render` lists, and
  a store invariant.
- `Scenario`: a worked session: two adds, one rejected add, the default
  view, a search, and a rejected edit.

Points where the code's behaviour is easy to misread:

- The length window is 3 to 255 inclusive at both ends, counted in UTF-16
  code units.
- `updateTask` on an absent id silently does nothing, and `deleteTask`
  returns nothing. There is no `NotFound` result.
- Ids come from the clock and are not guaranteed unique. No uniqueness is
  assumed; update acts on the first match and delete removes every match.
- The date labels are swapped. `'date-asc'` returns `b - a`, so later dates
  come first. `'date-desc'`, and any unrecognised mode, returns `a - b`, so
  earlier dates come first. In both modes undated tasks go last.

## Model

| member | source | states |
|---|---|---|
| Tasks.Validate | script.js:79-84 | A text is accepted exactly when its UTF-16 length is between 3 and 255 inclusive. It is reported too short exactly when it is under 3 and too long exactly when it is over 255. The two cases are disjoint, so the order of the checks cannot change the verdict. |
| Tasks.ValidateIgnoresDate | script.js:79-84 | The date argument has no effect on the result of validation. |
| Tasks.AddTask | script.js:54-71 | Acceptance happens exactly when the trimmed text is inside the window. A rejection leaves the list identical. An acceptance keeps the old list as a prefix and appends exactly one task `Task(id, trimmed text, date)`, so the length grows by one. |
| Tasks.DeleteTask | script.js:94-95 | No task with the id remains. Every task with another id is kept with its multiplicity. The result is an order-preserving subsequence of the input. |
| Tasks.DeleteAbsent | script.js:94-95 | Deleting an id that no task carries returns the list unchanged. |
| Tasks.DeleteIdempotent | script.js:94-95 | Deleting the same id twice gives the same list as deleting it once. |
| Tasks.FindIndex | script.js:101 | `find` yields the position of the first task with the id, and nothing exactly when no task has it. |
| Tasks.UpdateTask | script.js:100-105 | The length is unchanged. At the first position carrying the id the task becomes `Task(id, new text, new date)`. Every other position, including later duplicates of the id, is unchanged. |
| Tasks.UpdateAbsent | script.js:100-105 | Updating an id that no task carries returns the list unchanged. |
| Tasks.SaveEdit | script.js:126-136 | The edit is accepted exactly when the trimmed text is inside the window. A rejection reports `TooShort` exactly when the trimmed text is under 3 code units, and otherwise `TooLong`. It leaves the list identical. An acceptance applies the update with the trimmed text. |
| Tasks.FilterTasks | script.js:158-165 | A term under 2 code units returns the whole list. Otherwise the result holds exactly the tasks whose lower-cased text contains the term, with their multiplicities. The result is always an order-preserving subsequence and never longer than the input. |
| Tasks.FilterAllMatch | script.js:158-165 | A term that every task matches returns the list unchanged. |
| Tasks.FilterIdempotent | script.js:158-165 | Filtering the filtered list again with the same term changes nothing. |
| Tasks.FilterNarrowing | script.js:158-165 | A term that contains another term keeps a subsequence of what the contained term keeps. This holds whether or not the contained term reaches the 2-code-unit threshold. |
| Seqs.Keep | script.js:95 | The filter keeps exactly the elements that satisfy the predicate, with their multiplicities, in their original order. |
| Text.Trim | script.js:55 | The result has no whitespace at either end. It is a contiguous segment of the input, and everything cut away on either side is whitespace. |
| Text.TrimIdempotent | script.js:127 | Trimming a trimmed text changes nothing. |
| Text.Lower | script.js:29 | Each letter `A`-`Z` becomes its lower-case letter, 32 code points further on. Every other character is kept in place, so the length is unchanged and no upper-case letter is left. |
| Text.Contains | script.js:163 | `includes` is true exactly when the term occurs at some index of the text. |
| Text.ContainsTransitive | script.js:163 | A text that contains a term also contains every term that term contains. |
| Text.JsLength | script.js:80-81 | `length` lies between the number of characters and twice that number. It equals the number of characters when every character is in the Basic Multilingual Plane. |
| Text.JsLengthConcat | script.js:80-81 | `length` is additive over concatenation. |
| Text.JsLengthOfChar | script.js:159 | A single character has length 2 when it lies outside the Basic Multilingual Plane (an emoji, say) and 1 otherwise. Together with additivity this fixes `length` as one code unit per BMP character plus two per other character. |
| Sorting.ModeOf | script.js:171-188 | `'text-asc'` and `'date-asc'` select their own branches. Every other value, `'date-desc'` included, selects the date-desc branch. |
| Sorting.CompareDates | script.js:176-197 | A negative result puts the first task first. A dated task goes before an undated one and two undated tasks tie. Two dated tasks go later-first in `'date-asc'` and earlier-first otherwise, and they tie only on equal timestamps. |
| Sorting.CompareDatesAntisymmetric | script.js:176-197 | Swapping the two tasks flips the sign of the date comparator and keeps ties as ties. |
| Sorting.DateModesTotalPreorder | script.js:176-197 | Both date comparators are total and transitive, so the orders they define are consistent. |
| Sorting.InsertionSort | script.js:170 | The sort always returns a permutation of its input. The result is ordered whenever the comparator is a total preorder. |
| Sorting.SortTasks | script.js:167-200 | The result is a permutation of the input. In both date modes every dated task precedes every undated one. Dated tasks have non-decreasing timestamps in `'date-desc'` and unrecognised modes, and non-increasing timestamps in `'date-asc'`. |
| Sorting.SortOfSorted | script.js:170 | An already ordered list is returned as it is. |
| Sorting.SortIdempotent | script.js:167-200 | Sorting the sorted list again changes nothing in the date modes. In `'text-asc'` the same holds when the collation is consistent. |
| TodoList.InitialValid | script.js:11-13 | The initial state satisfies the store invariant: no tasks, an empty search term, and `'date-desc'`. |
| TodoList.Add | script.js:54-77 | Submitting the form either changes nothing and reports the error, or appends the trimmed task. The error is `TooShort` exactly when the trimmed text is under 3 code units, and otherwise `TooLong`. The search term and sort method are untouched. The store invariant is preserved: every text is trimmed and inside the window, and the term is lower case. |
| TodoList.AddAccepted | script.js:54-71 | An input whose trimmed text is inside the window is appended, trimmed, with no error. |
| TodoList.Delete | script.js:94-98 | The new list is exactly what `deleteTask` leaves. No task with the id remains, and every stored task with another id survives. The search term, the sort method and the invariant are kept. |
| TodoList.Edit | script.js:126-136 | A rejected edit changes nothing. It alerts `TooShort` exactly when the trimmed text is under 3 code units, and otherwise `TooLong`. An accepted edit writes `Task(id, trimmed text, date)` over the first task carrying the id and leaves every other position unchanged. The search term and sort method are untouched in both cases, and the length is kept. The invariant is preserved, so an edited text always satisfies the window. |
| TodoList.UpdateKeepsTextsValid | script.js:126-136 | Writing a trimmed, in-window text over the first match keeps every stored text trimmed and in the window. |
| TodoList.SetSearch | script.js:28-31 | The stored term is the lower-cased input: lower case, of the same length. Nothing else changes. |
| TodoList.SetSort | script.js:33-36 | The selected value is stored as given. Nothing else changes. |
| TodoList.View | script.js:203-207 | The list `render` sets out to draw, `getSortedTasks(getFilteredTasks())`. Without an active term it holds every stored task as often as it is stored. With a term it holds exactly the matching stored tasks, each as often as it is stored. In both date modes dated tasks come first. Their timestamps are non-decreasing in `'date-desc'` and unrecognised modes, and non-increasing in `'date-asc'`. |
| Scenario.Session | script.js:54-200 | Adding "Buy milk", "  Buy bread " (dated) and "ab" rejects only "ab", as too short. The default view shows the dated task first. Searching "BUY" keeps both tasks, in insertion order before sorting. `'date-asc'` also puts the dated task first. Editing the first task to "x" is rejected and leaves its text unchanged. |

## Left out

- Rendering and events: `render`'s markup, the search-highlight regular expression, `showError`/`clearError`/`alert`, and `enterEditMode`'s input swapping and blur/Enter/Escape handling. These are DOM plumbing. Escape only re-renders, so it changes no state. The model's `Edit` can be called with any id, whereas the page offers it only for a task that exists (script.js:112). An absent id leaves the list unchanged either way.
- TodoList.View: does not promise that the page shows the list. With an active term, `render` builds a regular expression from the raw term to highlight matches (script.js:223-225). A term that is not a valid pattern, such as `c++`, `a(`, `x)` or `[a`, makes that constructor throw on the first task drawn. The list was already cleared (script.js:204), so nothing is shown, while `View` returns the matching tasks. Regular-expression syntax is not modelled.
- Persistence: `saveToLocalStorage`/`loadFromLocalStorage` are browser storage and JSON calls. Tasks loaded from storage are not validated, so the store invariant covers only tasks added or edited through the model.
- Task ids: `Date.now()` reads the clock, so the id is a parameter. Uniqueness is not claimed because the code does not ensure it.
- Dates: `new Date(...)` parsing, `getTime`, `toISOString`, `toLocaleString`, and the NaN that a malformed date yields. A date is an optional integer timestamp.
- Sorting.SortTasks: for `'text-asc'` only the permutation is stated. `localeCompare` with Polish collation is a foreign library, so it is a caller-supplied `collate` function. Order is proved only for a consistent `collate`.
- Sorting.InsertionSort: the engine's own sort algorithm is not modelled. The model's sort is stable, as `Array.prototype.sort` is since ECMAScript 2019. Only the sign of a comparator result matters.
- Text.Trim: whitespace is the ASCII set (space, tab, LF, VT, FF, CR), not Unicode's. Non-breaking and other Unicode spaces are not trimmed.
- Text.Lower: only `A`-`Z` are lower-cased, not the full Unicode case tables.
- Tasks.Validate: the Polish error messages are represented by the two error values `TooShort` and `TooLong`.
