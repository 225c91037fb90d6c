/** `getSortedTasks`: the comparator of script.js, mode by mode, and a sort
    that returns a reordered copy of its input. The code's labels are kept as
    written: 'date-asc' puts later dates first and 'date-desc' (also the
    fallback for any unrecognised mode) puts earlier dates first. */
module Sorting {
  import opened Wrappers
  import opened Tasks

  datatype SortMode = TextAsc | DateAsc | DateDesc

  /** The value of `sortMethod` the list starts with. */
  const InitialSortMethod: string := "date-desc"

  /** The `switch` on `sortMethod`: two recognised names, and everything else,
      "date-desc" included, lands in the date-desc branch. */
  function ModeOf(sortMethod: string): (m: SortMode)
    ensures m == TextAsc <==> sortMethod == "text-asc"
    ensures m == DateAsc <==> sortMethod == "date-asc"
    ensures m == DateDesc <==> sortMethod != "text-asc" && sortMethod != "date-asc"
  {
    if sortMethod == "text-asc" then TextAsc
    else if sortMethod == "date-asc" then DateAsc
    else DateDesc
  }

  /** `a.date ? 1 : 0` */
  function HasDate(t: Task): int {
    if t.date.Some? then 1 else 0
  }

  /** The comparator of the two date modes, as written: a negative value puts
      `a` first. A dated task goes before an undated one, two undated tasks tie,
      and two dated tasks go later-first in 'date-asc' and earlier-first
      otherwise, tying only on equal timestamps. */
  function CompareDates(mode: SortMode, a: Task, b: Task): (r: int)
    ensures a.date.Some? && b.date.None? ==> r < 0
    ensures a.date.None? && b.date.Some? ==> r > 0
    ensures a.date.None? && b.date.None? ==> r == 0
    ensures a.date.Some? && b.date.Some? && mode == DateAsc ==>
      (r < 0 <==> a.date.value > b.date.value) && (r == 0 <==> a.date.value == b.date.value)
    ensures a.date.Some? && b.date.Some? && mode != DateAsc ==>
      (r < 0 <==> a.date.value < b.date.value) && (r == 0 <==> a.date.value == b.date.value)
  {
    if HasDate(a) != HasDate(b) then HasDate(b) - HasDate(a)
    else if a.date.None? && b.date.None? then 0
    else if mode == DateAsc then b.date.value - a.date.value
    else a.date.value - b.date.value
  }

  /** Swapping the arguments flips the sign of the date comparator, as
      `Array.prototype.sort` requires of a consistent comparator. */
  lemma CompareDatesAntisymmetric(mode: SortMode, a: Task, b: Task)
    ensures CompareDates(mode, a, b) < 0 <==> CompareDates(mode, b, a) > 0
    ensures CompareDates(mode, a, b) == 0 <==> CompareDates(mode, b, a) == 0
  {
  }

  /** The full comparator. 'text-asc' defers to `collate`, the caller-supplied
      stand-in for `localeCompare(…, 'pl', { sensitivity: 'base' })`. */
  function Compare(mode: SortMode, collate: (string, string) -> int, a: Task, b: Task): int {
    match mode
    case TextAsc => collate(a.text, b.text)
    case _ => CompareDates(mode, a, b)
  }

  /** `a` may stay before `b`: the comparator does not ask to swap them. */
  function Le(mode: SortMode, collate: (string, string) -> int): (Task, Task) -> bool {
    (a: Task, b: Task) => Compare(mode, collate, a, b) <= 0
  }

  ghost predicate TotalPreorder<T(!new)>(le: (T, T) -> bool) {
    && (forall a, b :: le(a, b) || le(b, a))
    && (forall a, b, c :: le(a, b) && le(b, c) ==> le(a, c))
  }

  predicate Sorted<T>(s: seq<T>, le: (T, T) -> bool) {
    forall i, j :: 0 <= i < j < |s| ==> le(s[i], s[j])
  }

  /** The date comparators are consistent: they order tasks by a total preorder. */
  lemma DateModesTotalPreorder(mode: SortMode, collate: (string, string) -> int)
    requires mode != TextAsc
    ensures TotalPreorder(Le(mode, collate))
  {
  }

  /** Places `x` before the first element it may precede, so it also goes in
      front of the elements it ties with; inserting from the back of the input
      forward therefore keeps tied elements in their original order. */
  function Insert<T>(x: T, s: seq<T>, le: (T, T) -> bool): (r: seq<T>)
    ensures multiset(r) == multiset(s) + multiset{x}
    ensures |r| == |s| + 1
    decreases |s|
  {
    if |s| == 0 then [x]
    else if le(x, s[0]) then [x] + s
    else
      assert s == [s[0]] + s[1..];
      [s[0]] + Insert(x, s[1..], le)
  }

  lemma {:induction false} InsertSorted<T(!new)>(x: T, s: seq<T>, le: (T, T) -> bool)
    requires TotalPreorder(le)
    requires Sorted(s, le)
    ensures Sorted(Insert(x, s, le), le)
    decreases |s|
  {
    if |s| > 0 && !le(x, s[0]) {
      InsertSorted(x, s[1..], le);
      var rest := Insert(x, s[1..], le);
      forall y | y in rest ensures le(s[0], y) {
        assert y in multiset(rest);
        if y != x {
          assert y in multiset(s[1..]);
          assert y in s[1..];
        }
      }
    }
  }

  /** Insertion sort by `le`: always a permutation of the input; sorted when
      `le` is a total preorder. */
  function InsertionSort<T(!new)>(s: seq<T>, le: (T, T) -> bool): (r: seq<T>)
    ensures multiset(r) == multiset(s)
    ensures |r| == |s|
    ensures TotalPreorder(le) ==> Sorted(r, le)
    decreases |s|
  {
    if |s| == 0 then []
    else
      var rest := InsertionSort(s[1..], le);
      assert s == [s[0]] + s[1..];
      assert TotalPreorder(le) ==> Sorted(Insert(s[0], rest, le), le) by {
        if TotalPreorder(le) {
          InsertSorted(s[0], rest, le);
        }
      }
      Insert(s[0], rest, le)
  }

  /** A sorted input is returned as it is. */
  lemma {:induction false} SortOfSorted<T(!new)>(s: seq<T>, le: (T, T) -> bool)
    requires Sorted(s, le)
    ensures InsertionSort(s, le) == s
    decreases |s|
  {
    if |s| > 0 {
      SortOfSorted(s[1..], le);
      if |s| > 1 {
        assert le(s[0], s[1..][0]);
      }
      assert s == [s[0]] + s[1..];
    }
  }

  /** `getSortedTasks(tasks)` with the current `sortMethod`: a permutation of
      its input (the input itself is a value and cannot change). In the date
      modes every dated task precedes every undated one; dated tasks come
      with non-decreasing timestamps in 'date-desc' and unrecognised modes,
      and with non-increasing timestamps in 'date-asc'. */
  function SortTasks(tasks: seq<Task>, sortMethod: string, collate: (string, string) -> int): (r: seq<Task>)
    ensures multiset(r) == multiset(tasks)
    ensures ModeOf(sortMethod) != TextAsc ==>
      forall i, j :: 0 <= i < j < |r| && r[j].date.Some? ==> r[i].date.Some?
    ensures ModeOf(sortMethod) == DateDesc ==>
      forall i, j :: 0 <= i < j < |r| && r[i].date.Some? && r[j].date.Some? ==> r[i].date.value <= r[j].date.value
    ensures ModeOf(sortMethod) == DateAsc ==>
      forall i, j :: 0 <= i < j < |r| && r[i].date.Some? && r[j].date.Some? ==> r[i].date.value >= r[j].date.value
  {
    var mode := ModeOf(sortMethod);
    assert mode != TextAsc ==> TotalPreorder(Le(mode, collate)) by {
      if mode != TextAsc {
        DateModesTotalPreorder(mode, collate);
      }
    }
    InsertionSort(tasks, Le(mode, collate))
  }

  /** Sorting an already sorted list again changes nothing, in every date
      mode; in 'text-asc' the same holds whenever `collate` is consistent. */
  lemma SortIdempotent(tasks: seq<Task>, sortMethod: string, collate: (string, string) -> int)
    requires ModeOf(sortMethod) != TextAsc || TotalPreorder(Le(TextAsc, collate))
    ensures SortTasks(SortTasks(tasks, sortMethod, collate), sortMethod, collate) == SortTasks(tasks, sortMethod, collate)
  {
    var mode := ModeOf(sortMethod);
    if mode != TextAsc {
      DateModesTotalPreorder(mode, collate);
    }
    SortOfSorted(SortTasks(tasks, sortMethod, collate), Le(mode, collate));
  }
}
