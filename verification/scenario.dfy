/** A worked session of the to-do list, checked against the model. */
module Scenario {
  import opened Wrappers
  import opened Text
  import opened Tasks
  import opened Sorting
  import opened TodoList
  import Seqs

  const Milk: Task := Task(1, "Buy milk", None)
  const Bread: Task := Task(2, "Buy bread", Some(1735725600000))

  lemma TrimStartBread()
    ensures TrimStart("  Buy bread ") == "Buy bread "
  {
    assert "  Buy bread "[1..] == " Buy bread ";
    assert " Buy bread "[1..] == "Buy bread ";
    TrimStartBread1();
  }

  lemma TrimStartBread1()
    ensures TrimStart(" Buy bread ") == "Buy bread "
  {
    assert " Buy bread "[1..] == "Buy bread ";
    TrimStartBread0();
  }

  lemma TrimStartBread0()
    ensures TrimStart("Buy bread ") == "Buy bread "
  {
    TrimStartKeeps("Buy bread ");
  }

  lemma TrimEndBread()
    ensures TrimEnd("Buy bread ") == "Buy bread"
  {
    assert "Buy bread "[..9] == "Buy bread";
    assert TrimEnd("Buy bread") == "Buy bread";
  }

  lemma TrimBread()
    ensures Trim("  Buy bread ") == "Buy bread"
  {
    TrimStartBread();
    TrimEndBread();
  }

  lemma LengthMilk()
    ensures JsLength("Buy milk") == 8
  {
  }

  lemma LengthBread()
    ensures JsLength("Buy bread") == 9
  {
  }

  lemma LengthBuy()
    ensures JsLength("buy") == 3
  {
  }

  lemma LengthAb()
    ensures JsLength("ab") == 2
  {
  }

  lemma LengthX()
    ensures JsLength("x") == 1
  {
  }

  lemma AddMilk()
    ensures Add(Initial, "Buy milk", None, 1) == Step(Store([] + [Milk], "", "date-desc"), None)
  {
    TrimOfTrimmed("Buy milk");
    LengthMilk();
    AddAccepted(Initial, "Buy milk", None, 1, "Buy milk");
  }

  lemma AddBread()
    ensures Add(Store([Milk], "", "date-desc"), "  Buy bread ", Some(1735725600000), 2)
         == Step(Store([Milk] + [Bread], "", "date-desc"), None)
  {
    TrimBread();
    LengthBread();
    AddAccepted(Store([Milk], "", "date-desc"), "  Buy bread ", Some(1735725600000), 2, "Buy bread");
  }

  lemma AddShort()
    ensures Add(Store([Milk, Bread], "", "date-desc"), "ab", None, 3)
         == Step(Store([Milk, Bread], "", "date-desc"), Some(TooShort))
  {
    TrimOfTrimmed("ab");
    LengthAb();
  }

  /** The three adds: two accepted, "ab" rejected as too short. */
  lemma Adds()
    ensures
      var s1 := Add(Initial, "Buy milk", None, 1);
      var s2 := Add(s1.store, "  Buy bread ", Some(1735725600000), 2);
      var s3 := Add(s2.store, "ab", None, 3);
      && s1.error.None? && s2.error.None? && s3.error == Some(TooShort)
      && s3.store == Store([Milk, Bread], "", "date-desc")
  {
    assert [] + [Milk] == [Milk];
    assert [Milk] + [Bread] == [Milk, Bread];
    AddMilk();
    AddBread();
    AddShort();
  }

  /** Two tasks the order rejects as given are swapped. */
  lemma SortSwapsPair(x: Task, y: Task, le: (Task, Task) -> bool)
    requires !le(x, y)
    ensures InsertionSort([x, y], le) == [y, x]
  {
    assert [x, y][1..] == [y];
    assert InsertionSort([y], le) == [y];
  }

  /** In both date modes the dated task goes first. */
  lemma DatedFirst(collate: (string, string) -> int)
    ensures SortTasks([Milk, Bread], "date-desc", collate) == [Bread, Milk]
    ensures SortTasks([Milk, Bread], "date-asc", collate) == [Bread, Milk]
  {
    assert ModeOf("date-desc") == DateDesc;
    assert ModeOf("date-asc") == DateAsc;
    SortSwapsPair(Milk, Bread, Le(DateDesc, collate));
    SortSwapsPair(Milk, Bread, Le(DateAsc, collate));
  }

  lemma LowerMilk()
    ensures Lower("Buy milk") == "buy milk"
  {
  }

  lemma LowerBread()
    ensures Lower("Buy bread") == "buy bread"
  {
  }

  lemma MilkMatches()
    ensures Matches(Milk, "buy")
  {
    LowerMilk();
    assert StartsWith("buy milk", "buy");
  }

  lemma BreadMatches()
    ensures Matches(Bread, "buy")
  {
    LowerBread();
    assert StartsWith("buy bread", "buy");
  }

  lemma SearchBuy()
    ensures FilterTasks([Milk, Bread], "buy") == [Milk, Bread]
  {
    MilkMatches();
    BreadMatches();
    FilterAllMatch([Milk, Bread], "buy");
  }

  /** The list after the three adds. */
  const Listed: Store := Store([Milk, Bread], "", "date-desc")

  lemma ViewDefault(collate: (string, string) -> int)
    ensures View(Listed, collate) == [Bread, Milk]
  {
    assert FilterTasks(Listed.tasks, "") == [Milk, Bread];
    DatedFirst(collate);
  }

  lemma SearchUpperCase()
    ensures SetSearch(Listed, "BUY") == Store([Milk, Bread], "buy", "date-desc")
  {
    LowerBuy();
  }

  lemma LowerBuy()
    ensures Lower("BUY") == "buy"
  {
    var r := Lower("BUY");
    assert r[0] == 'b' && r[1] == 'u' && r[2] == 'y';
  }

  lemma ViewSearch(collate: (string, string) -> int)
    ensures View(Store([Milk, Bread], "buy", "date-desc"), collate) == [Bread, Milk]
  {
    LengthBuy();
    SearchBuy();
    DatedFirst(collate);
  }

  lemma EditShort()
    ensures Edit(Listed, 1, "x", None) == Step(Listed, Some(TooShort))
  {
    TrimOfTrimmed("x");
    LengthX();
  }

  /** Adding "Buy milk", "  Buy bread " (dated) and "ab": the last is rejected
      as too short and the list holds the first two. The default view puts the
      dated task first; searching "BUY" (stored as "buy") keeps both, in
      insertion order before sorting, and 'date-asc' puts the dated task first
      as well. Editing the first task to "x" is rejected and leaves its text
      as it was. */
  lemma Session(collate: (string, string) -> int)
    ensures
      var s1 := Add(Initial, "Buy milk", None, 1);
      var s2 := Add(s1.store, "  Buy bread ", Some(1735725600000), 2);
      var s3 := Add(s2.store, "ab", None, 3);
      var edit := Edit(s3.store, 1, "x", None);
      && s1.error.None? && s2.error.None?
      && s3.error == Some(TooShort) && s3.store.tasks == [Milk, Bread]
      && View(s3.store, collate) == [Bread, Milk]
      && View(SetSearch(s3.store, "BUY"), collate) == [Bread, Milk]
      && FilterTasks(s3.store.tasks, "buy") == [Milk, Bread]
      && SortTasks(FilterTasks(s3.store.tasks, "buy"), "date-asc", collate) == [Bread, Milk]
      && edit.error == Some(TooShort) && edit.store.tasks[0].text == "Buy milk"
  {
    Adds();
    ViewDefault(collate);
    SearchUpperCase();
    ViewSearch(collate);
    SearchBuy();
    DatedFirst(collate);
    EditShort();
  }
}
