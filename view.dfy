/** The derived view the component renders: the status filter, the
    case-insensitive search, and the sort by priority rank and due date.
    None of it changes the stored list. */
module View {
  import opened Seqs
  import opened Text
  import opened Tasks

  // ---------------------------------------------------------------------
  // Filter and search

  /** The status filter: `'completed'` keeps completed records, `'active'`
      keeps the others, any other value keeps everything. */
  predicate StatusMatches(filter: string, t: Todo) {
    if filter == "completed" then t.completed
    else if filter == "active" then !t.completed
    else true
  }

  /** The search: the lower-cased search term occurs in the lower-cased text. */
  predicate SearchMatches(term: string, t: Todo) {
    Includes(Lower(t.text), Lower(term))
  }

  /** A record passes both the status filter and the search. */
  predicate Matches(filter: string, term: string, t: Todo) {
    StatusMatches(filter, t) && SearchMatches(term, t)
  }

  /** The list before sorting: the status filter, then the search. */
  function FilteredTodos(todos: seq<Todo>, filter: string, term: string): (r: seq<Todo>)
    ensures |r| <= |todos|
    ensures forall t :: t in r ==> t in todos && StatusMatches(filter, t) && SearchMatches(term, t)
  {
    Keep(Keep(todos, t => StatusMatches(filter, t)), t => SearchMatches(term, t))
  }

  /** The filtered list is the subsequence of the records that pass both
      the status filter and the search, each with its full multiplicity. */
  lemma FilteredExact(todos: seq<Todo>, filter: string, term: string, x: Todo)
    ensures FilteredTodos(todos, filter, term) == Keep(todos, t => Matches(filter, term, t))
    ensures multiset(FilteredTodos(todos, filter, term))[x] ==
      if Matches(filter, term, x) then multiset(todos)[x] else 0
  {
    KeepKeep(todos, t => StatusMatches(filter, t), t => SearchMatches(term, t), t => Matches(filter, term, t));
    KeepMultiset(todos, t => Matches(filter, term, t), x);
  }

  /** With a filter other than `'active'` and `'completed'` and an empty
      search term, the filtered list is the whole list. */
  lemma FilteredAll(todos: seq<Todo>, filter: string)
    requires filter != "completed" && filter != "active"
    ensures FilteredTodos(todos, filter, "") == todos
  {
    forall t | t in todos ensures StatusMatches(filter, t) && SearchMatches("", t) {
      IncludesEmpty(Lower(t.text));
    }
    KeepAll(todos, t => StatusMatches(filter, t));
    KeepAll(todos, t => SearchMatches("", t));
  }

  /** The search ignores the case of ASCII letters in the term. */
  lemma SearchCaseInsensitive(term: string, t: Todo)
    ensures SearchMatches(term, t) == SearchMatches(Lower(term), t)
  {
    LowerIdempotent(term);
  }

  /** What each filter mode keeps: `'completed'` the completed records that
      pass the search, `'active'` the incomplete ones, and any other value
      every record that passes the search. */
  lemma FilterModes(todos: seq<Todo>, filter: string, term: string)
    ensures filter == "completed" ==>
      FilteredTodos(todos, filter, term) == Keep(todos, (t: Todo) => t.completed && SearchMatches(term, t))
    ensures filter == "active" ==>
      FilteredTodos(todos, filter, term) == Keep(todos, (t: Todo) => !t.completed && SearchMatches(term, t))
    ensures filter != "completed" && filter != "active" ==>
      FilteredTodos(todos, filter, term) == Keep(todos, (t: Todo) => SearchMatches(term, t))
  {
    var status, search := (t: Todo) => StatusMatches(filter, t), (t: Todo) => SearchMatches(term, t);
    if filter == "completed" {
      KeepKeep(todos, status, search, (t: Todo) => t.completed && SearchMatches(term, t));
    } else if filter == "active" {
      KeepKeep(todos, status, search, (t: Todo) => !t.completed && SearchMatches(term, t));
    } else {
      KeepKeep(todos, status, search, search);
    }
  }

  /** What the search means: a record matches when the term occurs in its
      text at some position, up to the case of ASCII letters. */
  lemma SearchMeaning(term: string, t: Todo)
    ensures SearchMatches(term, t) <==> exists i :: OccursIgnoringCaseAt(t.text, term, i)
  {
    IncludesLowerAt(t.text, term);
  }

  // ---------------------------------------------------------------------
  // Sort

  /** `priorityOrder[p] ?? 3`: high 0, medium 1, low 2, absent or unknown 3. */
  function Rank(p: Option<string>): (r: nat)
    ensures r <= 3
    ensures r == 0 <==> p == Some("high")
    ensures r == 1 <==> p == Some("medium")
    ensures r == 2 <==> p == Some("low")
  {
    if p == Some("high") then 0
    else if p == Some("medium") then 1
    else if p == Some("low") then 2
    else 3
  }

  /** A due date that counts in the tie-break: present and not empty. */
  predicate IsDated(t: Todo) {
    t.dueDate.Some? && t.dueDate.value != ""
  }

  /** The sort's comparator: the rank difference, else the due-date order
      when both records are dated, else 0. */
  function Compare(a: Todo, b: Todo): (r: int)
    ensures Rank(a.priority) < Rank(b.priority) ==> r < 0
    ensures Rank(a.priority) > Rank(b.priority) ==> r > 0
    ensures Rank(a.priority) == Rank(b.priority) && !(IsDated(a) && IsDated(b)) ==> r == 0
    ensures Rank(a.priority) == Rank(b.priority) && IsDated(a) && IsDated(b) ==>
      (r <= 0 <==> LexCmp(a.dueDate.value, b.dueDate.value) <= 0)
  {
    var diff := Rank(a.priority) - Rank(b.priority);
    if diff != 0 then diff
    else if IsDated(a) && IsDated(b) then LexCmp(a.dueDate.value, b.dueDate.value)
    else 0
  }

  /** Swapping the arguments negates the comparator. */
  lemma CompareAntisymmetric(a: Todo, b: Todo)
    ensures Compare(b, a) == -Compare(a, b)
  {
    if IsDated(a) && IsDated(b) {
      LexCmpAntisymmetric(a.dueDate.value, b.dueDate.value);
    }
  }

  /** The comparator is not transitive: an undated record ties with two
      dated records of the same rank that are themselves strictly ordered. */
  lemma CompareNotTransitive()
    ensures
      var late := Todo("a", false, Some("2025-01-01"), Some("high"));
      var undated := Todo("b", false, Some(""), Some("high"));
      var early := Todo("c", false, Some("2024-01-01"), Some("high"));
      Compare(late, undated) == 0 && Compare(undated, early) == 0 && Compare(late, early) > 0
  {
    var late, early := "2025-01-01", "2024-01-01";
    assert late[3] > early[3];
    assert LexCmp(late[3..], early[3..]) == 1;
    assert LexCmp(late[2..], early[2..]) == 1;
    assert LexCmp(late[1..], early[1..]) == 1;
  }

  /** In a same-rank group that mixes dated and undated records, the sort
      can leave dates out of order: an undated record between a later and
      an earlier date keeps all three where they are. */
  lemma SortMixedGroup()
    ensures
      var late := Todo("a", false, Some("2025-01-01"), Some("high"));
      var undated := Todo("b", false, Some(""), Some("high"));
      var early := Todo("c", false, Some("2024-01-01"), Some("high"));
      InsertionSort([late, undated, early]) == [late, undated, early]
      && Compare(late, early) > 0
  {
    var late := Todo("a", false, Some("2025-01-01"), Some("high"));
    var undated := Todo("b", false, Some(""), Some("high"));
    var early := Todo("c", false, Some("2024-01-01"), Some("high"));
    CompareNotTransitive();
    assert [late, undated, early][..2] == [late, undated];
    assert [late, undated][..1] == [late];
    assert InsertionSort([late]) == [late];
    assert InsertionSort([late, undated]) == [late, undated];
  }

  /** Every neighbouring pair is in comparator order. */
  predicate Ordered(s: seq<Todo>) {
    forall i :: 0 <= i < |s| - 1 ==> Compare(s[i], s[i + 1]) <= 0
  }

  /** Inserts `x` into `t` the way one step of an insertion sort does:
      moving left past every record that compares greater than `x`. */
  function Insert(t: seq<Todo>, x: Todo): (r: seq<Todo>)
    ensures |r| == |t| + 1
  {
    if t == [] then [x]
    else if Compare(t[|t| - 1], x) > 0 then Insert(t[..|t| - 1], x) + [t[|t| - 1]]
    else t + [x]
  }

  /** The stable insertion sort of `s` under `Compare`. */
  function InsertionSort(s: seq<Todo>): (r: seq<Todo>)
    ensures |r| == |s|
  {
    if s == [] then [] else Insert(InsertionSort(s[..|s| - 1]), s[|s| - 1])
  }

  lemma {:induction false} InsertPermutes(t: seq<Todo>, x: Todo)
    ensures multiset(Insert(t, x)) == multiset(t) + multiset{x}
  {
    if t != [] && Compare(t[|t| - 1], x) > 0 {
      InsertPermutes(t[..|t| - 1], x);
      assert t == t[..|t| - 1] + [t[|t| - 1]];
    }
  }

  lemma {:induction false} InsertOrdered(t: seq<Todo>, x: Todo)
    requires Ordered(t)
    ensures Ordered(Insert(t, x))
    ensures Insert(t, x)[|t|] == x || (t != [] && Insert(t, x)[|t|] == t[|t| - 1])
  {
    if t != [] {
      var n := |t| - 1;
      CompareAntisymmetric(t[n], x);
      if Compare(t[n], x) > 0 {
        var front := Insert(t[..n], x);
        InsertOrdered(t[..n], x);
        assert Compare(front[n], t[n]) <= 0 by {
          if front[n] != x {
            assert front[n] == t[n - 1];
          }
        }
      }
    }
  }

  /** The sort's result is a permutation of its input. */
  lemma {:induction false} SortPermutes(s: seq<Todo>)
    ensures multiset(InsertionSort(s)) == multiset(s)
  {
    if s != [] {
      var n := |s| - 1;
      var front := InsertionSort(s[..n]);
      SortPermutes(s[..n]);
      InsertPermutes(front, s[n]);
      assert InsertionSort(s) == Insert(front, s[n]);
      assert s == s[..n] + [s[n]];
      assert multiset(s) == multiset(s[..n]) + multiset{s[n]};
    }
  }

  /** The sort's result is in comparator order. */
  lemma {:induction false} SortOrdered(s: seq<Todo>)
    ensures Ordered(InsertionSort(s))
  {
    if s != [] {
      SortOrdered(s[..|s| - 1]);
      InsertOrdered(InsertionSort(s[..|s| - 1]), s[|s| - 1]);
    }
  }

  /** A list already in comparator order comes back from the sort unchanged. */
  lemma {:induction false} SortOfOrdered(s: seq<Todo>)
    requires Ordered(s)
    ensures InsertionSort(s) == s
  {
    if s != [] {
      var n := |s| - 1;
      var front := s[..n];
      assert Ordered(front) by {
        forall i | 0 <= i < |front| - 1 ensures Compare(front[i], front[i + 1]) <= 0 {
          assert front[i] == s[i] && front[i + 1] == s[i + 1];
        }
      }
      SortOfOrdered(front);
      assert InsertionSort(s) == Insert(front, s[n]);
      assert n > 0 ==> Compare(front[n - 1], s[n]) <= 0;
      assert s == front + [s[n]];
    }
  }

  /** In an ordered list the priority rank never decreases. */
  lemma {:induction false} OrderedRanks(s: seq<Todo>, i: int, j: int)
    requires Ordered(s)
    requires 0 <= i <= j < |s|
    ensures Rank(s[i].priority) <= Rank(s[j].priority)
  {
    if i < j {
      OrderedRanks(s, i, j - 1);
    }
  }

  /** In an ordered list, by priority name: nothing but `high` comes before a
      `high` record, and nothing after a `low` record is `high` or `medium`. */
  lemma OrderedPriorityNames(s: seq<Todo>, i: int, j: int)
    requires Ordered(s)
    requires 0 <= i <= j < |s|
    ensures s[j].priority == Some("high") ==> s[i].priority == Some("high")
    ensures s[i].priority == Some("medium") ==> s[j].priority != Some("high")
    ensures s[i].priority == Some("low") ==> s[j].priority != Some("high") && s[j].priority != Some("medium")
  {
    OrderedRanks(s, i, j);
  }

  /** In an ordered list, along a run of records of one rank that all carry
      a due date, the due dates never decrease. */
  lemma {:induction false} OrderedDatesInRun(s: seq<Todo>, i: int, j: int)
    requires Ordered(s)
    requires 0 <= i <= j < |s|
    requires forall m :: i <= m <= j ==> Rank(s[m].priority) == Rank(s[i].priority) && IsDated(s[m])
    ensures IsDated(s[i]) && IsDated(s[j]) && LexCmp(s[i].dueDate.value, s[j].dueDate.value) <= 0
  {
    if i < j {
      OrderedDatesInRun(s, i, j - 1);
      assert Compare(s[j - 1], s[j]) <= 0;
      LexCmpTransitive(s[i].dueDate.value, s[j - 1].dueDate.value, s[j].dueDate.value);
    }
  }

  /** In an ordered list, when every record of some rank carries a due date,
      the records of that rank appear in ascending due-date order. */
  lemma OrderedDatesInGroup(s: seq<Todo>, i: int, j: int)
    requires Ordered(s)
    requires 0 <= i <= j < |s|
    requires Rank(s[i].priority) == Rank(s[j].priority)
    requires forall m :: 0 <= m < |s| && Rank(s[m].priority) == Rank(s[i].priority) ==> IsDated(s[m])
    ensures IsDated(s[i]) && IsDated(s[j]) && LexCmp(s[i].dueDate.value, s[j].dueDate.value) <= 0
  {
    forall m | i <= m <= j
      ensures Rank(s[m].priority) == Rank(s[i].priority)
    {
      OrderedRanks(s, i, m);
      OrderedRanks(s, m, j);
    }
    OrderedDatesInRun(s, i, j);
  }

  /** `Insert` puts `x` right after the last record of `t` that does not
      compare greater than it. */
  lemma {:induction false} InsertAt(t: seq<Todo>, x: Todo, j: nat)
    requires j <= |t|
    requires j == 0 || Compare(t[j - 1], x) <= 0
    requires forall k :: j <= k < |t| ==> Compare(t[k], x) > 0
    ensures Insert(t, x) == t[..j] + [x] + t[j..]
  {
    if j < |t| {
      var n := |t| - 1;
      InsertAt(t[..n], x, j);
      assert t[..n][..j] == t[..j];
      assert t[..n][j..] + [t[n]] == t[j..];
    } else {
      assert t[..j] == t;
    }
  }

  /** One step of the in-place sort: moves `a[i]` left past every record of
      the sorted prefix `a[..i]` that compares greater than it. */
  method InsertInPlace(a: array<Todo>, i: nat)
    requires i < a.Length
    modifies a
    ensures a[..i + 1] == Insert(old(a[..i]), old(a[i]))
    ensures forall k :: i < k < a.Length ==> a[k] == old(a[k])
  {
    ghost var prefix := a[..i];
    var x := a[i];
    var j := i;
    while j > 0 && Compare(a[j - 1], x) > 0
      invariant 0 <= j <= i
      invariant forall k :: 0 <= k < j ==> a[k] == prefix[k]
      invariant forall k :: j < k <= i ==> a[k] == prefix[k - 1]
      invariant forall k :: j <= k < i ==> Compare(prefix[k], x) > 0
      invariant forall k :: i < k < a.Length ==> a[k] == old(a[k])
    {
      a[j] := a[j - 1];
      j := j - 1;
    }
    a[j] := x;
    InsertAt(prefix, x, j);
    assert a[..i + 1] == prefix[..j] + [x] + prefix[j..];
  }

  /** The sort of the derived view: the filtered list copied into a fresh
      array and sorted there by insertion; `filtered` itself is untouched. */
  method SortedTodos(filtered: seq<Todo>) returns (sorted: seq<Todo>)
    ensures sorted == InsertionSort(filtered)
    ensures multiset(sorted) == multiset(filtered)
    ensures Ordered(sorted)
  {
    var a := new Todo[|filtered|](i requires 0 <= i < |filtered| => filtered[i]);
    var i := 0;
    while i < a.Length
      invariant 0 <= i <= a.Length
      invariant a[..i] == InsertionSort(filtered[..i])
      invariant forall k :: i <= k < a.Length ==> a[k] == filtered[k]
    {
      assert filtered[..i + 1] == filtered[..i] + [filtered[i]];
      InsertInPlace(a, i);
      i := i + 1;
    }
    assert filtered[..a.Length] == filtered;
    sorted := a[..];
    SortPermutes(filtered);
    SortOrdered(filtered);
  }
}
