/** The task-list component: its state, the handlers that change it, and
    the view it derives. Each React state setter becomes an assignment to a
    field, done in the order the handler calls the setters. */
module Widget {
  import opened Text
  import opened Tasks
  import opened View

  class TodoList {
    var todos: seq<Todo>
    /** The text, date and priority fields of the input panel. */
    var input: string
    var dueDate: string
    var priority: string
    var searchTerm: string
    /** The position of the record being edited; `None` is JavaScript's `null`. */
    var editIndex: Option<nat>
    var filter: string
    /** The storage slot `'todos'`, which receives the whole list after every
        change to it. */
    ghost var stored: seq<Todo>

    /** Storage holds what is in memory. */
    ghost predicate Valid()
      reads this
    {
      stored == todos
    }

    /** Mounting: the list is what storage held (already parsed), or empty
        when the slot is absent; the input panel starts empty with priority
        `'medium'`, the filter at `'all'`, no search and no edit. */
    constructor (saved: Option<seq<Todo>>)
      ensures Valid()
      ensures todos == (if saved.Some? then saved.value else [])
      ensures input == "" && dueDate == "" && priority == "medium"
      ensures searchTerm == "" && editIndex == None && filter == "all"
    {
      todos := if saved.Some? then saved.value else [];
      input, dueDate, priority := "", "", "medium";
      searchTerm, editIndex, filter := "", None, "all";
      stored := todos;
    }

    /** The Add / Update button. Blank input changes nothing. Otherwise, with
        no edit under way it appends a new incomplete record built from the
        input panel (text untrimmed); during an edit it commits the panel
        into the record at `editIndex` and ends the edit. Either way it then
        resets the panel. */
    method AddTodo()
      requires Valid()
      modifies this
      ensures Valid()
      ensures IsBlank(old(input)) ==> unchanged(this)
      ensures !IsBlank(old(input)) && old(editIndex) == None ==>
        todos == old(todos) + [Todo(old(input), false, Some(old(dueDate)), Some(old(priority)))]
      ensures !IsBlank(old(input)) && old(editIndex).Some? ==>
        todos == ReplaceAt(old(todos), old(editIndex).value, old(input), old(dueDate), old(priority))
      ensures !IsBlank(old(input)) ==>
        input == "" && dueDate == "" && priority == "medium" && editIndex == None
      ensures searchTerm == old(searchTerm) && filter == old(filter)
    {
      if IsBlank(input) {
        return;
      }
      if editIndex.Some? {
        todos := ReplaceAt(todos, editIndex.value, input, dueDate, priority);
        editIndex := None;
      } else {
        todos := todos + [Todo(input, false, Some(dueDate), Some(priority))];
      }
      stored := todos;
      input, dueDate, priority := "", "", "medium";
    }

    /** The Edit button: loads the record at `index` into the input panel
        (an absent or empty date as `''`, an absent or empty priority as
        `'medium'`) and makes it the edit target. An index past the end
        reads a missing record and throws before any setter runs: `thrown`
        reports that, and nothing changes. */
    method EditTodo(index: nat) returns (thrown: bool)
      requires Valid()
      modifies this
      ensures Valid()
      ensures thrown <==> index >= |old(todos)|
      ensures thrown ==> unchanged(this)
      ensures !thrown ==>
        var t := old(todos)[index];
        input == t.text && dueDate == OrElse(t.dueDate, "") && priority == OrElse(t.priority, "medium")
        && editIndex == Some(index)
      ensures todos == old(todos) && searchTerm == old(searchTerm) && filter == old(filter)
    {
      if index >= |todos| {
        return true;
      }
      input := todos[index].text;
      dueDate := OrElse(todos[index].dueDate, "");
      priority := OrElse(todos[index].priority, "medium");
      editIndex := Some(index);
      return false;
    }

    /** Clicking a row's text: flips `completed` of the record at `index`. */
    method ToggleComplete(index: nat)
      requires Valid()
      modifies this
      ensures Valid()
      ensures todos == ToggleAt(old(todos), index)
      ensures input == old(input) && dueDate == old(dueDate) && priority == old(priority)
      ensures searchTerm == old(searchTerm) && editIndex == old(editIndex) && filter == old(filter)
    {
      todos := ToggleAt(todos, index);
      stored := todos;
    }

    /** The Delete button: removes the record at `index`. The edit target is
        left as it was, even when it now names a different record. */
    method DeleteTodo(index: nat)
      requires Valid()
      modifies this
      ensures Valid()
      ensures todos == RemoveAt(old(todos), index)
      ensures input == old(input) && dueDate == old(dueDate) && priority == old(priority)
      ensures searchTerm == old(searchTerm) && editIndex == old(editIndex) && filter == old(filter)
    {
      todos := RemoveAt(todos, index);
      stored := todos;
    }

    /** The Clear Completed button: keeps only the incomplete records; the
        list left is as long as the active count shown before. */
    method ClearCompleted()
      requires Valid()
      modifies this
      ensures Valid()
      ensures todos == Tasks.ClearCompleted(old(todos))
      ensures |todos| == ActiveCount(old(todos))
      ensures forall t :: t in todos ==> !t.completed
      ensures input == old(input) && dueDate == old(dueDate) && priority == old(priority)
      ensures searchTerm == old(searchTerm) && editIndex == old(editIndex) && filter == old(filter)
    {
      ClearCompletedLength(todos);
      todos := Tasks.ClearCompleted(todos);
      stored := todos;
    }

    /** The All / Active / Completed buttons. The list, and with it the
        active count, stay as they were. */
    method SetFilter(value: string)
      requires Valid()
      modifies this`filter
      ensures Valid()
      ensures filter == value && todos == old(todos)
      ensures ActiveCount(todos) == old(ActiveCount(todos))
    {
      filter := value;
    }

    /** Typing in the search box. The list, and with it the active count,
        stay as they were. */
    method SetSearchTerm(value: string)
      requires Valid()
      modifies this`searchTerm
      ensures Valid()
      ensures searchTerm == value && todos == old(todos)
      ensures ActiveCount(todos) == old(ActiveCount(todos))
    {
      searchTerm := value;
    }

    /** Typing in the input panel's text field. */
    method SetInput(value: string)
      requires Valid()
      modifies this`input
      ensures Valid() && input == value
    {
      input := value;
    }

    /** Picking a date in the input panel. */
    method SetDueDate(value: string)
      requires Valid()
      modifies this`dueDate
      ensures Valid() && dueDate == value
    {
      dueDate := value;
    }

    /** Picking a priority in the input panel. */
    method SetPriority(value: string)
      requires Valid()
      modifies this`priority
      ensures Valid() && priority == value
    {
      priority := value;
    }

    /** The rows rendered: the filtered list, sorted by rank and due date.
        Rendering reorders a copy; the stored list stays as it was. */
    method VisibleTodos() returns (rows: seq<Todo>)
      ensures rows == InsertionSort(FilteredTodos(todos, filter, searchTerm))
      ensures multiset(rows) == multiset(FilteredTodos(todos, filter, searchTerm))
      ensures Ordered(rows)
    {
      rows := SortedTodos(FilteredTodos(todos, filter, searchTerm));
    }
  }

  /** Edit followed at once by Update: the record at `index` comes back with
      only an absent or empty date and priority normalised to `''` and
      `'medium'`. When the record's text is blank the Update is rejected,
      the list is unchanged and the edit stays open. */
  method EditThenUpdate(w: TodoList, index: nat)
    requires w.Valid()
    requires index < |w.todos|
    modifies w
    ensures w.Valid()
    ensures
      var t := old(w.todos)[index];
      if IsBlank(t.text) then
        w.todos == old(w.todos) && w.editIndex == Some(index)
      else
        w.todos == old(w.todos)[index := t.(dueDate := Some(OrElse(t.dueDate, "")),
                                            priority := Some(OrElse(t.priority, "medium")))]
        && w.editIndex == None
  {
    var thrown := w.EditTodo(index);
    EditRoundTrip(w.todos, index);
    w.AddTodo();
  }

  // ---------------------------------------------------------------------
  // Row positions and store positions

  /** A row position of the rendered view is always a position of the
      stored list, so the handlers it is passed to never go out of range. */
  lemma RowInStore(todos: seq<Todo>, filter: string, term: string, row: nat)
    requires row < |InsertionSort(FilteredTodos(todos, filter, term))|
    ensures row < |todos|
  {
  }

  /** Row positions are store positions when nothing is filtered out, the
      search is empty and the stored list is already in sort order. */
  lemma RowsAreStorePositions(todos: seq<Todo>, filter: string)
    requires filter != "completed" && filter != "active"
    requires Ordered(todos)
    ensures InsertionSort(FilteredTodos(todos, filter, "")) == todos
  {
    FilteredAll(todos, filter);
    SortOfOrdered(todos);
  }

  /** Otherwise they can differ: a low-priority task stored first and a
      high-priority task stored second are rendered the other way round,
      and clicking the first row toggles the low-priority task. */
  lemma RowPositionMismatch()
    ensures
      var low := Todo("low", false, Some(""), Some("low"));
      var high := Todo("high", false, Some(""), Some("high"));
      var rows := InsertionSort(FilteredTodos([low, high], "all", ""));
      rows == [high, low]
      && ToggleAt([low, high], 0) == [low.(completed := true), high]
  {
    var low := Todo("low", false, Some(""), Some("low"));
    var high := Todo("high", false, Some(""), Some("high"));
    FilteredAll([low, high], "all");
    assert [low, high][..1] == [low];
    assert InsertionSort([low]) == [low];
    assert Compare(low, high) > 0;
    assert Insert([], high) == [high];
  }
}
