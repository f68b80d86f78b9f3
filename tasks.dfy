/** The task record and the list transformations the handlers of the
    task-list component apply to the stored list (the `map` and `filter`
    expressions inside `toggleComplete`, `deleteTodo`, `clearCompleted`
    and the edit branch of `addTodo`). */
module Tasks {
  import opened Seqs

  datatype Option<T> = None | Some(value: T)

  /** A task record `{text, completed, dueDate, priority}`. Records created by
      the component always carry `dueDate` and `priority` (possibly `''`);
      `None` stands for a field that is absent from a record read back from
      storage. */
  datatype Todo = Todo(text: string, completed: bool, dueDate: Option<string>, priority: Option<string>)

  /** JavaScript's `field || fallback` on an optional string field. */
  function OrElse(o: Option<string>, fallback: string): (r: string)
    ensures r == fallback || (o.Some? && r == o.value)
    ensures r == "" ==> fallback == ""
    ensures fallback != "" ==> r != ""
  {
    if o.Some? && o.value != "" then o.value else fallback
  }

  predicate IsActive(t: Todo) {
    !t.completed
  }

  predicate IsCompleted(t: Todo) {
    t.completed
  }

  /** The list `toggleComplete(index)` stores: a copy in which the record at
      position `index` has its `completed` flag negated. */
  function ToggleAt(todos: seq<Todo>, index: int): (r: seq<Todo>)
    ensures |r| == |todos|
  {
    seq(|todos|, i requires 0 <= i < |todos| =>
      if i == index then todos[i].(completed := !todos[i].completed) else todos[i])
  }

  /** The list `deleteTodo(index)` stores: every record whose position is
      not `index`. */
  function RemoveAt(todos: seq<Todo>, index: int): (r: seq<Todo>)
    ensures |r| <= |todos|
  {
    if todos == [] then []
    else
      var n := |todos| - 1;
      RemoveAt(todos[..n], index) + (if n == index then [] else [todos[n]])
  }

  /** The list an edit commit stores: a copy in which the record at position
      `index` takes the input's text, due date and priority. */
  function ReplaceAt(todos: seq<Todo>, index: int, text: string, dueDate: string, priority: string): (r: seq<Todo>)
    ensures |r| == |todos|
  {
    seq(|todos|, i requires 0 <= i < |todos| =>
      if i == index then todos[i].(text := text, dueDate := Some(dueDate), priority := Some(priority))
      else todos[i])
  }

  /** The list `clearCompleted` stores: the records not marked completed. */
  function ClearCompleted(todos: seq<Todo>): (r: seq<Todo>)
    ensures forall t :: t in r ==> t in todos && !t.completed
  {
    Keep(todos, IsActive)
  }

  /** The "tasks left" figure: how many records are not completed. */
  function ActiveCount(todos: seq<Todo>): (n: nat)
    ensures n <= |todos|
  {
    |Keep(todos, IsActive)|
  }

  // ---------------------------------------------------------------------
  // toggleComplete

  /** Toggling flips `completed` of the record at `index` and nothing else;
      an index outside the list changes nothing. */
  lemma ToggleFlipsOne(todos: seq<Todo>, index: int)
    ensures 0 <= index < |todos| ==>
      ToggleAt(todos, index)[index] == todos[index].(completed := !todos[index].completed)
    ensures forall i :: 0 <= i < |todos| && i != index ==> ToggleAt(todos, index)[i] == todos[i]
    ensures !(0 <= index < |todos|) ==> ToggleAt(todos, index) == todos
  {
  }

  /** Toggling the same index twice restores the list. */
  lemma ToggleTwice(todos: seq<Todo>, index: int)
    ensures ToggleAt(ToggleAt(todos, index), index) == todos
  {
  }

  // ---------------------------------------------------------------------
  // deleteTodo

  /** Deleting an index in range splices that one record out, keeping the
      rest in order; an index outside the list changes nothing. */
  lemma {:induction false} RemoveAtSplice(todos: seq<Todo>, index: int)
    ensures 0 <= index < |todos| ==> RemoveAt(todos, index) == todos[..index] + todos[index + 1..]
    ensures !(0 <= index < |todos|) ==> RemoveAt(todos, index) == todos
  {
    if todos != [] {
      var n := |todos| - 1;
      RemoveAtSplice(todos[..n], index);
      if index == n {
        assert todos[..n] == todos[..index] + todos[index + 1..];
      } else if 0 <= index < n {
        assert todos[..n][..index] == todos[..index];
        assert todos[..n][index + 1..] + [todos[n]] == todos[index + 1..];
      } else {
        assert todos == todos[..n] + [todos[n]];
      }
    }
  }

  /** Deleting an index in range shortens the list by exactly one. */
  lemma RemoveAtLength(todos: seq<Todo>, index: int)
    ensures |RemoveAt(todos, index)| == if 0 <= index < |todos| then |todos| - 1 else |todos|
  {
    RemoveAtSplice(todos, index);
  }

  // ---------------------------------------------------------------------
  // edit commit (the editIndex branch of addTodo)

  /** Committing an edit replaces text, due date and priority of the record
      at `index`, keeps its `completed` flag and leaves every other record
      as it was; an index outside the list changes nothing. */
  lemma ReplaceAtOnly(todos: seq<Todo>, index: int, text: string, dueDate: string, priority: string)
    ensures 0 <= index < |todos| ==>
      var r := ReplaceAt(todos, index, text, dueDate, priority)[index];
      r.text == text && r.dueDate == Some(dueDate) && r.priority == Some(priority)
      && r.completed == todos[index].completed
    ensures forall i :: 0 <= i < |todos| && i != index ==> ReplaceAt(todos, index, text, dueDate, priority)[i] == todos[i]
    ensures !(0 <= index < |todos|) ==> ReplaceAt(todos, index, text, dueDate, priority) == todos
  {
  }

  /** Committing the values `editTodo` loaded gives back the record, except
      that an absent or empty due date becomes `''` and an absent or empty
      priority becomes `'medium'`. */
  lemma EditRoundTrip(todos: seq<Todo>, index: int)
    requires 0 <= index < |todos|
    ensures
      var t := todos[index];
      ReplaceAt(todos, index, t.text, OrElse(t.dueDate, ""), OrElse(t.priority, "medium"))
      == todos[index := t.(dueDate := Some(OrElse(t.dueDate, "")), priority := Some(OrElse(t.priority, "medium")))]
  {
  }

  /** The round trip is the identity on a record whose due date is present
      and whose priority is present and non-empty. */
  lemma EditRoundTripIdentity(todos: seq<Todo>, index: int)
    requires 0 <= index < |todos|
    requires todos[index].dueDate.Some? && todos[index].priority.Some? && todos[index].priority.value != ""
    ensures
      var t := todos[index];
      ReplaceAt(todos, index, t.text, OrElse(t.dueDate, ""), OrElse(t.priority, "medium")) == todos
  {
    EditRoundTrip(todos, index);
  }

  // ---------------------------------------------------------------------
  // clearCompleted and activeCount

  /** After clearing, every record left is incomplete, and the result is
      exactly the incomplete records of the list in their original order. */
  lemma ClearCompletedExact(todos: seq<Todo>)
    ensures forall t :: t in ClearCompleted(todos) ==> !t.completed
    ensures |Selected(todos, IsActive)| == |ClearCompleted(todos)|
    ensures forall k :: 0 <= k < |ClearCompleted(todos)| ==>
      todos[Selected(todos, IsActive)[k]] == ClearCompleted(todos)[k]
    ensures forall i :: 0 <= i < |todos| ==> (i in Selected(todos, IsActive) <==> !todos[i].completed)
  {
    KeepAtSelected(todos, IsActive);
  }

  /** Clearing twice is clearing once. */
  lemma ClearCompletedIdempotent(todos: seq<Todo>)
    ensures ClearCompleted(ClearCompleted(todos)) == ClearCompleted(todos)
  {
    KeepIdempotent(todos, IsActive);
  }

  /** Clearing keeps as many records as the active count reported before. */
  lemma ClearCompletedLength(todos: seq<Todo>)
    ensures |ClearCompleted(todos)| == ActiveCount(todos)
    ensures ActiveCount(ClearCompleted(todos)) == ActiveCount(todos)
  {
    ClearCompletedIdempotent(todos);
  }

  /** The active and the completed records together make up the list. */
  lemma ActiveCountComplement(todos: seq<Todo>)
    ensures ActiveCount(todos) + |Keep(todos, IsCompleted)| == |todos|
  {
    KeepSplit(todos, IsActive, IsCompleted);
  }

  /** Toggling a record in range moves the active count by one. */
  lemma {:induction false} ActiveCountToggle(todos: seq<Todo>, index: int)
    requires 0 <= index < |todos|
    ensures ActiveCount(ToggleAt(todos, index)) ==
      if todos[index].completed then ActiveCount(todos) + 1 else ActiveCount(todos) - 1
  {
    var n := |todos| - 1;
    var r := ToggleAt(todos, index);
    assert r[..n] == ToggleAt(todos[..n], index);
    if index < n {
      ActiveCountToggle(todos[..n], index);
    } else {
      assert r[..n] == todos[..n];
    }
  }
}
