# Task list: a Dafny model of the TodoList component

The repository is one React component, `TodoList`, a personal task list.
It keeps an ordered list of task records `{text, completed, dueDate, priority}`.
It adds, edits, toggles, deletes and bulk-clears tasks, and writes the whole list to browser storage after every change.
From the list it derives the rows it shows: a status filter (all / active / completed), a case-insensitive search, and a sort by priority rank with a due-date tie-break.

This project models that core in five modules:

- `Seqs` (seqs.dfy): `Keep`, the element-wise filter behind every `filter` call that looks only at the record (clear completed, the active count, the status filter and the search: TodoList.jsx lines 56, 59, 61-65 and 66-68), with the lemmas that pin it down. It keeps exactly the matching elements, in order, each as often as in the input. The positional filter of `deleteTodo` is `RemoveAt` in `Tasks` instead.
- `Text` (text.dfy): `trim` over ECMAScript's full white-space set, `toLowerCase` on ASCII letters, `includes`, and the comparison of `YYYY-MM-DD` due dates.
- `Tasks` (tasks.dfy): the task record and the list transformations inside the handlers: toggle, delete, edit commit, clear completed, and the active count.
- `View` (view.dfy): the status filter, the search, the comparator, and the sort. The sort is an insertion sort that moves a record left only past records that compare greater than it (`InsertAt`), so records that compare equal keep their input order. The method `SortedTodos` runs it in place on a fresh array copied from the filtered list, and is proved equal to the function `InsertionSort`.
- `Widget` (todo_list.dfy): the class `TodoList` with the component's state (`todos`, `input`, `dueDate`, `priority`, `searchTerm`, `editIndex`, `filter`), one method per handler, and a ghost field `stored` for the storage slot. The invariant `Valid()` says that `stored` equals `todos` after every handler.

Two behaviours of the source are kept as written, not corrected:

- **Row position is used as store position.** Each rendered row passes its position in the sorted, filtered view to `toggleComplete`, `editTodo` and `deleteTodo`. Those handlers index the full stored list with it, so the handlers here take store positions. `RowsAreStorePositions` states when the two coincide: the filter keeps everything, the search is empty, and the list is already in sort order. `RowPositionMismatch` shows a two-task list where clicking the first row toggles a different task from the one shown there.
- **The comparator is not transitive.** A record with no due date compares equal to every record of the same rank, and two dated records compare by date (`CompareNotTransitive`). So only these properties are proved of the sort: it is a permutation; priority rank never decreases; and along any run of same-rank records that all have a due date, the dates ascend. When every record of a rank has a due date, that rank's records are therefore in date order (`OrderedDatesInGroup`). The model claims no order inside a same-rank group that mixes dated and undated records.

In these places the code does something a reader might not expect; the model follows the code:

- Malformed stored data is not caught at mount: the code has no guard around the parse. The constructor takes the already-parsed list and leaves parsing out.
- `editTodo` with a position past the end of the list reads a missing record and throws before any state changes. `EditTodo` reports this as `thrown` and changes nothing. It is not a silent no-op.
- `addTodo` rejects input that is blank after trimming, but it stores the text untrimmed.
- The panel is reset after an edit commit, as well as after an add.
- `deleteTodo` leaves `editIndex` as it was. After a delete, a pending edit can therefore commit into a different record.

## Model

| member | source | states |
|---|---|---|
| Seqs.Keep | TodoList.jsx:56 | an element-wise filter: every kept element is in the input and satisfies the predicate, and the result is no longer than the input |
| Seqs.KeepKeep | TodoList.jsx:60-68 | the status filter followed by the search filter keeps exactly the records that pass both |
| Text.Trim | TodoList.jsx:20 | the trimmed string begins and ends with a non-white-space character, or is empty |
| Text.TrimInfix | TodoList.jsx:20 | the trimmed string is a slice of the input, and everything cut off before and after it is white space |
| Text.BlankIffAllWhite | TodoList.jsx:20 | `IsBlank`, the test `!input.trim()`, holds: input is rejected as blank exactly when every character is ECMAScript white space or a line terminator |
| Text.Lower | TodoList.jsx:67 | lower-casing keeps the length, and each output character is the input character up to ASCII case and is not an upper-case ASCII letter |
| Text.IncludesLowerAt | TodoList.jsx:67 | the lower-cased text includes the lower-cased term exactly when the term occurs at some position of the text up to ASCII case |
| Text.LowerIdempotent | TodoList.jsx:67 | lower-casing twice is the same as lower-casing once |
| Text.IncludesAt | TodoList.jsx:67 | `Includes`, the model of `includes`, holds exactly when the term occurs at some position of the text |
| Text.IncludesEmpty | TodoList.jsx:67 | the empty search term occurs in every text |
| Text.LexCmp | TodoList.jsx:76 | the date comparison yields -1, 0 or 1, and yields 0 exactly for equal dates |
| Text.LexCmpFirstDifference | TodoList.jsx:76 | two dates compare by the first character where they differ, by code point, and a proper prefix sorts first |
| Text.LexCmpAntisymmetric | TodoList.jsx:76 | swapping two dates negates their comparison |
| Text.LexCmpTransitive | TodoList.jsx:76 | "not after" on dates is transitive |
| Tasks.OrElse | TodoList.jsx:46-47 | the logical-or fallback yields either the fallback or the field's own value, and never an empty string when the fallback is non-empty |
| Tasks.ToggleAt | TodoList.jsx:38-40 | toggling keeps the list length (which record changes, and how, is stated by ToggleFlipsOne) |
| Tasks.ToggleFlipsOne | TodoList.jsx:37-42 | toggling flips `completed` on the record at the index and nothing else; an index out of range changes nothing |
| Tasks.ToggleTwice | TodoList.jsx:37-42 | toggling the same index twice restores the list |
| Tasks.RemoveAt | TodoList.jsx:52 | deleting never lengthens the list (which record goes is stated by RemoveAtSplice) |
| Tasks.RemoveAtSplice | TodoList.jsx:51-53 | deleting an index in range removes exactly that record and keeps the others in order; an index out of range changes nothing |
| Tasks.RemoveAtLength | TodoList.jsx:51-53 | deleting an index in range shortens the list by one; otherwise the length is unchanged |
| Tasks.ReplaceAt | TodoList.jsx:23-25 | the edit commit keeps the list length (which fields change is stated by ReplaceAtOnly) |
| Tasks.ReplaceAtOnly | TodoList.jsx:22-27 | the commit replaces text, due date and priority of the edited record, keeps its `completed`, and leaves every other record unchanged; an index out of range changes nothing |
| Tasks.EditRoundTrip | TodoList.jsx:44-49 | committing (lines 22-27) the values the edit loaded gives the record back, except that an absent or empty date becomes `''` and an absent or empty priority becomes `'medium'` |
| Tasks.EditRoundTripIdentity | TodoList.jsx:44-49 | that round trip is the identity when the date is present and the priority is present and non-empty |
| Tasks.ClearCompleted | TodoList.jsx:55-57 | every record left is incomplete and was in the list |
| Tasks.ClearCompletedExact | TodoList.jsx:55-57 | the cleared list is exactly the incomplete records, in their original positions' order, and no completed record remains |
| Tasks.ClearCompletedIdempotent | TodoList.jsx:55-57 | clearing twice is the same as clearing once |
| Tasks.ClearCompletedLength | TodoList.jsx:55-59 | the cleared list is as long as the active count before the clear, and the active count does not change |
| Tasks.ActiveCount | TodoList.jsx:59 | the active count is at most the list length |
| Tasks.ActiveCountComplement | TodoList.jsx:59 | the active count plus the number of completed records is the list length |
| Tasks.ActiveCountToggle | TodoList.jsx:37-42 | toggling a record in range moves the active count up by one if the record was completed, and down by one otherwise |
| View.FilteredTodos | TodoList.jsx:60-68 | every visible record is stored and passes both the status filter and the search |
| View.FilterModes | TodoList.jsx:60-68 | with `'completed'` the filtered list is the completed records that pass the search, with `'active'` the incomplete ones, and with any other filter value every record that passes the search, in stored order |
| View.FilteredExact | TodoList.jsx:60-68 | the filtered list is the subsequence of stored records that pass `StatusMatches` (the filter mode, lines 61-65) and `SearchMatches` (the search, lines 66-67), each with its full multiplicity |
| View.FilteredAll | TodoList.jsx:60-68 | with a filter other than `'active'` or `'completed'` and an empty search term, the filtered list is the whole list |
| View.SearchMeaning | TodoList.jsx:66-68 | a record passes `SearchMatches` exactly when the term occurs somewhere in its text, ignoring the case of ASCII letters |
| View.SearchCaseInsensitive | TodoList.jsx:66-68 | the search result does not change when the term is lower-cased first |
| View.Rank | TodoList.jsx:70-73 | the rank is 0 exactly for `high`, 1 exactly for `medium`, 2 exactly for `low`, and 3 for anything else or an absent priority |
| View.Compare | TodoList.jsx:71-79 | a lower rank sorts first; equal ranks compare by due date when both records are dated (`IsDated`: present and non-empty, line 75) and are tied otherwise |
| View.CompareAntisymmetric | TodoList.jsx:71-79 | swapping the two records negates the comparator |
| View.CompareNotTransitive | TodoList.jsx:71-79 | an undated record ties with two dated records of its rank that are themselves strictly ordered |
| View.SortMixedGroup | TodoList.jsx:71-79 | a later-dated, an undated and an earlier-dated record of one rank come out of the sort unchanged, so the dates are out of order |
| View.Insert | TodoList.jsx:71-79 | one insertion step adds exactly one record (where it goes is stated by InsertAt, the order kept by InsertOrdered) |
| View.InsertionSort | TodoList.jsx:71-79 | sorting keeps the length (permutation and order are stated by SortPermutes and SortOrdered) |
| View.InsertPermutes | TodoList.jsx:71-79 | one insertion step adds the inserted record to the multiset and nothing else |
| View.InsertOrdered | TodoList.jsx:71-79 | inserting into an ordered list gives an ordered list |
| View.SortPermutes | TodoList.jsx:71-79 | the sorted view is a permutation of the filtered list |
| View.SortOrdered | TodoList.jsx:71-79 | in the sorted view every neighbouring pair is in comparator order |
| View.SortOfOrdered | TodoList.jsx:71-79 | a list already in comparator order comes back from the sort unchanged |
| View.OrderedRanks | TodoList.jsx:72-74 | in an ordered list the priority rank never decreases |
| View.OrderedPriorityNames | TodoList.jsx:70-74 | in an ordered list only `high` records come before a `high` record, and no `high` or `medium` record comes after a `low` one |
| View.OrderedDatesInRun | TodoList.jsx:75-77 | in an ordered list the due dates ascend along any run of one rank in which every record is dated |
| View.OrderedDatesInGroup | TodoList.jsx:75-77 | when every record of a rank is dated, that rank's records appear in ascending due-date order |
| View.InsertAt | TodoList.jsx:71-79 | an insertion step places the record just after the last record that does not compare greater than it |
| View.InsertInPlace | TodoList.jsx:71-79 | the in-place step leaves the array's prefix equal to the insertion of the moved record and does not touch the rest |
| View.SortedTodos | TodoList.jsx:71-79 | sorting the copied array yields the insertion sort of the filtered list; it is a permutation and in comparator order |
| Widget.TodoList.constructor | TodoList.jsx:4-17 | the list starts as the stored list, or empty when storage holds none; the panel starts empty with priority `'medium'`, the filter at `'all'`, no search and no edit; storage mirrors the list |
| Widget.TodoList.AddTodo | TodoList.jsx:19-35 | blank input changes nothing; otherwise it appends one incomplete record built from the panel, or commits the panel into the edited record and ends the edit; then it resets the panel |
| Widget.TodoList.EditTodo | TodoList.jsx:44-49 | loads the record into the panel and makes it the edit target; a position past the end throws and changes nothing |
| Widget.TodoList.ToggleComplete | TodoList.jsx:37-42 | the new list is the old one with the indexed record toggled; every other field is unchanged |
| Widget.TodoList.DeleteTodo | TodoList.jsx:51-53 | the new list is the old one with the indexed record removed; the edit target is kept |
| Widget.TodoList.ClearCompleted | TodoList.jsx:55-57 | only the incomplete records remain, as many as the active count before the clear |
| Widget.TodoList.SetFilter | TodoList.jsx:125-142 | changing the filter leaves the list and the active count unchanged |
| Widget.TodoList.SetSearchTerm | TodoList.jsx:86-92 | changing the search term leaves the list and the active count unchanged |
| Widget.TodoList.SetInput | TodoList.jsx:96-102 | typing sets the text field of the panel |
| Widget.TodoList.SetDueDate | TodoList.jsx:103-108 | picking a date sets the date field of the panel |
| Widget.TodoList.SetPriority | TodoList.jsx:109-117 | picking a priority sets the priority field of the panel |
| Widget.TodoList.VisibleTodos | TodoList.jsx:59-79 | the rendered rows are the sorted filtered list: a permutation of it, in comparator order; the stored list is not reordered |
| Widget.EditThenUpdate | TodoList.jsx:19-49 | Edit then Update gives the record back with only the date and priority normalised; with a blank text the Update is rejected and the edit stays open |
| Widget.RowInStore | TodoList.jsx:150-152 | every row position of the view is a valid position of the stored list |
| Widget.RowsAreStorePositions | TodoList.jsx:150-181 | the view equals the stored list when nothing is filtered out, the search is empty and the list is already in sort order |
| Widget.RowPositionMismatch | TodoList.jsx:150-152 | with a low-priority task stored before a high-priority one, the first row shows the high-priority task but its click toggles the low-priority one |

## Left out

- Tasks.OrElse: its contract states only what the fallback can yield; which of the two values it picks is its definition, which `EditRoundTrip` and `EditThenUpdate` use directly.
- Storage I/O and parsing: reading and writing the storage slot and the JSON encoding are browser and library calls. The stored slot is a ghost copy of the list, and the constructor takes the already-parsed list. A stored empty string, which also yields an empty list, is not modelled separately. Stored data that does not parse makes the source throw at mount; that is not modelled.
- Record shape of stored data: a stored record is assumed to have a string `text` and a boolean `completed`. Only `dueDate` and `priority` may be absent (`None`).
- Rendering: markup, CSS classes, the priority colours and the Add/Update button label are presentation only.
- React scheduling: each state setter is a field assignment done in handler order. Batching of updates and when effects run are not modelled.
- Date parsing: due dates are compared as strings, lexicographically by code point. That order is chronological for the `YYYY-MM-DD` values a date input produces. Other date strings, and the invalid-date (NaN) behaviour of date subtraction, are not modelled.
- Text.Lower: folds only ASCII `A`-`Z`. Unicode case mapping in the search is not modelled.
- View.Rank: gives rank 3 to every priority other than high, medium and low. In the source, a priority naming a property that every object inherits, such as `toString`, finds a function in the rank table. The comparator then returns NaN, and that case is not modelled.
- View.SortedTodos: an insertion sort stands for the engine's sort, which is not part of this model. The model proves of its sort that the result is a permutation, in rank order, and date-ordered along every run of same-rank dated records; that a different sort algorithm gives the same rows is not proved. Inside a same-rank group that mixes dated and undated records the engine's order may differ from the model's (`SortMixedGroup` shows such a group left out of date order), and the model claims no order there.
