# To-do list model of `TodoList`

This project models the list logic of the React component `TodoList` in
`my-app/src/components/TodoList.js`. A to-do is a record of its text, a
`completed` flag and a priority (High, Medium or Low). The component keeps
six pieces of state:

- the list `todos`;
- the text of the add box;
- the position being edited, with -1 meaning that no item is being edited;
- the pending edit text and the pending edit priority;
- the priority chosen for the next item to add.

Its handlers add, remove, edit, toggle and reset items. Every handler except
`resetTodos` that changes the list re-sorts it by priority with `sortTodos`;
`resetTodos` empties it. The footer shows
how many items are not yet done.

The model has five modules:

- `Text` (`text.dfy`): the whitespace set of `String.prototype.trim` and
  `Trim` itself, which the handlers use to reject blank text.
- `Items` (`items.dfy`): the item record, the priority rank and comparator,
  what "sorted" means, and the remaining count.
- `PrioritySort` (`priority_sort.dfy`): `SortByPriority`, the stable sort as
  a function (insertion from the back), and its lemmas. These prove that it
  permutes, sorts and is stable, and that it is the only sorted list that is
  stable. `SortTodos` sorts an array in place by insertion sort and is
  proved to compute `SortByPriority`.
- `ListOps` (`list_ops.dfy`): the pure list updates the handlers build
  before sorting. These are the position filter of `removeTodo` and the
  position-addressed `map`s of `toggleCompleted` and `saveTodo`. The module
  also has the lemmas about these updates.
- `TodoComponent` (`todo_list.dfy`): the class `TodoList`. Each `useState`
  pair is a field and each handler a method that assigns the fields its
  `set...` calls name. The postconditions of `RemoveTodo` and
  `ToggleCompleted`, and those of `AddTodo` and `SaveTodo` for a non-blank
  text, state the new list as `SortByPriority` of a list function of the old
  state, and also its length, its sortedness, its items as a multiset and
  its remaining count. For a blank text `AddTodo` and `SaveTodo` leave the
  list as it was, `ResetTodos` states that it is empty, and the setters,
  `StartEdit` and `CancelEdit` do not touch it.
  `SaveTodo` states all of this through the predicate `Saved`, which
  `SaveEdit`, the same handler computed on values, also ensures.

The initial list comes from browser storage. It is a constructor parameter
and is not assumed to be sorted. So "the list is sorted" holds after every
mutation and is not a class invariant. On a sorted list, `RemoveTodo` and
`ToggleCompleted` are also proved to leave the order untouched.

Five client methods at the end of `todo_list.dfy` call the handlers on
concrete lists; their assertions are verified. The last one, `StaleEditIndexSession`, shows that the edit
index is a position. Adding a higher-priority item while an edit is open
shifts the edited item down. The pending edit then addresses the new item,
and `saveTodo` would overwrite that one. The component does this as
written; the model keeps this behaviour.

## Model

| member | source | states |
|---|---|---|
| Text.IsWhitespace | my-app/src/components/TodoList.js:32 | the characters `trim()` strips are ECMAScript's WhiteSpace and LineTerminator code points; no ASCII letter or digit is among them |
| Text.IsBlank | my-app/src/components/TodoList.js:32 | a text is blank when every character is whitespace; the empty text is blank |
| Text.TrimStart | my-app/src/components/TodoList.js:32 | the result is the suffix of the text that starts at its first non-whitespace character; everything dropped is whitespace |
| Text.TrimEnd | my-app/src/components/TodoList.js:32 | the result is the prefix of the text that ends at its last non-whitespace character; everything dropped is whitespace |
| Text.Trim | my-app/src/components/TodoList.js:32 | `trim()` gives the empty string exactly when the text is blank, i.e. all whitespace; otherwise the result starts and ends with a non-whitespace character |
| Text.TrimIsSlice | my-app/src/components/TodoList.js:32 | the trimmed text is the contiguous slice of the text that starts where the leading whitespace ends |
| Items.Rank | my-app/src/components/TodoList.js:105-106 | the rank of a priority is its position in the order array `['High', 'Medium', 'Low']` |
| Items.Compare | my-app/src/components/TodoList.js:104-106 | the comparator is the difference of the two ranks; with three priorities it lies between -2 and 2, and it is 0 for items of the same priority |
| Items.CompareMeaning | my-app/src/components/TodoList.js:104-106 | the comparator is zero exactly for equal priorities, and positive exactly when the second item must come first; it is antisymmetric |
| Items.Remaining | my-app/src/components/TodoList.js:299 | the remaining count is never more than the list length |
| Items.RemainingExtremes | my-app/src/components/TodoList.js:299 | the count is 0 exactly when every item is done, and equals the length exactly when none is |
| Items.RemainingAppend | my-app/src/components/TodoList.js:299 | the count of a concatenation is the sum of the counts |
| PrioritySort.InsertLast | my-app/src/components/TodoList.js:104-107 | one insertion step of the stable sort adds exactly one item |
| PrioritySort.SortByPriority | my-app/src/components/TodoList.js:103-108 | the sorted list has the input's length |
| PrioritySort.WithPriority | my-app/src/components/TodoList.js:103-108 | the items of one priority, in list order, are never more than the list |
| PrioritySort.WithPriorityMembers | my-app/src/components/TodoList.js:103-108 | an item is in the priority-`p` subsequence exactly when it is in the list and has priority `p` |
| PrioritySort.WithPriorityNone | my-app/src/components/TodoList.js:103-108 | a list with no item of priority `p` has an empty `p` subsequence |
| PrioritySort.InsertLastPermutes | my-app/src/components/TodoList.js:104-107 | an insertion step adds the inserted item to the multiset and loses nothing |
| PrioritySort.InsertLastSorted | my-app/src/components/TodoList.js:104-107 | an insertion step into a sorted list gives a sorted list |
| PrioritySort.InsertLastWithPriority | my-app/src/components/TodoList.js:104-107 | an insertion step appends the item to its own priority's subsequence and changes no other; it moves nothing past an item of equal priority |
| PrioritySort.SortPermutes | my-app/src/components/TodoList.js:103-108 | the sorted list is a permutation of the input |
| PrioritySort.SortSorted | my-app/src/components/TodoList.js:103-108 | the sorted list is non-decreasing in priority rank |
| PrioritySort.SortStable | my-app/src/components/TodoList.js:103-108 | stability: for each priority, the items of that priority keep their input order |
| PrioritySort.SortedSplitsByPriority | my-app/src/components/TodoList.js:103-108 | a sorted list is its High items, then its Medium items, then its Low items |
| PrioritySort.SortUnique | my-app/src/components/TodoList.js:103-108 | any sorted list that keeps each priority's items in input order is the sort's result, so every stable sort with this comparator returns the same list |
| PrioritySort.SortKeepsSorted | my-app/src/components/TodoList.js:103-108 | sorting an already sorted list changes nothing |
| PrioritySort.SortPair | my-app/src/components/TodoList.js:103-108 | one item stays put; two items swap exactly when the comparator is positive |
| PrioritySort.SortKeepsRemaining | my-app/src/components/TodoList.js:103-108 | sorting does not change the remaining count |
| PrioritySort.InsertLastRemaining | my-app/src/components/TodoList.js:104-107 | an insertion step adds the inserted item's count to the remaining count |
| PrioritySort.InsertLastAt | my-app/src/components/TodoList.js:104-107 | the item goes in behind the last item that the comparator does not put after it |
| PrioritySort.ShiftPast | my-app/src/components/TodoList.js:104-107 | the inner loop shifts right exactly the trailing items that the comparator puts after the inserted item, and stops in front of one it does not |
| PrioritySort.InsertIntoPrefix | my-app/src/components/TodoList.js:104-107 | one pass of the in-place insertion sort turns the prefix into `InsertLast` of it and leaves the rest of the array alone |
| PrioritySort.SortTodos | my-app/src/components/TodoList.js:103-108 | `sortTodos` sorts the array in place into `SortByPriority` of its old contents |
| ListOps.AppendedThenSorted | my-app/src/components/TodoList.js:38-39 | the list with the new item appended, then sorted, is one longer and sorted; it holds the old items plus the new one, and its remaining count goes up by one when the new item is not done |
| ListOps.Removed | my-app/src/components/TodoList.js:46 | the filter makes the list one shorter for an in-range index and keeps its length otherwise |
| ListOps.RemovedSplices | my-app/src/components/TodoList.js:46 | the filter cuts out exactly the item at an in-range index and keeps all others in order; an out-of-range index leaves the list as it was |
| ListOps.RemovedDropsItem | my-app/src/components/TodoList.js:46 | for an in-range index, the result's multiset is the old one minus the removed item |
| ListOps.RemovedRemaining | my-app/src/components/TodoList.js:46 | removing an in-range item lowers the remaining count by one when that item was not done, and keeps it when it was |
| ListOps.RemovedThenSorted | my-app/src/components/TodoList.js:46-47 | the filtered list, sorted, is sorted. In range, it is one shorter, loses exactly that item and the remaining count drops by the item's count; out of range, it has the same items and count |
| ListOps.RemovedKeepsOrder | my-app/src/components/TodoList.js:46-47 | removing from a sorted list keeps it sorted, so the re-sort moves nothing |
| ListOps.Toggled | my-app/src/components/TodoList.js:84-89 | the map keeps the length; only the `completed` flag of the item at the index flips; texts, priorities and all other items are unchanged |
| ListOps.ToggledTwice | my-app/src/components/TodoList.js:84-89 | toggling the same position twice restores the list |
| ListOps.ToggledKeepsOrder | my-app/src/components/TodoList.js:84-90 | toggling a sorted list keeps it sorted, so the re-sort moves nothing |
| ListOps.ToggleHandlerTwice | my-app/src/components/TodoList.js:83-91 | on a sorted list, the toggle handler's update (map, then sort) applied twice at the same index gives the list back |
| ListOps.ToggledReplacesItem | my-app/src/components/TodoList.js:84-89 | for an in-range index, the multiset loses the old item and gains it with the `completed` flag flipped |
| ListOps.ToggledThenSorted | my-app/src/components/TodoList.js:84-90 | the toggled list, sorted, has the old length and is sorted. In range, it holds the flipped item in place of the old one and the remaining count moves by one; out of range, it has the same items and count |
| ListOps.ToggledRemaining | my-app/src/components/TodoList.js:84-89 | toggling an in-range item moves the remaining count by one: up if the item was done, down if not |
| ListOps.Edited | my-app/src/components/TodoList.js:63-68 | the map keeps the length and every other item; the item at the index gets the new text and priority and keeps its `completed` flag |
| ListOps.EditedReplacesItem | my-app/src/components/TodoList.js:63-68 | for an in-range index, the multiset loses the old item and gains the edited one |
| ListOps.EditedRemaining | my-app/src/components/TodoList.js:63-68 | editing does not change the remaining count |
| ListOps.EditedThenSorted | my-app/src/components/TodoList.js:63-69 | the edited list, sorted, has the old length and remaining count and is sorted; it holds the edited item in place of the old one, or the same items when no position matches |
| ListOps.OutOfRangeChangesNothing | my-app/src/components/TodoList.js:46-89 | an index that matches no position leaves without effect the filter of `removeTodo` (line 46), the `map` of `saveTodo` (lines 63-68) and the `map` of `toggleCompleted` (lines 84-89) |
| TodoComponent.SortedFresh | my-app/src/components/TodoList.js:38-39 | sorting the fresh array of an updated list in place yields `SortByPriority` of that list |
| TodoComponent.SaveEdit | my-app/src/components/TodoList.js:60-74 | `saveTodo` on values: a blank pending text changes nothing. Otherwise the list is the edited list re-sorted: same length and remaining count, sorted, holding the edited item in place of the old one (or the same items when no position matches). Edit mode ends with index -1, empty text and Low |
| TodoComponent.TodoList.constructor | my-app/src/components/TodoList.js:4-12 | the initial state: the stored list, an empty add box, no edit open, empty edit text, and Low for both priorities |
| TodoComponent.TodoList.HandleInputChange | my-app/src/components/TodoList.js:19-21 | the add box holds the new value and nothing else changes |
| TodoComponent.TodoList.HandleAddPriorityChange | my-app/src/components/TodoList.js:23-25 | the add priority is the chosen one and nothing else changes |
| TodoComponent.TodoList.HandleEditPriorityChange | my-app/src/components/TodoList.js:27-29 | the pending edit priority is the chosen one and nothing else changes |
| TodoComponent.TodoList.HandleEditChange | my-app/src/components/TodoList.js:56-58 | the pending edit text is the new value and nothing else changes |
| TodoComponent.TodoList.AddTodo | my-app/src/components/TodoList.js:31-43 | blank text changes nothing. Otherwise a not-done item with the text and the chosen priority is appended and the list re-sorted. The list is one longer and sorted, holds the old items plus the new one, and has one more item to do. The add box is emptied and the add priority reset to Low |
| TodoComponent.TodoList.RemoveTodo | my-app/src/components/TodoList.js:45-48 | the list is the filtered list re-sorted and is sorted. In range, it is one shorter, loses exactly that item, and has one item less to do when that item was not done; out of range, it holds the same items and the same count. On a sorted list it is exactly the filtered list |
| TodoComponent.TodoList.StartEdit | my-app/src/components/TodoList.js:50-54 | for a valid index, the edit index, pending text and pending priority are that item's; the list is untouched |
| TodoComponent.TodoList.SaveTodo | my-app/src/components/TodoList.js:60-74 | blank pending text changes nothing and edit mode stays. Otherwise the list is the edited list re-sorted, with the same length and remaining count, and is sorted; it holds the edited item in place of the old one, or the same items when no position matches. Edit mode ends with index -1, empty text and Low |
| TodoComponent.TodoList.CancelEdit | my-app/src/components/TodoList.js:76-81 | edit mode ends with index -1, empty text and Low; the list is untouched |
| TodoComponent.TodoList.ToggleCompleted | my-app/src/components/TodoList.js:83-91 | the list is the toggled list re-sorted, with the same length, and is sorted. For an in-range index it holds the flipped item in place of the old one and the remaining count moves by one; out of range it holds the same items and count. On a sorted list it is exactly the toggled list |
| TodoComponent.TodoList.ResetTodos | my-app/src/components/TodoList.js:93-95 | the list is empty and nothing remains to do; no other field changes |

## Left out

- Persistence: reading the list from `localStorage` with `JSON.parse` (lines 4-7) and writing it back on every change (lines 15-17) are browser and library calls. The stored list is a constructor parameter, taken as any well-formed list.
- Stored records that do not fit the model: a priority string other than the three values makes `indexOf` return -1 (line 106), and malformed JSON makes parsing fail. `Priority` has exactly three constructors, so neither case can be represented.
- Focus handling: the ref and the effect that focuses the edit box (lines 13 and 97-101) only touch the DOM.
- Event plumbing: `event.stopPropagation()` (lines 61 and 77) is not modelled. The setters take the new value instead of the change event.
- Rendering: the JSX and styles (lines 110-317) are not modelled. That includes `key={index}` and which handler each button calls.
- React state updates: `set...` calls are batched and applied after the handler returns. Every handler reads the state before any of its own updates. So the model applies all of a handler's updates together at the end, which gives the same result.
- SortTodos: `Array.prototype.sort` leaves the algorithm to the engine. The model sorts by insertion sort. ECMA-262 requires the sort to be stable since the 10th edition (section 22.1.3.27), and `SortUnique` proves that every stable sort with this comparator returns the same list.
- SortedFresh: the array the handler sorts becomes the new state object. The model stores a copy of its contents, since no other reference to that array exists.
- Text.IsWhitespace: JavaScript strings are UTF-16 code units, and Dafny strings here are Unicode scalar values. Text with lone surrogates is not represented. The whitespace set is ECMAScript's WhiteSpace and LineTerminator, including the space separators of Unicode category Zs.
- StartEdit: requires an in-range index. Out of range, the source reads `.text` of `undefined` and throws, and that failure is not modelled. The buttons only pass indices of rendered items.
