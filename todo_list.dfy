/** The `TodoList` component's state and its event handlers. Each `useState`
    pair becomes a field and each handler a method that assigns the fields its
    `set...` calls name. Every handler that changes the list builds a fresh
    array (by spread, `filter` or `map`), sorts it in place with `sortTodos`
    and stores the result, so the list is sorted after every change except
    `resetTodos`, whose empty list is sorted anyway. */
module TodoComponent {
  import opened Text
  import opened Items
  import opened PrioritySort
  import opened ListOps

  /** `sortTodos(updatedTodos)` on the fresh array a spread, `filter` or `map`
      returns: the array holding `s` is sorted in place, and its contents are
      what the handler stores. */
  method SortedFresh(s: seq<TodoItem>) returns (r: seq<TodoItem>)
    ensures r == SortByPriority(s)
  {
    var a := new TodoItem[|s|](i requires 0 <= i < |s| => s[i]);
    assert a[..] == s;
    SortTodos(a);
    r := a[..];
  }

  /** The state `saveTodo` leaves, `r`, `index'`, `text'` and `priority'`,
      from list `s`, edit position `index`, pending text `text` and pending
      priority `priority`: nothing changes when the text is blank; otherwise
      the list is the edited one re-sorted (as long as before, sorted, with
      the same remaining count, and holding the old items with the edited one
      in place of the item at `index` when it is in range) and edit mode ends. */
  predicate Saved(s: seq<TodoItem>, index: int, text: string, priority: Priority,
                  r: seq<TodoItem>, index': int, text': string, priority': Priority)
  {
    if IsBlank(text) then
      r == s && index' == index && text' == text && priority' == priority
    else
      && r == SortByPriority(Edited(s, index, text, priority))
      && |r| == |s| && Sorted(r) && Remaining(r) == Remaining(s)
      && EditedItems(r, s, index, text, priority)
      && index' == -1 && text' == "" && priority' == Low
  }

  /** `saveTodo` on values: the pending text is trimmed and tested, and a
      non-blank one is written into a copy of the list that is then sorted. */
  method SaveEdit(s: seq<TodoItem>, index: int, text: string, priority: Priority)
    returns (r: seq<TodoItem>, index': int, text': string, priority': Priority)
    ensures Saved(s, index, text, priority, r, index', text', priority')
  {
    if Trim(text) != "" {
      r := SortedFresh(Edited(s, index, text, priority));
      EditedThenSorted(s, index, text, priority, r);
      index', text', priority' := -1, "", Low;
    } else {
      r, index', text', priority' := s, index, text, priority;
    }
  }

  class TodoList {
    /** The list, in display order. */
    var todos: seq<TodoItem>
    /** The text in the add box. */
    var inputValue: string
    /** The position being edited, or -1 when no item is being edited. */
    var editIndex: int
    /** The pending text of the item being edited. */
    var editText: string
    /** The pending priority of the item being edited. */
    var editPriority: Priority
    /** The priority chosen for the next item to add. */
    var addPriority: Priority

    /** The first render: `stored` is the list kept in browser storage (empty
        when there is none). Its order is taken as stored. */
    constructor (stored: seq<TodoItem>)
      ensures todos == stored && inputValue == ""
      ensures editIndex == -1 && editText == "" && editPriority == Low && addPriority == Low
    {
      todos := stored;
      inputValue := "";
      editIndex := -1;
      editText := "";
      editPriority := Low;
      addPriority := Low;
    }

    /** `handleInputChange`: the add box now shows `value`. */
    method HandleInputChange(value: string)
      modifies this`inputValue
      ensures inputValue == value
    {
      inputValue := value;
    }

    /** `handleAddPriorityChange`: the priority selector of the add box. */
    method HandleAddPriorityChange(priority: Priority)
      modifies this`addPriority
      ensures addPriority == priority
    {
      addPriority := priority;
    }

    /** `handleEditPriorityChange`: the priority selector of the edited item. */
    method HandleEditPriorityChange(priority: Priority)
      modifies this`editPriority
      ensures editPriority == priority
    {
      editPriority := priority;
    }

    /** `handleEditChange`: the text box of the edited item. */
    method HandleEditChange(value: string)
      modifies this`editText
      ensures editText == value
    {
      editText := value;
    }

    /** `addTodo`: a blank entry is ignored; otherwise the entry becomes a new,
        not yet completed item of the chosen priority, the list is re-sorted,
        and the add box and its priority are reset. */
    method AddTodo()
      modifies this`todos, this`inputValue, this`addPriority
      ensures IsBlank(old(inputValue)) ==>
        todos == old(todos) && inputValue == old(inputValue) && addPriority == old(addPriority)
      ensures !IsBlank(old(inputValue)) ==>
        var item := TodoItem(old(inputValue), false, old(addPriority));
        && todos == SortByPriority(old(todos) + [item])
        && |todos| == |old(todos)| + 1
        && Sorted(todos)
        && multiset(todos) == multiset(old(todos)) + multiset{item}
        && Remaining(todos) == Remaining(old(todos)) + 1
        && inputValue == "" && addPriority == Low
    {
      if Trim(inputValue) != "" {
        var newTodo := TodoItem(inputValue, false, addPriority);
        var sorted := SortedFresh(todos + [newTodo]);
        AppendedThenSorted(todos, newTodo, sorted);
        todos, inputValue, addPriority := sorted, "", Low;
      }
    }

    /** `removeTodo(index)`: drops the item at `index` (nothing when no
        position matches) and re-sorts. */
    method RemoveTodo(index: int)
      modifies this`todos
      ensures todos == SortByPriority(Removed(old(todos), index))
      ensures Sorted(todos)
      ensures 0 <= index < |old(todos)| ==>
        && |todos| == |old(todos)| - 1
        && multiset(todos) == multiset(old(todos)) - multiset{old(todos)[index]}
        && Remaining(todos) == Remaining(old(todos)) - (if old(todos)[index].completed then 0 else 1)
      ensures !(0 <= index < |old(todos)|) ==>
        multiset(todos) == multiset(old(todos)) && Remaining(todos) == Remaining(old(todos))
      ensures Sorted(old(todos)) ==> todos == Removed(old(todos), index)
    {
      var sorted := SortedFresh(Removed(todos, index));
      RemovedThenSorted(todos, index, sorted);
      if Sorted(todos) {
        RemovedKeepsOrder(todos, index);
      }
      todos := sorted;
    }

    /** `startEdit(index)`: copies the item's text and priority into the
        pending edit fields. The list itself is untouched. */
    method StartEdit(index: int)
      requires 0 <= index < |todos|
      modifies this`editIndex, this`editText, this`editPriority
      ensures editIndex == index
      ensures editText == todos[index].text && editPriority == todos[index].priority
    {
      editIndex := index;
      editText := todos[index].text;
      editPriority := todos[index].priority;
    }

    /** `saveTodo`: a blank pending text changes nothing and edit mode stays;
        otherwise the item at `editIndex` (if any position matches) takes the
        pending text and priority, the list is re-sorted and edit mode ends. */
    method SaveTodo()
      modifies this`todos, this`editIndex, this`editText, this`editPriority
      ensures Saved(old(todos), old(editIndex), old(editText), old(editPriority),
                    todos, editIndex, editText, editPriority)
    {
      todos, editIndex, editText, editPriority := SaveEdit(todos, editIndex, editText, editPriority);
    }

    /** `cancelEdit`: leaves edit mode; the list is untouched. */
    method CancelEdit()
      modifies this`editIndex, this`editText, this`editPriority
      ensures editIndex == -1 && editText == "" && editPriority == Low
    {
      editIndex := -1;
      editText := "";
      editPriority := Low;
    }

    /** `toggleCompleted(index)`: flips the `completed` flag of the item at
        `index` (nothing when no position matches) and re-sorts. */
    method ToggleCompleted(index: int)
      modifies this`todos
      ensures todos == SortByPriority(Toggled(old(todos), index))
      ensures |todos| == |old(todos)| && Sorted(todos)
      ensures 0 <= index < |old(todos)| ==>
        && multiset(todos) == multiset(old(todos)) - multiset{old(todos)[index]}
                              + multiset{old(todos)[index].(completed := !old(todos)[index].completed)}
        && Remaining(todos) == if old(todos)[index].completed then Remaining(old(todos)) + 1 else Remaining(old(todos)) - 1
      ensures !(0 <= index < |old(todos)|) ==>
        multiset(todos) == multiset(old(todos)) && Remaining(todos) == Remaining(old(todos))
      ensures Sorted(old(todos)) ==> todos == Toggled(old(todos), index)
    {
      var sorted := SortedFresh(Toggled(todos, index));
      ToggledThenSorted(todos, index, sorted);
      if Sorted(todos) {
        ToggledKeepsOrder(todos, index);
      }
      todos := sorted;
    }

    /** `resetTodos`: the list becomes empty; edit state is left alone. */
    method ResetTodos()
      modifies this`todos
      ensures todos == [] && Remaining(todos) == 0
    {
      todos := [];
    }
  }

  /** Adding "Buy milk" to the empty list. */
  method AddFirstSession() {
    var milk := TodoItem("Buy milk", false, Low);
    SortPair(milk, milk);
    var list := new TodoList([]);
    list.HandleInputChange(milk.text);
    assert list.inputValue[0] == 'B' && !IsBlank(list.inputValue);
    list.AddTodo();
    assert [] + [milk] == [milk];
    assert list.todos == [milk] && list.inputValue == "" && list.addPriority == Low;
  }

  /** Then adding "Call bank" with High priority puts it first. */
  method AddHigherSession() {
    var milk, bank := TodoItem("Buy milk", false, Low), TodoItem("Call bank", false, High);
    SortPair(milk, bank);
    assert [milk] + [bank] == [milk, bank];
    assert [milk][..0] == [] && Remaining([milk]) == 1;
    var list := new TodoList([milk]);
    list.HandleInputChange(bank.text);
    list.HandleAddPriorityChange(High);
    assert list.inputValue[0] == 'C' && !IsBlank(list.inputValue);
    list.AddTodo();
    assert list.todos == [bank, milk];
    assert Remaining(list.todos) == 2;
  }

  /** Completing the first of those two items keeps the order; removing the
      second leaves the completed one, and nothing remains to do. */
  method ToggleRemoveSession() {
    var milk, bank := TodoItem("Buy milk", false, Low), TodoItem("Call bank", false, High);
    var list := new TodoList([bank, milk]);
    assert Sorted(list.todos);
    list.ToggleCompleted(0);
    assert list.todos == [bank.(completed := true), milk];
    list.RemoveTodo(1);
    assert list.todos == [bank.(completed := true)];
    assert Remaining(list.todos) == 0;
  }

  /** A blank entry is not added, and reset empties the list. */
  method BlankAndResetSession() {
    var done := TodoItem("Call bank", true, High);
    var spaces := "   ";
    assert IsBlank(spaces) by {
      forall i | 0 <= i < |spaces| ensures IsWhitespace(spaces[i]) {
        assert spaces[i] == ' ';
      }
    }
    var list := new TodoList([done]);
    list.HandleInputChange(spaces);
    list.AddTodo();
    assert list.todos == [done];
    list.ResetTodos();
    assert list.todos == [];
  }

  /** The edit index is a position: adding a higher-priority item while an
      edit is open shifts the edited item down, so the pending edit now
      addresses the newly added item, which `saveTodo` would overwrite. */
  method StaleEditIndexSession() {
    var a, urgent := TodoItem("a", false, Low), TodoItem("urgent", false, High);
    SortPair(a, urgent);
    assert [a] + [urgent] == [a, urgent];
    var list := new TodoList([a]);
    list.HandleInputChange(urgent.text);
    list.HandleAddPriorityChange(High);
    assert list.inputValue[0] == 'u' && !IsBlank(list.inputValue);
    list.StartEdit(0);
    assert list.todos == [a] && list.editIndex == 0;
    list.AddTodo();
    assert list.todos == [urgent, a];
    assert list.editIndex == 0 && list.todos[list.editIndex] != a;
  }
}
