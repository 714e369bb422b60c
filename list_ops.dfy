/** The list transformations the handlers apply before re-sorting: the
    position filter of `removeTodo`, and the position-addressed `map`s of
    `toggleCompleted` and `saveTodo`. All three address items by index, and an
    index that matches no position leaves the list as it was. */
module ListOps {
  import opened Items
  import opened PrioritySort

  /** What `addTodo` stores: the list with `item` appended, re-sorted, is one
      longer, sorted, holds the old items and `item`, and has one more item to
      do when `item` is not done. */
  lemma {:induction false} AppendedThenSorted(s: seq<TodoItem>, item: TodoItem, r: seq<TodoItem>)
    requires r == SortByPriority(s + [item])
    ensures |r| == |s| + 1 && Sorted(r)
    ensures multiset(r) == multiset(s) + multiset{item}
    ensures Remaining(r) == Remaining(s) + (if item.completed then 0 else 1)
  {
    SortSorted(s + [item]);
    SortPermutes(s + [item]);
    SortKeepsRemaining(s + [item]);
    RemainingAppend(s, [item]);
  }

  /** `todos.filter((_, i) => i !== index)`: keeps, in order, every item whose
      position is not `index`. */
  function Removed(s: seq<TodoItem>, index: int): (r: seq<TodoItem>)
    ensures |r| == if 0 <= index < |s| then |s| - 1 else |s|
    decreases |s|
  {
    if s == [] then []
    else Removed(s[..|s| - 1], index) + (if |s| - 1 != index then [s[|s| - 1]] else [])
  }

  /** The filter cuts out the item at an in-range index and keeps every other
      item in its order; an out-of-range index matches nothing. */
  lemma {:induction false} RemovedSplices(s: seq<TodoItem>, index: int)
    ensures Removed(s, index) == if 0 <= index < |s| then s[..index] + s[index + 1..] else s
    decreases |s|
  {
    if s != [] {
      var n := |s|;
      var s' := s[..n - 1];
      RemovedSplices(s', index);
      if index == n - 1 {
        assert s[..index] + s[index + 1..] == s';
      } else if 0 <= index < n - 1 {
        assert s'[..index] == s[..index];
        assert s'[index + 1..] + [s[n - 1]] == s[index + 1..];
      } else {
        assert s' + [s[n - 1]] == s;
      }
    }
  }

  /** Removing at an in-range index takes exactly the item at that index out. */
  lemma {:induction false} RemovedDropsItem(s: seq<TodoItem>, index: int)
    requires 0 <= index < |s|
    ensures multiset(Removed(s, index)) == multiset(s) - multiset{s[index]}
  {
    RemovedSplices(s, index);
    assert s == s[..index] + [s[index]] + s[index + 1..];
  }

  /** Removing an in-range item lowers the remaining count by one when that
      item was not done, and keeps it when it was. */
  lemma {:induction false} RemovedRemaining(s: seq<TodoItem>, index: int)
    requires 0 <= index < |s|
    ensures Remaining(Removed(s, index)) == Remaining(s) - (if s[index].completed then 0 else 1)
  {
    RemovedSplices(s, index);
    assert s == s[..index] + [s[index]] + s[index + 1..];
    RemainingAppend(s[..index] + [s[index]], s[index + 1..]);
    RemainingAppend(s[..index], [s[index]]);
    RemainingAppend(s[..index], s[index + 1..]);
  }

  /** What `removeTodo` stores: the filtered list, re-sorted, is sorted. In
      range it is one shorter, has lost exactly the removed item, and has one
      item less to do when that item was not done; out of range it holds the
      same items. */
  lemma {:induction false} RemovedThenSorted(s: seq<TodoItem>, index: int, r: seq<TodoItem>)
    requires r == SortByPriority(Removed(s, index))
    ensures Sorted(r)
    ensures 0 <= index < |s| ==>
      && |r| == |s| - 1
      && multiset(r) == multiset(s) - multiset{s[index]}
      && Remaining(r) == Remaining(s) - (if s[index].completed then 0 else 1)
    ensures !(0 <= index < |s|) ==> multiset(r) == multiset(s) && Remaining(r) == Remaining(s)
  {
    var e := Removed(s, index);
    SortSorted(e);
    SortPermutes(e);
    SortKeepsRemaining(e);
    if 0 <= index < |s| {
      RemovedDropsItem(s, index);
      RemovedRemaining(s, index);
    } else {
      RemovedSplices(s, index);
    }
  }

  /** On a sorted list the re-sort after a removal moves nothing. */
  lemma {:induction false} RemovedKeepsOrder(s: seq<TodoItem>, index: int)
    requires Sorted(s)
    ensures Sorted(Removed(s, index))
    ensures SortByPriority(Removed(s, index)) == Removed(s, index)
  {
    RemovedSplices(s, index);
    var r := Removed(s, index);
    if 0 <= index < |s| {
      forall i, j | 0 <= i < j < |r| ensures Rank(r[i].priority) <= Rank(r[j].priority) {
        var i', j' := if i < index then i else i + 1, if j < index then j else j + 1;
        assert r[i] == s[i'] && r[j] == s[j'];
      }
    }
    SortKeepsSorted(r);
  }

  /** `todos.map` with `{ ...todo, completed: !todo.completed }` at `index`:
      only the `completed` flag of the item at `index` flips. */
  function Toggled(s: seq<TodoItem>, index: int): (r: seq<TodoItem>)
    ensures |r| == |s|
    ensures forall k :: 0 <= k < |s| ==>
      r[k].text == s[k].text && r[k].priority == s[k].priority &&
      (r[k].completed <==> (if k == index then !s[k].completed else s[k].completed))
  {
    seq(|s|, k requires 0 <= k < |s| =>
      if k == index then s[k].(completed := !s[k].completed) else s[k])
  }

  /** Toggling the same position twice restores the list. */
  lemma {:induction false} ToggledTwice(s: seq<TodoItem>, index: int)
    ensures Toggled(Toggled(s, index), index) == s
  {
  }

  /** Toggling keeps every priority, so a sorted list stays sorted and the
      re-sort moves nothing. */
  lemma {:induction false} ToggledKeepsOrder(s: seq<TodoItem>, index: int)
    requires Sorted(s)
    ensures Sorted(Toggled(s, index))
    ensures SortByPriority(Toggled(s, index)) == Toggled(s, index)
  {
    var r := Toggled(s, index);
    forall i, j | 0 <= i < j < |r| ensures Rank(r[i].priority) <= Rank(r[j].priority) {
      assert r[i].priority == s[i].priority && r[j].priority == s[j].priority;
    }
    SortKeepsSorted(r);
  }

  /** Running the toggle handler's list update twice on the same index of a
      sorted list gives back the list: the first re-sort moves nothing, so the
      second toggle hits the same item. */
  lemma {:induction false} ToggleHandlerTwice(s: seq<TodoItem>, index: int)
    requires Sorted(s)
    ensures SortByPriority(Toggled(SortByPriority(Toggled(s, index)), index)) == s
  {
    ToggledKeepsOrder(s, index);
    ToggledKeepsOrder(Toggled(s, index), index);
    ToggledTwice(s, index);
  }

  /** Toggling an in-range item replaces exactly that item by its copy with
      the flag flipped. */
  lemma {:induction false} ToggledReplacesItem(s: seq<TodoItem>, index: int)
    requires 0 <= index < |s|
    ensures multiset(Toggled(s, index))
         == multiset(s) - multiset{s[index]} + multiset{s[index].(completed := !s[index].completed)}
  {
    var r := Toggled(s, index);
    assert r[index] == s[index].(completed := !s[index].completed);
    assert s == s[..index] + [s[index]] + s[index + 1..];
    assert r == s[..index] + [r[index]] + s[index + 1..];
  }

  /** What `toggleCompleted` stores: the toggled list, re-sorted, has the old
      length and is sorted. In range it holds the flipped item in place of the
      old one and its remaining count moves by one; out of range it holds the
      same items and count. */
  lemma {:induction false} ToggledThenSorted(s: seq<TodoItem>, index: int, r: seq<TodoItem>)
    requires r == SortByPriority(Toggled(s, index))
    ensures |r| == |s| && Sorted(r)
    ensures 0 <= index < |s| ==>
      && multiset(r) == multiset(s) - multiset{s[index]} + multiset{s[index].(completed := !s[index].completed)}
      && Remaining(r) == (if s[index].completed then Remaining(s) + 1 else Remaining(s) - 1)
    ensures !(0 <= index < |s|) ==> multiset(r) == multiset(s) && Remaining(r) == Remaining(s)
  {
    var e := Toggled(s, index);
    SortSorted(e);
    SortPermutes(e);
    SortKeepsRemaining(e);
    if 0 <= index < |s| {
      ToggledReplacesItem(s, index);
      ToggledRemaining(s, index);
    } else {
      OutOfRangeChangesNothing(s, index, "", Low);
    }
  }

  /** Toggling an in-range item changes the remaining count by one: up when
      the item was done, down when it was not. */
  lemma {:induction false} ToggledRemaining(s: seq<TodoItem>, index: int)
    requires 0 <= index < |s|
    ensures Remaining(Toggled(s, index)) == if s[index].completed then Remaining(s) + 1 else Remaining(s) - 1
  {
    var r := Toggled(s, index);
    assert s == s[..index] + [s[index]] + s[index + 1..];
    assert r == s[..index] + [r[index]] + s[index + 1..];
    RemainingAppend(s[..index] + [s[index]], s[index + 1..]);
    RemainingAppend(s[..index], [s[index]]);
    RemainingAppend(s[..index] + [r[index]], s[index + 1..]);
    RemainingAppend(s[..index], [r[index]]);
  }

  /** `todos.map` with `{ ...todo, text, priority }` at `index`: the item at
      `index` takes the new text and priority and keeps its `completed` flag;
      every other item is untouched. */
  function Edited(s: seq<TodoItem>, index: int, text: string, priority: Priority): (r: seq<TodoItem>)
    ensures |r| == |s|
    ensures forall k :: 0 <= k < |s| && k != index ==> r[k] == s[k]
    ensures 0 <= index < |s| ==> r[index] == TodoItem(text, s[index].completed, priority)
  {
    seq(|s|, k requires 0 <= k < |s| =>
      if k == index then s[k].(text := text, priority := priority) else s[k])
  }

  /** Editing an in-range item replaces exactly that item. */
  lemma {:induction false} EditedReplacesItem(s: seq<TodoItem>, index: int, text: string, priority: Priority)
    requires 0 <= index < |s|
    ensures multiset(Edited(s, index, text, priority))
         == multiset(s) - multiset{s[index]} + multiset{TodoItem(text, s[index].completed, priority)}
  {
    var r := Edited(s, index, text, priority);
    assert s == s[..index] + [s[index]] + s[index + 1..];
    assert r == s[..index] + [r[index]] + s[index + 1..];
  }

  /** Editing keeps every `completed` flag, so the remaining count is unchanged. */
  lemma {:induction false} EditedRemaining(s: seq<TodoItem>, index: int, text: string, priority: Priority)
    ensures Remaining(Edited(s, index, text, priority)) == Remaining(s)
    decreases |s|
  {
    if s != [] {
      var n := |s|;
      var r := Edited(s, index, text, priority);
      assert r[..n - 1] == Edited(s[..n - 1], index, text, priority);
      EditedRemaining(s[..n - 1], index, text, priority);
    }
  }

  /** What `saveTodo` stores: the edited list, re-sorted, has the same length
      and remaining count, is sorted, and holds the edited item in place of the
      old one (or the same items when no position matches). */
  lemma {:induction false} EditedThenSorted(s: seq<TodoItem>, index: int, text: string, priority: Priority, r: seq<TodoItem>)
    requires r == SortByPriority(Edited(s, index, text, priority))
    ensures |r| == |s| && Sorted(r) && Remaining(r) == Remaining(s)
    ensures EditedItems(r, s, index, text, priority)
  {
    var e := Edited(s, index, text, priority);
    SortSorted(e);
    SortPermutes(e);
    SortKeepsRemaining(e);
    EditedRemaining(s, index, text, priority);
    if 0 <= index < |s| {
      EditedReplacesItem(s, index, text, priority);
    } else {
      OutOfRangeChangesNothing(s, index, text, priority);
    }
  }

  /** The items of `r` are those of `s` with the one at `index` replaced by
      the edited item, or exactly those of `s` when no position matches. */
  predicate EditedItems(r: seq<TodoItem>, s: seq<TodoItem>, index: int, text: string, priority: Priority)
  {
    if 0 <= index < |s| then
      multiset(r) == multiset(s) - multiset{s[index]} + multiset{TodoItem(text, s[index].completed, priority)}
    else
      multiset(r) == multiset(s)
  }

  /** An index that matches no position leaves the list as it was. */
  lemma {:induction false} OutOfRangeChangesNothing(s: seq<TodoItem>, index: int, text: string, priority: Priority)
    requires !(0 <= index < |s|)
    ensures Removed(s, index) == s
    ensures Toggled(s, index) == s
    ensures Edited(s, index, text, priority) == s
  {
    RemovedSplices(s, index);
  }
}
