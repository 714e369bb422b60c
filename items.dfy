/** The to-do item record and the facts about it that every list operation uses. */
module Items {

  /** The three priorities a to-do can carry. Stored items are assumed to hold
      one of them; a priority string outside these three is not representable. */
  datatype Priority = High | Medium | Low

  /** The order array the comparator searches with `indexOf`. */
  const PriorityOrder: seq<Priority> := [High, Medium, Low]

  /** One to-do: its text, whether it is done, and its priority. */
  datatype TodoItem = TodoItem(text: string, completed: bool, priority: Priority)

  /** `priorityOrder.indexOf(p)`: the position of `p` in the order array. */
  function Rank(p: Priority): (r: nat)
    ensures r < |PriorityOrder| && PriorityOrder[r] == p
  {
    match p
    case High => 0
    case Medium => 1
    case Low => 2
  }

  /** The sort comparator: the difference of the two items' ranks in the
      priority order. With three priorities it lies between -2 and 2, and
      items of the same priority compare equal. */
  function Compare(a: TodoItem, b: TodoItem): (d: int)
    ensures -2 <= d <= 2
    ensures a.priority == b.priority ==> d == 0
  {
    Rank(a.priority) - Rank(b.priority)
  }

  /** The comparator is zero exactly when the two items share a priority, and
      positive (`b` must come first) exactly when `b` is High and `a` is not,
      or `a` is Low and `b` is not. */
  lemma CompareMeaning(a: TodoItem, b: TodoItem)
    ensures Compare(a, b) == 0 <==> a.priority == b.priority
    ensures Compare(a, b) > 0 <==> b.priority != a.priority && (b.priority == High || a.priority == Low)
    ensures Compare(a, b) == -Compare(b, a)
  {
  }

  /** Non-decreasing in priority rank: every High item precedes every Medium
      item, which precedes every Low item. */
  predicate Sorted(s: seq<TodoItem>) {
    forall i, j :: 0 <= i < j < |s| ==> Rank(s[i].priority) <= Rank(s[j].priority)
  }

  /** `todos.filter((todo) => !todo.completed).length`: how many items are not done. */
  function Remaining(s: seq<TodoItem>): (n: nat)
    ensures n <= |s|
    decreases |s|
  {
    if s == [] then 0
    else Remaining(s[..|s| - 1]) + (if s[|s| - 1].completed then 0 else 1)
  }

  /** Nothing remains exactly when every item is done, and every item remains
      exactly when none is. */
  lemma {:induction false} RemainingExtremes(s: seq<TodoItem>)
    ensures Remaining(s) == 0 <==> forall i :: 0 <= i < |s| ==> s[i].completed
    ensures Remaining(s) == |s| <==> forall i :: 0 <= i < |s| ==> !s[i].completed
    decreases |s|
  {
    if s != [] {
      var s' := s[..|s| - 1];
      RemainingExtremes(s');
      assert forall i :: 0 <= i < |s'| ==> s'[i] == s[i];
    }
  }

  /** The count of a concatenation is the sum of the counts. */
  lemma {:induction false} RemainingAppend(a: seq<TodoItem>, b: seq<TodoItem>)
    ensures Remaining(a + b) == Remaining(a) + Remaining(b)
    decreases |b|
  {
    if b != [] {
      var b' := b[..|b| - 1];
      assert (a + b)[..|a + b| - 1] == a + b';
      RemainingAppend(a, b');
    } else {
      assert a + b == a;
    }
  }
}
