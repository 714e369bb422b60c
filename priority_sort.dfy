/** `sortTodos`: a stable sort of the to-do list by priority rank. The comparator
    returns `Rank(a) - Rank(b)`, and `Array.prototype.sort` is stable since
    ECMA-262 10th edition (section 22.1.3.27), so the result is fixed: items
    ordered High, Medium, Low, equal priorities in their previous order.
    `SortByPriority` is that result as a function; `SortTodos` computes it in
    place on an array by insertion sort. */
module PrioritySort {
  import opened Items

  /** Inserts `x` behind the last item of `t` that the comparator does not put
      after `x` — one step of insertion sort. */
  function InsertLast(t: seq<TodoItem>, x: TodoItem): (r: seq<TodoItem>)
    ensures |r| == |t| + 1
    decreases |t|
  {
    if t == [] then [x]
    else if Compare(t[|t| - 1], x) > 0 then InsertLast(t[..|t| - 1], x) + [t[|t| - 1]]
    else t + [x]
  }

  /** The list `sortTodos` returns for `s`. */
  function SortByPriority(s: seq<TodoItem>): (r: seq<TodoItem>)
    ensures |r| == |s|
    decreases |s|
  {
    if s == [] then [] else InsertLast(SortByPriority(s[..|s| - 1]), s[|s| - 1])
  }

  /** The items of priority `p`, in list order. Stability says the sort keeps
      each of these three subsequences as it was. */
  function WithPriority(s: seq<TodoItem>, p: Priority): (r: seq<TodoItem>)
    ensures |r| <= |s|
    decreases |s|
  {
    if s == [] then []
    else WithPriority(s[..|s| - 1], p) + (if s[|s| - 1].priority == p then [s[|s| - 1]] else [])
  }

  /** The `p` subsequence holds exactly the items of `s` whose priority is `p`. */
  lemma {:induction false} WithPriorityMembers(s: seq<TodoItem>, p: Priority)
    ensures forall y :: y in WithPriority(s, p) <==> y in s && y.priority == p
    decreases |s|
  {
    if s != [] {
      var s' := s[..|s| - 1];
      WithPriorityMembers(s', p);
      assert s == s' + [s[|s| - 1]];
    }
  }

  /** A list without items of priority `p` has an empty `p` subsequence. */
  lemma {:induction false} WithPriorityNone(s: seq<TodoItem>, p: Priority)
    requires forall i :: 0 <= i < |s| ==> s[i].priority != p
    ensures WithPriority(s, p) == []
    decreases |s|
  {
    if s != [] {
      WithPriorityNone(s[..|s| - 1], p);
    }
  }

  /** Inserting adds `x` and loses nothing. */
  lemma {:induction false} InsertLastPermutes(t: seq<TodoItem>, x: TodoItem)
    ensures multiset(InsertLast(t, x)) == multiset(t) + multiset{x}
    decreases |t|
  {
    if t != [] && Compare(t[|t| - 1], x) > 0 {
      var t' := t[..|t| - 1];
      InsertLastPermutes(t', x);
      assert t == t' + [t[|t| - 1]];
    }
  }

  /** Inserting into a sorted list keeps it sorted. */
  lemma {:induction false} InsertLastSorted(t: seq<TodoItem>, x: TodoItem)
    requires Sorted(t)
    ensures Sorted(InsertLast(t, x))
    decreases |t|
  {
    if t != [] {
      var t', last := t[..|t| - 1], t[|t| - 1];
      SortedPrefix(t);
      if Compare(last, x) > 0 {
        assert InsertLast(t, x) == InsertLast(t', x) + [last];
        InsertLastSorted(t', x);
        InsertedBelow(t, x, InsertLast(t', x));
        SortedAppend(InsertLast(t', x), last);
      } else {
        assert InsertLast(t, x) == t + [x];
        SortedAppend(t, x);
      }
    }
  }

  /** A sorted list without its last item is sorted. */
  lemma SortedPrefix(t: seq<TodoItem>)
    requires Sorted(t) && t != []
    ensures Sorted(t[..|t| - 1])
    ensures forall i :: 0 <= i < |t| - 1 ==> Rank(t[i].priority) <= Rank(t[|t| - 1].priority)
  {
  }

  /** Appending an item ranked no higher than everything before it keeps a list sorted. */
  lemma SortedAppend(r: seq<TodoItem>, y: TodoItem)
    requires Sorted(r)
    requires r == [] || Rank(r[|r| - 1].priority) <= Rank(y.priority)
    ensures Sorted(r + [y])
  {
  }

  /** When the comparator puts the last item `t[|t| - 1]` of a sorted `t`
      after `x`, nothing in `InsertLast(t[..|t| - 1], x)` ranks below it. */
  lemma {:induction false} InsertedBelow(t: seq<TodoItem>, x: TodoItem, r': seq<TodoItem>)
    requires Sorted(t) && t != [] && Compare(t[|t| - 1], x) > 0
    requires r' == InsertLast(t[..|t| - 1], x)
    ensures forall i :: 0 <= i < |r'| ==> Rank(r'[i].priority) <= Rank(t[|t| - 1].priority)
  {
    var t', last := t[..|t| - 1], t[|t| - 1];
    InsertLastPermutes(t', x);
    forall i | 0 <= i < |r'| ensures Rank(r'[i].priority) <= Rank(last.priority) {
      assert r'[i] in multiset(r');
      if r'[i] != x {
        assert r'[i] in multiset(t');
        var k :| 0 <= k < |t'| && t'[k] == r'[i];
        assert t[k] == r'[i];
      }
    }
  }

  /** Inserting `x` appends it to its own priority's subsequence and leaves
      the other two alone: no item is moved past one of its own priority. */
  lemma {:induction false} InsertLastWithPriority(t: seq<TodoItem>, x: TodoItem, p: Priority)
    ensures WithPriority(InsertLast(t, x), p) == WithPriority(t, p) + (if x.priority == p then [x] else [])
    decreases |t|
  {
    if t == [] {
      WithPriorityLast([], x, p);
      assert [] + [x] == [x];
    } else if Compare(t[|t| - 1], x) > 0 {
      var t', last := t[..|t| - 1], t[|t| - 1];
      assert t == t' + [last];
      assert InsertLast(t, x) == InsertLast(t', x) + [last];
      InsertLastWithPriority(t', x, p);
      WithPriorityPast(t', InsertLast(t', x), last, x, p);
    } else {
      WithPriorityLast(t, x, p);
    }
  }

  /** If `u`'s `p` subsequence is `t`'s with `x` appended, that stays so after
      appending to both an item `last` of another priority than `x`. */
  lemma {:induction false} WithPriorityPast(t: seq<TodoItem>, u: seq<TodoItem>, last: TodoItem, x: TodoItem, p: Priority)
    requires last.priority != x.priority
    requires WithPriority(u, p) == WithPriority(t, p) + (if x.priority == p then [x] else [])
    ensures WithPriority(u + [last], p) == WithPriority(t + [last], p) + (if x.priority == p then [x] else [])
  {
    WithPriorityLast(u, last, p);
    WithPriorityLast(t, last, p);
    var w := WithPriority(t, p);
    if last.priority == p {
      assert w + [] + [last] == w + [last] + [];
    } else if x.priority == p {
      assert w + [x] + [] == w + [] + [x];
    } else {
      assert w + [] + [] == w + [] + [];
    }
  }

  /** The sorted list holds exactly the items of the input, with multiplicity. */
  lemma {:induction false} SortPermutes(s: seq<TodoItem>)
    ensures multiset(SortByPriority(s)) == multiset(s)
    decreases |s|
  {
    if s != [] {
      var s' := s[..|s| - 1];
      SortPermutes(s');
      InsertLastPermutes(SortByPriority(s'), s[|s| - 1]);
      assert s == s' + [s[|s| - 1]];
    }
  }

  /** The sorted list is non-decreasing in priority rank. */
  lemma {:induction false} SortSorted(s: seq<TodoItem>)
    ensures Sorted(SortByPriority(s))
    decreases |s|
  {
    if s != [] {
      SortSorted(s[..|s| - 1]);
      InsertLastSorted(SortByPriority(s[..|s| - 1]), s[|s| - 1]);
    }
  }

  /** Stability: items of each priority keep their relative order. */
  lemma {:induction false} SortStable(s: seq<TodoItem>, p: Priority)
    ensures WithPriority(SortByPriority(s), p) == WithPriority(s, p)
    decreases |s|
  {
    if s != [] {
      SortStable(s[..|s| - 1], p);
      InsertLastWithPriority(SortByPriority(s[..|s| - 1]), s[|s| - 1], p);
    }
  }

  /** The High items, then the Medium items, then the Low items of `r`. */
  function Regroup(r: seq<TodoItem>): seq<TodoItem> {
    WithPriority(r, High) + WithPriority(r, Medium) + WithPriority(r, Low)
  }

  /** A sorted list is its High items, then its Medium items, then its Low items. */
  lemma {:induction false} SortedSplitsByPriority(r: seq<TodoItem>)
    requires Sorted(r)
    ensures Regroup(r) == r
    decreases |r|
  {
    if r != [] {
      var r' := r[..|r| - 1];
      var x := r[|r| - 1];
      assert r == r' + [x];
      assert Sorted(r') by {
        forall i, j | 0 <= i < j < |r'| ensures Rank(r'[i].priority) <= Rank(r'[j].priority) {
          assert r[i] == r'[i] && r[j] == r'[j];
        }
      }
      SortedSplitsByPriority(r');
      forall i | 0 <= i < |r'| ensures Rank(r'[i].priority) <= Rank(x.priority) {
        assert r[i] == r'[i];
      }
      SplitsByPriorityAppend(r', x);
    }
  }

  /** The induction step of `SortedSplitsByPriority`: appending an item that
      ranks no higher than anything before it keeps the grouping. */
  lemma {:induction false} SplitsByPriorityAppend(r: seq<TodoItem>, x: TodoItem)
    requires Regroup(r) == r
    requires forall i :: 0 <= i < |r| ==> Rank(r[i].priority) <= Rank(x.priority)
    ensures Regroup(r + [x]) == r + [x]
  {
    WithPriorityLast(r, x, High);
    WithPriorityLast(r, x, Medium);
    WithPriorityLast(r, x, Low);
    if x.priority != Low {
      WithPriorityNone(r, Low);
    }
    if x.priority == High {
      WithPriorityNone(r, Medium);
    }
    AppendToGroups(WithPriority(r, High), WithPriority(r, Medium), WithPriority(r, Low), x);
  }

  /** Appending `x` to its own group of three consecutive groups is appending
      it to the whole, when every later group is empty. */
  lemma {:induction false} AppendToGroups(h: seq<TodoItem>, m: seq<TodoItem>, l: seq<TodoItem>, x: TodoItem)
    requires x.priority != Low ==> l == []
    requires x.priority == High ==> m == []
    ensures (h + (if x.priority == High then [x] else [])) + (m + (if x.priority == Medium then [x] else []))
      + (l + (if x.priority == Low then [x] else [])) == h + m + l + [x]
  {
    if x.priority == High {
      assert (h + [x]) + (m + []) + (l + []) == h + [x];
    } else if x.priority == Medium {
      assert (h + []) + (m + [x]) + (l + []) == h + m + [x];
    } else {
      assert (h + []) + (m + []) + (l + [x]) == h + m + l + [x];
    }
  }

  /** The `p` subsequence of a list with one more item at the end. */
  lemma {:induction false} WithPriorityLast(r: seq<TodoItem>, x: TodoItem, p: Priority)
    ensures WithPriority(r + [x], p) == WithPriority(r, p) + (if x.priority == p then [x] else [])
  {
    assert (r + [x])[..|r|] == r;
  }

  /** The sort's result is the only sorted list that keeps every priority's
      items in their input order. */
  lemma {:induction false} SortUnique(s: seq<TodoItem>, r: seq<TodoItem>)
    requires Sorted(r)
    requires forall p :: WithPriority(r, p) == WithPriority(s, p)
    ensures r == SortByPriority(s)
  {
    SortSorted(s);
    SortedSplitsByPriority(r);
    SortedSplitsByPriority(SortByPriority(s));
    SortStable(s, High);
    SortStable(s, Medium);
    SortStable(s, Low);
  }

  /** Sorting an already sorted list changes nothing. */
  lemma {:induction false} SortKeepsSorted(s: seq<TodoItem>)
    requires Sorted(s)
    ensures SortByPriority(s) == s
  {
    SortUnique(s, s);
  }

  /** Two items swap exactly when the comparator puts the second first; one
      item stays where it is. */
  lemma {:induction false} SortPair(x: TodoItem, y: TodoItem)
    ensures SortByPriority([x]) == [x]
    ensures SortByPriority([x, y]) == if Compare(x, y) > 0 then [y, x] else [x, y]
  {
    assert [x][..0] == [];
    assert [x, y][..1] == [x];
    assert InsertLast([], y) == [y];
  }

  /** Sorting does not change the remaining count. */
  lemma {:induction false} SortKeepsRemaining(s: seq<TodoItem>)
    ensures Remaining(SortByPriority(s)) == Remaining(s)
    decreases |s|
  {
    if s != [] {
      var s' := s[..|s| - 1];
      SortKeepsRemaining(s');
      InsertLastRemaining(SortByPriority(s'), s[|s| - 1]);
    }
  }

  /** Inserting adds `x`'s own count to the remaining count. */
  lemma {:induction false} InsertLastRemaining(t: seq<TodoItem>, x: TodoItem)
    ensures Remaining(InsertLast(t, x)) == Remaining(t) + Remaining([x])
    decreases |t|
  {
    if t != [] && Compare(t[|t| - 1], x) > 0 {
      var t' := t[..|t| - 1];
      InsertLastRemaining(t', x);
      RemainingAppend(InsertLast(t', x), [t[|t| - 1]]);
      RemainingAppend(t', [t[|t| - 1]]);
      assert t == t' + [t[|t| - 1]];
    } else {
      RemainingAppend(t, [x]);
    }
  }

  /** Where insertion stops: when every item of `t[j..]` is put after `x` by
      the comparator and `t[j - 1]` (if any) is not, `x` goes in at position `j`. */
  lemma {:induction false} InsertLastAt(t: seq<TodoItem>, j: nat, x: TodoItem)
    requires j <= |t|
    requires j == 0 || Compare(t[j - 1], x) <= 0
    requires forall k :: j <= k < |t| ==> Compare(t[k], x) > 0
    ensures InsertLast(t, x) == t[..j] + [x] + t[j..]
    decreases |t|
  {
    if |t| == j {
      assert t[..j] == t && t[j..] == [];
    } else {
      var t', last := t[..|t| - 1], t[|t| - 1];
      assert Compare(last, x) > 0;
      assert InsertLast(t, x) == InsertLast(t', x) + [last];
      InsertLastAt(t', j, x);
      calc {
        InsertLast(t, x);
        t'[..j] + [x] + t'[j..] + [last];
        { assert t'[..j] == t[..j]; assert t'[j..] + [last] == t[j..]; }
        t[..j] + [x] + t[j..];
      }
    }
  }

  /** The inner loop of insertion sort: shifts one place right every item at
      the end of `a[..i]` that the comparator puts after `x`, and returns the
      position of the gap this leaves. */
  method ShiftPast(a: array<TodoItem>, i: nat, x: TodoItem) returns (j: nat)
    requires i < a.Length
    modifies a
    ensures j <= i
    ensures forall k :: 0 <= k < j ==> a[k] == old(a[k])
    ensures forall k :: j < k <= i ==> a[k] == old(a[k - 1])
    ensures forall k :: i < k < a.Length ==> a[k] == old(a[k])
    ensures forall k :: j <= k < i ==> Compare(old(a[k]), x) > 0
    ensures j == 0 || Compare(old(a[j - 1]), x) <= 0
  {
    j := i;
    while j > 0 && Compare(a[j - 1], x) > 0
      invariant j <= i
      invariant forall k :: 0 <= k < j ==> a[k] == old(a[k])
      invariant forall k :: j < k <= i ==> a[k] == old(a[k - 1])
      invariant forall k :: i < k < a.Length ==> a[k] == old(a[k])
      invariant forall k :: j <= k < i ==> Compare(old(a[k]), x) > 0
    {
      a[j] := a[j - 1];
      j := j - 1;
    }
  }

  /** One step of insertion sort: `a[..i + 1]` becomes `a[..i]` with the old
      `a[i]` inserted, and the rest of the array is untouched. */
  method InsertIntoPrefix(a: array<TodoItem>, i: nat)
    requires i < a.Length
    modifies a
    ensures a[..i + 1] == InsertLast(old(a[..i]), old(a[i]))
    ensures a[i + 1..] == old(a[i + 1..])
  {
    ghost var t := a[..i];
    var x := a[i];
    var j := ShiftPast(a, i, x);
    a[j] := x;
    InsertLastAt(t, j, x);
    ghost var inserted := t[..j] + [x] + t[j..];
    forall k | 0 <= k <= i ensures a[k] == inserted[k] {
      if k > j {
        assert inserted[k] == t[k - 1];
      }
    }
    assert a[..i + 1] == inserted;
    assert a[i + 1..] == old(a[i + 1..]);
  }

  /** `sortTodos(todos)`: sorts the array in place, by insertion sort with the
      priority comparator. */
  method SortTodos(a: array<TodoItem>)
    modifies a
    ensures a[..] == SortByPriority(old(a[..]))
  {
    ghost var s := a[..];
    var i := 0;
    while i < a.Length
      invariant 0 <= i <= a.Length
      invariant a[..i] == SortByPriority(s[..i])
      invariant a[i..] == s[i..]
    {
      assert s[..i + 1][..i] == s[..i];
      InsertIntoPrefix(a, i);
      i := i + 1;
    }
    assert a[..] == a[..a.Length];
    assert s == s[..a.Length];
  }
}
