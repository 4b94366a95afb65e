/** The to-do store: items ordered with unfinished ones first and, within the
    same completion state, the more urgent ones first. */
module Todos {
  import opened Sorting
  import opened Lists

  /** Priority 0 is normal, 1 high and 2 urgent; `completed` is a C truth
      value, so any non-zero number means done. */
  datatype TodoItem = TodoItem(description: string, priority: int, completed: int)

  type TodoList = List<TodoItem>

  datatype Option<T> = None | Some(value: T)

  const InitialCapacity: int := 50

  const Normal: int := 0
  const High: int := 1
  const Urgent: int := 2

  // ---------------------------------------------------------------------------
  // Order

  /** `a` belongs strictly before `b`: less completed, or equally completed and more urgent. */
  predicate RanksBefore(a: TodoItem, b: TodoItem) {
    a.completed < b.completed || (a.completed == b.completed && a.priority > b.priority)
  }

  /** `compare_todos`: negative, zero or positive as `a` belongs before, level with, or after `b`. */
  function CompareTodos(a: TodoItem, b: TodoItem): (r: int)
    ensures r < 0 <==> RanksBefore(a, b)
    ensures r > 0 <==> RanksBefore(b, a)
    ensures r == 0 <==> a.completed == b.completed && a.priority == b.priority
  {
    if a.completed != b.completed then a.completed - b.completed else b.priority - a.priority
  }

  /** The store's comparator. */
  predicate RanksNoLater(a: TodoItem, b: TodoItem) {
    CompareTodos(a, b) <= 0
  }

  /** The order `sort_todos` establishes. */
  predicate InTodoOrder(s: seq<TodoItem>) {
    forall i, j | 0 <= i < j < |s| :: CompareTodos(s[i], s[j]) <= 0
  }

  lemma RanksNoLaterIsTotalPreorder()
    ensures TotalPreorder(RanksNoLater)
  {
  }

  lemma InTodoOrderIsSorted(s: seq<TodoItem>)
    ensures InTodoOrder(s) <==> SortedBy(RanksNoLater, s)
  {
  }

  /** Read field by field, the order is: completion flag ascending, then
      priority descending among equally completed items. With 0/1 flags that
      puts every unfinished item before every finished one. */
  lemma TodoOrderByFields(s: seq<TodoItem>)
    ensures InTodoOrder(s) <==> forall i, j | 0 <= i < j < |s| ::
      s[i].completed < s[j].completed || (s[i].completed == s[j].completed && s[i].priority >= s[j].priority)
    ensures InTodoOrder(s) && (forall i | 0 <= i < |s| :: s[i].completed in {0, 1}) ==>
      forall i, j | 0 <= i < j < |s| :: s[j].completed == 0 ==> s[i].completed == 0
  {
  }

  // ---------------------------------------------------------------------------
  // Mutation

  function InitTodos(): (l: TodoList)
    ensures l.items == [] && l.capacity == InitialCapacity
    ensures l.Valid()
  {
    List([], InitialCapacity)
  }

  function SortTodos(s: seq<TodoItem>): (r: seq<TodoItem>)
    ensures multiset(r) == multiset(s)
    ensures InTodoOrder(r)
  {
    RanksNoLaterIsTotalPreorder();
    Sort(RanksNoLater, s)
  }

  /** Inserts and re-sorts; the buffer doubles first if it is full. */
  function AddTodo(l: TodoList, t: TodoItem): (r: TodoList)
    ensures |r.items| == |l.items| + 1
    ensures multiset(r.items) == multiset(l.items) + multiset{t}
    ensures InTodoOrder(r.items)
    ensures r.capacity == if |l.items| >= l.capacity then 2 * l.capacity else l.capacity
    ensures l.Valid() ==> r.Valid()
  {
    RanksNoLaterIsTotalPreorder();
    Add(RanksNoLater, l, t)
  }

  /** Bounds-checked compaction that keeps the relative order of the rest. */
  method DeleteTodo(l: TodoList, index: int) returns (r: TodoList, ok: bool)
    ensures ok <==> 0 <= index < |l.items|
    ensures !ok ==> r == l
    ensures ok ==> |r.items| == |l.items| - 1
    ensures ok ==> forall k :: 0 <= k < index ==> r.items[k] == l.items[k]
    ensures ok ==> forall k :: index <= k < |r.items| ==> r.items[k] == l.items[k + 1]
    ensures ok ==> multiset(r.items) == multiset(l.items) - multiset{l.items[index]}
    ensures InTodoOrder(l.items) ==> InTodoOrder(r.items)
    ensures l.Valid() ==> r.Valid()
  {
    r, ok := Delete(l, index);
    if ok {
      assert l.items == l.items[..index] + [l.items[index]] + l.items[index + 1..];
      if InTodoOrder(l.items) {
        InTodoOrderIsSorted(l.items);
        SortedRemove(RanksNoLater, l.items, index);
        InTodoOrderIsSorted(r.items);
      }
    }
  }

  /** Bounds-checked overwrite followed by a re-sort. */
  function EditTodo(l: TodoList, index: int, t: TodoItem): (r: (TodoList, bool))
    ensures r.1 <==> 0 <= index < |l.items|
    ensures !r.1 ==> r.0 == l
    ensures r.1 ==> |r.0.items| == |l.items|
    ensures r.1 ==> multiset(r.0.items) == multiset(l.items) - multiset{l.items[index]} + multiset{t}
    ensures r.1 ==> InTodoOrder(r.0.items)
    ensures r.0.capacity == l.capacity
  {
    RanksNoLaterIsTotalPreorder();
    Edit(RanksNoLater, l, index, t)
  }

  /** C's logical negation of a truth value. */
  function Not(flag: int): (r: int)
    ensures r in {0, 1}
    ensures r == 1 <==> flag == 0
  {
    if flag == 0 then 1 else 0
  }

  /** Flips the completion flag of the item at `index` in place. The list is
      not re-sorted. An index outside the list changes nothing. */
  function ToggleTodoCompletion(l: TodoList, index: int): (r: TodoList)
    ensures |r.items| == |l.items| && r.capacity == l.capacity
    ensures forall k | 0 <= k < |l.items| && k != index :: r.items[k] == l.items[k]
    ensures 0 <= index < |l.items| ==>
      && r.items[index].description == l.items[index].description
      && r.items[index].priority == l.items[index].priority
      && r.items[index].completed == Not(l.items[index].completed)
    ensures !(0 <= index < |l.items|) ==> r == l
  {
    if 0 <= index < |l.items| then
      var t := l.items[index];
      l.(items := l.items[index := t.(completed := Not(t.completed))])
    else l
  }

  /** Toggling the same item twice restores a list whose flags are 0 or 1. */
  lemma ToggleTwiceRestores(l: TodoList, index: int)
    requires forall k | 0 <= k < |l.items| :: l.items[k].completed in {0, 1}
    ensures ToggleTodoCompletion(ToggleTodoCompletion(l, index), index) == l
  {
    if 0 <= index < |l.items| {
      var r := ToggleTodoCompletion(ToggleTodoCompletion(l, index), index);
      assert r.items == l.items;
    }
  }

  /** Because toggling does not re-sort, it can leave a finished item in front
      of an unfinished one. */
  lemma ToggleCanBreakOrder()
    ensures var l := List([TodoItem("a", Normal, 0), TodoItem("b", Normal, 0)], InitialCapacity);
      InTodoOrder(l.items) && !InTodoOrder(ToggleTodoCompletion(l, 0).items)
  {
    var l := List([TodoItem("a", Normal, 0), TodoItem("b", Normal, 0)], InitialCapacity);
    var r := ToggleTodoCompletion(l, 0);
    assert CompareTodos(r.items[0], r.items[1]) > 0;
  }

  // ---------------------------------------------------------------------------
  // New items from the add dialog

  /** The typed priority, clamped into normal..urgent. */
  function ClampPriority(p: int): (r: int)
    ensures Normal <= r <= Urgent
    ensures Normal <= p <= Urgent ==> r == p
    ensures p < Normal ==> r == Normal
    ensures p > Urgent ==> r == Urgent
  {
    if p < 0 then 0 else if p > 2 then 2 else p
  }

  /** What the add dialog files: nothing when the description was left
      empty, otherwise the typed description with the clamped priority, not
      yet completed. */
  function NewTodo(description: string, typedPriority: int): (t: Option<TodoItem>)
    ensures t.None? <==> description == ""
    ensures t.Some? ==> t.value.description == description && t.value.completed == 0
    ensures t.Some? ==> Normal <= t.value.priority <= Urgent
    ensures t.Some? && Normal <= typedPriority <= Urgent ==> t.value.priority == typedPriority
    ensures t.Some? ==> t.value.priority == ClampPriority(typedPriority)
  {
    if description == "" then None else Some(TodoItem(description, ClampPriority(typedPriority), 0))
  }
}
