/**
 * The counts the Stats component derives from the list: the total number of
 * records, how many are completed, and how many are still pending.
 */
module Stats {
  import opened Todos

  /** The three figures the Stats component shows. */
  datatype Counts = Counts(total: nat, completed: nat, pending: int)

  /** `todos.filter(todo => todo.completed).length`. */
  function CompletedCount(todos: seq<Todo>): (n: nat)
    ensures n <= |todos|
  {
    if todos == [] then 0
    else (if todos[0].completed then 1 else 0) + CompletedCount(todos[1..])
  }

  /** The positions of the completed records: an independent way to count them. */
  ghost function CompletedPositions(todos: seq<Todo>): set<int>
  {
    set i | 0 <= i < |todos| && todos[i].completed
  }

  /** total, completed and pending as the Stats component computes them. */
  function ComputeCounts(todos: seq<Todo>): (c: Counts)
    ensures c.total == |todos|
    ensures c.completed == |CompletedPositions(todos)|
    ensures c.completed + c.pending == c.total
    ensures 0 <= c.completed <= c.total && c.pending >= 0
  {
    CompletedCountIsPositionCount(todos);
    var total := |todos|;
    var completed := CompletedCount(todos);
    Counts(total, completed, total - completed)
  }

  /** Counting from the front agrees with appending one record at the back. */
  lemma {:induction false} CompletedCountSnoc(todos: seq<Todo>, t: Todo)
    ensures CompletedCount(todos + [t]) == CompletedCount(todos) + (if t.completed then 1 else 0)
  {
    if todos != [] {
      assert (todos + [t])[1..] == todos[1..] + [t];
      CompletedCountSnoc(todos[1..], t);
    } else {
      assert todos + [t] == [t];
    }
  }

  /** The filter-length count equals the number of completed positions. */
  lemma {:induction false} CompletedCountIsPositionCount(todos: seq<Todo>)
    ensures CompletedCount(todos) == |CompletedPositions(todos)|
  {
    if todos != [] {
      var n := |todos| - 1;
      var init := todos[..n];
      CompletedCountIsPositionCount(init);
      assert todos == init + [todos[n]];
      CompletedCountSnoc(init, todos[n]);
      var before := CompletedPositions(init);
      if todos[n].completed {
        assert CompletedPositions(todos) == before + {n};
        assert n !in before;
      } else {
        assert CompletedPositions(todos) == before;
      }
    }
  }

  /** An empty list shows zero for all three counts. */
  lemma EmptyCounts()
    ensures ComputeCounts([]) == Counts(0, 0, 0)
  {
  }

  /** Adding a todo raises total and pending by one and leaves completed alone. */
  lemma CountsAfterAdd(todos: seq<Todo>, id: int, text: string)
    ensures var before := ComputeCounts(todos);
            ComputeCounts(AddTodo(todos, id, text))
              == Counts(before.total + 1, before.completed, before.pending + 1)
  {
    assert AddTodo(todos, id, text)[1..] == todos;
  }

  /** With distinct ids, toggling the record at position k moves it between completed and pending. */
  lemma {:induction false} CompletedAfterToggle(todos: seq<Todo>, k: nat)
    requires DistinctIds(todos) && k < |todos|
    ensures CompletedCount(ToggleTodo(todos, todos[k].id))
              == CompletedCount(todos) + (if todos[k].completed then -1 else 1)
  {
    var id := todos[k].id;
    var tail := todos[1..];
    DistinctTail(todos);
    assert ToggleTodo(todos, id)[1..] == ToggleTodo(tail, id);
    if k == 0 {
      ToggleAbsent(tail, id);
    } else {
      assert tail[k - 1] == todos[k];
      CompletedAfterToggle(tail, k - 1);
    }
  }

  /** With distinct ids, toggling keeps total and shifts one record between completed and pending. */
  lemma CountsAfterToggle(todos: seq<Todo>, k: nat)
    requires DistinctIds(todos) && k < |todos|
    ensures var before := ComputeCounts(todos);
            var d := if todos[k].completed then -1 else 1;
            var after := ComputeCounts(ToggleTodo(todos, todos[k].id));
            after.total == before.total && after.completed == before.completed + d
            && after.pending == before.pending - d
  {
    CompletedAfterToggle(todos, k);
  }

  /** With distinct ids, deleting the record at position k takes one from total and one from its group. */
  lemma {:induction false} CompletedAfterDelete(todos: seq<Todo>, k: nat)
    requires DistinctIds(todos) && k < |todos|
    ensures CompletedCount(DeleteTodo(todos, todos[k].id))
              == CompletedCount(todos) - (if todos[k].completed then 1 else 0)
  {
    var id := todos[k].id;
    var tail := todos[1..];
    DistinctTail(todos);
    assert todos == [todos[0]] + tail;
    if k == 0 {
      DeleteAbsent(tail, id);
      assert DeleteTodo(todos, id) == tail;
    } else {
      assert tail[k - 1] == todos[k];
      assert todos[0].id != id;
      CompletedAfterDelete(tail, k - 1);
      var rest := DeleteTodo(tail, id);
      assert DeleteTodo(todos, id) == [todos[0]] + rest;
      assert ([todos[0]] + rest)[1..] == rest;
    }
  }

  /** With distinct ids, deleting a record lowers total by one and the count of its group by one. */
  lemma CountsAfterDelete(todos: seq<Todo>, k: nat)
    requires DistinctIds(todos) && k < |todos|
    ensures var before := ComputeCounts(todos);
            var c := if todos[k].completed then 1 else 0;
            var after := ComputeCounts(DeleteTodo(todos, todos[k].id));
            after.total == before.total - 1 && after.completed == before.completed - c
            && after.pending == before.pending - (1 - c)
  {
    CompletedAfterDelete(todos, k);
    CountIdDistinct(todos, todos[k].id);
  }
}
