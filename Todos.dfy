/**
 * The to-do list held by the App component and its three transitions:
 * add (prepend a new record), toggle (flip `completed` on every record with
 * a given id) and delete (drop every record with a given id). Each builds a
 * new list from the old one; nothing is updated in place.
 */
module Todos {

  /** One task record as the App component stores it. */
  datatype Todo = Todo(id: int, text: string, completed: bool)

  /** Some record in `todos` carries `id`. */
  predicate HasId(todos: seq<Todo>, id: int)
  {
    exists i :: 0 <= i < |todos| && todos[i].id == id
  }

  /** The number of records in `todos` that carry `id`. */
  function CountId(todos: seq<Todo>, id: int): nat
  {
    if todos == [] then 0
    else (if todos[0].id == id then 1 else 0) + CountId(todos[1..], id)
  }

  /** No two records share an id (relied on by the list key at components/TodoList.js:21, enforced by nothing). */
  ghost predicate DistinctIds(todos: seq<Todo>)
  {
    forall i, j :: 0 <= i < j < |todos| ==> todos[i].id != todos[j].id
  }

  /** `s` is obtained from `t` by dropping some records, keeping the order of the rest. */
  ghost predicate IsSubsequence(s: seq<Todo>, t: seq<Todo>)
    decreases |t|
  {
    s == [] ||
    (t != [] && ((s[0] == t[0] && IsSubsequence(s[1..], t[1..])) || IsSubsequence(s, t[1..])))
  }

  /** The tail of a list with distinct ids has distinct ids and lacks the head's id. */
  lemma DistinctTail(todos: seq<Todo>)
    requires DistinctIds(todos) && todos != []
    ensures DistinctIds(todos[1..]) && !HasId(todos[1..], todos[0].id)
  {
    var tail := todos[1..];
    forall i, j | 0 <= i < j < |tail| ensures tail[i].id != tail[j].id {
      assert tail[i] == todos[i + 1] && tail[j] == todos[j + 1];
    }
    forall i | 0 <= i < |tail| ensures tail[i].id != todos[0].id {
      assert tail[i] == todos[i + 1];
    }
  }

  /** An id absent from a list is absent from its tail. */
  lemma AbsentTail(todos: seq<Todo>, id: int)
    requires !HasId(todos, id) && todos != []
    ensures todos[0].id != id && !HasId(todos[1..], id)
  {
    forall i | 0 <= i < |todos[1..]| ensures todos[1..][i].id != id {
      assert todos[1..][i] == todos[i + 1];
    }
  }

  /** addTodo: the new record, not yet completed, goes in front of the old list. */
  function AddTodo(todos: seq<Todo>, id: int, text: string): (r: seq<Todo>)
    ensures |r| == |todos| + 1
    ensures r[0].id == id && r[0].text == text && !r[0].completed
    ensures r[1..] == todos
  {
    [Todo(id, text, false)] + todos
  }

  /** toggleTodo: a map that flips `completed` on each record whose id matches. */
  function ToggleTodo(todos: seq<Todo>, id: int): (r: seq<Todo>)
    ensures |r| == |todos|
    ensures forall i :: 0 <= i < |r| ==> r[i].id == todos[i].id && r[i].text == todos[i].text
    ensures forall i :: 0 <= i < |r| && todos[i].id == id ==> r[i].completed == !todos[i].completed
    ensures forall i :: 0 <= i < |r| && todos[i].id != id ==> r[i] == todos[i]
  {
    if todos == [] then []
    else
      var t := todos[0];
      [if t.id == id then t.(completed := !t.completed) else t] + ToggleTodo(todos[1..], id)
  }

  /** deleteTodo: a filter that keeps exactly the records whose id differs. */
  function DeleteTodo(todos: seq<Todo>, id: int): (r: seq<Todo>)
    ensures forall t :: multiset(r)[t] == if t.id == id then 0 else multiset(todos)[t]
    ensures IsSubsequence(r, todos)
    ensures |r| == |todos| - CountId(todos, id)
  {
    if todos == [] then []
    else
      assert todos == [todos[0]] + todos[1..];
      var rest := DeleteTodo(todos[1..], id);
      if todos[0].id == id then rest
      else
        assert ([todos[0]] + rest)[1..] == rest;
        assert multiset([todos[0]] + rest) == multiset{todos[0]} + multiset(rest);
        [todos[0]] + rest
  }

  /** A record carrying `id` is counted, and a count of zero means no record carries it. */
  lemma {:induction false} CountIdZeroIffAbsent(todos: seq<Todo>, id: int)
    ensures CountId(todos, id) == 0 <==> !HasId(todos, id)
  {
    if todos != [] {
      CountIdZeroIffAbsent(todos[1..], id);
      if HasId(todos[1..], id) {
        var i :| 0 <= i < |todos[1..]| && todos[1..][i].id == id;
        assert todos[i + 1].id == id;
      }
      if HasId(todos, id) && todos[0].id != id {
        var i :| 0 <= i < |todos| && todos[i].id == id;
        assert todos[1..][i - 1].id == id;
      }
    }
  }

  /** With distinct ids a present id is carried by exactly one record. */
  lemma {:induction false} CountIdDistinct(todos: seq<Todo>, id: int)
    requires DistinctIds(todos)
    ensures CountId(todos, id) == if HasId(todos, id) then 1 else 0
  {
    CountIdZeroIffAbsent(todos, id);
    if todos != [] {
      DistinctTail(todos);
      CountIdDistinct(todos[1..], id);
      if todos[0].id != id && HasId(todos, id) {
        var i :| 0 <= i < |todos| && todos[i].id == id;
        assert todos[1..][i - 1].id == id;
      }
    }
  }

  /** Toggling twice with the same id gives back the original list. */
  lemma {:induction false} ToggleTwice(todos: seq<Todo>, id: int)
    ensures ToggleTodo(ToggleTodo(todos, id), id) == todos
  {
    if todos != [] {
      ToggleTwice(todos[1..], id);
      assert ToggleTodo(todos, id)[1..] == ToggleTodo(todos[1..], id);
    }
  }

  /** Toggling an id no record carries changes nothing. */
  lemma {:induction false} ToggleAbsent(todos: seq<Todo>, id: int)
    requires !HasId(todos, id)
    ensures ToggleTodo(todos, id) == todos
  {
    if todos != [] {
      AbsentTail(todos, id);
      ToggleAbsent(todos[1..], id);
    }
  }

  /** Toggling keeps the ids, so it keeps them distinct. */
  lemma TogglePreservesDistinct(todos: seq<Todo>, id: int)
    requires DistinctIds(todos)
    ensures DistinctIds(ToggleTodo(todos, id))
  {
  }

  /** Deleting an id no record carries changes nothing. */
  lemma {:induction false} DeleteAbsent(todos: seq<Todo>, id: int)
    requires !HasId(todos, id)
    ensures DeleteTodo(todos, id) == todos
  {
    if todos != [] {
      AbsentTail(todos, id);
      DeleteAbsent(todos[1..], id);
    }
  }

  /** After a delete no record carries the id. */
  lemma DeleteRemovesId(todos: seq<Todo>, id: int)
    ensures !HasId(DeleteTodo(todos, id), id)
  {
    var r := DeleteTodo(todos, id);
    forall i | 0 <= i < |r| ensures r[i].id != id {
      assert r[i] in multiset(r);
    }
  }

  /** Deleting twice with the same id is the same as deleting once. */
  lemma DeleteIdempotent(todos: seq<Todo>, id: int)
    ensures DeleteTodo(DeleteTodo(todos, id), id) == DeleteTodo(todos, id)
  {
    DeleteRemovesId(todos, id);
    DeleteAbsent(DeleteTodo(todos, id), id);
  }

  /** With distinct ids, deleting a present id shrinks the list by exactly one. */
  lemma DeleteShrinksByOne(todos: seq<Todo>, id: int)
    requires DistinctIds(todos) && HasId(todos, id)
    ensures |DeleteTodo(todos, id)| == |todos| - 1
  {
    CountIdDistinct(todos, id);
  }

  /** Delete works record by record: it commutes with concatenation, so order is kept. */
  lemma {:induction false} DeleteAppend(a: seq<Todo>, b: seq<Todo>, id: int)
    ensures DeleteTodo(a + b, id) == DeleteTodo(a, id) + DeleteTodo(b, id)
  {
    if a == [] {
      assert a + b == b;
    } else {
      assert (a + b)[0] == a[0];
      assert (a + b)[1..] == a[1..] + b;
      DeleteAppend(a[1..], b, id);
    }
  }

  /** Every record a delete keeps was in the list before. */
  lemma DeleteKeepsMembers(todos: seq<Todo>, id: int, j: int)
    requires 0 <= j < |DeleteTodo(todos, id)|
    ensures DeleteTodo(todos, id)[j] in todos
  {
    var r := DeleteTodo(todos, id);
    assert r[j] in multiset(r);
    assert r[j] in multiset(todos);
  }

  /** With distinct ids, no later record shares the first record's id. */
  lemma FirstIdNotInTail(todos: seq<Todo>, t: Todo)
    requires DistinctIds(todos) && todos != [] && t in todos[1..]
    ensures t.id != todos[0].id
  {
    var k :| 0 <= k < |todos[1..]| && todos[1..][k] == t;
    assert todos[k + 1] == t;
  }

  /** Deleting keeps the remaining records, so it keeps their ids distinct. */
  lemma {:induction false} DeletePreservesDistinct(todos: seq<Todo>, id: int)
    requires DistinctIds(todos)
    ensures DistinctIds(DeleteTodo(todos, id))
  {
    if todos != [] {
      var tail := todos[1..];
      DistinctTail(todos);
      DeletePreservesDistinct(tail, id);
      var rest := DeleteTodo(tail, id);
      if todos[0].id != id {
        forall j | 0 <= j < |rest| ensures rest[j].id != todos[0].id {
          DeleteKeepsMembers(tail, id, j);
          FirstIdNotInTail(todos, rest[j]);
        }
        var r := [todos[0]] + rest;
        forall i, j | 0 <= i < j < |r| ensures r[i].id != r[j].id {
          assert r[j] == rest[j - 1];
          if i > 0 {
            assert r[i] == rest[i - 1];
          }
        }
        assert DeleteTodo(todos, id) == r;
      }
    }
  }

  /** Adding a record whose id is not yet present, then deleting that id, gives back the list. */
  lemma AddThenDelete(todos: seq<Todo>, id: int, text: string)
    requires !HasId(todos, id)
    ensures DeleteTodo(AddTodo(todos, id, text), id) == todos
  {
    DeleteAbsent(todos, id);
  }

  /** Adding keeps ids distinct exactly when the new id is fresh. */
  lemma AddDistinctIff(todos: seq<Todo>, id: int, text: string)
    ensures DistinctIds(AddTodo(todos, id, text)) <==> DistinctIds(todos) && !HasId(todos, id)
  {
    var r := AddTodo(todos, id, text);
    if DistinctIds(r) {
      forall i, j | 0 <= i < j < |todos| ensures todos[i].id != todos[j].id {
        assert r[i + 1] == todos[i] && r[j + 1] == todos[j];
      }
      forall i | 0 <= i < |todos| ensures todos[i].id != id {
        assert r[i + 1] == todos[i];
      }
    }
    if DistinctIds(todos) && !HasId(todos, id) {
      forall i, j | 0 <= i < j < |r| ensures r[i].id != r[j].id {
        assert r[j] == todos[j - 1];
        if i > 0 {
          assert r[i] == todos[i - 1];
        }
      }
    }
  }

  /** Add, then toggle, then delete the same fresh id: the list is as before. */
  lemma AddToggleDelete(todos: seq<Todo>, id: int, text: string)
    requires !HasId(todos, id)
    ensures DeleteTodo(ToggleTodo(AddTodo(todos, id, text), id), id) == todos
  {
    var added := AddTodo(todos, id, text);
    ToggleAbsent(todos, id);
    assert ToggleTodo(added, id) == [added[0].(completed := true)] + todos;
    DeleteAbsent(todos, id);
  }
}
