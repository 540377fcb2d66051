/**
 * The AddTodo component: a text field and a submit action that hands the
 * trimmed text to its `onAdd` callback, and the App component's wiring of
 * that callback to `addTodo`.
 */
module AddTodoForm {
  import opened TrimString
  import Todos
  import Stats

  datatype Option<T> = None | Some(value: T)

  /** The component's one piece of state: the current contents of the input field. */
  class AddTodo {
    var text: string

    /** The field starts empty. */
    constructor ()
      ensures text == ""
    {
      text := "";
    }

    /** The input's `onChangeText`: whatever was typed replaces the field. */
    method SetText(typed: string)
      modifies this
      ensures text == typed
    {
      text := typed;
    }

    /**
     * handleSubmit. A field that is blank after trimming is ignored: nothing is
     * handed on and the field keeps its contents. Otherwise the trimmed text is
     * handed on once (the result is the single `onAdd` argument) and the field
     * is cleared.
     */
    method HandleSubmit() returns (added: Option<string>)
      modifies this
      ensures Trim(old(text)) == [] ==> added == None && text == old(text)
      ensures Trim(old(text)) != [] ==> added == Some(Trim(old(text))) && text == ""
      ensures added.Some? ==> added.value != [] && IsTrimmed(added.value)
      ensures added.Some? ==> exists lo :: StripsTo(old(text), lo, added.value)
    {
      if Trim(text) != [] {
        added := Some(Trim(text));
        text := "";
      } else {
        added := None;
      }
    }
  }

  /**
   * The App component renders `<AddTodo onAdd={addTodo} />`: a submit either
   * leaves the list as it is, or prepends one new, not yet completed record
   * whose text is the trimmed field, non-empty and without white space at
   * either end.
   */
  method SubmitAndAdd(form: AddTodo, todos: seq<Todos.Todo>, id: int) returns (next: seq<Todos.Todo>)
    modifies form
    ensures Trim(old(form.text)) == [] ==> next == todos && form.text == old(form.text)
    ensures Trim(old(form.text)) != [] ==>
              next == Todos.AddTodo(todos, id, Trim(old(form.text))) && form.text == ""
    ensures next != todos ==>
              next[1..] == todos && next[0].id == id && !next[0].completed &&
              next[0].text != [] && IsTrimmed(next[0].text)
  {
    var added := form.HandleSubmit();
    match added {
      case None => next := todos;
      case Some(t) => next := Todos.AddTodo(todos, id, t);
    }
  }

  /** The record a successful submit adds has non-empty, trimmed text and starts pending. */
  lemma SubmittedRecordIsWellFormed(typed: string, todos: seq<Todos.Todo>, id: int)
    requires Trim(typed) != []
    ensures var next := Todos.AddTodo(todos, id, Trim(typed));
            next[0].text != [] && IsTrimmed(next[0].text) && !next[0].completed &&
            Trim(next[0].text) == next[0].text
  {
    TrimIdempotent(typed);
  }

  /** A blank or all-space field adds nothing. */
  lemma BlankSubmitIgnored()
    ensures Trim("") == [] && Trim("   ") == []
  {
    assert AllWhitespace("   ");
  }

  /** Starting empty, submitting "Buy milk" gives one pending record and counts 1, 0, 1. */
  lemma BuyMilkScenario(id: int)
    ensures var next := Todos.AddTodo([], id, Trim("Buy milk"));
            next == [Todos.Todo(id, "Buy milk", false)] &&
            Stats.ComputeCounts(next) == Stats.Counts(1, 0, 1)
  {
    var s := "Buy milk";
    assert StripsTo(s, 0, s);
    TrimUnique(s, 0, s);
    Stats.CountsAfterAdd([], id, s);
  }
}
