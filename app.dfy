/**
 The App component's state and its event handlers. Each `useState` pair
 becomes a field; each setter call becomes an assignment to that field.
 */
module TodoApp {
  import opened Todos
  import opened Views

  class App {
    /** The draft text of the add form. */
    var text: string
    /** The records, newest first. */
    var todos: seq<Todo>
    /** The selected view. */
    var filter: Filter

    /** The initial state: empty draft, no records, the `all` view. */
    constructor ()
      ensures text == "" && todos == [] && filter == All
    {
      text := "";
      todos := [];
      filter := All;
    }

    /**
     handleOnSubmit. `now` stands for `new Date().getTime()`. An empty draft
     changes nothing; otherwise a fresh record is prepended and the draft cleared.
     */
    method HandleOnSubmit(now: int)
      modifies this
      ensures filter == old(filter)
      ensures old(text) == "" ==> text == old(text) && todos == old(todos)
      ensures old(text) != "" ==>
        |todos| == |old(todos)| + 1 &&
        todos[0] == Todo(old(text), now, false, false) &&
        todos[1..] == old(todos) &&
        text == ""
    {
      if text == "" {
        return;
      }
      var newTodo := Todo(text, now, false, false);
      todos := [newTodo] + todos;
      text := "";
    }

    /** handleOnEdit: the records with this id get the new text. */
    method HandleOnEdit(id: int, value: string)
      modifies this
      ensures todos == OnEdit(old(todos), id, value)
      ensures text == old(text) && filter == old(filter)
    {
      var newTodos := MapTodos(todos, id, SetValue(value));
      todos := newTodos;
    }

    /** handleOnCheck: the records with this id get `checked := !checked`. */
    method HandleOnCheck(id: int, checked: bool)
      modifies this
      ensures todos == OnCheck(old(todos), id, checked)
      ensures text == old(text) && filter == old(filter)
    {
      var newTodos := MapTodos(todos, id, SetChecked(!checked));
      todos := newTodos;
    }

    /** handleOnRemove: the records with this id get `removed := !removed`. */
    method HandleOnRemove(id: int, removed: bool)
      modifies this
      ensures todos == OnRemove(old(todos), id, removed)
      ensures text == old(text) && filter == old(filter)
    {
      var newTodos := MapTodos(todos, id, SetRemoved(!removed));
      todos := newTodos;
    }

    /** handleOnEmpty: the soft-deleted records are dropped for good. */
    method HandleOnEmpty()
      modifies this
      ensures todos == Purged(old(todos))
      ensures forall t :: t in todos ==> !t.removed
      ensures old(EmptyDisabled(todos)) ==> todos == old(todos)
      ensures text == old(text) && filter == old(filter)
    {
      PurgedSpec(todos);
      PurgedUnchangedIff(todos);
      todos := Purged(todos);
    }

    /** The text input's onChange: the draft becomes what was typed. */
    method HandleOnChangeText(value: string)
      modifies this
      ensures text == value
      ensures todos == old(todos) && filter == old(filter)
    {
      text := value;
    }

    /** The selector's onChange: only the view changes. */
    method HandleOnChangeFilter(f: Filter)
      modifies this
      ensures filter == f
      ensures text == old(text) && todos == old(todos)
    {
      filter := f;
    }

    /** filteredTodos: the records the selected view shows, in list order. */
    function FilteredTodos(): (r: seq<Todo>)
      reads this
      ensures IsSubsequence(r, todos)
      ensures forall t :: t in r <==> t in todos && Shows(filter, t)
      ensures forall t :: multiset(r)[t] == if Shows(filter, t) then multiset(todos)[t] else 0
    {
      VisibleIsSubsequence(todos, filter);
      VisibleComplete(todos, filter);
      VisibleCounts(todos, filter);
      Visible(todos, filter)
    }

    /** The empty-trash button (shown only in the removed view) is disabled exactly when the trash is empty. */
    function EmptyButtonDisabled(): (r: bool)
      reads this
      ensures r <==> forall t :: t in todos ==> !t.removed
    {
      EmptyDisabled(todos)
    }
  }

  /** A session: submit with an empty draft, type a task, submit it, check it, then view the checked tasks. */
  method Scenario() returns (visible: seq<Todo>)
    ensures visible == [Todo("buy milk", 1000, true, false)]
  {
    var app := new App();
    app.HandleOnSubmit(1);
    assert app.todos == [];
    app.HandleOnChangeText("buy milk");
    app.HandleOnSubmit(1000);
    assert app.todos == [Todo("buy milk", 1000, false, false)] && app.text == "";
    app.HandleOnCheck(1000, false);
    assert app.todos == [Todo("buy milk", 1000, true, false)];
    app.HandleOnChangeFilter(Checked);
    assert app.todos[1..] == [];
    visible := app.FilteredTodos();
  }
}
