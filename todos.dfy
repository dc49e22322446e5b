/**
 The to-do record and the three row handlers of the App component
 (edit, check, remove). Each handler maps over the list and assigns one
 field of every record whose id matches; the record update
 `t.(value := v)` stands for the source's in-place `todo.value = v`.
 */
module Todos {

  /** A to-do record. In the source `id` is a millisecond timestamp. */
  datatype Todo = Todo(value: string, id: int, checked: bool, removed: bool)

  /** The field assignment a row handler performs on a matching record. */
  datatype Change = SetValue(value: string) | SetChecked(checked: bool) | SetRemoved(removed: bool)

  /** Performs the assignment `c` on `t`: one field changes, the others stay. */
  function Apply(t: Todo, c: Change): (r: Todo)
    ensures r.id == t.id
    ensures r.value == (if c.SetValue? then c.value else t.value)
    ensures r.checked == (if c.SetChecked? then c.checked else t.checked)
    ensures r.removed == (if c.SetRemoved? then c.removed else t.removed)
  {
    match c
    case SetValue(v) => t.(value := v)
    case SetChecked(b) => t.(checked := b)
    case SetRemoved(b) => t.(removed := b)
  }

  /** The callback handed to `map`: touches a record only when its id matches. */
  function Touch(t: Todo, id: int, c: Change): (r: Todo)
    ensures r.id == t.id
    ensures t.id == id ==> r == Apply(t, c)
    ensures t.id != id ==> r == t
  {
    if t.id == id then Apply(t, c) else t
  }

  /** `s.map(Touch)`: the list after applying `c` to every record with id `id`. */
  function Updated(s: seq<Todo>, id: int, c: Change): (r: seq<Todo>)
    ensures |r| == |s|
    ensures forall j :: 0 <= j < |s| ==> r[j].id == s[j].id
    ensures forall j :: 0 <= j < |s| && s[j].id == id ==> r[j] == Apply(s[j], c)
    ensures forall j :: 0 <= j < |s| && s[j].id != id ==> r[j] == s[j]
  {
    if s == [] then [] else [Touch(s[0], id, c)] + Updated(s[1..], id, c)
  }

  /** The loop that `todos.map(...)` runs, building the new list front to back. */
  method MapTodos(todos: seq<Todo>, id: int, c: Change) returns (r: seq<Todo>)
    ensures r == Updated(todos, id, c)
  {
    r := [];
    var i := 0;
    while i < |todos|
      invariant 0 <= i <= |todos|
      invariant |r| == i
      invariant forall j :: 0 <= j < i ==> r[j] == Touch(todos[j], id, c)
    {
      r := r + [Touch(todos[i], id, c)];
      i := i + 1;
    }
  }

  /** handleOnEdit(id, value): every record with this id gets the new text. */
  function OnEdit(s: seq<Todo>, id: int, value: string): (r: seq<Todo>)
    ensures |r| == |s|
    ensures forall j :: 0 <= j < |s| ==>
      r[j].id == s[j].id && r[j].checked == s[j].checked && r[j].removed == s[j].removed &&
      r[j].value == (if s[j].id == id then value else s[j].value)
  {
    Updated(s, id, SetValue(value))
  }

  /** handleOnCheck(id, checked): every record with this id gets `checked := !checked`. */
  function OnCheck(s: seq<Todo>, id: int, checked: bool): (r: seq<Todo>)
    ensures |r| == |s|
    ensures forall j :: 0 <= j < |s| ==>
      r[j].id == s[j].id && r[j].value == s[j].value && r[j].removed == s[j].removed &&
      r[j].checked == (if s[j].id == id then !checked else s[j].checked)
  {
    Updated(s, id, SetChecked(!checked))
  }

  /** handleOnRemove(id, removed): every record with this id gets `removed := !removed`. */
  function OnRemove(s: seq<Todo>, id: int, removed: bool): (r: seq<Todo>)
    ensures |r| == |s|
    ensures forall j :: 0 <= j < |s| ==>
      r[j].id == s[j].id && r[j].value == s[j].value && r[j].checked == s[j].checked &&
      r[j].removed == (if s[j].id == id then !removed else s[j].removed)
  {
    Updated(s, id, SetRemoved(!removed))
  }

  /** No two records share an id. The source does not guarantee this. */
  predicate UniqueIds(s: seq<Todo>)
  {
    forall i, j :: 0 <= i < j < |s| ==> s[i].id != s[j].id
  }

  /** Two assignments to the same field. */
  predicate SameField(c1: Change, c2: Change)
  {
    (c1.SetValue? && c2.SetValue?) || (c1.SetChecked? && c2.SetChecked?) || (c1.SetRemoved? && c2.SetRemoved?)
  }

  /** A handler given an id no record carries leaves the list identical. */
  lemma UpdatedUnknownId(s: seq<Todo>, id: int, c: Change)
    requires forall t :: t in s ==> t.id != id
    ensures Updated(s, id, c) == s
  {
    var r := Updated(s, id, c);
    forall j | 0 <= j < |s| ensures r[j] == s[j] {
      assert s[j] in s;
    }
  }

  /** The list is left identical exactly when every matching record already holds the assigned value. */
  lemma UpdatedFixedIff(s: seq<Todo>, id: int, c: Change)
    ensures Updated(s, id, c) == s <==> forall j :: 0 <= j < |s| && s[j].id == id ==> Apply(s[j], c) == s[j]
  {
    var r := Updated(s, id, c);
    if forall j :: 0 <= j < |s| && s[j].id == id ==> Apply(s[j], c) == s[j] {
      forall j | 0 <= j < |s| ensures r[j] == s[j] {
      }
    }
    if r == s {
      forall j | 0 <= j < |s| && s[j].id == id ensures Apply(s[j], c) == s[j] {
        assert r[j] == Apply(s[j], c);
      }
    }
  }

  /** Of two assignments to the same field through the same id, the later one wins. */
  lemma UpdatedTwice(s: seq<Todo>, id: int, c1: Change, c2: Change)
    requires SameField(c1, c2)
    ensures Updated(Updated(s, id, c1), id, c2) == Updated(s, id, c2)
  {
    var r1 := Updated(s, id, c1);
    var r2 := Updated(r1, id, c2);
    var r := Updated(s, id, c2);
    forall j | 0 <= j < |s| ensures r2[j] == r[j] {
    }
  }

  /**
   The row's checkbox calls handleOnCheck with the record's current
   `checked`. Clicking the row at index k twice restores the list
   exactly when every record sharing its id had the same flag.
   */
  lemma CheckRowTwice(s: seq<Todo>, k: int)
    requires 0 <= k < |s|
    ensures var s1 := OnCheck(s, s[k].id, s[k].checked);
            OnCheck(s1, s1[k].id, s1[k].checked) == s
            <==> forall j :: 0 <= j < |s| && s[j].id == s[k].id ==> s[j].checked == s[k].checked
  {
    var s1 := OnCheck(s, s[k].id, s[k].checked);
    assert s1[k].id == s[k].id && s1[k].checked == !s[k].checked;
    UpdatedTwice(s, s[k].id, SetChecked(!s[k].checked), SetChecked(!s1[k].checked));
    UpdatedFixedIff(s, s[k].id, SetChecked(s[k].checked));
  }

  /** The same for the remove/restore button which passes the record's current `removed`. */
  lemma RemoveRowTwice(s: seq<Todo>, k: int)
    requires 0 <= k < |s|
    ensures var s1 := OnRemove(s, s[k].id, s[k].removed);
            OnRemove(s1, s1[k].id, s1[k].removed) == s
            <==> forall j :: 0 <= j < |s| && s[j].id == s[k].id ==> s[j].removed == s[k].removed
  {
    var s1 := OnRemove(s, s[k].id, s[k].removed);
    assert s1[k].id == s[k].id && s1[k].removed == !s[k].removed;
    UpdatedTwice(s, s[k].id, SetRemoved(!s[k].removed), SetRemoved(!s1[k].removed));
    UpdatedFixedIff(s, s[k].id, SetRemoved(s[k].removed));
  }

  /** With unique ids, checking a row twice is an involution on the whole list. */
  lemma CheckRowTwiceUnique(s: seq<Todo>, k: int)
    requires UniqueIds(s) && 0 <= k < |s|
    ensures var s1 := OnCheck(s, s[k].id, s[k].checked);
            OnCheck(s1, s1[k].id, s1[k].checked) == s
  {
    CheckRowTwice(s, k);
    assert forall j :: 0 <= j < |s| && s[j].id == s[k].id ==> j == k;
  }

  /** With unique ids, removing and restoring a row is an involution on the whole list. */
  lemma RemoveRowTwiceUnique(s: seq<Todo>, k: int)
    requires UniqueIds(s) && 0 <= k < |s|
    ensures var s1 := OnRemove(s, s[k].id, s[k].removed);
            OnRemove(s1, s1[k].id, s1[k].removed) == s
  {
    RemoveRowTwice(s, k);
    assert forall j :: 0 <= j < |s| && s[j].id == s[k].id ==> j == k;
  }

  /** Two records created in the same millisecond: checking one of them twice does not restore the list. */
  lemma CheckRowTwiceCollision()
    ensures var s := [Todo("a", 7, false, false), Todo("b", 7, true, false)];
            var s1 := OnCheck(s, s[0].id, s[0].checked);
            OnCheck(s1, s1[0].id, s1[0].checked) != s
  {
    var s := [Todo("a", 7, false, false), Todo("b", 7, true, false)];
    CheckRowTwice(s, 0);
    assert s[1].id == s[0].id && s[1].checked != s[0].checked;
  }

  /** The row handlers keep ids, so they keep unique ids unique. */
  lemma UpdatedKeepsUniqueIds(s: seq<Todo>, id: int, c: Change)
    requires UniqueIds(s)
    ensures UniqueIds(Updated(s, id, c))
  {
  }

  /** Prepending a record whose id no record carries keeps ids unique. */
  lemma PrependKeepsUniqueIds(s: seq<Todo>, t: Todo)
    requires UniqueIds(s)
    requires forall u :: u in s ==> u.id != t.id
    ensures UniqueIds([t] + s)
  {
    var r := [t] + s;
    forall i, j | 0 <= i < j < |r| ensures r[i].id != r[j].id {
      if i == 0 {
        assert r[j] == s[j - 1];
        assert s[j - 1] in s;
      } else {
        assert r[i] == s[i - 1] && r[j] == s[j - 1];
      }
    }
  }
}
