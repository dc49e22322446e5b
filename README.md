# To-do list editor: a Dafny model of its state logic

This project models the state logic of the `App` component of a small React to-do list. The component holds three pieces of state:

- the draft text of the add form;
- an ordered list of to-do records, newest first;
- the selected view (`all`, `checked`, `unchecked` or `removed`).

Each record has a text `value`, an `id`, a `checked` flag ("done") and a `removed` flag ("in the trash").

The handlers are modelled as methods of the class `TodoApp.App`, whose fields are the three pieces of state:

- submit prepends a new record and clears the draft;
- edit, check and remove assign one field of every record whose id matches;
- empty drops every record in the trash.

The row handlers run `todos.map(...)`. That loop is the method `Todos.MapTodos`, proved equal to the function `Todos.Updated`. The view (`filteredTodos`), the purge of `handleOnEmpty` and the empty-trash button's `disabled` condition are pure functions over `seq<Todo>` in module `Views`.

Files:
- `todos.dfy` holds the record, the row handlers and the lemmas about them.
- `views.dfy` holds the filter table, the views, the purge and their lemmas.
- `app.dfy` holds the component's state class.

Two behaviours of the code shape the contracts:

- Ids are not unique. They come from the wall clock, so two records created in the same millisecond share an id. Every handler updates every matching record, as the code's `map` does.
- Check and remove do not flip a flag. They assign the negation of the flag the caller passes in. They flip only because the row passes the record's current flag. So "clicking twice restores the list" holds exactly when every record sharing the id agrees on that flag (`CheckRowTwice`, `RemoveRowTwice`). With unique ids it always holds. With colliding ids it can fail (`CheckRowTwiceCollision`).

## Model

| member | source | states |
|---|---|---|
| Todos.Apply | src/index.tsx:35-37 | the assignment a handler makes changes its own field only; id and the other fields stay |
| Todos.Touch | src/index.tsx:34-39 | the `map` callback keeps the id; it applies the assignment to a record whose id matches and returns any other record unchanged |
| Todos.Updated | src/index.tsx:34-39 | the mapped list has the same length; records with the id get the assignment; the others are unchanged; ids are kept |
| Todos.MapTodos | src/index.tsx:34-39 | the loop that builds the mapped list front to back yields exactly `Updated` |
| Todos.OnEdit | src/index.tsx:33-41 | editing keeps the length; matching records get the new value with all other fields unchanged; other records are unchanged |
| Todos.OnCheck | src/index.tsx:43-51 | matching records get `checked = !checked` (the argument's negation); nothing else changes |
| Todos.OnRemove | src/index.tsx:53-61 | matching records get `removed = !removed` (the argument's negation); nothing else changes |
| Todos.UpdatedUnknownId | src/index.tsx:33-61 | a handler called with an id no record carries leaves the list identical |
| Todos.UpdatedFixedIff | src/index.tsx:33-61 | a handler leaves the list identical if and only if every matching record already holds the assigned value |
| Todos.UpdatedTwice | src/index.tsx:43-61 | two assignments to the same field through the same id: the later one wins |
| Todos.CheckRowTwice | src/index.tsx:43-51 | clicking a row's checkbox twice, each time with the record's current `checked` as the checkbox passes it, restores the list if and only if all records sharing its id had the same `checked` |
| Todos.RemoveRowTwice | src/index.tsx:53-61 | pressing a row's remove/restore button twice, each time with the record's current `removed` as the button passes it, restores the list if and only if all records sharing its id had the same `removed` |
| Todos.CheckRowTwiceUnique | src/index.tsx:43-51 | with unique ids, checking a row twice is an involution |
| Todos.RemoveRowTwiceUnique | src/index.tsx:53-61 | with unique ids, removing and restoring a row is an involution |
| Todos.CheckRowTwiceCollision | src/index.tsx:25 | two records with the same timestamp id and different flags: checking one twice does not restore the list |
| Todos.UpdatedKeepsUniqueIds | src/index.tsx:33-61 | the row handlers keep unique ids unique |
| Todos.PrependKeepsUniqueIds | src/index.tsx:23-29 | submitting with an id no record carries keeps ids unique |
| Views.Shows | src/index.tsx:69-80 | a record shown in a view is removed exactly when the view is `removed`; in `checked`/`unchecked` its flag matches the view; a removed record shows only in `removed`; a live record shows in `all` and in the view matching its flag |
| Views.Visible | src/index.tsx:68-81 | a view is no longer than the list; it holds only records of the list that pass the filter's row of the table |
| Views.VisibleComplete | src/index.tsx:68-81 | every record of the list that passes the filter is in the view |
| Views.VisibleCounts | src/index.tsx:68-81 | a view holds as many copies of each record as the list when it passes the filter, and none otherwise |
| Views.VisibleIsSubsequence | src/index.tsx:68-81 | a view is an order-preserving subsequence of the list |
| Views.ViewSizes | src/index.tsx:68-81 | the sizes of the checked and unchecked views add up to the all view; the all and removed views add up to the list |
| Views.ViewsExample | src/index.tsx:68-81 | for A (open), B (checked) and C (removed): checked shows [B], unchecked [A], removed [C], all [A, B] |
| Views.Purged | src/index.tsx:63-66 | emptying keeps only records of the list that are not removed |
| Views.PurgedIsAllView | src/index.tsx:64 | the list after emptying equals the `all` view of the list before |
| Views.PurgedSpec | src/index.tsx:63-66 | after emptying no record is removed, every copy of each non-removed record is kept, and relative order is preserved |
| Views.PurgedIdempotent | src/index.tsx:63-66 | emptying a second time is a no-op |
| Views.PurgedKeepsUniqueIds | src/index.tsx:63-66 | emptying keeps unique ids unique |
| Views.EmptyDisabled | src/index.tsx:97 | the empty-trash button is disabled if and only if no record is removed |
| Views.PurgedUnchangedIff | src/index.tsx:94-99 | emptying leaves the list unchanged if and only if the empty-trash button is disabled |
| TodoApp.App.constructor | src/index.tsx:14-16 | the initial state is an empty draft, no records and the `all` view |
| TodoApp.App.HandleOnSubmit | src/index.tsx:18-31 | with an empty draft nothing changes; otherwise the list grows by one, index 0 is a new record (draft text, the given id, unchecked, not removed), the old list follows unchanged, and the draft is cleared |
| TodoApp.App.HandleOnEdit | src/index.tsx:33-41 | the list becomes `OnEdit` of the old list; draft and view are unchanged |
| TodoApp.App.HandleOnCheck | src/index.tsx:43-51 | the list becomes `OnCheck` of the old list; draft and view are unchanged |
| TodoApp.App.HandleOnRemove | src/index.tsx:53-61 | the list becomes `OnRemove` of the old list; draft and view are unchanged |
| TodoApp.App.HandleOnEmpty | src/index.tsx:63-66 | the list becomes the purge of the old list, so no record in it is removed; if the button was disabled, nothing changes |
| TodoApp.App.HandleOnChangeText | src/index.tsx:107 | the draft becomes the typed value; nothing else changes |
| TodoApp.App.HandleOnChangeFilter | src/index.tsx:87 | the view becomes the selected value; draft and list are unchanged |
| TodoApp.App.FilteredTodos | src/index.tsx:68-81 | the visible records are a subsequence of the list, holding exactly the records that pass the selected view's filter, each as many times as it occurs in the list |
| TodoApp.App.EmptyButtonDisabled | src/index.tsx:94-100 | the button is disabled if and only if no record is removed |
| TodoApp.Scenario | src/index.tsx:18-51 | a session (submit with an empty draft, type "buy milk", submit at time 1000, check it, select the checked view) shows exactly the one checked record |

## Left out

- Rendering: the JSX markup, its labels, and `ReactDOM.render` (src/index.tsx:83-144). This is presentation, not state logic.
- `reportWebVitals` (src/index.tsx:3, 148). It is an analytics hook whose code is not part of this model.
- The clock: `new Date().getTime()` (src/index.tsx:25) is the parameter `now` of `HandleOnSubmit`. Ids are modelled as unbounded integers, not as JavaScript numbers.
- React's `useState` re-render semantics and the event objects (`e.preventDefault()`, src/index.tsx:21). Each setter is a plain field assignment.
- Aliasing: the source assigns fields of the record objects in place, so the old list and the new list share the changed records. The model builds new record values instead. The old list is discarded right after, so nothing observable differs.
- The `disabled` attributes on the add form and on the row inputs (src/index.tsx:106, 112, 124, 129). They only gate user input; the handlers themselves do not check them. The empty-trash button's `disabled` (line 97) is modelled.
- The `default: return todo` branch of the filter switch (src/index.tsx:78-79). The closed `Filter` datatype rules it out.
- The `as Filter` cast on the selector's value (src/index.tsx:87). The model takes a `Filter`; the selector only offers the four values.
