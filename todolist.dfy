/** The TodoList component: its four pieces of state, the handlers that change them,
    and the store calls those handlers make. Each handler runs to completion before the
    next starts; `session` is the display name of the signed-in user, if any. */
module TodoListComponent {
  import opened Records
  import opened JsText
  import opened Store
  import opened Collection
  import opened Grouping
  import opened Ordering
  import opened View

  class TodoList {
    /** The records shown. */
    var todos: seq<Todo>
    /** The text field. */
    var input: string
    /** The date field: the value of the date input, which the browser gives as "" or a
        `YYYY-MM-DD` date; the model accepts any string here. */
    var date: string
    /** Whether every owner's records are fetched, or only the session's. */
    var showOthers: bool
    /** The remote `todos` collection. */
    const store: TodoStore

    ghost predicate Valid()
      reads this, store
    {
      store.Valid()
    }

    /** The component as first rendered: empty list, empty fields, own records only. */
    constructor (store: TodoStore)
      requires store.Valid()
      ensures Valid() && this.store == store
      ensures todos == [] && input == "" && date == "" && !showOthers
    {
      this.store := store;
      todos, input, date, showOthers := [], "", "", false;
    }

    /** The text field's `onChange`. */
    method SetInput(value: string)
      modifies this
      ensures input == value
      ensures todos == old(todos) && date == old(date) && showOthers == old(showOthers)
    {
      input := value;
    }

    /** The date field's `onChange`. */
    method SetDate(value: string)
      modifies this
      ensures date == value
      ensures todos == old(todos) && input == old(input) && showOthers == old(showOthers)
    {
      date := value;
    }

    /** getTodos with the filter flag `all`: skip when only the user's own records are
        wanted and there is no session name; otherwise query, copy every result into a
        new list and replace `todos` with it. */
    method Refresh(all: bool, session: Option<string>)
      requires Valid()
      modifies this
      ensures Valid()
      ensures todos == Refreshed(old(todos), store.docs, all, session)
      ensures input == old(input) && date == old(date) && showOthers == old(showOthers)
    {
      if !all && !HasName(session) {
        return;
      }
      var results := store.Query(if all then None else session);
      var newTodos := FetchAll(results);
      todos := newTodos;
    }

    /** getTodos as the component calls it: filtered by the current `showOthers`. It is
        also what the effect on `data` runs whenever the session changes. */
    method GetTodos(session: Option<string>)
      requires Valid()
      modifies this
      ensures Valid()
      ensures todos == Refreshed(old(todos), store.docs, showOthers, session)
      ensures input == old(input) && date == old(date) && showOthers == old(showOthers)
    {
      Refresh(showOthers, session);
    }

    /** addTodo. Blank text does nothing. Otherwise the record is stored under the
        session name with the chosen date, or `today` when none is chosen; `newId` is
        the id the store assigns, None when `addDoc` rejects the write, in which case
        nothing after it runs, and `at` is where that id places the document in the
        store's order. On success the record is appended locally without an
        owner, both fields are cleared, and the list is refreshed. */
    method AddTodo(session: Option<string>, today: string, newId: Option<string>, at: nat)
      requires Valid() && at <= |store.docs|
      requires newId.Some? ==> newId.value !in Ids(store.docs)
      modifies this, store
      ensures Valid()
      ensures Trim(old(input)) == "" || newId.None? ==>
                todos == old(todos) && input == old(input) && date == old(date) && store.docs == old(store.docs)
      ensures Trim(old(input)) != "" && newId.Some? ==>
                var day := if old(date) == "" then today else old(date);
                && store.docs == old(store.docs)[..at] + [Doc(newId.value, Fields(session, old(input), day, false))]
                                 + old(store.docs)[at..]
                && input == "" && date == ""
                && todos == Refreshed(old(todos) + [Todo(newId.value, None, old(input), day, false)],
                                      store.docs, showOthers, session)
      ensures showOthers == old(showOthers)
    {
      if Trim(input) == "" {
        return;
      }
      var day := if date != "" then date else today;
      if newId.None? {
        return;
      }
      var id := newId.value;
      store.Add(id, Fields(session, input, day, false), at);
      todos := todos + [Todo(id, None, input, day, false)];
      input := "";
      date := "";
      GetTodos(session);
    }

    /** toggleTodo: maps the list, and for each record with id `id` writes its flipped
        flag to the store before flipping it locally. */
    method ToggleTodo(id: string)
      requires Valid()
      modifies this, store
      ensures Valid()
      ensures todos == Toggled(old(todos), id)
      ensures store.docs == ToggleWrites(old(store.docs), old(todos), id)
      ensures input == old(input) && date == old(date) && showOthers == old(showOthers)
    {
      var next: seq<Todo> := [];
      var i := 0;
      while i < |todos|
        invariant 0 <= i <= |todos|
        invariant Valid()
        invariant next == Toggled(todos[..i], id)
        invariant store.docs == ToggleWrites(old(store.docs), todos[..i], id)
        modifies store
      {
        var t := todos[i];
        assert todos[..i + 1][..i] == todos[..i];
        if t.id == id {
          store.Update(id, !t.completed);
          next := next + [Flip(t)];
        } else {
          next := next + [t];
        }
        i := i + 1;
      }
      assert todos[..|todos|] == todos;
      todos := next;
    }

    /** deleteTodo: deletes the stored document and drops every local record with that id. */
    method DeleteTodo(id: string)
      requires Valid()
      modifies this, store
      ensures Valid()
      ensures store.docs == WithoutIds(old(store.docs), {id})
      ensures todos == Without(old(todos), id)
      ensures input == old(input) && date == old(date) && showOthers == old(showOthers)
    {
      store.Delete(id);
      todos := Without(todos, id);
    }

    /** deleteAll: queries the owner's documents, deletes each, then refreshes. The
        store keeps exactly the documents of other owners, in their order. */
    method DeleteAll(owner: string, session: Option<string>)
      requires Valid()
      modifies this, store
      ensures Valid()
      ensures store.docs == NotOwnedBy(old(store.docs), owner)
      ensures todos == Refreshed(old(todos), store.docs, showOthers, session)
      ensures input == old(input) && date == old(date) && showOthers == old(showOthers)
    {
      var results := store.Query(Some(owner));
      ghost var docs0 := store.docs;
      WithoutNoIds(docs0);
      assert Ids(results[..0]) == {} by { assert results[..0] == []; }
      var i := 0;
      while i < |results|
        invariant 0 <= i <= |results|
        invariant Valid()
        invariant store.docs == WithoutIds(docs0, Ids(results[..i]))
        modifies store
      {
        WithoutIdsStep(docs0, Ids(results[..i]), results[i].id);
        IdsStep(results, i);
        store.Delete(results[i].id);
        i := i + 1;
      }
      assert results[..|results|] == results;
      DeleteOwnedLeavesOthers(docs0, owner);
      GetTodos(session);
    }

    /** The filter button as written: it flips the flag, but the refresh it starts runs
        with the value the handler captured, which is the flag before the flip. */
    method ToggleShowOthers(session: Option<string>)
      requires Valid()
      modifies this
      ensures Valid()
      ensures showOthers == !old(showOthers)
      ensures todos == Refreshed(old(todos), store.docs, old(showOthers), session)
      ensures input == old(input) && date == old(date)
    {
      var captured := showOthers;
      showOthers := !showOthers;
      Refresh(captured, session);
    }

    /** The filter button as evidently intended: the list matches the new flag. */
    method ToggleShowOthersIntended(session: Option<string>)
      requires Valid()
      modifies this
      ensures Valid()
      ensures showOthers == !old(showOthers)
      ensures todos == Refreshed(old(todos), store.docs, showOthers, session)
      ensures input == old(input) && date == old(date)
    {
      showOthers := !showOthers;
      GetTodos(session);
    }
  }

  /** What the filter button as written gets wrong: switching from "mine" to "everyone"
      with a named session, while the store holds a document of someone else, the list
      still lacks that document, although the flag now asks for it. */
  lemma StaleFilterHidesOthers(todos: seq<Todo>, docs: seq<Doc>, session: Option<string>, d: Doc)
    requires HasName(session) && d in docs && d.data.userName != session
    ensures FromDoc(d) !in Refreshed(todos, docs, false, session)
    ensures FromDoc(d) in Refreshed(todos, docs, true, session)
  {
    RefreshMineOnly(todos, docs, session);
    RefreshAll(todos, docs, session);
    var i :| 0 <= i < |docs| && docs[i] == d;
    assert Refreshed(todos, docs, true, session)[i] == FromDoc(d);
  }

  /** After addTodo in "mine only" mode with a named session, the refreshed list shows
      the stored record with its owner, whatever the store held before and wherever the
      new id places it. */
  lemma AddedRecordShown(todos: seq<Todo>, docs: seq<Doc>, session: Option<string>, id: string,
                         text: string, day: string, at: nat)
    requires HasName(session) && at <= |docs|
    ensures var stored := Doc(id, Fields(session, text, day, false));
      Todo(id, session, text, day, false) in Refreshed(todos, docs[..at] + [stored] + docs[at..], false, session)
  {
    var stored := Doc(id, Fields(session, text, day, false));
    var after := docs[..at] + [stored] + docs[at..];
    RefreshMineOnly(todos, after, session);
    assert after[at] == stored;
  }

  /** After addTodo in "mine only" mode when the session name is empty, the refresh is
      skipped: the appended record keeps no owner and is rendered under the heading
      "undefined". */
  lemma UnnamedAddShownUnderUndefined(todos: seq<Todo>, docs: seq<Doc>, session: Option<string>,
                                      t: Todo, less: (string, string) -> bool)
    requires !HasName(session) && t.userName.None? && AllValid(todos + [t])
    ensures var shown := Refreshed(todos + [t], docs, false, session);
      exists i :: 0 <= i < |Render(shown, less)| && Render(shown, less)[i].owner == "undefined" &&
                  t in Render(shown, less)[i].items
  {
    var shown := todos + [t];
    assert Refreshed(todos + [t], docs, false, session) == shown;
    assert t in shown;
    RenderKeys(shown, less);
    var keys := SortKeys(FirstSeen(shown), less);
    var i :| 0 <= i < |keys| && keys[i] == Key(t);
    SortedGroupMembers(shown, Key(t));
    var r := Render(shown, less);
    assert r[i].owner == "undefined" && t in r[i].items;
  }
}
