/** The component's `todos` list: what toggleTodo, deleteTodo and getTodos make of it,
    and the store writes that go with them. */
module Collection {
  import opened Records
  import opened Store

  /** No two records of the list share an id. */
  predicate UniqueTodoIds(ts: seq<Todo>) {
    forall i, j :: 0 <= i < j < |ts| ==> ts[i].id != ts[j].id
  }

  /** Some record of the list has id `id`. */
  predicate HasId(ts: seq<Todo>, id: string) {
    exists i :: 0 <= i < |ts| && ts[i].id == id
  }

  /** `todos.map(todo => todo.id === id ? { ...todo, completed: !todo.completed } : todo)`:
      the same records in the same order, where only `completed` can differ, and it
      differs exactly on the records with id `id`. */
  function Toggled(ts: seq<Todo>, id: string): (r: seq<Todo>)
    ensures |r| == |ts|
    ensures forall i :: 0 <= i < |ts| ==>
              && r[i].(completed := ts[i].completed) == ts[i]
              && (r[i].completed != ts[i].completed <==> ts[i].id == id)
  {
    if ts == [] then []
    else
      var last := ts[|ts| - 1];
      Toggled(ts[..|ts| - 1], id) + [if last.id == id then Flip(last) else last]
  }

  /** Toggling the same id twice gives back the original list. */
  lemma ToggleTwice(ts: seq<Todo>, id: string)
    ensures Toggled(Toggled(ts, id), id) == ts
  {
    var once := Toggled(ts, id);
    var twice := Toggled(once, id);
    forall i | 0 <= i < |ts| ensures twice[i] == ts[i] {
      assert once[i].id == ts[i].id;
    }
  }

  /** Toggling an id no record has leaves the list as it was. */
  lemma ToggleAbsent(ts: seq<Todo>, id: string)
    requires !HasId(ts, id)
    ensures Toggled(ts, id) == ts
  {
    var r := Toggled(ts, id);
    forall i | 0 <= i < |ts| ensures r[i] == ts[i] {
      assert ts[i].id != id;
    }
  }

  /** `todos.filter(todo => todo.id !== id)`: the records whose id differs from `id`,
      in their original order. */
  function Without(ts: seq<Todo>, id: string): (r: seq<Todo>)
    ensures forall t :: t in r <==> t in ts && t.id != id
    ensures |r| <= |ts|
  {
    if ts == [] then []
    else
      var rest := Without(ts[..|ts| - 1], id);
      var last := ts[|ts| - 1];
      assert ts == ts[..|ts| - 1] + [last];
      if last.id != id then rest + [last] else rest
  }

  /** The filter keeps relative order: it distributes over concatenation. */
  lemma {:induction false} WithoutConcat(a: seq<Todo>, b: seq<Todo>, id: string)
    ensures Without(a + b, id) == Without(a, id) + Without(b, id)
  {
    if b == [] {
      assert a + b == a;
    } else {
      var prefix := b[..|b| - 1];
      WithoutConcat(a, prefix, id);
      assert (a + b)[..|a + b| - 1] == a + prefix;
      assert (a + b)[|a + b| - 1] == b[|b| - 1];
    }
  }

  /** Deleting the same id twice is deleting it once. */
  lemma {:induction false} WithoutIdempotent(ts: seq<Todo>, id: string)
    ensures Without(Without(ts, id), id) == Without(ts, id)
  {
    if ts != [] {
      var prefix := ts[..|ts| - 1];
      var last := ts[|ts| - 1];
      WithoutIdempotent(prefix, id);
      var rest := Without(prefix, id);
      if last.id != id {
        assert (rest + [last])[..|rest + [last]| - 1] == rest;
      }
    }
  }

  /** Deleting an id no record has leaves the list as it was. */
  lemma {:induction false} WithoutAbsent(ts: seq<Todo>, id: string)
    requires !HasId(ts, id)
    ensures Without(ts, id) == ts
  {
    if ts != [] {
      var prefix := ts[..|ts| - 1];
      assert !HasId(prefix, id) by {
        forall i | 0 <= i < |prefix| ensures prefix[i].id != id {
          assert prefix[i] == ts[i];
        }
      }
      WithoutAbsent(prefix, id);
      assert ts[|ts| - 1].id != id;
      assert ts == prefix + [ts[|ts| - 1]];
    }
  }

  /** The store writes toggleTodo issues: for each matching record, in list order,
      `updateDoc(doc(todoCollection, id), { completed: !todo.completed })`. */
  function ToggleWrites(docs: seq<Doc>, ts: seq<Todo>, id: string): (r: seq<Doc>)
    ensures |r| == |docs|
    ensures forall i :: 0 <= i < |docs| ==>
              r[i].id == docs[i].id && r[i].data.(completed := docs[i].data.completed) == docs[i].data
    ensures forall i :: 0 <= i < |docs| && docs[i].id != id ==> r[i] == docs[i]
  {
    if ts == [] then docs
    else
      var before := ToggleWrites(docs, ts[..|ts| - 1], id);
      var last := ts[|ts| - 1];
      if last.id == id then WithCompleted(before, id, !last.completed) else before
  }

  /** With no matching record, toggleTodo writes nothing to the store. */
  lemma {:induction false} ToggleWritesAbsent(docs: seq<Doc>, ts: seq<Todo>, id: string)
    requires !HasId(ts, id)
    ensures ToggleWrites(docs, ts, id) == docs
  {
    if ts != [] {
      var prefix := ts[..|ts| - 1];
      assert !HasId(prefix, id) by {
        forall i | 0 <= i < |prefix| ensures prefix[i].id != id {
          assert prefix[i] == ts[i];
        }
      }
      ToggleWritesAbsent(docs, prefix, id);
    }
  }

  /** With distinct ids, toggleTodo writes once: the flipped flag of the one matching record. */
  lemma {:induction false} ToggleWritesOnce(docs: seq<Doc>, ts: seq<Todo>, id: string, k: nat)
    requires UniqueTodoIds(ts) && k < |ts| && ts[k].id == id
    ensures ToggleWrites(docs, ts, id) == WithCompleted(docs, id, !ts[k].completed)
  {
    var prefix := ts[..|ts| - 1];
    assert UniqueTodoIds(prefix);
    if k == |ts| - 1 {
      assert !HasId(prefix, id);
      ToggleWritesAbsent(docs, prefix, id);
    } else {
      assert prefix[k] == ts[k];
      ToggleWritesOnce(docs, prefix, id, k);
    }
  }

  /** After toggleTodo on a list with distinct ids, the store and the optimistic local
      state agree on the toggled record: a stored document with that id carries the
      flag the local record now shows, and every other document is unchanged. */
  lemma ToggleStoreAgrees(docs: seq<Doc>, ts: seq<Todo>, id: string, k: nat)
    requires UniqueTodoIds(ts) && k < |ts| && ts[k].id == id
    ensures |ToggleWrites(docs, ts, id)| == |docs|
    ensures forall i :: 0 <= i < |docs| && docs[i].id == id ==>
              ToggleWrites(docs, ts, id)[i].data.completed == Toggled(ts, id)[k].completed
    ensures forall i :: 0 <= i < |docs| && docs[i].id != id ==>
              ToggleWrites(docs, ts, id)[i] == docs[i]
  {
    ToggleWritesOnce(docs, ts, id, k);
  }

  /** `results.docs.forEach(doc => newTodos.push({ id: doc.id, ...doc.data() }))`. */
  function Fetched(docs: seq<Doc>): (r: seq<Todo>)
    ensures |r| == |docs|
    ensures forall i :: 0 <= i < |docs| ==> r[i] == FromDoc(docs[i])
  {
    if docs == [] then [] else Fetched(docs[..|docs| - 1]) + [FromDoc(docs[|docs| - 1])]
  }

  lemma FetchedStep(docs: seq<Doc>, i: nat)
    requires i < |docs|
    ensures Fetched(docs[..i + 1]) == Fetched(docs[..i]) + [FromDoc(docs[i])]
  {
    assert docs[..i + 1][..i] == docs[..i];
  }

  /** The `forEach` loop of getTodos: each result is pushed, in order, onto a new list. */
  method FetchAll(results: seq<Doc>) returns (newTodos: seq<Todo>)
    ensures newTodos == Fetched(results)
  {
    newTodos := [];
    var i := 0;
    while i < |results|
      invariant 0 <= i <= |results|
      invariant newTodos == Fetched(results[..i])
    {
      FetchedStep(results, i);
      newTodos := newTodos + [FromDoc(results[i])];
      i := i + 1;
    }
    assert results[..|results|] == results;
  }

  /** `data?.user?.name` is truthy: a session with a non-empty name. */
  predicate HasName(session: Option<string>) {
    session.Some? && session.value != ""
  }

  /** The list getTodos leaves, when it runs with filter flag `all`: unchanged if it
      shows only the user's records and there is no session name, otherwise the
      fetch result of all documents or of the session's own, in fetch order. */
  function Refreshed(todos: seq<Todo>, docs: seq<Doc>, all: bool, session: Option<string>): seq<Todo> {
    if !all && !HasName(session) then todos
    else Fetched(Matching(docs, if all then None else session))
  }

  /** In "mine only" mode the refreshed list holds exactly the session's documents:
      every record belongs to the session name, and every document of that name is there. */
  lemma RefreshMineOnly(todos: seq<Todo>, docs: seq<Doc>, session: Option<string>)
    requires HasName(session)
    ensures forall t :: t in Refreshed(todos, docs, false, session) ==> t.userName == session
    ensures forall d :: d in docs && d.data.userName == session ==>
              FromDoc(d) in Refreshed(todos, docs, false, session)
  {
    var mine := Matching(docs, session);
    var r := Refreshed(todos, docs, false, session);
    forall t | t in r ensures t.userName == session {
      var i :| 0 <= i < |r| && r[i] == t;
      assert mine[i] in mine;
    }
    forall d | d in docs && d.data.userName == session ensures FromDoc(d) in r {
      var i :| 0 <= i < |mine| && mine[i] == d;
      assert r[i] == FromDoc(d);
    }
  }

  /** In "all owners" mode the refreshed list is every document, in fetch order. */
  lemma RefreshAll(todos: seq<Todo>, docs: seq<Doc>, session: Option<string>)
    ensures |Refreshed(todos, docs, true, session)| == |docs|
    ensures forall i :: 0 <= i < |docs| ==> Refreshed(todos, docs, true, session)[i] == FromDoc(docs[i])
  {
  }

  /** Fetched lists inherit the store's distinct ids. */
  lemma FetchedUnique(docs: seq<Doc>)
    requires UniqueIds(docs)
    ensures UniqueTodoIds(Fetched(docs))
  {
  }

  /** A refresh that is not skipped leaves a list with distinct ids, in either mode: the
      condition under which toggleTodo's writes agree with the local list. */
  lemma RefreshedUnique(todos: seq<Todo>, docs: seq<Doc>, all: bool, session: Option<string>)
    requires UniqueIds(docs) && (all || HasName(session))
    ensures UniqueTodoIds(Refreshed(todos, docs, all, session))
  {
    MatchingUnique(docs, if all then None else session);
    FetchedUnique(Matching(docs, if all then None else session));
  }

  /** A refresh that runs after deleteAll(owner) shows no record of that owner. */
  lemma RefreshAfterDeleteAll(todos: seq<Todo>, docs: seq<Doc>, owner: string, all: bool, session: Option<string>)
    requires all || HasName(session)
    ensures forall t :: t in Refreshed(todos, NotOwnedBy(docs, owner), all, session) ==> t.userName != Some(owner)
  {
    var rest := NotOwnedBy(docs, owner);
    var fetched := Matching(rest, if all then None else session);
    var r := Refreshed(todos, rest, all, session);
    forall t | t in r ensures t.userName != Some(owner) {
      var i :| 0 <= i < |r| && r[i] == t;
      assert fetched[i] in fetched;
    }
  }
}
