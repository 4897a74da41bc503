/** The remote `todos` collection, reduced to what the component relies on: an ordered
    sequence of documents with distinct ids, queried by owner and changed one document
    at a time. The sequence order is the order in which the store returns query
    results: a query without `orderBy` returns documents by ascending id, and `addDoc`
    picks a random id, so where a new document lands is a parameter. */
module Store {
  import opened Records

  /** The ids in use. */
  function Ids(docs: seq<Doc>): set<string> {
    set d | d in docs :: d.id
  }

  /** No two documents share an id. */
  predicate UniqueIds(docs: seq<Doc>) {
    forall i, j :: 0 <= i < j < |docs| ==> docs[i].id != docs[j].id
  }

  /** The query filter: `query(todoCollection)` when `owner` is None,
      `where("userName", "==", name)` when it is `Some(name)`. */
  predicate Matches(d: Doc, owner: Option<string>) {
    owner.None? || d.data.userName == owner
  }

  /** The documents a query returns, in store order. */
  function Matching(docs: seq<Doc>, owner: Option<string>): (r: seq<Doc>)
    ensures forall d :: d in r <==> d in docs && Matches(d, owner)
    ensures owner.None? ==> r == docs
  {
    if docs == [] then []
    else
      var rest := Matching(docs[..|docs| - 1], owner);
      var last := docs[|docs| - 1];
      assert docs == docs[..|docs| - 1] + [last];
      if Matches(last, owner) then rest + [last] else rest
  }

  /** The documents not owned by `owner`, in store order. */
  function NotOwnedBy(docs: seq<Doc>, owner: string): (r: seq<Doc>)
    ensures forall d :: d in r <==> d in docs && d.data.userName != Some(owner)
  {
    if docs == [] then []
    else
      var rest := NotOwnedBy(docs[..|docs| - 1], owner);
      var last := docs[|docs| - 1];
      assert docs == docs[..|docs| - 1] + [last];
      if last.data.userName != Some(owner) then rest + [last] else rest
  }

  /** The collection after `deleteDoc` of every id in `ids`. */
  function WithoutIds(docs: seq<Doc>, ids: set<string>): (r: seq<Doc>)
    ensures forall d :: d in r <==> d in docs && d.id !in ids
  {
    if docs == [] then []
    else
      var rest := WithoutIds(docs[..|docs| - 1], ids);
      var last := docs[|docs| - 1];
      assert docs == docs[..|docs| - 1] + [last];
      if last.id !in ids then rest + [last] else rest
  }

  /** The collection after `updateDoc(doc(todoCollection, id), { completed })`; an
      update of an id that is not there is rejected and changes nothing. */
  function WithCompleted(docs: seq<Doc>, id: string, completed: bool): (r: seq<Doc>)
    ensures |r| == |docs|
    ensures forall i :: 0 <= i < |docs| ==>
              r[i] == if docs[i].id == id then docs[i].(data := docs[i].data.(completed := completed)) else docs[i]
  {
    if docs == [] then []
    else
      var last := docs[|docs| - 1];
      WithCompleted(docs[..|docs| - 1], id, completed)
        + [if last.id == id then last.(data := last.data.(completed := completed)) else last]
  }

  /** Two documents of a collection with distinct ids that share an id are the same. */
  lemma SameIdSameDoc(docs: seq<Doc>, d: Doc, e: Doc)
    requires UniqueIds(docs) && d in docs && e in docs && d.id == e.id
    ensures d == e
  {
    var i :| 0 <= i < |docs| && docs[i] == d;
    var j :| 0 <= j < |docs| && docs[j] == e;
    assert !(i < j) && !(j < i);
  }

  /** Inserting a document under an unused id keeps ids distinct. */
  lemma InsertUnique(docs: seq<Doc>, d: Doc, at: nat)
    requires UniqueIds(docs) && d.id !in Ids(docs) && at <= |docs|
    ensures UniqueIds(docs[..at] + [d] + docs[at..])
  {
    var r := docs[..at] + [d] + docs[at..];
    forall i, j | 0 <= i < j < |r| ensures r[i].id != r[j].id {
      if i < at {
        assert r[i] == docs[i];
      } else if i > at {
        assert r[i] == docs[i - 1];
      } else {
        assert docs[j - 1] in docs;
      }
      if j < at {
        assert r[j] == docs[j];
      } else if j > at {
        assert r[j] == docs[j - 1];
      } else {
        assert docs[i] in docs;
      }
    }
  }

  /** A query keeps ids distinct. */
  lemma {:induction false} MatchingUnique(docs: seq<Doc>, owner: Option<string>)
    requires UniqueIds(docs)
    ensures UniqueIds(Matching(docs, owner))
  {
    if docs != [] {
      var prefix, last := docs[..|docs| - 1], docs[|docs| - 1];
      MatchingUnique(prefix, owner);
      var rest := Matching(prefix, owner);
      forall d | d in rest ensures d.id != last.id {
        var k :| 0 <= k < |prefix| && prefix[k] == d;
        assert docs[k] == d;
      }
    }
  }

  /** A query returns the documents in store order: one more document at the end of
      the collection adds, at the end of the result, that document if it matches. */
  lemma MatchingSnoc(s: seq<Doc>, x: Doc, owner: Option<string>)
    ensures Matching(s + [x], owner) == Matching(s, owner) + (if Matches(x, owner) then [x] else [])
  {
    assert (s + [x])[..|s|] == s;
  }

  /** The documents an owner's deletion leaves stay in store order: one more document at
      the end of the collection adds, at the end of the result, that document if it
      belongs to another owner. */
  lemma NotOwnedBySnoc(s: seq<Doc>, x: Doc, owner: string)
    ensures NotOwnedBy(s + [x], owner) == NotOwnedBy(s, owner) + (if x.data.userName != Some(owner) then [x] else [])
  {
    assert (s + [x])[..|s|] == s;
  }

  /** Filtering keeps ids distinct. */
  lemma {:induction false} WithoutIdsUnique(docs: seq<Doc>, ids: set<string>)
    requires UniqueIds(docs)
    ensures UniqueIds(WithoutIds(docs, ids))
  {
    if docs != [] {
      var prefix, last := docs[..|docs| - 1], docs[|docs| - 1];
      WithoutIdsUnique(prefix, ids);
      var rest := WithoutIds(prefix, ids);
      forall d | d in rest ensures d.id != last.id {
        var k :| 0 <= k < |prefix| && prefix[k] == d;
        assert docs[k] == d;
      }
    }
  }

  /** Deleting one more id is deleting the larger set of ids. */
  lemma IdsStep(docs: seq<Doc>, i: nat)
    requires i < |docs|
    ensures Ids(docs[..i + 1]) == Ids(docs[..i]) + {docs[i].id}
  {
    assert docs[..i + 1] == docs[..i] + [docs[i]];
  }

  lemma {:induction false} WithoutNoIds(docs: seq<Doc>)
    ensures WithoutIds(docs, {}) == docs
  {
    if docs != [] {
      WithoutNoIds(docs[..|docs| - 1]);
      assert docs == docs[..|docs| - 1] + [docs[|docs| - 1]];
    }
  }

  lemma {:induction false} WithoutIdsStep(docs: seq<Doc>, ids: set<string>, id: string)
    ensures WithoutIds(WithoutIds(docs, ids), {id}) == WithoutIds(docs, ids + {id})
  {
    if docs != [] {
      var prefix, last := docs[..|docs| - 1], docs[|docs| - 1];
      WithoutIdsStep(prefix, ids, id);
      var rest := WithoutIds(prefix, ids);
      if last.id !in ids {
        assert (rest + [last])[..|rest + [last]| - 1] == rest;
      }
    }
  }

  /** Two filters of the same collection that agree on every document are equal. */
  lemma {:induction false} WithoutIdsIsNotOwnedBy(docs: seq<Doc>, ids: set<string>, owner: string)
    requires forall d :: d in docs ==> (d.id in ids <==> d.data.userName == Some(owner))
    ensures WithoutIds(docs, ids) == NotOwnedBy(docs, owner)
  {
    if docs != [] {
      var prefix := docs[..|docs| - 1];
      assert forall d :: d in prefix ==> d in docs;
      WithoutIdsIsNotOwnedBy(prefix, ids, owner);
    }
  }

  /** Deleting every document a `where("userName", "==", owner)` query returned, by id,
      leaves exactly the documents of other owners, in their order. */
  lemma DeleteOwnedLeavesOthers(docs: seq<Doc>, owner: string)
    requires UniqueIds(docs)
    ensures WithoutIds(docs, Ids(Matching(docs, Some(owner)))) == NotOwnedBy(docs, owner)
  {
    var owned := Matching(docs, Some(owner));
    forall d | d in docs ensures d.id in Ids(owned) <==> d.data.userName == Some(owner) {
      if d.id in Ids(owned) {
        var e :| e in owned && e.id == d.id;
        SameIdSameDoc(docs, d, e);
      }
    }
    WithoutIdsIsNotOwnedBy(docs, Ids(owned), owner);
  }

  class TodoStore {
    var docs: seq<Doc>

    ghost predicate Valid()
      reads this
    {
      UniqueIds(docs)
    }

    constructor (initial: seq<Doc>)
      requires UniqueIds(initial)
      ensures Valid() && docs == initial
    {
      docs := initial;
    }

    /** `getDocs(q)`: the matching documents, in store order. */
    method Query(owner: Option<string>) returns (results: seq<Doc>)
      ensures results == Matching(docs, owner)
    {
      results := Matching(docs, owner);
    }

    /** `addDoc`: the store files the document under the fresh id it assigns; `at` is
        the place that id takes in the store's order. */
    method Add(id: string, data: Fields, at: nat)
      requires Valid() && id !in Ids(docs) && at <= |docs|
      modifies this
      ensures Valid() && docs == old(docs)[..at] + [Doc(id, data)] + old(docs)[at..]
    {
      InsertUnique(docs, Doc(id, data), at);
      docs := docs[..at] + [Doc(id, data)] + docs[at..];
    }

    /** `updateDoc(doc(todoCollection, id), { completed })`. */
    method Update(id: string, completed: bool)
      requires Valid()
      modifies this
      ensures Valid() && docs == WithCompleted(old(docs), id, completed)
    {
      docs := WithCompleted(docs, id, completed);
    }

    /** `deleteDoc(doc(todoCollection, id))`; deleting a missing id changes nothing. */
    method Delete(id: string)
      requires Valid()
      modifies this
      ensures Valid() && docs == WithoutIds(old(docs), {id})
    {
      WithoutIdsUnique(docs, {id});
      docs := WithoutIds(docs, {id});
    }
  }
}
