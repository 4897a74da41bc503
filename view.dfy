/** The list the render expression derives from `todos`: the records grouped by owner,
    the groups in ascending key order, each group's records by day. */
module View {
  import opened Records
  import opened IsoDate
  import opened Ordering
  import opened Grouping

  /** One owner heading and the rows under it. */
  datatype Group = Group(owner: string, items: seq<Todo>)

  /** Every record carries a real calendar date: the domain on which the source's
      `new Date(a.date) - new Date(b.date)` orders by day. */
  predicate AllValid(ts: seq<Todo>) {
    forall t :: t in ts ==> IsValid(t.date)
  }

  /** One group per key, in the order of `keys`, each holding its records by day. */
  function Build(keys: seq<string>, ts: seq<Todo>): (r: seq<Group>)
    ensures |r| == |keys|
    ensures forall i :: 0 <= i < |keys| ==> r[i].owner == keys[i] && r[i].items == SortByDate(WithKey(ts, keys[i]))
  {
    if keys == [] then []
    else
      var rest := Build(keys[1..], ts);
      var r := [Group(keys[0], SortByDate(WithKey(ts, keys[0])))] + rest;
      assert forall i :: 1 <= i < |keys| ==> r[i] == rest[i - 1] && keys[i] == keys[1..][i - 1];
      r
  }

  /** `Object.entries(todos.reduce(...)).sort(...)` with each group's
      `todosInGroup.sort(...)`, for the string order `less`. */
  function Render(ts: seq<Todo>, less: (string, string) -> bool): (r: seq<Group>)
    requires AllValid(ts)
    ensures |r| == |FirstSeen(ts)|
    ensures forall i :: 0 <= i < |r| ==> r[i].owner == SortKeys(FirstSeen(ts), less)[i]
    ensures forall i :: 0 <= i < |r| ==> r[i].items == SortByDate(WithKey(ts, r[i].owner))
  {
    var keys := SortKeys(FirstSeen(ts), less);
    assert |keys| == |multiset(keys)| == |FirstSeen(ts)|;
    Build(keys, ts)
  }

  /** The rows in the order they appear on the page. */
  function Flatten(gs: seq<Group>): seq<Todo> {
    if gs == [] then [] else gs[0].items + Flatten(gs[1..])
  }

  /** The records whose key is one of `keys`, in list order. */
  function KeyedBy(ts: seq<Todo>, keys: seq<string>): seq<Todo> {
    if ts == [] then []
    else
      var rest := KeyedBy(ts[..|ts| - 1], keys);
      var last := ts[|ts| - 1];
      if Key(last) in keys then rest + [last] else rest
  }

  /** The keys of the rendered groups are exactly the keys of the records. */
  lemma RenderKeys(ts: seq<Todo>, less: (string, string) -> bool)
    ensures var keys := SortKeys(FirstSeen(ts), less);
      && (forall t :: t in ts ==> Key(t) in keys)
      && (forall k :: k in keys ==> exists t :: t in ts && Key(t) == k)
  {
    FirstSeenKeys(ts);
    var keys := SortKeys(FirstSeen(ts), less);
    forall k ensures k in keys <==> k in FirstSeen(ts) {
      assert k in keys <==> k in multiset(keys);
    }
  }

  /** Owner headings are pairwise distinct, whatever the string comparison. */
  lemma RenderOwnersDistinct(ts: seq<Todo>, less: (string, string) -> bool)
    requires AllValid(ts)
    ensures forall i, j :: 0 <= i < j < |Render(ts, less)| ==>
              Render(ts, less)[i].owner != Render(ts, less)[j].owner
  {
    FirstSeenKeys(ts);
    SortKeysDistinct(FirstSeen(ts), less);
  }

  /** Owner headings are pairwise distinct and come in strictly ascending order. */
  lemma RenderOwnersAscending(ts: seq<Todo>, less: (string, string) -> bool)
    requires AllValid(ts) && StrictTotal(less)
    ensures forall i, j :: 0 <= i < j < |Render(ts, less)| ==>
              less(Render(ts, less)[i].owner, Render(ts, less)[j].owner)
    ensures forall i, j :: 0 <= i < j < |Render(ts, less)| ==>
              Render(ts, less)[i].owner != Render(ts, less)[j].owner
  {
    FirstSeenKeys(ts);
    SortKeysAscending(FirstSeen(ts), less);
  }

  /** Every record's key has a group. */
  lemma RenderCovers(ts: seq<Todo>, less: (string, string) -> bool)
    requires AllValid(ts)
    ensures forall t :: t in ts ==>
              exists i :: 0 <= i < |Render(ts, less)| && Render(ts, less)[i].owner == Key(t)
  {
    RenderKeys(ts, less);
    var keys := SortKeys(FirstSeen(ts), less);
    var r := Render(ts, less);
    forall t | t in ts ensures exists i :: 0 <= i < |r| && r[i].owner == Key(t) {
      var i :| 0 <= i < |keys| && keys[i] == Key(t);
      assert r[i].owner == Key(t);
    }
  }

  /** A record is in a group exactly when it is a record of `todos` and the group's
      owner is its key. */
  lemma RenderGroupMembers(ts: seq<Todo>, less: (string, string) -> bool)
    requires AllValid(ts)
    ensures forall i, t :: 0 <= i < |Render(ts, less)| ==>
              (t in Render(ts, less)[i].items <==> t in ts && Key(t) == Render(ts, less)[i].owner)
  {
    var r := Render(ts, less);
    forall i | 0 <= i < |r| ensures forall t :: t in r[i].items <==> t in ts && Key(t) == r[i].owner {
      SortedGroupMembers(ts, r[i].owner);
    }
  }

  lemma SortedGroupMembers(ts: seq<Todo>, k: string)
    ensures forall t :: t in SortByDate(WithKey(ts, k)) <==> t in ts && Key(t) == k
  {
    var g := WithKey(ts, k);
    forall t ensures t in SortByDate(g) <==> t in g {
      assert t in SortByDate(g) <==> t in multiset(SortByDate(g));
    }
  }

  /** No heading is rendered without rows. */
  lemma RenderNoEmptyGroup(ts: seq<Todo>, less: (string, string) -> bool)
    requires AllValid(ts)
    ensures forall i :: 0 <= i < |Render(ts, less)| ==> Render(ts, less)[i].items != []
  {
    RenderKeys(ts, less);
    var keys := SortKeys(FirstSeen(ts), less);
    var r := Render(ts, less);
    forall i | 0 <= i < |r| ensures r[i].items != [] {
      assert keys[i] in keys;
      var t :| t in ts && Key(t) == keys[i];
      assert t in multiset(r[i].items);
    }
  }

  /** Within a group, rows are ordered by day, and rows of the same day keep the order
      they have in `todos`. */
  lemma RenderGroupsByDay(ts: seq<Todo>, less: (string, string) -> bool)
    requires AllValid(ts)
    ensures var r := Render(ts, less);
      forall i :: 0 <= i < |r| ==>
        && ByDay(r[i].items)
        && forall d ::  OnDay(r[i].items, d) == OnDay(WithKey(ts, r[i].owner), d)
  {
    var r := Render(ts, less);
    forall i | 0 <= i < |r|
      ensures ByDay(r[i].items)
      ensures forall d ::  OnDay(r[i].items, d) == OnDay(WithKey(ts, r[i].owner), d)
    {
      SortByDateOrdered(WithKey(ts, r[i].owner));
      forall d ensures OnDay(r[i].items, d) == OnDay(WithKey(ts, r[i].owner), d) {
        SortByDateStable(WithKey(ts, r[i].owner), d);
      }
    }
  }

  lemma {:induction false} SplitKey(ts: seq<Todo>, k: string, keys: seq<string>)
    requires k !in keys
    ensures multiset(WithKey(ts, k)) + multiset(KeyedBy(ts, keys)) == multiset(KeyedBy(ts, [k] + keys))
  {
    if ts != [] {
      SplitKey(ts[..|ts| - 1], k, keys);
    }
  }

  lemma {:induction false} KeyedByAll(ts: seq<Todo>, keys: seq<string>)
    requires forall t :: t in ts ==> Key(t) in keys
    ensures KeyedBy(ts, keys) == ts
  {
    if ts != [] {
      var prefix := ts[..|ts| - 1];
      assert forall t :: t in prefix ==> t in ts;
      KeyedByAll(prefix, keys);
      assert ts == prefix + [ts[|ts| - 1]];
    }
  }

  lemma {:induction false} KeyedByNone(ts: seq<Todo>)
    ensures KeyedBy(ts, []) == []
  {
    if ts != [] {
      KeyedByNone(ts[..|ts| - 1]);
    }
  }

  lemma FlattenBuildCons(keys: seq<string>, ts: seq<Todo>)
    requires keys != []
    ensures multiset(Flatten(Build(keys, ts))) ==
            multiset(WithKey(ts, keys[0])) + multiset(Flatten(Build(keys[1..], ts)))
  {
    assert Build(keys, ts)[1..] == Build(keys[1..], ts);
  }

  lemma {:induction false} FlattenBuild(keys: seq<string>, ts: seq<Todo>)
    requires Distinct(keys)
    ensures multiset(Flatten(Build(keys, ts))) == multiset(KeyedBy(ts, keys))
  {
    if keys != [] {
      var rest := keys[1..];
      assert Distinct(rest);
      forall j | 0 <= j < |rest| ensures rest[j] != keys[0] {
        assert rest[j] == keys[j + 1];
      }
      FlattenBuild(rest, ts);
      SplitKey(ts, keys[0], rest);
      FlattenBuildCons(keys, ts);
      assert [keys[0]] + rest == keys;
    } else {
      KeyedByNone(ts);
    }
  }

  /** Reading the page top to bottom gives every record of `todos` exactly as often as
      it occurs there: the view neither drops nor duplicates rows. */
  lemma RenderPermutation(ts: seq<Todo>, less: (string, string) -> bool)
    requires AllValid(ts)
    ensures multiset(Flatten(Render(ts, less))) == multiset(ts)
  {
    RenderKeys(ts, less);
    FirstSeenKeys(ts);
    SortKeysDistinct(FirstSeen(ts), less);
    var keys := SortKeys(FirstSeen(ts), less);
    FlattenBuild(keys, ts);
    KeyedByAll(ts, keys);
  }
}
