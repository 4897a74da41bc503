/** The `reduce` of the render expression that files each record under its owner:
    `groups[todo.userName]`, created empty on first use, then `push(todo)`. */
module Grouping {
  import opened Records
  import opened Ordering

  /** The property name a record is filed under: its `userName` coerced to a string.
      A record without one (the record addTodo appends locally) is filed under "undefined". */
  function Key(t: Todo): string {
    match t.userName
    case Some(name) => name
    case None => "undefined"
  }

  /** The records filed under `k`, in list order. */
  function WithKey(ts: seq<Todo>, k: string): (r: seq<Todo>)
    ensures forall t :: t in r <==> t in ts && Key(t) == k
  {
    if ts == [] then []
    else
      var rest := WithKey(ts[..|ts| - 1], k);
      var last := ts[|ts| - 1];
      assert ts == ts[..|ts| - 1] + [last];
      if Key(last) == k then rest + [last] else rest
  }

  /** The keys of the accumulator object in the order they were created, which is the
      order of their first record: each key once, and exactly the keys of the records. */
  function FirstSeen(ts: seq<Todo>): (r: seq<string>)
  {
    if ts == [] then []
    else
      var rest := FirstSeen(ts[..|ts| - 1]);
      var last := ts[|ts| - 1];
      assert ts == ts[..|ts| - 1] + [last];
      if Key(last) in rest then rest else rest + [Key(last)]
  }

  /** The keys of the accumulator, each once: exactly the keys of the records. */
  lemma {:induction false} FirstSeenKeys(ts: seq<Todo>)
    ensures Distinct(FirstSeen(ts))
    ensures forall t :: t in ts ==> Key(t) in FirstSeen(ts)
    ensures forall k :: k in FirstSeen(ts) ==> exists t :: t in ts && Key(t) == k
  {
    if ts != [] {
      var prefix := ts[..|ts| - 1];
      FirstSeenKeys(prefix);
      assert ts == prefix + [ts[|ts| - 1]];
    }
  }

  lemma WithKeyStep(ts: seq<Todo>, i: nat, k: string)
    requires i < |ts|
    ensures WithKey(ts[..i + 1], k) == WithKey(ts[..i], k) + (if Key(ts[i]) == k then [ts[i]] else [])
  {
    assert ts[..i + 1][..i] == ts[..i];
  }

  lemma FirstSeenStep(ts: seq<Todo>, i: nat)
    requires i < |ts|
    ensures FirstSeen(ts[..i + 1]) ==
      if Key(ts[i]) in FirstSeen(ts[..i]) then FirstSeen(ts[..i]) else FirstSeen(ts[..i]) + [Key(ts[i])]
  {
    assert ts[..i + 1][..i] == ts[..i];
  }

  /** A key no record has holds no records. */
  lemma {:induction false} UnseenKeyEmpty(ts: seq<Todo>, k: string)
    requires k !in FirstSeen(ts)
    ensures WithKey(ts, k) == []
  {
    if ts != [] {
      var prefix := ts[..|ts| - 1];
      assert forall x :: x in FirstSeen(prefix) ==> x in FirstSeen(ts);
      UnseenKeyEmpty(prefix, k);
    }
  }

  /** One step of the reduce, `if (!groups[group]) groups[group] = []; groups[group].push(todo)`,
      keeps the key order: the keys are those of the first `i + 1` records, in creation order. */
  lemma FileStepKeys(ts: seq<Todo>, i: nat, groups: map<string, seq<Todo>>, order: seq<string>,
                     groups': map<string, seq<Todo>>, order': seq<string>)
    requires i < |ts| && order == FirstSeen(ts[..i]) && forall k :: k in groups <==> k in order
    requires Key(ts[i]) in groups ==>
               order' == order && groups' == groups[Key(ts[i]) := groups[Key(ts[i])] + [ts[i]]]
    requires Key(ts[i]) !in groups ==>
               order' == order + [Key(ts[i])] && groups' == groups[Key(ts[i]) := [] + [ts[i]]]
    ensures order' == FirstSeen(ts[..i + 1])
    ensures forall k :: k in groups' <==> k in order'
  {
    FirstSeenStep(ts, i);
  }

  /** ... and keeps every key's records: each holds those of the first `i + 1` records. */
  lemma FileStepContents(ts: seq<Todo>, i: nat, groups: map<string, seq<Todo>>, order: seq<string>,
                         groups': map<string, seq<Todo>>, order': seq<string>)
    requires i < |ts| && order == FirstSeen(ts[..i]) && forall k :: k in groups <==> k in order
    requires forall k :: k in groups ==> groups[k] == WithKey(ts[..i], k)
    requires Key(ts[i]) in groups ==>
               order' == order && groups' == groups[Key(ts[i]) := groups[Key(ts[i])] + [ts[i]]]
    requires Key(ts[i]) !in groups ==>
               order' == order + [Key(ts[i])] && groups' == groups[Key(ts[i]) := [] + [ts[i]]]
    ensures forall k :: k in groups' ==> groups'[k] == WithKey(ts[..i + 1], k)
  {
    var key := Key(ts[i]);
    if key !in groups {
      UnseenKeyEmpty(ts[..i], key);
    }
    forall k | k in groups' ensures groups'[k] == WithKey(ts[..i + 1], k) {
      WithKeyStep(ts, i, k);
    }
  }

  /** The reduce callback on a map accumulator: `t` goes at the end of its key's group,
      which is created empty first when the key is new; no other group changes. */
  method File(groups: map<string, seq<Todo>>, t: Todo) returns (filed: map<string, seq<Todo>>)
    ensures Key(t) in groups ==> filed == groups[Key(t) := groups[Key(t)] + [t]]
    ensures Key(t) !in groups ==> filed == groups[Key(t) := [] + [t]]
  {
    var group := Key(t);
    filed := groups;
    if group !in filed {
      filed := filed[group := []];
    }
    filed := filed[group := filed[group] + [t]];
  }

  /** The reduce over a map: every key it creates holds exactly that owner's records,
      in list order, and the keys come in order of first appearance. */
  method GroupByOwner(ts: seq<Todo>) returns (groups: map<string, seq<Todo>>, order: seq<string>)
    ensures order == FirstSeen(ts)
    ensures forall k :: k in groups <==> k in order
    ensures forall k :: k in groups ==> groups[k] == WithKey(ts, k)
  {
    groups, order := map[], [];
    var i := 0;
    while i < |ts|
      invariant 0 <= i <= |ts|
      invariant order == FirstSeen(ts[..i])
      invariant forall k :: k in groups <==> k in order
      invariant forall k :: k in groups ==> groups[k] == WithKey(ts[..i], k)
    {
      ghost var groups0, order0 := groups, order;
      if Key(ts[i]) !in groups {
        order := order + [Key(ts[i])];
      }
      groups := File(groups, ts[i]);
      FileStepKeys(ts, i, groups0, order0, groups, order);
      FileStepContents(ts, i, groups0, order0, groups, order);
      i := i + 1;
    }
    assert ts[..|ts|] == ts;
  }

  /** The names a plain object `{}` inherits from `Object.prototype`. Looking one of
      them up on the accumulator yields a function or an object, which is truthy. */
  const InheritedNames: set<string> := {
    "constructor", "__proto__", "hasOwnProperty", "isPrototypeOf", "propertyIsEnumerable",
    "toString", "toLocaleString", "valueOf",
    "__defineGetter__", "__defineSetter__", "__lookupGetter__", "__lookupSetter__"
  }

  /** Some record is filed under an inherited name: `groups[group]` is truthy but not an
      array, so `groups[group].push(todo)` throws a TypeError and the render fails. */
  predicate ReduceThrows(ts: seq<Todo>) {
    exists i :: 0 <= i < |ts| && Key(ts[i]) in InheritedNames
  }

  lemma ThrowsStep(ts: seq<Todo>, i: nat)
    requires i < |ts|
    ensures ReduceThrows(ts[..i + 1]) <==> ReduceThrows(ts[..i]) || Key(ts[i]) in InheritedNames
  {
    var p, q := ts[..i], ts[..i + 1];
    if ReduceThrows(q) && Key(ts[i]) !in InheritedNames {
      var j :| 0 <= j < |q| && Key(q[j]) in InheritedNames;
      assert j < i && p[j] == q[j];
    }
    if ReduceThrows(p) {
      var j :| 0 <= j < |p| && Key(p[j]) in InheritedNames;
      assert q[j] == p[j];
    }
    if Key(ts[i]) in InheritedNames {
      assert q[i] == ts[i];
    }
  }

  lemma ThrowsFromPrefix(ts: seq<Todo>, i: nat)
    requires i <= |ts| && ReduceThrows(ts[..i])
    ensures ReduceThrows(ts)
  {
    var j :| 0 <= j < i && Key(ts[..i][j]) in InheritedNames;
    assert ts[..i][j] == ts[j];
  }

  /** The reduce as written, over the object literal `{}`: it throws at the first record
      filed under an inherited name, and otherwise builds the same groups as GroupByOwner. */
  method GroupByOwnerAsWritten(ts: seq<Todo>) returns (outcome: Option<map<string, seq<Todo>>>)
    ensures outcome.None? <==> ReduceThrows(ts)
    ensures outcome.Some? ==> forall k :: k in outcome.value <==> k in FirstSeen(ts)
    ensures outcome.Some? ==> forall k :: k in outcome.value ==> outcome.value[k] == WithKey(ts, k)
  {
    var groups: map<string, seq<Todo>> := map[];
    ghost var order: seq<string> := [];
    var i := 0;
    while i < |ts|
      invariant 0 <= i <= |ts|
      invariant !ReduceThrows(ts[..i])
      invariant order == FirstSeen(ts[..i])
      invariant forall k :: k in groups <==> k in order
      invariant forall k :: k in groups ==> groups[k] == WithKey(ts[..i], k)
    {
      var key := Key(ts[i]);
      ThrowsStep(ts, i);
      if key in InheritedNames {
        ThrowsFromPrefix(ts, i + 1);
        return None;
      }
      ghost var groups0, order0 := groups, order;
      if key !in groups {
        order := order + [key];
      }
      groups := File(groups, ts[i]);
      FileStepKeys(ts, i, groups0, order0, groups, order);
      FileStepContents(ts, i, groups0, order0, groups, order);
      i := i + 1;
    }
    assert ts[..|ts|] == ts;
    outcome := Some(groups);
  }

  /** A single record of a user whose display name is "constructor" makes the render throw. */
  lemma ConstructorOwnerThrows(t: Todo)
    requires t.userName == Some("constructor")
    ensures ReduceThrows([t])
  {
    assert Key([t][0]) in InheritedNames;
  }
}
