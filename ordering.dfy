/** The two sorts of the rendered view: owner keys by the string comparison
    `localeCompare`, and each owner's records by day. */
module Ordering {
  import opened Records
  import opened IsoDate

  /** A strict total order on strings. `localeCompare` is locale-dependent, so the
      comparison is a parameter; it is required to order distinct strings strictly. */
  ghost predicate StrictTotal(less: (string, string) -> bool) {
    && (forall a :: !less(a, a))
    && (forall a, b, c :: less(a, b) && less(b, c) ==> less(a, c))
    && (forall a, b :: a != b ==> less(a, b) || less(b, a))
  }

  predicate Distinct(ks: seq<string>) {
    forall i, j :: 0 <= i < j < |ks| ==> ks[i] != ks[j]
  }

  predicate Ascending(ks: seq<string>, less: (string, string) -> bool) {
    forall i, j :: 0 <= i < j < |ks| ==> less(ks[i], ks[j])
  }

  /** `k` placed in front of the first element that is not less than it, so that `k`
      stays ahead of the elements it ties with. */
  function InsertKey(k: string, s: seq<string>, less: (string, string) -> bool): (r: seq<string>)
    ensures multiset(r) == multiset(s) + multiset{k}
  {
    if s == [] then [k]
    else if !less(s[0], k) then [k] + s
    else
      assert s == [s[0]] + s[1..];
      [s[0]] + InsertKey(k, s[1..], less)
  }

  /** `Object.entries(groups).sort(([a], [b]) => a.localeCompare(b))`, on the keys:
      the same keys, rearranged. */
  function SortKeys(ks: seq<string>, less: (string, string) -> bool): (r: seq<string>)
    ensures multiset(r) == multiset(ks)
  {
    if ks == [] then []
    else
      assert ks == [ks[0]] + ks[1..];
      InsertKey(ks[0], SortKeys(ks[1..], less), less)
  }

  /** The head of an ascending sequence is below every other element. */
  lemma HeadIsLeast(s: seq<string>, x: string, less: (string, string) -> bool)
    requires Ascending(s, less) && x in s
    ensures x == s[0] || less(s[0], x)
  {
    var j :| 0 <= j < |s| && s[j] == x;
    if j > 0 {
      assert less(s[0], s[j]);
    }
  }

  lemma ConsAscending(k: string, s: seq<string>, less: (string, string) -> bool)
    requires Ascending(s, less) && forall x :: x in s ==> less(k, x)
    ensures Ascending([k] + s, less)
  {
    var r := [k] + s;
    forall i, j | 0 <= i < j < |r| ensures less(r[i], r[j]) {
      assert r[j] == s[j - 1];
      if i > 0 {
        assert r[i] == s[i - 1];
      } else {
        assert s[j - 1] in s;
      }
    }
  }

  lemma {:induction false} InsertKeyAscending(k: string, s: seq<string>, less: (string, string) -> bool)
    requires StrictTotal(less) && Ascending(s, less) && k !in s
    ensures Ascending(InsertKey(k, s, less), less)
  {
    if s == [] {
    } else if !less(s[0], k) {
      assert s[0] in s && less(k, s[0]);
      forall x | x in s ensures less(k, x) {
        HeadIsLeast(s, x, less);
      }
      ConsAscending(k, s, less);
    } else {
      var tail := s[1..];
      InsertKeyAscending(k, tail, less);
      var rest := InsertKey(k, tail, less);
      forall x | x in rest ensures less(s[0], x) {
        assert x in multiset(rest);
        if x != k {
          assert x in multiset(tail) && x in s;
          HeadIsLeast(s, x, less);
          assert tail[..] == s[1..];
        }
      }
      ConsAscending(s[0], rest, less);
    }
  }

  lemma {:induction false} InsertKeyDistinct(k: string, s: seq<string>, less: (string, string) -> bool)
    requires Distinct(s) && k !in s
    ensures Distinct(InsertKey(k, s, less))
  {
    if s != [] && less(s[0], k) {
      var tail := s[1..];
      HeadNotInTail(s);
      InsertKeyDistinct(k, tail, less);
      var rest := InsertKey(k, tail, less);
      assert s[0] !in multiset(rest);
      ConsDistinct(s[0], rest);
    } else {
      ConsDistinct(k, s);
    }
  }

  lemma HeadNotInTail(s: seq<string>)
    requires Distinct(s) && s != []
    ensures Distinct(s[1..]) && s[0] !in s[1..]
  {
    forall j | 0 <= j < |s| - 1 ensures s[1..][j] != s[0] {
      assert s[1..][j] == s[j + 1];
    }
  }

  lemma ConsDistinct(x: string, r: seq<string>)
    requires Distinct(r) && x !in r
    ensures Distinct([x] + r)
  {
    var xr := [x] + r;
    forall i, j | 0 <= i < j < |xr| ensures xr[i] != xr[j] {
      assert xr[j] == r[j - 1];
      if i > 0 {
        assert xr[i] == r[i - 1];
      }
    }
  }

  /** Sorting keeps distinct keys distinct, whatever the comparison. */
  lemma {:induction false} SortKeysDistinct(ks: seq<string>, less: (string, string) -> bool)
    requires Distinct(ks)
    ensures Distinct(SortKeys(ks, less))
  {
    if ks != [] {
      var tail := ks[1..];
      HeadNotInTail(ks);
      SortKeysDistinct(tail, less);
      assert ks[0] !in multiset(SortKeys(tail, less));
      InsertKeyDistinct(ks[0], SortKeys(tail, less), less);
    }
  }

  /** Sorting distinct keys gives them in strictly ascending order. */
  lemma {:induction false} SortKeysAscending(ks: seq<string>, less: (string, string) -> bool)
    requires StrictTotal(less) && Distinct(ks)
    ensures Ascending(SortKeys(ks, less), less)
  {
    if ks != [] {
      var tail := ks[1..];
      SortKeysAscending(tail, less);
      forall j | 0 <= j < |tail| ensures tail[j] != ks[0] {
        assert tail[j] == ks[j + 1];
      }
      assert ks[0] !in multiset(SortKeys(tail, less));
      InsertKeyAscending(ks[0], SortKeys(tail, less), less);
    }
  }

  /** Keys that all compare equal keep their order, as the stable `Array.prototype.sort`
      keeps entries whose comparison returns 0. */
  lemma {:induction false} SortKeysAllTies(ks: seq<string>, less: (string, string) -> bool)
    requires forall i, j :: 0 <= i < |ks| && 0 <= j < |ks| ==> !less(ks[i], ks[j])
    ensures SortKeys(ks, less) == ks
  {
    if ks != [] {
      var tail := ks[1..];
      forall i, j | 0 <= i < |tail| && 0 <= j < |tail| ensures !less(tail[i], tail[j]) {
        assert tail[i] == ks[i + 1] && tail[j] == ks[j + 1];
      }
      SortKeysAllTies(tail, less);
      if tail != [] {
        assert tail[0] == ks[1];
      }
      assert ks == [ks[0]] + tail;
    }
  }

  /** Under a strict total order an ascending arrangement of a collection of keys is
      unique: the sorted keys do not depend on the order the groups were created in. */
  lemma {:induction false} AscendingUnique(a: seq<string>, b: seq<string>, less: (string, string) -> bool)
    requires StrictTotal(less) && Ascending(a, less) && Ascending(b, less)
    requires multiset(a) == multiset(b)
    ensures a == b
  {
    if a != [] {
      assert |b| == |multiset(b)| == |a|;
      SameHead(a, b, less);
      TailMultiset(a);
      TailMultiset(b);
      AscendingUnique(a[1..], b[1..], less);
      assert a == [a[0]] + a[1..] && b == [b[0]] + b[1..];
    }
  }

  lemma SameHead(a: seq<string>, b: seq<string>, less: (string, string) -> bool)
    requires StrictTotal(less) && Ascending(a, less) && Ascending(b, less)
    requires multiset(a) == multiset(b) && a != [] && b != []
    ensures a[0] == b[0]
  {
    assert a[0] in multiset(b) && b[0] in multiset(a);
    HeadIsLeast(a, b[0], less);
    HeadIsLeast(b, a[0], less);
  }

  lemma TailMultiset(s: seq<string>)
    requires s != []
    ensures multiset(s[1..]) == multiset(s) - multiset{s[0]}
  {
    assert s == [s[0]] + s[1..];
  }

  /** No record comes after one of a later day. */
  predicate ByDay(s: seq<Todo>) {
    forall i, j :: 0 <= i < j < |s| ==> !Before(s[j].date, s[i].date)
  }

  /** `t` placed in front of the first record that is not of an earlier day. */
  function InsertByDate(t: Todo, s: seq<Todo>): (r: seq<Todo>)
    ensures multiset(r) == multiset(s) + multiset{t}
  {
    if s == [] then [t]
    else if Before(s[0].date, t.date) then
      assert s == [s[0]] + s[1..];
      [s[0]] + InsertByDate(t, s[1..])
    else [t] + s
  }

  /** `todosInGroup.sort((a, b) => new Date(a.date) - new Date(b.date))`: the same
      records, rearranged. */
  function SortByDate(s: seq<Todo>): (r: seq<Todo>)
    ensures multiset(r) == multiset(s)
  {
    if s == [] then []
    else
      assert s == [s[0]] + s[1..];
      InsertByDate(s[0], SortByDate(s[1..]))
  }

  /** Nothing in a by-day sequence is of an earlier day than its head. */
  lemma HeadIsEarliest(s: seq<Todo>, x: Todo)
    requires ByDay(s) && x in s
    ensures !Before(x.date, s[0].date)
  {
    var j :| 0 <= j < |s| && s[j] == x;
    if j > 0 {
      assert !Before(s[j].date, s[0].date);
    }
  }

  lemma ConsByDay(t: Todo, s: seq<Todo>)
    requires ByDay(s)
    requires forall x :: x in s ==> !Before(x.date, t.date)
    ensures ByDay([t] + s)
  {
    var r := [t] + s;
    forall i, j | 0 <= i < j < |r| ensures !Before(r[j].date, r[i].date) {
      assert r[j] == s[j - 1];
      if i > 0 {
        assert r[i] == s[i - 1];
      } else {
        assert s[j - 1] in s;
      }
    }
  }

  lemma {:induction false} InsertByDateOrdered(t: Todo, s: seq<Todo>)
    requires ByDay(s)
    ensures ByDay(InsertByDate(t, s))
  {
    if s == [] {
    } else if Before(s[0].date, t.date) {
      var tail := s[1..];
      assert ByDay(tail);
      InsertByDateOrdered(t, tail);
      var rest := InsertByDate(t, tail);
      forall x | x in rest ensures !Before(x.date, s[0].date) {
        assert x in multiset(rest);
        if x == t {
          Trichotomy(s[0].date, t.date);
        } else {
          assert x in multiset(tail) && x in s;
          HeadIsEarliest(s, x);
        }
      }
      ConsByDay(s[0], rest);
    } else {
      forall x | x in s ensures !Before(x.date, t.date) {
        HeadIsEarliest(s, x);
        NotBeforeTransitive(x.date, s[0].date, t.date);
      }
      ConsByDay(t, s);
    }
  }

  /** The records of a group come out ordered by day. */
  lemma {:induction false} SortByDateOrdered(s: seq<Todo>)
    ensures ByDay(SortByDate(s))
  {
    if s != [] {
      SortByDateOrdered(s[1..]);
      InsertByDateOrdered(s[0], SortByDate(s[1..]));
    }
  }

  /** The records of `s` on the day of `d`, in their order. */
  function OnDay(s: seq<Todo>, d: string): seq<Todo> {
    if s == [] then []
    else
      (if SameDay(s[0].date, d) then [s[0]] else []) + OnDay(s[1..], d)
  }

  lemma {:induction false} InsertByDateOnDay(t: Todo, s: seq<Todo>, d: string)
    ensures OnDay(InsertByDate(t, s), d) == (if SameDay(t.date, d) then [t] else []) + OnDay(s, d)
  {
    if s == [] {
      OnDayCons(t, [], d);
    } else if Before(s[0].date, t.date) {
      var tail := InsertByDate(t, s[1..]);
      InsertByDateOnDay(t, s[1..], d);
      OnDayCons(s[0], tail, d);
      var first := if SameDay(s[0].date, d) then [s[0]] else [];
      var head := if SameDay(t.date, d) then [t] else [];
      assert OnDay(s, d) == first + OnDay(s[1..], d);
      assert first == [] || head == [];
      assert InsertByDate(t, s) == [s[0]] + tail;
      calc {
        OnDay(InsertByDate(t, s), d);
        first + OnDay(tail, d);
        first + (head + OnDay(s[1..], d));
        { EmptyPrefixCommutes(first, head, OnDay(s[1..], d)); }
        head + (first + OnDay(s[1..], d));
        head + OnDay(s, d);
      }
    } else {
      OnDayCons(t, s, d);
    }
  }

  lemma EmptyPrefixCommutes(a: seq<Todo>, b: seq<Todo>, x: seq<Todo>)
    requires a == [] || b == []
    ensures a + (b + x) == b + (a + x)
  {
    if a == [] {
      assert a + (b + x) == b + x == b + (a + x);
    } else {
      assert a + (b + x) == a + x == b + (a + x);
    }
  }

  lemma OnDayCons(x: Todo, rest: seq<Todo>, d: string)
    ensures OnDay([x] + rest, d) == (if SameDay(x.date, d) then [x] else []) + OnDay(rest, d)
  {
    assert ([x] + rest)[1..] == rest;
  }

  /** The sort is stable: records of the same day keep the order they had. */
  lemma {:induction false} SortByDateStable(s: seq<Todo>, d: string)
    ensures OnDay(SortByDate(s), d) == OnDay(s, d)
  {
    if s != [] {
      SortByDateStable(s[1..], d);
      InsertByDateOnDay(s[0], SortByDate(s[1..]), d);
    }
  }
}
