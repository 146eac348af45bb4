/**
 * The orders the list query can sort by, and a sort that establishes
 * them. The store's own sort is not visible; only "ordered by the key and
 * a permutation of the input" is claimed, never a particular tie order.
 */
module Ordering {
  import opened Tasks
  import opened Strings

  /** The closed set of orders `Get` can select. */
  datatype SortKey =
    | NameAscending
    | NameDescending
    | StatusAscending
    | StatusDescending
    | IdAscending

  /** `a` may stand before `b` under `k`. */
  predicate Le(k: SortKey, a: TaskItem, b: TaskItem) {
    match k
    case NameAscending => StrLe(a.taskName, b.taskName)
    case NameDescending => StrLe(b.taskName, a.taskName)
    case StatusAscending => StrLe(a.taskStatus, b.taskStatus)
    case StatusDescending => StrLe(b.taskStatus, a.taskStatus)
    case IdAscending => a.id <= b.id
  }

  lemma LeTotal(k: SortKey, a: TaskItem, b: TaskItem)
    ensures Le(k, a, b) || Le(k, b, a)
  {
    match k
    case NameAscending => StrLeTotal(a.taskName, b.taskName);
    case NameDescending => StrLeTotal(a.taskName, b.taskName);
    case StatusAscending => StrLeTotal(a.taskStatus, b.taskStatus);
    case StatusDescending => StrLeTotal(a.taskStatus, b.taskStatus);
    case IdAscending =>
  }

  lemma LeTransitive(k: SortKey, a: TaskItem, b: TaskItem, c: TaskItem)
    requires Le(k, a, b) && Le(k, b, c)
    ensures Le(k, a, c)
  {
    match k
    case NameAscending => StrLeTransitive(a.taskName, b.taskName, c.taskName);
    case NameDescending => StrLeTransitive(c.taskName, b.taskName, a.taskName);
    case StatusAscending => StrLeTransitive(a.taskStatus, b.taskStatus, c.taskStatus);
    case StatusDescending => StrLeTransitive(c.taskStatus, b.taskStatus, a.taskStatus);
    case IdAscending =>
  }

  predicate Sorted(k: SortKey, s: seq<TaskItem>) {
    forall i, j :: 0 <= i < j < |s| ==> Le(k, s[i], s[j])
  }

  /** Places `x` into the sorted sequence `s`. */
  function Insert(k: SortKey, x: TaskItem, s: seq<TaskItem>): (r: seq<TaskItem>)
    requires Sorted(k, s)
    ensures Sorted(k, r)
    ensures multiset(r) == multiset(s) + multiset{x}
  {
    if s == [] then
      [x]
    else if Le(k, x, s[0]) then
      SortedCons(k, x, s);
      [x] + s
    else
      LeTotal(k, x, s[0]);
      var rest := Insert(k, x, s[1..]);
      assert s == [s[0]] + s[1..];
      SortedConsAll(k, s, x, rest);
      [s[0]] + rest
  }

  /** A sorted sequence stays sorted with a new least element in front. */
  lemma SortedCons(k: SortKey, x: TaskItem, s: seq<TaskItem>)
    requires Sorted(k, s) && s != [] && Le(k, x, s[0])
    ensures Sorted(k, [x] + s)
  {
    var r := [x] + s;
    forall i, j | 0 <= i < j < |r| ensures Le(k, r[i], r[j]) {
      if i == 0 {
        if j > 1 { LeTransitive(k, x, s[0], s[j - 1]); }
      } else {
        assert r[i] == s[i - 1] && r[j] == s[j - 1];
      }
    }
  }

  /** `s[0]` in front of the sorted insertion of `x` into `s[1..]` keeps the order. */
  lemma SortedConsAll(k: SortKey, s: seq<TaskItem>, x: TaskItem, rest: seq<TaskItem>)
    requires Sorted(k, s) && s != [] && Le(k, s[0], x)
    requires Sorted(k, rest) && multiset(rest) == multiset(s[1..]) + multiset{x}
    ensures Sorted(k, [s[0]] + rest)
  {
    forall y | y in rest ensures Le(k, s[0], y) {
      assert y in multiset(rest);
      if y != x {
        assert y in multiset(s[1..]);
        var j :| 0 <= j < |s[1..]| && s[1..][j] == y;
        assert s[j + 1] == y;
      }
    }
    var r := [s[0]] + rest;
    forall i, j | 0 <= i < j < |r| ensures Le(k, r[i], r[j]) {
      if i == 0 {
        assert r[j] == rest[j - 1] && rest[j - 1] in rest;
      } else {
        assert r[i] == rest[i - 1] && r[j] == rest[j - 1];
      }
    }
  }

  /** Sorts `s` by `k`. */
  function Sort(k: SortKey, s: seq<TaskItem>): (r: seq<TaskItem>)
    ensures Sorted(k, r)
    ensures multiset(r) == multiset(s)
  {
    if s == [] then
      []
    else
      assert s == [s[0]] + s[1..];
      Insert(k, s[0], Sort(k, s[1..]))
  }
}
