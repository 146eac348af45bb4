/**
 * The read side of the controller: the list query of `Get` (owner filter,
 * optional name search, sort, count, page) and the find-by-id of `GetByID`.
 * Both are functions of the table's contents, so neither can change it.
 */
module TaskQuery {
  import opened Tasks
  import opened Strings
  import opened Ordering

  /** The elements of `s` that satisfy `p` (LINQ `Where`). */
  function Where(s: seq<TaskItem>, p: TaskItem -> bool): (r: seq<TaskItem>)
    ensures forall t :: multiset(r)[t] == if p(t) then multiset(s)[t] else 0
    ensures forall t :: t in r <==> t in s && p(t)
    ensures |r| <= |s|
  {
    if s == [] then
      []
    else
      assert s == [s[0]] + s[1..];
      var rest := Where(s[1..], p);
      if p(s[0]) then [s[0]] + rest else rest
  }

  /** LINQ `Skip`: drops the first `n` elements; a count `n <= 0` drops none. */
  function Skip(s: seq<TaskItem>, n: int): (r: seq<TaskItem>)
    ensures |r| == if n <= 0 then |s| else if n >= |s| then 0 else |s| - n
    ensures forall k :: 0 <= k < |r| ==> r[k] == s[k + |s| - |r|]
  {
    if n <= 0 then s else if n >= |s| then [] else s[n..]
  }

  /** LINQ `Take`: keeps the first `n` elements; a count `n <= 0` keeps none. */
  function Take(s: seq<TaskItem>, n: int): (r: seq<TaskItem>)
    ensures |r| == if n <= 0 then 0 else if n >= |s| then |s| else n
    ensures forall k :: 0 <= k < |r| ==> r[k] == s[k]
  {
    if n <= 0 then [] else if n >= |s| then s else s[..n]
  }

  function Min(a: int, b: int): int { if a <= b then a else b }

  /** Number of items before page `page` (1-based) of `pageSize` items. */
  function Offset(page: int, pageSize: int): (n: nat)
    requires page >= 1 && pageSize >= 0
  {
    (page - 1) * pageSize
  }

  /**
   * Page `page` (1-based) of `pageSize` items: `Skip((page - 1) * pageSize)`
   * then `Take(pageSize)`, with the offset computed without overflow.
   */
  function Page(s: seq<TaskItem>, page: int, pageSize: int): (r: seq<TaskItem>)
    requires page >= 1 && pageSize >= 0
    ensures var lo := Min(|s|, Offset(page, pageSize));
            r == s[lo..Min(|s|, lo + pageSize)]
    ensures |r| <= pageSize
    ensures |r| == Min(pageSize, if |s| <= Offset(page, pageSize) then 0 else |s| - Offset(page, pageSize))
    ensures forall k :: 0 <= k < |r| ==> r[k] == s[Offset(page, pageSize) + k]
  {
    Take(Skip(s, Offset(page, pageSize)), pageSize)
  }

  /** `x` fits a C# `int`. */
  predicate IsInt32(x: int) {
    -0x8000_0000 <= x < 0x8000_0000
  }

  /** Unchecked 32-bit two's-complement wrap-around of `x`. */
  function Wrap32(x: int): (r: int)
    ensures IsInt32(r)
    ensures (x - r) % 0x1_0000_0000 == 0
    ensures IsInt32(x) ==> r == x
  {
    (x + 0x8000_0000) % 0x1_0000_0000 - 0x8000_0000
  }

  /**
   * Paging with the source's offset arithmetic: page and pageSize are C#
   * `int`s and `(page - 1) * pageSize` is an unchecked 32-bit product. A
   * wrapped offset that comes out negative is given LINQ-to-Objects'
   * meaning (nothing is skipped); a database may reject it instead.
   */
  function PageAsWritten(s: seq<TaskItem>, page: int, pageSize: int): (r: seq<TaskItem>)
    requires IsInt32(page) && IsInt32(pageSize) && page >= 1 && pageSize >= 0
    ensures Offset(page, pageSize) < 0x8000_0000 ==> r == Page(s, page, pageSize)
  {
    Take(Skip(s, Wrap32((page - 1) * pageSize)), pageSize)
  }

  /**
   * Page 65537 of 65536-item pages starts at item 2^32, past any table of
   * at most 65536 tasks, yet the wrapped offset is 0 and the first page
   * comes back instead of an empty one.
   */
  lemma PageOffsetWrapsAround(s: seq<TaskItem>)
    requires 1 <= |s| <= 65536
    ensures PageAsWritten(s, 65537, 65536) == s
    ensures Page(s, 65537, 65536) == []
  {
    assert Offset(65537, 65536) == 0x1_0000_0000;
    assert Wrap32(0x1_0000_0000) == 0;
  }

  /** Every element of `s` is on exactly the page its position says. */
  lemma PageCovers(s: seq<TaskItem>, pageSize: int, k: int)
    requires pageSize > 0 && 0 <= k < |s|
    ensures k / pageSize + 1 >= 1
    ensures var p := Page(s, k / pageSize + 1, pageSize);
            k % pageSize < |p| && p[k % pageSize] == s[k]
  {
    var q, m := k / pageSize, k % pageSize;
    assert q * pageSize + m == k;
    assert q * pageSize <= k;
  }

  /** `search` filters only when it is neither null nor empty. */
  predicate SearchApplies(search: Option<string>): (b: bool)
    ensures b <==> search.Some? && |search.value| > 0
  {
    search.Some? && search.value != ""
  }

  /** `t` belongs to the listing of `user` under `search`. */
  predicate Selected(t: TaskItem, user: string, search: Option<string>): (b: bool)
    ensures b <==> t.owner == user &&
                   (search.None? || |search.value| == 0 || exists i :: OccursAt(t.taskName, search.value, i))
  {
    t.owner == user && (SearchApplies(search) ==> Contains(t.taskName, search.value))
  }

  /** The `switch (sortBy)` of `Get`, with its ascending/descending choice. */
  function SortKeyOf(sortBy: string, order: string): SortKey {
    match sortBy
    case "taskName" => if order == "ascending" then NameAscending else NameDescending
    case "taskStatus" => if order == "ascending" then StatusAscending else StatusDescending
    case _ => IdAscending
  }

  /** The caller's tasks, searched and sorted: the query before paging. */
  function Query(tasks: seq<TaskItem>, user: string, sortBy: string, order: string,
                 search: Option<string>): (q: seq<TaskItem>)
    ensures forall t :: multiset(q)[t] == if Selected(t, user, search) then multiset(tasks)[t] else 0
    ensures Sorted(SortKeyOf(sortBy, order), q)
  {
    var owned := Where(tasks, (t: TaskItem) => t.owner == user);
    var found := if SearchApplies(search)
                 then Where(owned, (t: TaskItem) => Contains(t.taskName, search.value))
                 else owned;
    Sort(SortKeyOf(sortBy, order), found)
  }

  /** What `Sorted` under the key `sortBy` and `order` select means for the sequence. */
  lemma SortedByRequest(sortBy: string, order: string, q: seq<TaskItem>)
    requires Sorted(SortKeyOf(sortBy, order), q)
    ensures sortBy == "taskName" && order == "ascending" ==>
              forall i, j :: 0 <= i < j < |q| ==> StrLe(q[i].taskName, q[j].taskName)
    ensures sortBy == "taskName" && order != "ascending" ==>
              forall i, j :: 0 <= i < j < |q| ==> StrLe(q[j].taskName, q[i].taskName)
    ensures sortBy == "taskStatus" && order == "ascending" ==>
              forall i, j :: 0 <= i < j < |q| ==> StrLe(q[i].taskStatus, q[j].taskStatus)
    ensures sortBy == "taskStatus" && order != "ascending" ==>
              forall i, j :: 0 <= i < j < |q| ==> StrLe(q[j].taskStatus, q[i].taskStatus)
    ensures sortBy != "taskName" && sortBy != "taskStatus" ==>
              forall i, j :: 0 <= i < j < |q| ==> q[i].id <= q[j].id
  {
  }

  /** What the 200 envelope of `Get` carries. */
  datatype Listing = Listing(items: seq<TaskItem>, totalCount: nat, page: int, pageSize: int)

  /** `Get(sortBy, order, page, pageSize, search)` as called by `user`. */
  function Get(tasks: seq<TaskItem>, user: string, sortBy: string := "", order: string := "",
               page: int := 1, pageSize: int := 10, search: Option<string> := None): (r: Listing)
    requires page >= 1 && pageSize >= 0
    ensures var q := Query(tasks, user, sortBy, order, search);
            && r.totalCount == |q|
            && |r.items| == Min(pageSize, if |q| <= Offset(page, pageSize) then 0 else |q| - Offset(page, pageSize))
            && (forall k :: 0 <= k < |r.items| ==> r.items[k] == q[Offset(page, pageSize) + k])
    ensures forall t :: t in r.items ==> t in tasks && Selected(t, user, search)
    ensures Sorted(SortKeyOf(sortBy, order), r.items)
    ensures r.page == page && r.pageSize == pageSize
  {
    var q := Query(tasks, user, sortBy, order, search);
    var items := Page(q, page, pageSize);
    PageOfQuery(tasks, user, search, SortKeyOf(sortBy, order), q, page, pageSize);
    Listing(items, |q|, page, pageSize)
  }

  /** A page of a selected, sorted sequence is selected and sorted. */
  lemma PageOfQuery(tasks: seq<TaskItem>, user: string, search: Option<string>, k: SortKey,
                    q: seq<TaskItem>, page: int, pageSize: int)
    requires page >= 1 && pageSize >= 0
    requires forall t :: multiset(q)[t] == if Selected(t, user, search) then multiset(tasks)[t] else 0
    requires Sorted(k, q)
    ensures forall t :: t in Page(q, page, pageSize) ==> t in tasks && Selected(t, user, search)
    ensures Sorted(k, Page(q, page, pageSize))
  {
    var lo := Min(|q|, Offset(page, pageSize));
    var hi := Min(|q|, lo + pageSize);
    assert Page(q, page, pageSize) == q[lo..hi];
    SliceSorted(k, q, lo, hi);
    forall t | t in q[lo..hi] ensures t in tasks && Selected(t, user, search) {
      assert t in q;
      assert t in multiset(q);
    }
  }

  lemma SliceSorted(k: SortKey, q: seq<TaskItem>, lo: int, hi: int)
    requires 0 <= lo <= hi <= |q| && Sorted(k, q)
    ensures Sorted(k, q[lo..hi])
  {
  }

  /**
   * `GET /api/tasks` with no query string: the caller's first ten tasks,
   * in ascending id order, with the full count.
   */
  lemma DefaultListing(tasks: seq<TaskItem>, user: string)
    ensures var r := Get(tasks, user);
            && r.page == 1 && r.pageSize == 10
            && r.totalCount == |Query(tasks, user, "", "", None)|
            && r.items == Query(tasks, user, "", "", None)[..Min(10, r.totalCount)]
            && (forall t :: t in r.items ==> t in tasks && t.owner == user)
            && (forall i, j :: 0 <= i < j < |r.items| ==> r.items[i].id <= r.items[j].id)
  {
    var q := Query(tasks, user, "", "", None);
    var r := Get(tasks, user);
    assert Offset(1, 10) == 0;
    assert r.items == q[..Min(10, |q|)];
    SortedByRequest("", "", r.items);
  }

  /** Position of the first task with `id` (what `FirstOrDefault`/`FindAsync` locate). */
  function IndexOf(tasks: seq<TaskItem>, id: int): (r: Option<nat>)
    ensures r.Some? ==> r.value < |tasks| && tasks[r.value].id == id
    ensures r.Some? ==> forall j :: 0 <= j < r.value ==> tasks[j].id != id
    ensures r.None? <==> forall j :: 0 <= j < |tasks| ==> tasks[j].id != id
  {
    if tasks == [] then
      None
    else if tasks[0].id == id then
      Some(0)
    else
      match IndexOf(tasks[1..], id)
      case None => None
      case Some(i) => Some(i + 1)
  }

  /** `GetByID(id)`: the task with that id, or 404. No ownership check. */
  function Lookup(tasks: seq<TaskItem>, id: int): (r: Response<TaskItem>)
    ensures r.Ok? <==> exists j :: 0 <= j < |tasks| && tasks[j].id == id
    ensures r.Ok? ==> r.value in tasks && r.value.id == id
    ensures !r.BadInput?
  {
    match IndexOf(tasks, id)
    case Some(i) => Ok(tasks[i])
    case None => NotFound
  }

  /** No two stored tasks share an id (the primary key). */
  predicate UniqueIds(tasks: seq<TaskItem>) {
    forall i, j :: 0 <= i < j < |tasks| ==> tasks[i].id != tasks[j].id
  }

  /** In a table with unique ids, `Lookup` finds exactly the record with that id. */
  lemma LookupUnique(tasks: seq<TaskItem>, i: int)
    requires UniqueIds(tasks) && 0 <= i < |tasks|
    ensures Lookup(tasks, tasks[i].id) == Ok(tasks[i])
    ensures IndexOf(tasks, tasks[i].id) == Some(i)
  {
  }

  /** A task added to the table is listed for its owner when it matches the search, and for no one else. */
  lemma AddedTaskListedOnlyForOwner(tasks: seq<TaskItem>, t: TaskItem, user: string,
                                    sortBy: string, order: string, search: Option<string>)
    ensures t in Query(tasks + [t], user, sortBy, order, search) <==> Selected(t, user, search)
  {
  }

  /** After appending a record with a fresh id, ids stay unique and `GetByID` finds it. */
  lemma LookupAfterAppend(tasks: seq<TaskItem>, t: TaskItem)
    requires UniqueIds(tasks)
    requires forall u :: u in tasks ==> u.id != t.id
    ensures UniqueIds(tasks + [t])
    ensures Lookup(tasks + [t], t.id) == Ok(t)
    ensures forall j :: 0 <= j < |tasks| ==> Lookup(tasks + [t], tasks[j].id) == Ok(tasks[j])
  {
    var s := tasks + [t];
    forall i, j | 0 <= i < j < |s| ensures s[i].id != s[j].id {
      if j == |tasks| { assert s[i] in tasks; }
    }
    LookupUnique(s, |tasks|);
    forall j | 0 <= j < |tasks| ensures Lookup(s, tasks[j].id) == Ok(tasks[j]) {
      LookupUnique(s, j);
    }
  }

  /** After overwriting record `i`, ids stay unique and `GetByID` returns the new record. */
  lemma LookupAfterOverwrite(tasks: seq<TaskItem>, i: int, m: TaskRequest)
    requires UniqueIds(tasks) && 0 <= i < |tasks|
    ensures UniqueIds(tasks[i := Overwrite(tasks[i], m)])
    ensures Lookup(tasks[i := Overwrite(tasks[i], m)], tasks[i].id) == Ok(Overwrite(tasks[i], m))
    ensures forall j :: 0 <= j < |tasks| && j != i ==>
              Lookup(tasks[i := Overwrite(tasks[i], m)], tasks[j].id) == Ok(tasks[j])
  {
    var s := tasks[i := Overwrite(tasks[i], m)];
    assert forall j :: 0 <= j < |s| ==> s[j].id == tasks[j].id;
    LookupUnique(s, i);
    forall j | 0 <= j < |tasks| && j != i ensures Lookup(s, tasks[j].id) == Ok(tasks[j]) {
      LookupUnique(s, j);
    }
  }

  /** After removing record `i`, ids stay unique, its id is gone and every other record is still found. */
  lemma LookupAfterRemove(tasks: seq<TaskItem>, i: int)
    requires UniqueIds(tasks) && 0 <= i < |tasks|
    ensures UniqueIds(tasks[..i] + tasks[i + 1..])
    ensures Lookup(tasks[..i] + tasks[i + 1..], tasks[i].id) == NotFound
    ensures forall j :: 0 <= j < |tasks| && j != i ==>
              Lookup(tasks[..i] + tasks[i + 1..], tasks[j].id) == Ok(tasks[j])
  {
    var s := tasks[..i] + tasks[i + 1..];
    assert forall j :: 0 <= j < |s| ==> s[j] == if j < i then tasks[j] else tasks[j + 1];
    forall j | 0 <= j < |tasks| && j != i ensures Lookup(s, tasks[j].id) == Ok(tasks[j]) {
      LookupUnique(s, if j < i then j else j - 1);
    }
  }
}
