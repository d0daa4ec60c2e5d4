/** The fluent query builder of include/repository.hpp, with its pages, and the relations of
    include/relations.hpp. */
module Repository {
  import opened Wrappers
  import opened Sorting
  import opened Database

  datatype Page<T> = Page(items: seq<T>, total: nat, page: nat, perPage: nat, lastPage: nat)

  function Hydrated<T>(rows: seq<Row>, hydrate: Row -> T): (r: seq<T>)
    ensures |r| == |rows|
  {
    seq(|rows|, i requires 0 <= i < |rows| => hydrate(rows[i]))
  }

  function PageQuery(q: Query, page: nat, perPage: nat): Query {
    q.(limit := Some(perPage), offset := Some((if page == 0 then 0 else page - 1) * perPage))
  }

  function LastPage(total: nat, perPage: nat): nat {
    if perPage > 0 then (total + perPage - 1) / perPage else 1
  }

  /** What `paginate` answers over a table; None where the sort throws. */
  function PageOf<T>(rows: seq<Row>, q: Query, hydrate: Row -> T, page: nat, perPage: nat): Option<Page<T>> {
    var items := Selected(rows, PageQuery(q, page, perPage));
    var total := |Filter(rows, q.wheres)|;
    if items.None? then None
    else Some(Page(Hydrated(items.value, hydrate), total, page, perPage, LastPage(total, perPage)))
  }

  /** The whole ordered answer, with no page limits. */
  function Unpaged<T>(rows: seq<Row>, q: Query, hydrate: Row -> T): Option<seq<T>> {
    var all := Selected(rows, q.(limit := None, offset := None));
    if all.None? then None else Some(Hydrated(all.value, hydrate))
  }

  /** The items of pages 1 to `n`, end to end. */
  function FirstPages<T>(rows: seq<Row>, q: Query, hydrate: Row -> T, n: nat, perPage: nat): seq<T>
    requires Unpaged(rows, q, hydrate).Some?
  {
    if n == 0 then []
    else FirstPages(rows, q, hydrate, n - 1, perPage) + PageOf(rows, q, hydrate, n, perPage).value.items
  }

  lemma OrderedLength(rows: seq<Row>, order: Option<Order>)
    ensures |Ordered(rows, order)| == |rows|
  {
    if order.Some? {
      RowOrder(order.value);
      SortIsStable(rows, RowLess(order.value));
      assert |multiset(Ordered(rows, order))| == |multiset(rows)|;
    }
  }

  /** Page `n` is exactly the stretch of the whole answer that starts `n - 1` pages in,
      whatever limit or offset was set before; page 0 is page 1. */
  lemma PageIsStretch<T>(rows: seq<Row>, q: Query, hydrate: Row -> T, page: nat, perPage: nat)
    requires Unpaged(rows, q, hydrate).Some?
    ensures var all := Unpaged(rows, q, hydrate).value;
      var from := (if page == 0 then 0 else page - 1) * perPage;
      var p := PageOf(rows, q, hydrate, page, perPage);
      && p.Some? && p.value.total == |all| && p.value.page == page && p.value.perPage == perPage
      && p.value.items == if from >= |all| then [] else all[from..Min(from + perPage, |all|)]
  {
    var kept := Filter(rows, q.wheres);
    OrderedLength(kept, q.order);
    var sorted := Ordered(kept, q.order);
    var from := (if page == 0 then 0 else page - 1) * perPage;
    assert Selected(rows, q.(limit := None, offset := None)) == Some(sorted);
    if from < |sorted| {
      assert Slice(sorted, Some(from), Some(perPage)) == sorted[from..Min(from + perPage, |sorted|)];
    }
  }

  lemma PageStart(n: nat, perPage: nat)
    requires n > 0
    ensures (n - 1) * perPage + perPage == n * perPage
  {}

  lemma {:induction false} FirstPagesArePrefix<T>(rows: seq<Row>, q: Query, hydrate: Row -> T, n: nat, perPage: nat)
    requires Unpaged(rows, q, hydrate).Some?
    ensures n * perPage >= 0
    ensures var all := Unpaged(rows, q, hydrate).value;
      FirstPages(rows, q, hydrate, n, perPage) == all[..Min(n * perPage, |all|)]
  {
    hide PageOf, Unpaged, Hydrated;
    if n > 0 {
      FirstPagesArePrefix(rows, q, hydrate, n - 1, perPage);
      PageIsStretch(rows, q, hydrate, n, perPage);
      PageStart(n, perPage);
    }
  }

  lemma LastPageCovers(total: nat, perPage: nat)
    requires perPage > 0
    ensures var last := LastPage(total, perPage);
      && last * perPage >= total
      && (last > 0 ==> (last - 1) * perPage < total)
  {
    var d := total + perPage - 1;
    assert d == perPage * (d / perPage) + d % perPage;
    var last := d / perPage;
    if last > 0 { PageStart(last, perPage); }
  }

  lemma MultiplyMonotone(a: nat, b: nat, n: nat)
    requires a <= b
    ensures a * n <= b * n
  {}

  /** The size of page `n` of a partition into pages of `perPage`. */
  ghost predicate RightSize(items: nat, n: nat, last: nat, perPage: nat) {
    && (n < last ==> items == perPage)
    && (n == last ==> 0 < items <= perPage)
    && (n > last ==> items == 0)
  }

  lemma PageSize<T>(rows: seq<Row>, q: Query, hydrate: Row -> T, n: nat, perPage: nat)
    requires perPage > 0 && n > 0 && Unpaged(rows, q, hydrate).Some?
    ensures var all := Unpaged(rows, q, hydrate).value; var last := LastPage(|all|, perPage);
      var p := PageOf(rows, q, hydrate, n, perPage);
      && p.Some? && p.value.total == |all| && p.value.lastPage == last && RightSize(|p.value.items|, n, last, perPage)
      && p.value.page == n && p.value.perPage == perPage
  {
    PageIsStretch(rows, q, hydrate, n, perPage);
    hide Unpaged, Selected, Hydrated;
    var total := |Unpaged(rows, q, hydrate).value|;
    var last := LastPage(total, perPage);
    LastPageCovers(total, perPage);
    PageStart(n, perPage);
    if n < last { MultiplyMonotone(n, last - 1, perPage); }
    if n > last { MultiplyMonotone(last, n - 1, perPage); }
  }

  /** Pages partition the answer: pages 1 to last_page, end to end, are the whole ordered
      answer; every one before the last is full, the last is not empty, later ones are. */
  lemma PagesPartition<T>(rows: seq<Row>, q: Query, hydrate: Row -> T, perPage: nat)
    requires perPage > 0 && Unpaged(rows, q, hydrate).Some?
    ensures var all := Unpaged(rows, q, hydrate).value; var last := LastPage(|all|, perPage);
      && FirstPages(rows, q, hydrate, last, perPage) == all
      && forall n: nat :: n >= 1 ==>
          var p := PageOf(rows, q, hydrate, n, perPage);
          && p.Some? && p.value.total == |all| && p.value.lastPage == last
          && p.value.page == n && p.value.perPage == perPage && RightSize(|p.value.items|, n, last, perPage)
  {
    hide PageOf, Unpaged;
    var all := Unpaged(rows, q, hydrate).value;
    LastPageCovers(|all|, perPage);
    FirstPagesArePrefix(rows, q, hydrate, LastPage(|all|, perPage), perPage);
    forall n: nat | n >= 1
      ensures var p := PageOf(rows, q, hydrate, n, perPage);
        && p.Some? && p.value.total == |all| && p.value.lastPage == LastPage(|all|, perPage)
        && p.value.page == n && p.value.perPage == perPage && RightSize(|p.value.items|, n, LastPage(|all|, perPage), perPage)
    {
      PageSize(rows, q, hydrate, n, perPage);
    }
  }

  /** Pages of no size are empty, however many rows match, and there is one of them. */
  lemma SizelessPages<T>(rows: seq<Row>, q: Query, hydrate: Row -> T, page: nat)
    requires Unpaged(rows, q, hydrate).Some?
    ensures PageOf(rows, q, hydrate, page, 0) == Some(Page([], |Filter(rows, q.wheres)|, page, 0, 1))
  {
    PageIsStretch(rows, q, hydrate, page, 0);
    hide Selected, Filter;
    assert PageOf(rows, q, hydrate, page, 0).value.items == [];
  }

  /** Asking for one row answers with the first of all rows, and any limit with a prefix. */
  lemma FirstIsHead(rows: seq<Row>, q: Query)
    ensures var one, all := Selected(rows, q.(limit := Some(1))), Selected(rows, q.(limit := None));
      && one.Some? == all.Some?
      && (one.Some? ==> one.value == all.value[..Min(|all.value|, 1)])
    ensures var own, all := Selected(rows, q), Selected(rows, q.(limit := None));
      && own.Some? == all.Some?
      && (own.Some? ==> own.value == if q.limit.None? then all.value else all.value[..Min(|all.value|, q.limit.value)])
  {
    hide Filter, Ordered;
  }

  function Head(rows: seq<Row>): Option<Row> {
    if rows == [] then None else Some(rows[0])
  }

  /** `first` and the head of `get` differ exactly when the limit was set to 0 and some row
      matches behind the offset. */
  lemma FirstDiffersFromGet(rows: seq<Row>, q: Query)
    requires Selected(rows, q).Some?
    ensures var own, all := Selected(rows, q), Selected(rows, q.(limit := None)); var one := Selected(rows, q.(limit := Some(1)));
      && all.Some? && one.Some?
      && (Head(one.value) != Head(own.value) <==> q.limit == Some(0) && all.value != [])
  {
    hide Selected;
    FirstIsHead(rows, q);
  }

  class QueryBuilder<T> {
    const conn: MemoryConnection
    const table: string
    const hydrate: Row -> T
    var query: Query

    constructor (conn: MemoryConnection, table: string, hydrate: Row -> T)
      ensures this.conn == conn && this.table == table && this.hydrate == hydrate && query == ALL
    {
      this.conn, this.table, this.hydrate, query := conn, table, hydrate, ALL;
    }

    ghost function Rows(): seq<Row>
      reads conn
    {
      RowsIn(conn.Contents(), table)
    }

    /** `where`: adds one clause, or throws (false) on a column that is no plain identifier. */
    method Where(column: string, op: Op, value: Value) returns (ok: bool)
      modifies this
      ensures ok == IsIdentifier(column)
      ensures query == if ok then old(query).(wheres := old(query).wheres + [Database.Where(column, op, value, [])])
                       else old(query)
    {
      ok := IsSqlIdentifier(column);
      if ok { query := query.(wheres := query.wheres + [Database.Where(column, op, value, [])]); }
    }

    method WhereIn(column: string, values: seq<Value>) returns (ok: bool)
      modifies this
      ensures ok == IsIdentifier(column)
      ensures query == if ok then old(query).(wheres := old(query).wheres + [Database.Where(column, In, Int(0), values)])
                       else old(query)
    {
      ok := IsSqlIdentifier(column);
      if ok { query := query.(wheres := query.wheres + [Database.Where(column, In, Int(0), values)]); }
    }

    method OrderBy(column: string, descending: bool) returns (ok: bool)
      modifies this
      ensures ok == IsIdentifier(column)
      ensures query == if ok then old(query).(order := Some(Order(column, descending))) else old(query)
    {
      ok := IsSqlIdentifier(column);
      if ok { query := query.(order := Some(Order(column, descending))); }
    }

    method HydrateAll(rows: seq<Row>) returns (items: seq<T>)
      ensures items == Hydrated(rows, hydrate)
    {
      items := [];
      for i := 0 to |rows|
        invariant items == Hydrated(rows[..i], hydrate)
      {
        items := items + [hydrate(rows[i])];
      }
      assert rows[..|rows|] == rows;
    }

    method Get() returns (r: Option<seq<T>>)
      ensures var s := Selected(Rows(), query);
        r == if s.None? then None else Some(Hydrated(s.value, hydrate))
    {
      var rows := conn.Select(table, query);
      if rows.None? { return None; }
      var items := HydrateAll(rows.value);
      return Some(items);
    }

    method Limit(n: nat)
      modifies this
      ensures query == old(query).(limit := Some(n))
    {
      query := query.(limit := Some(n));
    }

    method Offset(n: nat)
      modifies this
      ensures query == old(query).(offset := Some(n))
    {
      query := query.(offset := Some(n));
    }

    /** `first`: the head of the answer, whatever limit was set; not `ok` where the sort throws. */
    method First() returns (ok: bool, r: Option<T>)
      ensures var all := Selected(Rows(), query.(limit := None));
        && ok == all.Some?
        && (ok ==> r == if all.value == [] then None else Some(hydrate(all.value[0])))
    {
      FirstIsHead(Rows(), query);
      var rows := conn.Select(table, query.(limit := Some(1)));
      if rows.None? { return false, None; }
      return true, if rows.value == [] then None else Some(hydrate(rows.value[0]));
    }

    method Count() returns (n: nat)
      ensures n == |Filter(Rows(), query.wheres)|
    {
      n := conn.Count(table, query);
    }

    /** `paginate`: one page and the number of matching rows; None where the sort throws. */
    method Paginate(page: nat, perPage: nat) returns (r: Option<Page<T>>)
      ensures r == PageOf(Rows(), query, hydrate, page, perPage)
    {
      hide Filter, Selected, Hydrated;
      var base := query.(limit := None, offset := None);
      var total := conn.Count(table, base);
      var skip := if page == 0 then 0 else page - 1;
      var q := base.(limit := Some(perPage), offset := Some(skip * perPage));
      var rows := conn.Select(table, q);
      if rows.None? { return None; }
      var items := HydrateAll(rows.value);
      var lastPage := if perPage > 0 then (total + perPage - 1) / perPage else 1;
      return Some(Page(items, total, page, perPage, lastPage));
    }
  }

  // ---- relations ----

  /** The rows `has_many(id).get()` selects. */
  function ChildrenOf(rows: seq<Row>, foreignKey: string, id: int): seq<Row> {
    Filter(rows, [Where(foreignKey, Eq, Int(id), [])])
  }

  /** One parent's children: the rows whose foreign key is its id, as often and in the order they
      stand in the table. */
  lemma {:induction false} ChildrenAre(rows: seq<Row>, r: Row, foreignKey: string, id: int)
    ensures ChildrenOf(rows + [r], foreignKey, id)
      == ChildrenOf(rows, foreignKey, id) + if foreignKey in r && r[foreignKey] == Int(id) then [r] else []
    ensures ChildrenOf([], foreignKey, id) == []
  {
    FilterAppend(rows, r, [Where(foreignKey, Eq, Int(id), [])]);
    KeptSingle(r, Where(foreignKey, Eq, Int(id), []));
  }

  function Ints(ids: seq<int>): (r: seq<Value>)
    ensures |r| == |ids|
  {
    seq(|ids|, i requires 0 <= i < |ids| => Int(ids[i]))
  }

  /** The rows the one eager query selects. */
  function ChildrenIn(rows: seq<Row>, foreignKey: string, ids: seq<int>): seq<Row> {
    Filter(rows, [Where(foreignKey, In, Int(0), Ints(ids))])
  }

  /** `grouped[key].push_back(item)`. */
  function Pushed<T>(m: map<int, seq<T>>, key: int, item: T): map<int, seq<T>> {
    m[key := (if key in m then m[key] else []) + [item]]
  }

  function Grouped<T>(items: seq<T>, keyOf: T -> int): map<int, seq<T>> {
    if items == [] then map[]
    else Pushed(Grouped(items[..|items| - 1], keyOf), keyOf(items[|items| - 1]), items[|items| - 1])
  }

  lemma {:induction false} FilterAppend(a: seq<Row>, r: Row, wheres: seq<Where>)
    ensures Filter(a + [r], wheres) == Filter(a, wheres) + (if Kept(r, wheres) then [r] else [])
  {
    hide Filter, Kept;
    assert a[0..] == a && (a + [r])[0..] == a + [r];
    FilterAt(a, 0, wheres);
    FilterAt(a + [r], 0, wheres);
    if a == [] {
      FilterAt(a + [r], 1, wheres);
    } else {
      FilterAppend(a[1..], r, wheres);
      assert (a + [r])[1..] == a[1..] + [r];
    }
  }

  /** The mapper and `key_of` read an integer foreign key off the selected rows faithfully. */
  ghost predicate ReadsKey<T>(rows: seq<Row>, foreignKey: string, ids: seq<int>, hydrate: Row -> T, keyOf: T -> int) {
    forall r <- rows :: foreignKey in r && r[foreignKey] in Ints(ids) ==> Int(keyOf(hydrate(r))) == r[foreignKey]
  }

  lemma KeptSingle(r: Row, w: Where)
    ensures Kept(r, [w]) <==> Satisfies(r, w)
  {
    assert w in [w];
  }

  lemma IntsMember(ids: seq<int>, id: int)
    ensures Int(id) in Ints(ids) <==> id in ids
  {
    if id in ids {
      var k :| 0 <= k < |ids| && ids[k] == id;
      assert Ints(ids)[k] == Int(id);
    }
  }

  /** Eager loading answers what per-parent loading would: for each parent its own children in
      the same order, no entry for a parent without children, and no other key. */
  lemma {:induction false} EagerMatchesPerParent<T>(rows: seq<Row>, foreignKey: string, ids: seq<int>,
                                                    hydrate: Row -> T, keyOf: T -> int)
    requires ReadsKey(rows, foreignKey, ids, hydrate, keyOf)
    ensures var g := Grouped(Hydrated(ChildrenIn(rows, foreignKey, ids), hydrate), keyOf);
      forall id :: GroupsId(rows, foreignKey, ids, hydrate, g, id)
    decreases |rows|
  {
    if rows != [] {
      var init, r := rows[..|rows| - 1], rows[|rows| - 1];
      assert rows == init + [r];
      EagerMatchesPerParent(init, foreignKey, ids, hydrate, keyOf);
      forall id ensures GroupsId(rows, foreignKey, ids, hydrate,
                                 Grouped(Hydrated(ChildrenIn(rows, foreignKey, ids), hydrate), keyOf), id) {
        EagerStep(init, r, foreignKey, ids, hydrate, keyOf, id);
      }
    }
  }

  /** What the grouping owes one parent id. */
  ghost predicate GroupsId<T>(rows: seq<Row>, foreignKey: string, ids: seq<int>, hydrate: Row -> T,
                              g: map<int, seq<T>>, id: int) {
    if id in ids && ChildrenOf(rows, foreignKey, id) != []
    then id in g && g[id] == Hydrated(ChildrenOf(rows, foreignKey, id), hydrate)
    else id !in g
  }

  lemma EagerStep<T>(init: seq<Row>, r: Row, foreignKey: string, ids: seq<int>, hydrate: Row -> T, keyOf: T -> int, id: int)
    requires ReadsKey(init + [r], foreignKey, ids, hydrate, keyOf)
    requires GroupsId(init, foreignKey, ids, hydrate, Grouped(Hydrated(ChildrenIn(init, foreignKey, ids), hydrate), keyOf), id)
    ensures GroupsId(init + [r], foreignKey, ids, hydrate,
                     Grouped(Hydrated(ChildrenIn(init + [r], foreignKey, ids), hydrate), keyOf), id)
  {
    hide Filter, Grouped, Hydrated, Kept;
    var one, own := Where(foreignKey, In, Int(0), Ints(ids)), Where(foreignKey, Eq, Int(id), []);
    FilterAppend(init, r, [one]);
    FilterAppend(init, r, [own]);
    KeptSingle(r, one);
    KeptSingle(r, own);
    IntsMember(ids, id);
    HydratedAppend(ChildrenOf(init, foreignKey, id), r, hydrate);
    HydratedAppend(ChildrenIn(init, foreignKey, ids), r, hydrate);
    GroupedAppend(Hydrated(ChildrenIn(init, foreignKey, ids), hydrate), hydrate(r), keyOf);
    assert ChildrenIn(init, foreignKey, ids) + [] == ChildrenIn(init, foreignKey, ids);
    assert ChildrenOf(init, foreignKey, id) + [] == ChildrenOf(init, foreignKey, id);
    assert r in init + [r];
    if id in ids && ChildrenOf(init, foreignKey, id) == [] {
      HydratedNone(hydrate);
      assert [] + [hydrate(r)] == [hydrate(r)];
    }
  }

  lemma HydratedNone<T>(hydrate: Row -> T)
    ensures Hydrated([], hydrate) == []
  {}

  lemma HydratedAppend<T>(rows: seq<Row>, r: Row, hydrate: Row -> T)
    ensures Hydrated(rows + [r], hydrate) == Hydrated(rows, hydrate) + [hydrate(r)]
  {}

  lemma GroupedAppend<T>(items: seq<T>, x: T, keyOf: T -> int)
    ensures Grouped(items + [x], keyOf) == Pushed(Grouped(items, keyOf), keyOf(x), x)
  {
    assert (items + [x])[..|items|] == items;
  }

  /** `has_many(...).get()`; None where the column name is refused. */
  method HasMany<T>(conn: MemoryConnection, table: string, hydrate: Row -> T, foreignKey: string, id: int)
    returns (r: Option<seq<T>>)
    ensures r == if IsIdentifier(foreignKey)
      then Some(Hydrated(ChildrenOf(RowsIn(conn.Contents(), table), foreignKey, id), hydrate)) else None
  {
    var b := new QueryBuilder(conn, table, hydrate);
    var ok := b.Where(foreignKey, Eq, Int(id));
    if !ok { return None; }
    assert b.query.wheres == [Where(foreignKey, Eq, Int(id), [])];
    r := b.Get();
  }

  /** `load_has_many`: one IN query, its children grouped by key. */
  method LoadHasMany<T>(conn: MemoryConnection, table: string, hydrate: Row -> T, foreignKey: string,
                        ids: seq<int>, keyOf: T -> int)
    returns (r: Option<map<int, seq<T>>>)
    ensures r == if IsIdentifier(foreignKey)
      then Some(Grouped(Hydrated(ChildrenIn(RowsIn(conn.Contents(), table), foreignKey, ids), hydrate), keyOf))
      else None
  {
    hide Filter, Hydrated, IsIdentifier;
    var values := [];
    for i := 0 to |ids|
      invariant values == Ints(ids[..i])
    {
      values := values + [Int(ids[i])];
    }
    assert ids[..|ids|] == ids;
    var b := new QueryBuilder(conn, table, hydrate);
    var ok := b.WhereIn(foreignKey, values);
    if !ok { return None; }
    assert b.query.wheres == [Where(foreignKey, In, Int(0), values)];
    var children := b.Get();
    var grouped := map[];
    for i := 0 to |children.value|
      invariant grouped == Grouped(children.value[..i], keyOf)
    {
      var child := children.value[i];
      GroupedAppend(children.value[..i], child, keyOf);
      assert children.value[..i + 1] == children.value[..i] + [child];
      grouped := grouped[keyOf(child) := (if keyOf(child) in grouped then grouped[keyOf(child)] else []) + [child]];
    }
    assert children.value[..|children.value|] == children.value;
    return Some(grouped);
  }
}
