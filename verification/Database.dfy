/** Cells, rows, queries and the in-memory store of include/database.hpp and src/database.cpp. */
module Database {
  import opened Wrappers
  import opened Sorting
  import Numbers

  datatype Value = Int(i: int) | Dbl(d: real) | Str(s: string) | Bool(b: bool)

  type Row = map<string, Value>

  // ---- coercion and order of cells ----

  /** `value_as<int64>`: reals truncate toward zero, text reads as 0. */
  function AsInt(v: Value): int {
    match v
    case Int(i) => i
    case Dbl(d) => if d >= 0.0 then d.Floor else -((-d).Floor)
    case Str(_) => 0
    case Bool(b) => if b then 1 else 0
  }

  function Kind(v: Value): nat {
    match v case Int(_) => 0 case Dbl(_) => 1 case Str(_) => 2 case Bool(_) => 3
  }

  function TextLess(a: string, b: string): bool {
    if b == "" then false
    else if a == "" then true
    else a[0] < b[0] || (a[0] == b[0] && TextLess(a[1..], b[1..]))
  }

  /** The order of std::variant: first by alternative, then by value. */
  function Less(a: Value, b: Value): bool {
    match (a, b)
    case (Int(x), Int(y)) => x < y
    case (Dbl(x), Dbl(y)) => x < y
    case (Str(x), Str(y)) => TextLess(x, y)
    case (Bool(x), Bool(y)) => !x && y
    case _ => Kind(a) < Kind(b)
  }

  lemma {:induction false} TextOrder(a: string, b: string, c: string)
    ensures !TextLess(a, a)
    ensures TextLess(a, b) && TextLess(b, c) ==> TextLess(a, c)
    ensures TextLess(a, b) || TextLess(b, a) || a == b
    ensures !(TextLess(a, b) && TextLess(b, a))
    decreases |a| + |b| + |c|
  {
    if a != "" && b != "" && c != "" {
      TextOrder(a[1..], b[1..], c[1..]);
    } else if a != "" && b != "" {
      TextOrder(a[1..], b[1..], c);
    } else if a != "" {
      TextOrder(a[1..], b, c);
    }
    if a != "" && b != "" && a[0] == b[0] && a[1..] == b[1..] {
      assert a == [a[0]] + a[1..] && b == [b[0]] + b[1..];
    }
  }

  /** The cell order is a strict total order. */
  lemma ValueOrder(a: Value, b: Value, c: Value)
    ensures !Less(a, a)
    ensures Less(a, b) && Less(b, c) ==> Less(a, c)
    ensures Less(a, b) || Less(b, a) || a == b
    ensures !(Less(a, b) && Less(b, a))
  {
    if a.Str? && b.Str? && c.Str? {
      TextOrder(a.s, b.s, c.s);
    } else if a.Str? && b.Str? {
      TextOrder(a.s, b.s, a.s);
    } else if a.Str? {
      TextOrder(a.s, a.s, a.s);
    }
  }

  // ---- identifiers ----

  predicate IsWord(c: char) {
    'a' <= c <= 'z' || 'A' <= c <= 'Z' || c == '_'
  }

  /** The names that may be spliced into SQL text. */
  predicate IsIdentifier(s: string) {
    s != "" && IsWord(s[0]) && forall c <- s :: IsWord(c) || Numbers.IsDigit(c)
  }

  /** `is_sql_identifier`. */
  method IsSqlIdentifier(s: string) returns (ok: bool)
    ensures ok == IsIdentifier(s)
  {
    if s == "" || !IsWord(s[0]) { return false; }
    for i := 0 to |s|
      invariant forall j :: 0 <= j < i ==> IsWord(s[j]) || Numbers.IsDigit(s[j])
    {
      if !IsWord(s[i]) && !Numbers.IsDigit(s[i]) {
        assert s[i] in s;
        return false;
      }
    }
    return true;
  }

  // ---- queries ----

  datatype Op = Eq | Ne | Lt | Lte | Gt | Gte | In

  datatype Where = Where(column: string, op: Op, value: Value, values: seq<Value>)

  datatype Order = Order(column: string, descending: bool)

  datatype Query = Query(wheres: seq<Where>, order: Option<Order>, limit: Option<nat>, offset: Option<nat>)

  const ALL := Query([], None, None, None)

  predicate Matches(cell: Value, op: Op, v: Value) {
    match op
    case Eq => cell == v
    case Ne => cell != v
    case Lt => Less(cell, v)
    case Lte => !Less(v, cell)
    case Gt => Less(v, cell)
    case Gte => !Less(cell, v)
    case In => false
  }

  predicate Satisfies(r: Row, w: Where) {
    w.column in r && if w.op == In then r[w.column] in w.values else Matches(r[w.column], w.op, w.value)
  }

  predicate Kept(r: Row, wheres: seq<Where>) {
    forall w <- wheres :: Satisfies(r, w)
  }

  function Filter(rows: seq<Row>, wheres: seq<Where>): seq<Row> {
    if rows == [] then [] else (if Kept(rows[0], wheres) then [rows[0]] else []) + Filter(rows[1..], wheres)
  }

  lemma FilterAt(rows: seq<Row>, i: nat, wheres: seq<Where>)
    requires i <= |rows|
    ensures Filter(rows[i..], wheres) ==
      if i == |rows| then []
      else (if Kept(rows[i], wheres) then [rows[i]] else []) + Filter(rows[i + 1..], wheres)
  {
    hide Kept;
    if i < |rows| { assert rows[i..][1..] == rows[i + 1..]; }
  }

  /** The key a sort by `column` reads; only used on rows that hold the column. */
  function KeyOf(r: Row, column: string): Value {
    if column in r then r[column] else Int(0)
  }

  function RowLess(order: Order): (Row, Row) -> bool {
    (a: Row, b: Row) =>
      if order.descending then Less(KeyOf(b, order.column), KeyOf(a, order.column))
      else Less(KeyOf(a, order.column), KeyOf(b, order.column))
  }

  lemma RowOrder(order: Order)
    ensures StrictWeakOrder(RowLess(order))
  {
    var less := RowLess(order);
    forall a, b, c
      ensures !less(a, a)
      ensures less(a, b) && less(b, c) ==> less(a, c)
      ensures !less(a, b) && !less(b, c) ==> !less(a, c)
    {
      var x, y, z := KeyOf(a, order.column), KeyOf(b, order.column), KeyOf(c, order.column);
      ValueOrder(x, y, z);
      ValueOrder(z, y, x);
      ValueOrder(x, z, y);
    }
  }

  /** The comparator throws on a row without the order column; it runs once there are two rows. */
  predicate Orderable(rows: seq<Row>, order: Option<Order>) {
    order.None? || |rows| < 2 || forall r <- rows :: order.value.column in r
  }

  function Ordered(rows: seq<Row>, order: Option<Order>): seq<Row> {
    if order.None? then rows else StableSort(rows, RowLess(order.value))
  }

  function Slice(rows: seq<Row>, offset: Option<nat>, limit: Option<nat>): seq<Row> {
    var tail := if offset.None? then rows else if offset.value >= |rows| then [] else rows[offset.value..];
    if limit.Some? && |tail| > limit.value then tail[..limit.value] else tail
  }

  /** The answer to a query over a table, or None where the code throws. */
  function Selected(rows: seq<Row>, q: Query): Option<seq<Row>> {
    var kept := Filter(rows, q.wheres);
    if Orderable(kept, q.order) then Some(Slice(Ordered(kept, q.order), q.offset, q.limit)) else None
  }

  lemma SelectedIs(rows: seq<Row>, q: Query)
    ensures var kept := Filter(rows, q.wheres);
      Selected(rows, q) == if Orderable(kept, q.order) then Some(Slice(Ordered(kept, q.order), q.offset, q.limit)) else None
  {
    hide Filter, Orderable, Ordered, Slice;
  }

  lemma OrderedNothing(order: Option<Order>)
    ensures Orderable([], order) && Ordered([], order) == []
  {}

  /** A query answers with a slice of the one sequence that holds the matching rows sorted in
      the requested direction, with ties in insertion order. */
  lemma SelectedDetermined(rows: seq<Row>, q: Query, sorted: seq<Row>)
    requires q.order.Some? && Orderable(Filter(rows, q.wheres), q.order)
    ensures StablySorted(Filter(rows, q.wheres), Ordered(Filter(rows, q.wheres), q.order), RowLess(q.order.value))
    ensures StablySorted(Filter(rows, q.wheres), sorted, RowLess(q.order.value))
      ==> Selected(rows, q) == Some(Slice(sorted, q.offset, q.limit))
  {
    var less := RowLess(q.order.value);
    var kept := Filter(rows, q.wheres);
    RowOrder(q.order.value);
    SortIsStable(kept, less);
    if StablySorted(kept, sorted, less) {
      StablySortedUnique(Ordered(kept, q.order), sorted, less);
    }
  }

  // ---- the store ----

  /** Every table's rows in insertion order, and the last id each table handed out. */
  datatype Store = Store(tables: map<string, seq<Row>>, nextId: map<string, int>)

  const EMPTY_STORE := Store(map[], map[])

  function RowsIn(st: Store, table: string): seq<Row> {
    if table in st.tables then st.tables[table] else []
  }

  function LastId(st: Store, table: string): int {
    if table in st.nextId then st.nextId[table] else 0
  }

  predicate HasId(r: Row, id: int) {
    "id" in r && AsInt(r["id"]) == id
  }

  /** The first row with this id, or the number of rows. */
  function IndexOf(rows: seq<Row>, id: int): (k: nat)
    ensures k <= |rows|
    ensures k < |rows| ==> HasId(rows[k], id)
    ensures forall j :: 0 <= j < k ==> !HasId(rows[j], id)
  {
    if rows == [] || HasId(rows[0], id) then 0 else 1 + IndexOf(rows[1..], id)
  }

  function WithId(row: Row, id: int): Row {
    row["id" := Int(id)]
  }

  function Inserted(st: Store, table: string, row: Row): Store {
    var id := LastId(st, table) + 1;
    Store(st.tables[table := RowsIn(st, table) + [WithId(row, id)]], st.nextId[table := id])
  }

  function FirstWith(rows: seq<Row>, id: int): Option<Row> {
    var k := IndexOf(rows, id);
    if k < |rows| then Some(rows[k]) else None
  }

  function Found(st: Store, table: string, id: int): Option<Row> {
    FirstWith(RowsIn(st, table), id)
  }

  function Replaced(st: Store, table: string, k: nat, row: Row, id: int): Store
    requires k < |RowsIn(st, table)|
  {
    st.(tables := st.tables[table := RowsIn(st, table)[k := WithId(row, id)]])
  }

  function Updated(st: Store, table: string, id: int, row: Row): (Store, bool) {
    var k := IndexOf(RowsIn(st, table), id);
    if k < |RowsIn(st, table)| then (Replaced(st, table, k, row, id), true) else (st, false)
  }

  function Without(rows: seq<Row>, id: int): (r: seq<Row>)
    ensures |r| <= |rows|
    ensures forall x <- r :: x in rows && !HasId(x, id)
  {
    if rows == [] then [] else (if HasId(rows[0], id) then [] else [rows[0]]) + Without(rows[1..], id)
  }

  function Removed(st: Store, table: string, id: int): (Store, bool) {
    if table !in st.tables then (st, false)
    else
      var rows := Without(st.tables[table], id);
      (st.(tables := st.tables[table := rows]), |rows| != |st.tables[table]|)
  }

  /** The compare-and-set of `MemoryConnection::update_if`, in one step. */
  function UpdatedIf(st: Store, table: string, id: int, column: string, guard: Value, row: Row): (Store, bool) {
    var rows := RowsIn(st, table);
    var k := IndexOf(rows, id);
    if k < |rows| && column in rows[k] && rows[k][column] == guard
    then (Replaced(st, table, k, row, id), true) else (st, false)
  }

  /** The compare-and-set of the store is the read-compare-write of the base class. */
  lemma UpdateIfIsReadCompareWrite(st: Store, table: string, id: int, column: string, guard: Value, row: Row)
    ensures var current := Found(st, table, id);
      UpdatedIf(st, table, id, column, guard, row) ==
        if current.Some? && column in current.value && current.value[column] == guard
        then Updated(st, table, id, row) else (st, false)
  {}

  /** Ids ascend along a table and never exceed the last one handed out. */
  ghost predicate WellKept(rows: seq<Row>, last: int) {
    && (forall k :: 0 <= k < |rows| ==> "id" in rows[k] && rows[k]["id"].Int? && 1 <= rows[k]["id"].i <= last)
    && (forall i, j :: 0 <= i < j < |rows| ==> AsInt(rows[i]["id"]) < AsInt(rows[j]["id"]))
  }

  ghost predicate ValidStore(st: Store) {
    && (forall t <- st.tables :: t in st.nextId && WellKept(st.tables[t], st.nextId[t]))
    && (forall t <- st.nextId :: st.nextId[t] >= 0)
  }

  lemma WellKeptStep(r: Row, rows: seq<Row>, last: int)
    ensures WellKept([r] + rows, last) <==>
      && "id" in r && r["id"].Int? && 1 <= r["id"].i <= last && WellKept(rows, last)
      && forall x <- rows :: AsInt(r["id"]) < AsInt(x["id"])
  {
    hide AsInt;
    var all := [r] + rows;
    assert all[0] == r && forall k :: 0 <= k < |rows| ==> all[k + 1] == rows[k];
  }

  lemma {:induction false} WithoutWellKept(rows: seq<Row>, id: int, last: int)
    requires WellKept(rows, last)
    ensures WellKept(Without(rows, id), last)
  {
    hide WellKept;
    if rows != [] {
      assert rows == [rows[0]] + rows[1..];
      WellKeptStep(rows[0], rows[1..], last);
      WithoutWellKept(rows[1..], id, last);
      WellKeptStep(rows[0], Without(rows[1..], id), last);
      assert [] + Without(rows[1..], id) == Without(rows[1..], id);
    }
  }

  lemma ReplacedWellKept(rows: seq<Row>, k: nat, row: Row, id: int, last: int)
    requires WellKept(rows, last) && k < |rows| && HasId(rows[k], id)
    ensures WellKept(rows[k := WithId(row, id)], last)
  {
    var r := rows[k := WithId(row, id)];
    assert forall j :: 0 <= j < |rows| ==> AsInt(r[j]["id"]) == AsInt(rows[j]["id"]);
  }

  lemma AppendedWellKept(rows: seq<Row>, row: Row, last: int)
    requires WellKept(rows, last) && last >= 0
    ensures WellKept(rows + [WithId(row, last + 1)], last + 1)
  {}

  /** Every write keeps ids unique and ascending, and a new id is larger than any before it. */
  lemma WritesKeepStore(st: Store, table: string, id: int, row: Row, column: string, guard: Value)
    requires ValidStore(st)
    ensures ValidStore(Inserted(st, table, row)) && LastId(Inserted(st, table, row), table) == LastId(st, table) + 1
    ensures ValidStore(Updated(st, table, id, row).0)
    ensures ValidStore(Removed(st, table, id).0)
    ensures ValidStore(UpdatedIf(st, table, id, column, guard, row).0)
  {
    hide WellKept, Without, WithId;
    var rows, last := RowsIn(st, table), LastId(st, table);
    assert WellKept(rows, last) by {
      if table !in st.tables { EmptyWellKept(last); }
    }
    AppendedWellKept(rows, row, last);
    WithoutWellKept(rows, id, last);
    var k := IndexOf(rows, id);
    if k < |rows| { ReplacedWellKept(rows, k, row, id, last); }
  }

  lemma EmptyWellKept(last: int)
    ensures WellKept([], last)
  {}

  /** In a well-kept table, a row removed is gone and every other row stays. */
  lemma {:induction false} WithoutKeepsOthers(rows: seq<Row>, id: int, r: Row)
    ensures r in Without(rows, id) <==> r in rows && !HasId(r, id)
  {
    if rows != [] { WithoutKeepsOthers(rows[1..], id, r); }
  }

  lemma IndexCons(r: Row, rows: seq<Row>, id: int)
    ensures IndexOf([r] + rows, id) == if HasId(r, id) then 0 else 1 + IndexOf(rows, id)
  {
    assert ([r] + rows)[1..] == rows;
  }

  lemma WithoutCons(r: Row, rows: seq<Row>, id: int)
    ensures Without([r] + rows, id) == if HasId(r, id) then Without(rows, id) else [r] + Without(rows, id)
  {
    assert ([r] + rows)[1..] == rows;
    assert [] + Without(rows, id) == Without(rows, id);
  }

  lemma FirstWithCons(r: Row, rows: seq<Row>, id: int)
    ensures FirstWith([r] + rows, id) == if HasId(r, id) then Some(r) else FirstWith(rows, id)
  {
    hide HasId;
    IndexCons(r, rows, id);
  }

  lemma {:induction false} FirstAfterRemoval(rows: seq<Row>, id: int, other: int)
    requires other != id
    ensures FirstWith(Without(rows, id), other) == FirstWith(rows, other)
  {
    hide FirstWith, HasId;
    if rows != [] {
      var r, tail := rows[0], rows[1..];
      assert rows == [r] + tail;
      FirstAfterRemoval(tail, id, other);
      FirstWithCons(r, tail, other);
      WithoutCons(r, tail, id);
      FirstWithCons(r, Without(tail, id), other);
      OneId(r, id, other);
    }
  }

  lemma OneId(r: Row, id: int, other: int)
    ensures HasId(r, id) && HasId(r, other) ==> id == other
  {}

  lemma {:induction false} IndexAfterAppend(rows: seq<Row>, r: Row, id: int)
    ensures IndexOf(rows + [r], id) ==
      if IndexOf(rows, id) < |rows| then IndexOf(rows, id) else if HasId(r, id) then |rows| else |rows| + 1
  {
    if rows == [] {
      assert rows + [r] == [r];
    } else {
      assert (rows + [r])[1..] == rows[1..] + [r];
      IndexAfterAppend(rows[1..], r, id);
    }
  }

  lemma {:induction false} IndexAfterReplacement(rows: seq<Row>, k: nat, r: Row, id: int, other: int)
    requires k == IndexOf(rows, id) && k < |rows| && HasId(r, id)
    ensures IndexOf(rows[k := r], other) == IndexOf(rows, other)
  {
    if k == 0 {
      assert rows[0 := r][1..] == rows[1..];
    } else {
      assert rows[k := r][1..] == rows[1..][k - 1 := r];
      IndexAfterReplacement(rows[1..], k - 1, r, id, other);
    }
  }

  lemma FreshId(st: Store, table: string)
    requires ValidStore(st)
    ensures IndexOf(RowsIn(st, table), LastId(st, table) + 1) == |RowsIn(st, table)|
  {
    var rows := RowsIn(st, table);
    forall k | 0 <= k < |rows| ensures !HasId(rows[k], LastId(st, table) + 1) {
      assert WellKept(rows, LastId(st, table));
    }
  }

  lemma StoredHasId(row: Row, id: int, key: int)
    ensures HasId(WithId(row, id), key) <==> key == id
  {}

  /** What a read by id answers after an insert: the new row under an id nothing had, and what it
      answered before for every other id and table. */
  lemma {:induction false} InsertReadsBack(st: Store, table: string, row: Row, other: string, key: int)
    requires ValidStore(st)
    ensures var newId := LastId(st, table) + 1;
      && Found(st, table, newId) == None
      && Found(Inserted(st, table, row), other, key) ==
           if other == table && key == newId then Some(WithId(row, newId)) else Found(st, other, key)
  {
    hide IndexOf, HasId, WithId, ValidStore;
    var rows, newId := RowsIn(st, table), LastId(st, table) + 1;
    FreshId(st, table);
    StoredHasId(row, newId, key);
    IndexAfterAppend(rows, WithId(row, newId), key);
  }

  /** After an update: the row written, if the id was there, and everything else as before. */
  lemma UpdateReadsBack(st: Store, table: string, id: int, row: Row, other: string, key: int)
    ensures Found(Updated(st, table, id, row).0, other, key) ==
      if other == table && key == id && Found(st, table, id).Some? then Some(WithId(row, id)) else Found(st, other, key)
    ensures Updated(st, table, id, row).1 == Found(st, table, id).Some?
  {
    hide IndexOf, HasId, WithId;
    var rows := RowsIn(st, table);
    var k := IndexOf(rows, id);
    StoredHasId(row, id, id);
    if k < |rows| {
      IndexAfterReplacement(rows, k, WithId(row, id), id, key);
      if key != id && IndexOf(rows, key) < |rows| { OneId(rows[k], id, key); }
    }
  }

  /** After a removal: nothing under that id, and everything else as before. */
  lemma RemoveReadsBack(st: Store, table: string, id: int, other: string, key: int)
    ensures Found(Removed(st, table, id).0, other, key) == if other == table && key == id then None else Found(st, other, key)
    ensures Removed(st, table, id).1 <==> Found(st, table, id).Some?
  {
    hide IndexOf, HasId, Without;
    var rows := RowsIn(st, table);
    if key != id { FirstAfterRemoval(rows, id, key); }
    RemovedIsGone(rows, id);
    RemovalShrinks(rows, id);
    NothingFound(id);
  }

  lemma {:induction false} RemovalShrinks(rows: seq<Row>, id: int)
    ensures |Without(rows, id)| <= |rows|
    ensures |Without(rows, id)| == |rows| <==> IndexOf(rows, id) == |rows|
  {
    hide HasId;
    if rows != [] { RemovalShrinks(rows[1..], id); }
  }

  lemma RemovedIsGone(rows: seq<Row>, id: int)
    ensures IndexOf(Without(rows, id), id) == |Without(rows, id)|
  {
    var left := Without(rows, id);
    forall k | 0 <= k < |left| ensures !HasId(left[k], id) {
      assert left[k] in left;
    }
  }

  lemma NothingFound(id: int)
    ensures IndexOf([], id) == 0
  {}

  class MemoryConnection {
    var tables: map<string, seq<Row>>
    var nextId: map<string, int>
    var snapshot: Option<Store>

    constructor ()
      ensures Contents() == EMPTY_STORE && snapshot == None
    {
      tables, nextId, snapshot := map[], map[], None;
    }

    function Contents(): Store
      reads this
    {
      Store(tables, nextId)
    }

    method Insert(table: string, row: Row) returns (id: int)
      modifies this`tables, this`nextId
      ensures Contents() == Inserted(old(Contents()), table, row)
      ensures id == LastId(old(Contents()), table) + 1
    {
      id := (if table in nextId then nextId[table] else 0) + 1;
      nextId := nextId[table := id];
      var stored := row["id" := Int(id)];
      tables := tables[table := (if table in tables then tables[table] else []) + [stored]];
    }

    method Find(table: string, id: int) returns (r: Option<Row>)
      ensures r == Found(Contents(), table, id)
    {
      if table !in tables { return None; }
      var rows := tables[table];
      for i := 0 to |rows|
        invariant forall j :: 0 <= j < i ==> !HasId(rows[j], id)
      {
        if HasId(rows[i], id) { return Some(rows[i]); }
      }
      return None;
    }

    method All(table: string) returns (rows: seq<Row>)
      ensures rows == RowsIn(Contents(), table)
    {
      rows := if table in tables then tables[table] else [];
    }

    method Update(table: string, id: int, row: Row) returns (done: bool)
      modifies this`tables
      ensures (Contents(), done) == Updated(old(Contents()), table, id, row)
    {
      if table !in tables { return false; }
      var rows := tables[table];
      for i := 0 to |rows|
        invariant forall j :: 0 <= j < i ==> !HasId(rows[j], id)
        invariant tables == old(tables)
      {
        if HasId(rows[i], id) {
          tables := tables[table := rows[i := row["id" := Int(id)]]];
          return true;
        }
      }
      return false;
    }

    method Remove(table: string, id: int) returns (done: bool)
      modifies this`tables
      ensures (Contents(), done) == Removed(old(Contents()), table, id)
    {
      if table !in tables { return false; }
      var before := |tables[table]|;
      tables := tables[table := Without(tables[table], id)];
      done := |tables[table]| != before;
    }

    method UpdateIf(table: string, id: int, column: string, guard: Value, row: Row) returns (done: bool)
      modifies this`tables
      ensures (Contents(), done) == UpdatedIf(old(Contents()), table, id, column, guard, row)
    {
      if table !in tables { return false; }
      var rows := tables[table];
      for i := 0 to |rows|
        invariant forall j :: 0 <= j < i ==> !HasId(rows[j], id)
        invariant tables == old(tables)
      {
        if HasId(rows[i], id) {
          if column !in rows[i] || rows[i][column] != guard { return false; }
          tables := tables[table := rows[i := row["id" := Int(id)]]];
          return true;
        }
      }
      return false;
    }

    method RowKept(r: Row, wheres: seq<Where>) returns (ok: bool)
      ensures ok == Kept(r, wheres)
    {
      ok := true;
      for i := 0 to |wheres|
        invariant ok && forall j :: 0 <= j < i ==> Satisfies(r, wheres[j])
      {
        var w := wheres[i];
        assert w in wheres;
        if w.column !in r { return false; }
        var cell := r[w.column];
        if w.op == In {
          var found := false;
          for j := 0 to |w.values|
            invariant !found && cell !in w.values[..j]
          {
            if cell == w.values[j] {
              found := true;
              break;
            }
          }
          assert w.values[..|w.values|] == w.values;
          if !found { return false; }
        } else if !Matches(cell, w.op, w.value) {
          return false;
        }
      }
    }

    /** `select`: filter, sort, drop the offset, take the limit; None where the sort throws. */
    method Select(table: string, q: Query) returns (r: Option<seq<Row>>)
      ensures r == Selected(RowsIn(Contents(), table), q)
    {
      hide Filter, Kept, StableSort, RowLess, Selected;
      if table !in tables {
        SelectedIs([], q);
        FilterAt([], 0, q.wheres);
        OrderedNothing(q.order);
        return Some([]);
      }
      var rows := [];
      var all := tables[table];
      SelectedIs(all, q);
      assert all[0..] == all && [] + Filter(all, q.wheres) == Filter(all, q.wheres);
      for i := 0 to |all|
        invariant rows + Filter(all[i..], q.wheres) == Filter(all, q.wheres)
      {
        var ok := RowKept(all[i], q.wheres);
        FilterAt(all, i, q.wheres);
        ghost var before, rest := rows, Filter(all[i + 1..], q.wheres);
        if ok { rows := rows + [all[i]]; }
        assert before + ((if ok then [all[i]] else []) + rest) == rows + rest;
      }
      FilterAt(all, |all|, q.wheres);
      assert rows + [] == rows;
      if q.order.Some? {
        if |rows| >= 2 && exists r <- rows :: q.order.value.column !in r { return None; }
        rows := StableSort(rows, RowLess(q.order.value));
      }
      if q.offset.Some? {
        rows := if q.offset.value >= |rows| then [] else rows[q.offset.value..];
      }
      if q.limit.Some? && |rows| > q.limit.value { rows := rows[..q.limit.value]; }
      return Some(rows);
    }

    /** `count`: how many rows match, whatever order, limit and offset say. */
    method Count(table: string, q: Query) returns (n: nat)
      ensures n == |Filter(RowsIn(Contents(), table), q.wheres)|
    {
      var rows := Select(table, Query(q.wheres, None, None, None));
      n := |rows.value|;
    }

    method Begin()
      modifies this`snapshot
      ensures snapshot == Some(Contents())
    {
      snapshot := Some(Contents());
    }

    method Commit()
      modifies this`snapshot
      ensures snapshot == None
    {
      snapshot := None;
    }

    /** The store goes back to what it held at `Begin`; without one, nothing changes. */
    method Rollback()
      modifies this
      ensures snapshot == None
      ensures Contents() == if old(snapshot).Some? then old(snapshot).value else old(Contents())
    {
      if snapshot.None? { return; }
      tables, nextId := snapshot.value.tables, snapshot.value.nextId;
      snapshot := None;
    }
  }
}
