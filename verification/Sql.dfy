/** The SQL text and bindings that src/sqlite_connection.cpp makes of a query. */
module Sql {
  import opened Wrappers
  import opened Database
  import Numbers

  // ---- the text ----

  /** `op_sql`; it has no case for In. */
  function OpText(op: Op): string {
    match op
    case Eq => "="
    case Ne => "!="
    case Lt => "<"
    case Lte => "<="
    case Gt => ">"
    case Gte => ">="
    case In => "="
  }

  function MarkList(n: nat): string {
    if n == 0 then "" else if n == 1 then "?" else MarkList(n - 1) + ",?"
  }

  function ClauseText(w: Where): string {
    w.column + if w.op == In then " IN (" + MarkList(|w.values|) + ")" else " " + OpText(w.op) + " ?"
  }

  function MoreText(ws: seq<Where>): string {
    if ws == [] then "" else " AND " + (ClauseText(ws[0]) + MoreText(ws[1..]))
  }

  function WheresText(ws: seq<Where>): string {
    if ws == [] then "" else " WHERE " + (ClauseText(ws[0]) + MoreText(ws[1..]))
  }

  predicate Guarded(ws: seq<Where>) {
    forall w <- ws :: IsIdentifier(w.column)
  }

  /** The values in the order they are bound. */
  function Bindings(ws: seq<Where>): seq<Value> {
    if ws == [] then []
    else (if ws[0].op == In then ws[0].values else [ws[0].value]) + Bindings(ws[1..])
  }

  function OrderText(order: Option<Order>): string {
    if order.None? then "" else " ORDER BY " + order.value.column + (if order.value.descending then " DESC" else " ASC")
  }

  function LimitText(q: Query): string {
    (if q.limit.Some? then " LIMIT " + Numbers.IntText(q.limit.value) else "")
    + (if q.offset.None? then ""
       else (if q.limit.None? then " LIMIT -1" else "") + " OFFSET " + Numbers.IntText(q.offset.value))
  }

  predicate Safe(table: string, q: Query) {
    IsIdentifier(table) && Guarded(q.wheres) && (q.order.Some? ==> IsIdentifier(q.order.value.column))
  }

  function SelectText(table: string, q: Query): string {
    "SELECT * FROM " + table + WheresText(q.wheres) + OrderText(q.order) + LimitText(q)
  }

  // ---- the text builders ----

  lemma MoreTextAt(ws: seq<Where>, i: nat)
    requires i < |ws|
    ensures MoreText(ws[i..]) == " AND " + (ClauseText(ws[i]) + MoreText(ws[i + 1..]))
  {
    assert ws[i..][1..] == ws[i + 1..];
  }

  /** What `append_wheres` still has to write before clause `i`. */
  function StillToWrite(ws: seq<Where>, i: nat): string
    requires i <= |ws|
  {
    if i == 0 then WheresText(ws) else MoreText(ws[i..])
  }

  method MarksFor(values: seq<Value>) returns (s: string)
    ensures s == MarkList(|values|)
  {
    s := "";
    for j := 0 to |values|
      invariant s == MarkList(j)
    {
      s := s + if j > 0 then ",?" else "?";
    }
  }

  /** `append_wheres`: None where an identifier is refused. */
  method AppendWheres(sql: string, ws: seq<Where>) returns (r: Option<string>)
    ensures r == if Guarded(ws) then Some(sql + WheresText(ws)) else None
  {
    hide ClauseText, MarkList, WheresText, MoreText;
    var out := sql;
    for i := 0 to |ws|
      invariant out + StillToWrite(ws, i) == sql + WheresText(ws)
      invariant forall k :: 0 <= k < i ==> IsIdentifier(ws[k].column)
    {
      var w := ws[i];
      var ok := IsSqlIdentifier(w.column);
      if !ok {
        assert w in ws;
        return None;
      }
      TurnText(out, ws, i);
      var clause;
      if w.op == In {
        var marks := MarksFor(w.values);
        clause := w.column + (" IN (" + marks + ")");
      } else {
        clause := w.column + (" " + OpText(w.op) + " ?");
      }
      ClauseTextIs(w);
      out := out + (if i == 0 then " WHERE " else " AND ") + clause;
    }
    NothingToWrite(ws);
    assert out + "" == out;
    return Some(out);
  }

  lemma ClauseTextIs(w: Where)
    ensures ClauseText(w) == w.column + if w.op == In then " IN (" + MarkList(|w.values|) + ")" else " " + OpText(w.op) + " ?"
  {}

  lemma TurnText(out: string, ws: seq<Where>, i: nat)
    requires i < |ws|
    ensures out + StillToWrite(ws, i) == (out + (if i == 0 then " WHERE " else " AND ") + ClauseText(ws[i])) + StillToWrite(ws, i + 1)
  {
    hide ClauseText;
    if i > 0 { MoreTextAt(ws, i); }
  }

  lemma NothingToWrite(ws: seq<Where>)
    ensures StillToWrite(ws, |ws|) == ""
  {}

  /** `bind_wheres`: the values handed to the statement, first to last. */
  method BindWheres(ws: seq<Where>) returns (bound: seq<Value>)
    ensures bound == Bindings(ws)
  {
    hide *;
    bound := [];
    assert ws[0..] == ws && [] + Bindings(ws) == Bindings(ws);
    for i := 0 to |ws|
      invariant bound + Bindings(ws[i..]) == Bindings(ws)
    {
      assert ws[i..][1..] == ws[i + 1..];
      BindingsCons(ws[i..]);
      ghost var before, rest := bound, Bindings(ws[i + 1..]);
      if ws[i].op == In {
        for k := 0 to |ws[i].values|
          invariant bound == before + ws[i].values[..k]
        {
          bound := bound + [ws[i].values[k]];
        }
        assert ws[i].values[..|ws[i].values|] == ws[i].values;
      } else {
        bound := bound + [ws[i].value];
      }
      ghost var here := if ws[i].op == In then ws[i].values else [ws[i].value];
      assert before + (here + rest) == bound + rest;
    }
    BindingsCons(ws[|ws|..]);
    assert bound + [] == bound;
  }

  /** The text `select` prepares; None where an identifier is refused. */
  method SelectSql(table: string, q: Query) returns (r: Option<string>)
    ensures r == if Safe(table, q) then Some(SelectText(table, q)) else None
  {
    hide WheresText;
    var ok := IsSqlIdentifier(table);
    if !ok { return None; }
    var wheres := AppendWheres("SELECT * FROM " + table, q.wheres);
    if wheres.None? { return None; }
    var sql := wheres.value;
    if q.order.Some? {
      ok := IsSqlIdentifier(q.order.value.column);
      if !ok { return None; }
      sql := sql + (" ORDER BY " + q.order.value.column + (if q.order.value.descending then " DESC" else " ASC"));
    }
    assert sql == "SELECT * FROM " + table + WheresText(q.wheres) + OrderText(q.order) by {
      if q.order.None? { assert sql + "" == sql; }
    }
    var tail := if q.limit.Some? then " LIMIT " + Numbers.IntText(q.limit.value) else "";
    if q.offset.Some? {
      tail := tail + ((if q.limit.None? then " LIMIT -1" else "") + " OFFSET " + Numbers.IntText(q.offset.value));
    }
    assert tail == LimitText(q) by {
      if q.offset.None? { assert tail + "" == tail; }
    }
    return Some(sql + tail);
  }

  // ---- marks and bindings ----

  function Marks(s: string): nat {
    if s == "" then 0 else Marks(s[..|s| - 1]) + (if s[|s| - 1] == '?' then 1 else 0)
  }

  lemma {:induction false} MarksCat(a: string, b: string)
    ensures Marks(a + b) == Marks(a) + Marks(b)
  {
    if b == "" {
      assert a + b == a;
    } else {
      assert (a + b)[..|a + b| - 1] == a + b[..|b| - 1];
      MarksCat(a, b[..|b| - 1]);
    }
  }

  lemma {:induction false} NoMarks(s: string)
    requires '?' !in s
    ensures Marks(s) == 0
  {
    if s != "" {
      assert s[|s| - 1] in s;
      NoMarks(s[..|s| - 1]);
    }
  }

  lemma {:induction false} MarkListMarks(n: nat)
    ensures Marks(MarkList(n)) == n
  {
    if n == 1 {
      assert "?"[..0] == "";
    } else if n > 1 {
      MarkListMarks(n - 1);
      MarksCat(MarkList(n - 1), ",?");
      assert ",?"[..1] == "," && ","[..0] == "";
    }
  }

  lemma ClauseMarks(w: Where)
    requires IsIdentifier(w.column)
    ensures Marks(ClauseText(w)) == |Bindings([w])|
  {
    hide Marks, MarkList;
    NoMarks(w.column);
    assert [w][1..] == [];
    if w.op == In {
      MarkListMarks(|w.values|);
      NoMarks(" IN (");
      NoMarks(")");
      MarksCat(" IN (", MarkList(|w.values|));
      MarksCat(" IN (" + MarkList(|w.values|), ")");
      MarksCat(w.column, " IN (" + MarkList(|w.values|) + ")");
    } else {
      NoMarks(" " + OpText(w.op) + " ");
      MarkListMarks(1);
      OneMark();
      MarksCat(" " + OpText(w.op) + " ", "?");
      assert " " + OpText(w.op) + " ?" == " " + OpText(w.op) + " " + "?";
      MarksCat(w.column, " " + OpText(w.op) + " ?");
    }
  }

  lemma OneMark()
    ensures Marks("?") == 1
  {
    assert "?"[..0] == "";
  }

  lemma {:induction false} MoreMarks(ws: seq<Where>)
    requires Guarded(ws)
    ensures Marks(MoreText(ws)) == |Bindings(ws)|
  {
    hide Marks, ClauseText;
    if ws == [] {
      NoMarks("");
    } else {
      MoreMarks(ws[1..]);
      ClauseMarks(ws[0]);
      NoMarks(" AND ");
      MarksCat(ClauseText(ws[0]), MoreText(ws[1..]));
      MarksCat(" AND ", ClauseText(ws[0]) + MoreText(ws[1..]));
      BindingsHead(ws);
    }
  }

  lemma BindingsHead(ws: seq<Where>)
    requires ws != []
    ensures |Bindings(ws)| == |Bindings([ws[0]])| + |Bindings(ws[1..])|
  {
    assert [ws[0]][1..] == [];
  }

  /** There are exactly as many `?` in the text as values to bind. */
  lemma WheresMarks(ws: seq<Where>)
    requires Guarded(ws)
    ensures Marks(WheresText(ws)) == |Bindings(ws)|
  {
    hide Marks, ClauseText;
    if ws == [] {
      NoMarks("");
    } else {
      MoreMarks(ws[1..]);
      ClauseMarks(ws[0]);
      NoMarks(" WHERE ");
      MarksCat(ClauseText(ws[0]), MoreText(ws[1..]));
      MarksCat(" WHERE ", ClauseText(ws[0]) + MoreText(ws[1..]));
      BindingsHead(ws);
    }
  }

  lemma MoreCons(ws: seq<Where>)
    ensures MoreText(ws) == if ws == [] then "" else " AND " + (ClauseText(ws[0]) + MoreText(ws[1..]))
  {}

  lemma {:induction false} MoreTextSplits(ws: seq<Where>, i: nat)
    requires i <= |ws|
    ensures MoreText(ws) == MoreText(ws[..i]) + MoreText(ws[i..])
  {
    hide *;
    MoreCons(ws);
    MoreCons(ws[..i]);
    if i == 0 {
      assert ws[..0] == [] && ws[0..] == ws;
    } else {
      MoreTextSplits(ws[1..], i - 1);
      assert ws[..i][1..] == ws[1..][..i - 1] && ws[1..][i - 1..] == ws[i..];
      var head, kept, rest := ClauseText(ws[0]), MoreText(ws[1..][..i - 1]), MoreText(ws[i..]);
      assert " AND " + (head + (kept + rest)) == " AND " + (head + kept) + rest;
    }
  }

  lemma BindingsCons(ws: seq<Where>)
    ensures Bindings(ws) ==
      if ws == [] then [] else (if ws[0].op == In then ws[0].values else [ws[0].value]) + Bindings(ws[1..])
  {}

  lemma {:induction false} BindingsSplit(ws: seq<Where>, i: nat)
    requires i <= |ws|
    ensures Bindings(ws) == Bindings(ws[..i]) + Bindings(ws[i..])
  {
    hide *;
    BindingsCons(ws);
    BindingsCons(ws[..i]);
    if i == 0 {
      assert ws[..0] == [] && ws[0..] == ws;
    } else {
      BindingsSplit(ws[1..], i - 1);
      assert ws[..i][1..] == ws[1..][..i - 1] && ws[1..][i - 1..] == ws[i..];
    }
  }

  lemma GuardedPrefix(ws: seq<Where>, i: nat)
    requires Guarded(ws) && i <= |ws|
    ensures Guarded(ws[..i])
  {
    hide IsIdentifier;
  }

  lemma WheresCons(ws: seq<Where>)
    ensures WheresText(ws) == if ws == [] then "" else " WHERE " + (ClauseText(ws[0]) + MoreText(ws[1..]))
  {
    hide ClauseText, MoreText;
  }

  lemma WheresSplit(ws: seq<Where>, i: nat) returns (rest: string)
    requires i <= |ws|
    ensures WheresText(ws) == WheresText(ws[..i]) + rest
  {
    hide *;
    WheresCons(ws);
    WheresCons(ws[..i]);
    if i == 0 {
      rest := WheresText(ws);
    } else {
      MoreTextSplits(ws[1..], i - 1);
      assert ws[..i][1..] == ws[1..][..i - 1];
      rest := MoreText(ws[1..][i - 1..]);
      var head, kept := ClauseText(ws[0]), MoreText(ws[1..][..i - 1]);
      assert " WHERE " + (head + (kept + rest)) == " WHERE " + (head + kept) + rest;
    }
  }

  /** Alignment: before every clause, the `?` written so far are as many as the values bound so
      far, so the k-th `?` takes the k-th value. */
  lemma MarksAlign(ws: seq<Where>, i: nat)
    requires Guarded(ws) && i <= |ws|
    ensures WheresText(ws[..i]) <= WheresText(ws)
    ensures Bindings(ws[..i]) <= Bindings(ws)
    ensures Marks(WheresText(ws[..i])) == |Bindings(ws[..i])|
  {
    hide *;
    GuardedPrefix(ws, i);
    WheresMarks(ws[..i]);
    BindingsSplit(ws, i);
    var _ := WheresSplit(ws, i);
  }

  lemma NoMarksInIdentifier(s: string)
    requires IsIdentifier(s)
    ensures Marks(s) == 0
  {
    NoMarks(s);
  }

  lemma NoMarksInNumber(n: int)
    ensures Marks(Numbers.IntText(n)) == 0
  {
    var d := Numbers.NatText(if n < 0 then -n else n);
    assert forall k :: 0 <= k < |d| ==> Numbers.IsDigit(d[k]);
    NoMarks(Numbers.IntText(n));
  }

  /** The whole prepared text holds as many `?` as there are values to bind. */
  lemma SelectMarks(table: string, q: Query)
    requires Safe(table, q)
    ensures Marks(SelectText(table, q)) == |Bindings(q.wheres)|
  {
    hide Marks, WheresText, Bindings;
    WheresMarks(q.wheres);
    NoMarksInIdentifier(table);
    NoMarks("SELECT * FROM ");
    OrderMarks(q.order);
    LimitMarks(q);
    hide OrderText, LimitText;
    var head := "SELECT * FROM " + table;
    MarksCat("SELECT * FROM ", table);
    MarksCat(head, WheresText(q.wheres));
    MarksCat(head + WheresText(q.wheres), OrderText(q.order));
    MarksCat(head + WheresText(q.wheres) + OrderText(q.order), LimitText(q));
  }

  lemma OrderMarks(order: Option<Order>)
    requires order.Some? ==> IsIdentifier(order.value.column)
    ensures Marks(OrderText(order)) == 0
  {
    NoMarks(OrderText(order));
  }

  lemma LimitMarks(q: Query)
    ensures Marks(LimitText(q)) == 0
  {
    hide Marks;
    var a := if q.limit.Some? then " LIMIT " + Numbers.IntText(q.limit.value) else "";
    var m := if q.limit.None? then " LIMIT -1" else "";
    NoMarks(" LIMIT ");
    NoMarks(m + " OFFSET ");
    NoMarks("");
    if q.limit.Some? {
      NoMarksInNumber(q.limit.value);
      MarksCat(" LIMIT ", Numbers.IntText(q.limit.value));
    }
    if q.offset.Some? {
      NoMarksInNumber(q.offset.value);
      MarksCat(m + " OFFSET ", Numbers.IntText(q.offset.value));
      MarksCat(a, m + " OFFSET " + Numbers.IntText(q.offset.value));
    } else {
      MarksCat(a, "");
    }
  }
}
