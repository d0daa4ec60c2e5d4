/** The answer of `MemoryConnection::select` (src/database.cpp), stated on its rows and cells alone:
    which rows, in which order, from where to where, and when there is none. */
module Selecting {
  import opened Wrappers
  import opened Sorting
  import opened Database

  /** The rows with this cell, in order. */
  function WithCell(rows: seq<Row>, column: string, v: Value): seq<Row> {
    if rows == [] then []
    else (if column in rows[0] && rows[0][column] == v then [rows[0]] else []) + WithCell(rows[1..], column, v)
  }

  predicate AllHold(rows: seq<Row>, column: string) {
    forall r <- rows :: column in r
  }

  /** No later row belongs before an earlier one. */
  predicate InOrder(rows: seq<Row>, column: string, descending: bool)
    requires AllHold(rows, column)
  {
    forall i, j :: 0 <= i < j < |rows| ==>
      if descending then !Less(rows[i][column], rows[j][column]) else !Less(rows[j][column], rows[i][column])
  }

  /** What `s` must be to be the ordered form of the matching rows `kept`. */
  ghost predicate OrderedForm(kept: seq<Row>, order: Option<Order>, s: seq<Row>) {
    if order.None? || |kept| < 2 then s == kept
    else
      var column := order.value.column;
      && multiset(s) == multiset(kept) && AllHold(s, column)
      && InOrder(s, column, order.value.descending)
      && forall v :: WithCell(s, column, v) == WithCell(kept, column, v)
  }

  /** `r` is `s` from the offset on, cut at the limit. */
  predicate Stretch(s: seq<Row>, offset: Option<nat>, limit: Option<nat>, r: seq<Row>) {
    var from := if offset.None? then 0 else Min(offset.value, |s|);
    && |r| == (if limit.None? then |s| - from else Min(limit.value, |s| - from))
    && forall k :: 0 <= k < |r| ==> r[k] == s[from + k]
  }

  lemma {:induction false} TiesAreCells(rows: seq<Row>, x: Row, order: Order)
    requires AllHold(rows, order.column) && order.column in x
    ensures Ties(rows, x, RowLess(order)) == WithCell(rows, order.column, x[order.column])
  {
    if rows != [] {
      ValueOrder(rows[0][order.column], x[order.column], x[order.column]);
      assert rows[0] in rows && AllHold(rows[1..], order.column);
      TiesAreCells(rows[1..], x, order);
    }
  }

  lemma {:induction false} NoSuchCell(rows: seq<Row>, column: string, v: Value)
    requires forall r <- rows :: column in r ==> r[column] != v
    ensures WithCell(rows, column, v) == []
  {
    if rows != [] {
      assert rows[0] in rows;
      NoSuchCell(rows[1..], column, v);
    }
  }

  lemma SameCells(kept: seq<Row>, s: seq<Row>, order: Order, v: Value)
    requires AllHold(kept, order.column) && StablySorted(kept, s, RowLess(order))
    requires multiset(s) == multiset(kept) && AllHold(s, order.column)
    ensures WithCell(s, order.column, v) == WithCell(kept, order.column, v)
  {
    hide RowLess, WithCell;
    if x :| x in kept && x[order.column] == v {
      TiesAreCells(kept, x, order);
      TiesAreCells(s, x, order);
    } else {
      forall r | r in s ensures r[order.column] != v {
        assert r in multiset(s);
        assert r in kept;
      }
      NoSuchCell(kept, order.column, v);
      NoSuchCell(s, order.column, v);
    }
  }

  lemma SortedInOrder(kept: seq<Row>, s: seq<Row>, order: Order)
    requires StablySorted(kept, s, RowLess(order)) && AllHold(s, order.column)
    ensures InOrder(s, order.column, order.descending)
  {
    hide Less;
  }

  lemma SortedForm(kept: seq<Row>, order: Order)
    requires AllHold(kept, order.column) && |kept| >= 2
    ensures OrderedForm(kept, Some(order), Ordered(kept, Some(order)))
  {
    hide RowLess, StableSort, WithCell, InOrder;
    var s := Ordered(kept, Some(order));
    RowOrder(order);
    SortIsStable(kept, RowLess(order));
    SamePermutation(kept, s, order);
    SortedInOrder(kept, s, order);
    forall v ensures WithCell(s, order.column, v) == WithCell(kept, order.column, v) { SameCells(kept, s, order, v); }
  }

  lemma SamePermutation(kept: seq<Row>, s: seq<Row>, order: Order)
    requires multiset(s) == multiset(kept) && AllHold(kept, order.column)
    ensures AllHold(s, order.column)
  {
    forall r | r in s ensures r in kept { assert r in multiset(s); }
  }

  lemma FewRows(kept: seq<Row>, order: Option<Order>)
    requires |kept| < 2 || order.None?
    ensures Ordered(kept, order) == kept
  {
    if order.Some? && |kept| == 1 {
      var less := RowLess(order.value);
      assert kept == [kept[0]] && kept[1..] == [] && StableSort(kept[1..], less) == [];
      assert [kept[0]] + [] == [kept[0]];
    }
  }

  /** The answer of `select`: there is one exactly when fewer than two rows match, no order is asked
      for, or every match holds the order column; then it is the stretch that offset and limit cut
      out of the matching rows put in order, equal cells in table order. */
  lemma SelectAnswers(rows: seq<Row>, q: Query) returns (s: seq<Row>)
    ensures var kept := Filter(rows, q.wheres);
      && (Selected(rows, q).Some? <==> q.order.None? || |kept| < 2 || AllHold(kept, q.order.value.column))
      && (Selected(rows, q).Some? ==> OrderedForm(kept, q.order, s) && Stretch(s, q.offset, q.limit, Selected(rows, q).value))
  {
    hide Filter, Ordered, OrderedForm, AllHold;
    var kept := Filter(rows, q.wheres);
    s := Ordered(kept, q.order);
    AllHoldIs(kept, q.order);
    if q.order.None? || |kept| < 2 {
      FewRows(kept, q.order);
      KeptForm(kept, q.order);
    } else if AllHold(kept, q.order.value.column) {
      SortedForm(kept, q.order.value);
    }
  }

  lemma KeptForm(kept: seq<Row>, order: Option<Order>)
    requires |kept| < 2 || order.None?
    ensures OrderedForm(kept, order, kept)
  {}

  lemma AllHoldIs(kept: seq<Row>, order: Option<Order>)
    ensures order.Some? ==> (AllHold(kept, order.value.column) <==> forall r <- kept :: order.value.column in r)
  {}

  /** The rows of the answer themselves are in the requested direction. */
  lemma AnswerInOrder(rows: seq<Row>, q: Query)
    requires q.order.Some? && Selected(rows, q).Some? && |Filter(rows, q.wheres)| >= 2
    ensures var r := Selected(rows, q).value;
      AllHold(r, q.order.value.column) && InOrder(r, q.order.value.column, q.order.value.descending)
  {
    hide Selected, Filter, Less;
    var s := SelectAnswers(rows, q);
    var r := Selected(rows, q).value;
    var from := if q.offset.None? then 0 else Min(q.offset.value, |s|);
    forall k | 0 <= k < |r| ensures q.order.value.column in r[k] {
      assert r[k] == s[from + k] && s[from + k] in s;
    }
  }

  /** The matching rows are the table's, as often and in the order they stand there, that satisfy
      every clause. */
  lemma {:induction false} MatchingRows(a: seq<Row>, b: seq<Row>, wheres: seq<Where>)
    ensures Filter(a + b, wheres) == Filter(a, wheres) + Filter(b, wheres)
    ensures forall r :: Filter([r], wheres) == if forall w <- wheres :: Satisfies(r, w) then [r] else []
  {
    hide Satisfies, Kept;
    forall r ensures Filter([r], wheres) == if forall w <- wheres :: Satisfies(r, w) then [r] else [] {
      OneRow(r, wheres);
    }
    if a == [] {
      assert a + b == b;
    } else {
      assert (a + b)[1..] == a[1..] + b;
      MatchingRows(a[1..], b, wheres);
      var first := if Kept(a[0], wheres) then [a[0]] else [];
      assert first + (Filter(a[1..], wheres) + Filter(b, wheres)) == first + Filter(a[1..], wheres) + Filter(b, wheres);
    }
  }

  lemma OneRow(r: Row, wheres: seq<Where>)
    ensures Filter([r], wheres) == if forall w <- wheres :: Satisfies(r, w) then [r] else []
  {
    hide Satisfies;
    assert [r][1..] == [];
  }

  /** A clause holds of a row that has its column and a cell in the relation its operator names. */
  lemma ClauseHolds(r: Row, w: Where)
    ensures w.column !in r ==> !Satisfies(r, w)
    ensures w.column in r ==>
      var c, v := r[w.column], w.value;
      Satisfies(r, w) == match w.op
        case Eq => c == v
        case Ne => c != v
        case Lt => Less(c, v)
        case Lte => Less(c, v) || c == v
        case Gt => Less(v, c)
        case Gte => Less(v, c) || c == v
        case In => exists k :: 0 <= k < |w.values| && w.values[k] == c
  {
    hide Less;
    if w.column in r {
      ValueOrder(r[w.column], w.value, r[w.column]);
      ValueOrder(w.value, r[w.column], w.value);
    }
  }

  // ---- the order of cells ----

  /** Text order: at the first difference the smaller character decides, and a prefix comes first. */
  ghost predicate Precedes(a: string, b: string) {
    exists k :: 0 <= k <= |a| && k < |b| && a[..k] == b[..k] && (k == |a| || a[k] < b[k])
  }

  lemma {:induction false} TextLessIs(a: string, b: string)
    ensures TextLess(a, b) <==> Precedes(a, b)
  {
    if a != "" && b != "" {
      TextLessIs(a[1..], b[1..]);
      if a[0] == b[0] {
        if Precedes(a[1..], b[1..]) {
          var k :| 0 <= k <= |a[1..]| && k < |b[1..]| && a[1..][..k] == b[1..][..k] && (k == |a[1..]| || a[1..][k] < b[1..][k]);
          assert a[..k + 1] == [a[0]] + a[1..][..k] && b[..k + 1] == [b[0]] + b[1..][..k];
          assert Precedes(a, b);
        }
        if Precedes(a, b) {
          var k :| 0 <= k <= |a| && k < |b| && a[..k] == b[..k] && (k == |a| || a[k] < b[k]);
          assert k > 0;
          assert a[1..][..k - 1] == a[..k][1..] && b[1..][..k - 1] == b[..k][1..];
          assert Precedes(a[1..], b[1..]);
        }
      } else {
        FirstDecides(a, b);
      }
    } else if b != "" {
      assert a[..0] == b[..0];
    }
  }

  lemma FirstDecides(a: string, b: string)
    requires a != "" && b != "" && a[0] != b[0]
    ensures Precedes(a, b) <==> a[0] < b[0]
  {
    if a[0] < b[0] { assert a[..0] == b[..0]; }
    forall k | 0 < k <= |a| && k < |b| ensures a[..k] != b[..k] {
      assert a[..k][0] == a[0] && b[..k][0] == b[0];
    }
  }

  /** Cells of one kind compare by value; integers come before reals, reals before text, text before
      booleans. */
  lemma CellOrder(i: int, j: int, d: real, e: real, s: string, t: string, b: bool, c: bool)
    ensures Less(Int(i), Int(j)) <==> i < j
    ensures Less(Dbl(d), Dbl(e)) <==> d < e
    ensures Less(Str(s), Str(t)) <==> Precedes(s, t)
    ensures Less(Bool(b), Bool(c)) <==> b == false && c == true
    ensures Less(Int(i), Dbl(d)) && Less(Dbl(d), Str(s)) && Less(Str(s), Bool(b))
    ensures Less(Int(i), Str(s)) && Less(Int(i), Bool(b)) && Less(Dbl(d), Bool(b))
  {
    TextLessIs(s, t);
  }

  /** Reading a cell as an integer: reals lose their fraction, toward zero. */
  lemma IntegerOf(v: Value)
    ensures v.Int? ==> AsInt(v) == v.i
    ensures v.Bool? ==> AsInt(v) == if v.b then 1 else 0
    ensures v.Str? ==> AsInt(v) == 0
    ensures v.Dbl? && v.d >= 0.0 ==> AsInt(v) as real <= v.d < AsInt(v) as real + 1.0
    ensures v.Dbl? && v.d < 0.0 ==> AsInt(v) as real - 1.0 < v.d <= AsInt(v) as real
  {}

  /** The names that may stand in SQL text, by ASCII code: letters, the underscore and, not in front,
      digits. */
  lemma IdentifierCodes(s: string)
    ensures IsIdentifier(s) <==>
      && s != "" && !(48 <= s[0] as int <= 57)
      && forall c <- s :: var n := c as int; 48 <= n <= 57 || 65 <= n <= 90 || n == 95 || 97 <= n <= 122
  {
    if s != "" { assert s[0] in s; }
  }
}
