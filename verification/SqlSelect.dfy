/** What the whole SELECT text of module Sql means: a reader that takes the statement apart again and
    an answer over stored cells, and the proof that the in-memory select gives such an answer. */
module SqlSelect {
  import opened Wrappers
  import opened Database
  import opened Sql
  import opened SqlMeaning
  import opened Selecting
  import Numbers

  // ---- reading a statement ----

  /** A statement taken apart; no limit stands for a negative one. */
  datatype Statement = Statement(table: string, where: seq<Token>, order: Option<Order>, limit: Option<nat>, offset: nat)

  predicate Keyword(t: Token, word: string) {
    t.Name? && Upper(t.text) == word
  }

  /** A whole number and the tokens behind it. */
  function ReadNumber(toks: seq<Token>): Option<(int, seq<Token>)> {
    if toks != [] && toks[0].Digits? && Numbers.AllDigits(toks[0].text) then Some((Numbers.NatOf(toks[0].text), toks[1..]))
    else if |toks| > 1 && toks[0] == Minus && toks[1].Digits? && Numbers.AllDigits(toks[1].text) then
      Some((-(Numbers.NatOf(toks[1].text) as int), toks[2..]))
    else None
  }

  /** `OFFSET n` or nothing, up to the end. */
  function ReadOffset(toks: seq<Token>): Option<nat> {
    if toks == [] then Some(0)
    else if !Keyword(toks[0], "OFFSET") then None
    else
      var n := ReadNumber(toks[1..]);
      if n.Some? && n.value.0 >= 0 && n.value.1 == [] then Some(n.value.0) else None
  }

  /** `LIMIT n OFFSET m` or a part of it. */
  function ReadLimit(toks: seq<Token>): Option<(Option<nat>, nat)> {
    if toks == [] then Some((None, 0))
    else if !Keyword(toks[0], "LIMIT") then None
    else
      var n := ReadNumber(toks[1..]);
      var m := if n.None? then None else ReadOffset(n.value.1);
      if m.None? then None else Some((if n.value.0 < 0 then None else Some(n.value.0), m.value))
  }

  function ReadOrder(toks: seq<Token>): Option<(Option<Order>, Option<nat>, nat)> {
    if toks == [] || !Keyword(toks[0], "ORDER") then
      var tail := ReadLimit(toks);
      if tail.None? then None else Some((None, tail.value.0, tail.value.1))
    else if |toks| < 4 || !Keyword(toks[1], "BY") || !toks[2].Name? || !(Keyword(toks[3], "ASC") || Keyword(toks[3], "DESC")) then None
    else
      var tail := ReadLimit(toks[4..]);
      if tail.None? then None
      else Some((Some(Order(toks[2].text, Keyword(toks[3], "DESC"))), tail.value.0, tail.value.1))
  }

  /** The tokens before the first `ORDER` or `LIMIT`. */
  function BeforeTail(toks: seq<Token>): (r: seq<Token>)
    ensures r <= toks
  {
    if toks == [] || Keyword(toks[0], "ORDER") || Keyword(toks[0], "LIMIT") then [] else [toks[0]] + BeforeTail(toks[1..])
  }

  /** `SELECT * FROM t`, a condition, an order, a limit and an offset. */
  function ReadSelect(toks: seq<Token>): Option<Statement> {
    if |toks| < 4 || !Keyword(toks[0], "SELECT") || toks[1] != Star || !Keyword(toks[2], "FROM") || !toks[3].Name? then None
    else
      var where := BeforeTail(toks[4..]);
      var tail := ReadOrder(toks[4 + |where|..]);
      if tail.None? then None else Some(Statement(toks[3].text, where, tail.value.0, tail.value.1, tail.value.2))
  }

  // ---- the tokens of the text ----

  function OrderTokens(order: Option<Order>): seq<Token> {
    if order.None? then []
    else [Name("ORDER"), Name("BY"), Name(order.value.column), Name(if order.value.descending then "DESC" else "ASC")]
  }

  function NumberTokens(n: nat): seq<Token> {
    [Digits(Numbers.NatText(n))]
  }

  function LimitTokens(q: Query): seq<Token> {
    (if q.limit.Some? then [Name("LIMIT")] + NumberTokens(q.limit.value)
     else if q.offset.Some? then [Name("LIMIT"), Minus] + NumberTokens(1) else [])
    + if q.offset.Some? then [Name("OFFSET")] + NumberTokens(q.offset.value) else []
  }

  function WhereTokens(ws: seq<Where>): seq<Token> {
    if ws == [] then [] else [Name("WHERE")] + (ClauseTokens(ws[0]) + MoreTokens(ws[1..]))
  }

  lemma LexWord(word: string, rest: string)
    requires IsIdentifier(word) && (rest == "" || rest[0] == ' ')
    ensures Lex(" " + (word + rest)) == [Name(word)] + Lex(rest)
  {
    hide Lex, IsIdentifier;
    LexBlank(word + rest);
    BlankEndsName();
    LexName(word, rest);
  }

  lemma BlankEndsName()
    ensures !IsNameChar(' ')
  {}

  lemma LexDigits(n: nat, rest: string)
    requires rest == "" || rest[0] == ' '
    ensures Lex(Numbers.NatText(n) + rest) == NumberTokens(n) + Lex(rest)
  {
    var d := Numbers.NatText(n);
    Numbers.TakesDigits(d, rest);
    assert (d + rest)[0] == d[0] && Numbers.IsDigit(d[0]);
    assert (d + rest)[|d|..] == rest;
    hide Numbers.NatText, Numbers.TakeDigits;
  }

  lemma {:induction false} LexMoreThen(ws: seq<Where>, rest: string)
    requires Guarded(ws)
    ensures Lex(MoreText(ws) + rest) == MoreTokens(ws) + Lex(rest)
  {
    hide Lex, ClauseText, ClauseTokens, IsIdentifier, MoreText, MoreTokens;
    MoreCons(ws);
    MoreTokensCons(ws);
    if ws == [] {
      assert "" + rest == rest && [] + Lex(rest) == Lex(rest);
    } else {
      assert ws[0] in ws;
      LexMoreThen(ws[1..], rest);
      var body := ClauseText(ws[0]) + (MoreText(ws[1..]) + rest);
      LexClause(ws[0], MoreText(ws[1..]) + rest);
      assert MoreText(ws) + rest == " " + ("AND" + (" " + body));
      AndIsName();
      LexWord("AND", " " + body);
      LexBlank(body);
      assert [Name("AND")] + (ClauseTokens(ws[0]) + (MoreTokens(ws[1..]) + Lex(rest)))
        == [Name("AND")] + (ClauseTokens(ws[0]) + MoreTokens(ws[1..])) + Lex(rest);
    }
  }

  lemma MoreTokensCons(ws: seq<Where>)
    ensures MoreTokens(ws) == if ws == [] then [] else [Name("AND")] + (ClauseTokens(ws[0]) + MoreTokens(ws[1..]))
  {}

  lemma LexWheresThen(ws: seq<Where>, rest: string)
    requires Guarded(ws)
    ensures Lex(WheresText(ws) + rest) == WhereTokens(ws) + Lex(rest)
  {
    hide Lex, ClauseText, ClauseTokens, IsIdentifier, MoreText, MoreTokens, WheresText;
    WheresCons(ws);
    if ws == [] {
      assert "" + rest == rest && [] + Lex(rest) == Lex(rest);
    } else {
      assert ws[0] in ws;
      LexMoreThen(ws[1..], rest);
      var body := ClauseText(ws[0]) + (MoreText(ws[1..]) + rest);
      LexClause(ws[0], MoreText(ws[1..]) + rest);
      assert WheresText(ws) + rest == " " + ("WHERE" + (" " + body));
      AndIsName();
      LexWord("WHERE", " " + body);
      LexBlank(body);
      assert [Name("WHERE")] + (ClauseTokens(ws[0]) + (MoreTokens(ws[1..]) + Lex(rest)))
        == [Name("WHERE")] + (ClauseTokens(ws[0]) + MoreTokens(ws[1..])) + Lex(rest);
    }
  }

  lemma WordsAreNames()
    ensures forall w <- ["SELECT", "FROM", "ORDER", "BY", "ASC", "DESC", "LIMIT", "OFFSET"] :: IsIdentifier(w)
  {}

  lemma LexOrderThen(order: Option<Order>, rest: string)
    requires (order.Some? ==> IsIdentifier(order.value.column)) && (rest == "" || rest[0] == ' ')
    ensures Lex(OrderText(order) + rest) == OrderTokens(order) + Lex(rest)
  {
    hide Lex, IsIdentifier;
    if order.None? {
      assert "" + rest == rest && [] + Lex(rest) == Lex(rest);
    } else {
      WordsAreNames();
      var way := if order.value.descending then "DESC" else "ASC";
      var direction := " " + (way + rest);
      var column := " " + (order.value.column + direction);
      OrderSpelled(order.value, rest);
      hide OrderText;
      LexWord("ORDER", " " + ("BY" + column));
      LexWord("BY", column);
      LexWord(order.value.column, direction);
      LexWord(way, rest);
      assert [Name("ORDER")] + ([Name("BY")] + ([Name(order.value.column)] + ([Name(way)] + Lex(rest))))
        == OrderTokens(order) + Lex(rest);
    }
  }

  lemma OrderSpelled(order: Order, rest: string)
    ensures var way := if order.descending then "DESC" else "ASC";
      OrderText(Some(order)) + rest == " " + ("ORDER" + (" " + ("BY" + (" " + (order.column + (" " + (way + rest)))))))
  {
    var way := if order.descending then "DESC" else "ASC";
    assert OrderText(Some(order)) == " ORDER BY " + order.column + (" " + way);
    hide OrderText;
    Regrouped(order.column, way, rest);
  }

  lemma Regrouped(column: string, way: string, rest: string)
    ensures " ORDER BY " + column + (" " + way) + rest == " " + ("ORDER" + (" " + ("BY" + (" " + (column + (" " + (way + rest)))))))
  {
    var tail := " " + (way + rest);
    assert (" " + way) + rest == tail;
    assert " ORDER BY " + column + (" " + way) + rest == " ORDER BY " + (column + tail);
    assert forall s: string :: " ORDER BY " + s == " " + ("ORDER" + (" " + ("BY" + (" " + s))));
  }

  /** A keyword and a number. */
  lemma LexPart(word: string, n: nat, rest: string)
    requires IsIdentifier(word) && (rest == "" || rest[0] == ' ')
    ensures Lex(" " + (word + (" " + (Numbers.NatText(n) + rest)))) == [Name(word)] + (NumberTokens(n) + Lex(rest))
  {
    hide Lex, IsIdentifier, Numbers.NatText, NumberTokens;
    LexWord(word, " " + (Numbers.NatText(n) + rest));
    LexBlank(Numbers.NatText(n) + rest);
    LexDigits(n, rest);
  }

  lemma LexLimit(q: Query)
    ensures Lex(LimitText(q)) == LimitTokens(q)
  {
    hide Lex, IsIdentifier, Numbers.NatText, NumberTokens;
    WordsAreNames();
    LexNothing();
    var tail := "";
    if q.offset.Some? {
      tail := " " + ("OFFSET" + (" " + (Numbers.NatText(q.offset.value) + "")));
      LexPart("OFFSET", q.offset.value, "");
    }
    if q.limit.Some? {
      LexPart("LIMIT", q.limit.value, tail);
      assert LimitText(q) == " " + ("LIMIT" + (" " + (Numbers.NatText(q.limit.value) + tail)));
    } else if q.offset.Some? {
      OneText();
      var one := Numbers.NatText(1) + tail;
      assert LimitText(q) == " " + ("LIMIT" + (" " + (['-'] + one)));
      LexWord("LIMIT", " " + (['-'] + one));
      LexBlank(['-'] + one);
      LexSymbol('-', one);
      LexDigits(1, tail);
    }
  }

  lemma OneText()
    ensures Numbers.NatText(1) == "1"
  {}

  lemma LexSelect(table: string, q: Query)
    requires Safe(table, q)
    ensures Lex(SelectText(table, q))
      == [Name("SELECT"), Star, Name("FROM"), Name(table)] + (WhereTokens(q.wheres) + (OrderTokens(q.order) + LimitTokens(q)))
  {
    hide Lex, IsIdentifier, WheresText, OrderText, LimitText, WhereTokens, OrderTokens, LimitTokens, Guarded;
    var tail := LimitText(q);
    var ordered := OrderText(q.order) + tail;
    var filtered := WheresText(q.wheres) + ordered;
    TailStarts(q);
    LexLimit(q);
    LexOrderThen(q.order, tail);
    LexWheresThen(q.wheres, ordered);
    WordsAreNames();
    var source := " " + (table + filtered);
    LexWord(table, filtered);
    LexWord("FROM", source);
    var from := " " + ("FROM" + source);
    LexSymbol('*', from);
    LexBlank(['*'] + from);
    LexName("SELECT", " " + (['*'] + from));
    SelectSpelled(table, q);
    var toks := WhereTokens(q.wheres) + (OrderTokens(q.order) + LimitTokens(q));
    assert [Name("SELECT")] + ([Star] + ([Name("FROM")] + ([Name(table)] + toks)))
      == [Name("SELECT"), Star, Name("FROM"), Name(table)] + toks;
  }

  lemma SelectSpelled(table: string, q: Query)
    ensures SelectText(table, q)
      == "SELECT" + (" " + (['*'] + (" " + ("FROM" + (" " + (table + (WheresText(q.wheres) + (OrderText(q.order) + LimitText(q)))))))))
  {
    hide WheresText, OrderText, LimitText;
    var where, order, limit := WheresText(q.wheres), OrderText(q.order), LimitText(q);
    assert "SELECT * FROM " + table + where + order + limit == "SELECT * FROM " + (table + (where + (order + limit)));
    assert forall s: string :: "SELECT * FROM " + s == "SELECT" + (" " + (['*'] + (" " + ("FROM" + (" " + s)))));
  }

  /** What follows a name in the text starts with a blank. */
  lemma TailStarts(q: Query)
    ensures var tail := LimitText(q); var ordered := OrderText(q.order) + tail; var filtered := WheresText(q.wheres) + ordered;
      && (tail == "" || tail[0] == ' ') && (ordered == "" || ordered[0] == ' ') && (filtered == "" || filtered[0] == ' ')
    ensures !IsNameChar(' ')
  {
    hide ClauseText, MoreText, Numbers.IntText;
  }

  // ---- reading the tokens ----

  lemma ReadsNumber(n: nat, rest: seq<Token>)
    ensures ReadNumber(NumberTokens(n) + rest) == Some((n as int, rest))
    ensures ReadNumber([Minus] + (NumberTokens(n) + rest)) == Some((-(n as int), rest))
  {
    hide Numbers.NatText, Numbers.NatOf;
    Numbers.NatRoundTrip(n);
    assert (NumberTokens(n) + rest)[1..] == rest;
    assert ([Minus] + (NumberTokens(n) + rest))[2..] == rest;
  }

  lemma KeywordsRead()
    ensures forall w <- ["SELECT", "FROM", "ORDER", "BY", "ASC", "DESC", "LIMIT", "OFFSET"] :: Upper(w) == w
  {}

  lemma ReadsLimit(q: Query)
    ensures ReadLimit(LimitTokens(q)) == Some((q.limit, if q.offset.Some? then q.offset.value else 0))
  {
    hide ReadNumber, Upper, NumberTokens;
    KeywordsRead();
    var tail := [];
    if q.offset.Some? {
      tail := [Name("OFFSET")] + NumberTokens(q.offset.value);
      ReadsNumber(q.offset.value, []);
      assert tail[1..] == NumberTokens(q.offset.value) + [];
    }
    assert ReadOffset(tail) == Some(if q.offset.Some? then q.offset.value else 0);
    if q.limit.Some? {
      ReadsNumber(q.limit.value, tail);
      assert LimitTokens(q)[1..] == NumberTokens(q.limit.value) + tail;
    } else if q.offset.Some? {
      ReadsNumber(1, tail);
      assert LimitTokens(q)[1..] == [Minus] + (NumberTokens(1) + tail);
    }
  }

  lemma ReadsOrder(q: Query)
    ensures ReadOrder(OrderTokens(q.order) + LimitTokens(q)) == Some((q.order, q.limit, if q.offset.Some? then q.offset.value else 0))
  {
    hide ReadLimit, LimitTokens;
    ReadsLimit(q);
    var tail := LimitTokens(q);
    if q.order.None? {
      assert OrderTokens(None) + tail == tail;
      LimitFirst(q);
      ReadsNoOrder(tail);
    } else {
      ReadsOneOrder(q.order.value, tail);
    }
  }

  lemma ReadsNoOrder(tail: seq<Token>)
    requires tail == [] || tail[0] == Name("LIMIT")
    ensures ReadOrder(tail) == var l := ReadLimit(tail); if l.None? then None else Some((None, l.value.0, l.value.1))
  {
    hide ReadLimit;
    KeywordsRead();
    hide Upper;
  }

  lemma ReadsOneOrder(order: Order, tail: seq<Token>)
    ensures ReadOrder(OrderTokens(Some(order)) + tail)
      == var l := ReadLimit(tail); if l.None? then None else Some((Some(order), l.value.0, l.value.1))
  {
    hide ReadLimit;
    KeywordsRead();
    hide Upper;
    var toks := OrderTokens(Some(order)) + tail;
    assert toks[4..] == tail;
  }

  lemma LimitFirst(q: Query)
    ensures var toks := LimitTokens(q); toks == [] || toks[0] == Name("LIMIT")
  {}

  /** No name of a condition opens the tail of a statement. */
  ghost predicate Inner(toks: seq<Token>) {
    forall t <- toks :: !Keyword(t, "ORDER") && !Keyword(t, "LIMIT")
  }

  lemma {:induction false} BeforeTailIs(a: seq<Token>, b: seq<Token>)
    requires Inner(a) && (b == [] || Keyword(b[0], "ORDER") || Keyword(b[0], "LIMIT"))
    ensures BeforeTail(a + b) == a
  {
    hide Keyword;
    if a == [] {
      assert a + b == b;
    } else {
      assert a[0] in a && (a + b)[1..] == a[1..] + b && Inner(a[1..]);
      BeforeTailIs(a[1..], b);
      assert a == [a[0]] + a[1..];
    }
  }

  lemma InnerCat(a: seq<Token>, b: seq<Token>)
    requires Inner(a) && Inner(b)
    ensures Inner(a + b)
  {}

  lemma {:induction false} MarksAreInner(n: nat)
    ensures Inner(MarkTokens(n))
  {
    if n > 1 { MarksAreInner(n - 1); }
  }

  lemma ClauseIsInner(w: Where)
    requires !Reserved(w.column)
    ensures Inner(ClauseTokens(w))
  {
    hide MarkTokens;
    ReservedWords(w.column);
    MarksAreInner(|w.values|);
    InnerWords();
    hide Upper, Keyword;
    assert Inner([Name(w.column)]);
    if w.op == In {
      InnerCat(MarkTokens(|w.values|), [RParen]);
      InnerCat([Name("IN"), LParen], MarkTokens(|w.values|) + [RParen]);
      InnerCat([Name(w.column)], [Name("IN"), LParen] + (MarkTokens(|w.values|) + [RParen]));
    } else {
      InnerSigns(w.op);
      InnerCat([Name(w.column)], [Sign(w.op), Mark]);
    }
  }

  lemma ReservedWords(name: string)
    ensures !Reserved(name) ==> Inner([Name(name)])
  {}

  lemma InnerWords()
    ensures Inner([Name("AND")]) && Inner([Name("WHERE")]) && Inner([Name("IN"), LParen]) && Inner([RParen])
  {
    assert Upper("AND") == "AND" && Upper("WHERE") == "WHERE" && Upper("IN") == "IN";
  }

  lemma InnerSigns(op: Op)
    ensures Inner([Sign(op), Mark])
  {}

  lemma {:induction false} MoreIsInner(ws: seq<Where>)
    requires forall w <- ws :: !Reserved(w.column)
    ensures Inner(MoreTokens(ws))
  {
    hide Inner, ClauseTokens, Reserved;
    if ws == [] {
      NothingInner();
    } else {
      assert ws[0] in ws;
      MoreIsInner(ws[1..]);
      ClauseIsInner(ws[0]);
      InnerWords();
      InnerCat(ClauseTokens(ws[0]), MoreTokens(ws[1..]));
      InnerCat([Name("AND")], ClauseTokens(ws[0]) + MoreTokens(ws[1..]));
    }
  }

  lemma NothingInner()
    ensures Inner([])
  {}

  lemma WhereIsInner(ws: seq<Where>)
    requires forall w <- ws :: !Reserved(w.column)
    ensures Inner(WhereTokens(ws))
  {
    hide Inner, ClauseTokens, MoreTokens, Reserved;
    NothingInner();
    if ws != [] {
      assert ws[0] in ws;
      MoreIsInner(ws[1..]);
      ClauseIsInner(ws[0]);
      InnerWords();
      InnerCat(ClauseTokens(ws[0]), MoreTokens(ws[1..]));
      InnerCat([Name("WHERE")], ClauseTokens(ws[0]) + MoreTokens(ws[1..]));
    }
  }

  lemma TailOpens(q: Query)
    ensures var toks := OrderTokens(q.order) + LimitTokens(q); toks == [] || Keyword(toks[0], "ORDER") || Keyword(toks[0], "LIMIT")
  {
    hide Upper;
    KeywordsRead();
    LimitFirst(q);
  }

  /** The statement's text reads back as its table, condition, order, limit and offset. */
  lemma SelectReadsBack(table: string, q: Query)
    requires Safe(table, q) && forall w <- q.wheres :: !Reserved(w.column)
    ensures ReadSelect(Lex(SelectText(table, q)))
      == Some(Statement(table, Lex(WheresText(q.wheres)), q.order, q.limit, if q.offset.Some? then q.offset.value else 0))
  {
    hide Lex, IsIdentifier, WheresText, SelectText, WhereTokens, OrderTokens, LimitTokens, Reserved, ReadOrder, Inner, Upper, BeforeTail;
    LexSelect(table, q);
    LexWheresThen(q.wheres, "");
    LexNothing();
    assert WheresText(q.wheres) + "" == WheresText(q.wheres);
    var where, tail := WhereTokens(q.wheres), OrderTokens(q.order) + LimitTokens(q);
    assert where + [] == where;
    WhereIsInner(q.wheres);
    TailOpens(q);
    BeforeTailIs(where, tail);
    ReadsOrder(q);
    KeywordsRead();
    var toks := [Name("SELECT"), Star, Name("FROM"), Name(table)] + (where + tail);
    assert toks[4..] == where + tail;
    assert toks[4 + |where|..] == tail;
  }

  // ---- what a statement answers ----

  /** The rows kept, in table order, or sorted by a column's stored cells with ties in any order. */
  ghost predicate Arranged(kept: seq<Row>, order: Option<Order>, s: seq<Row>) {
    if order.None? then s == kept
    else
      var column := order.value.column;
      && multiset(s) == multiset(kept) && AllHold(s, column)
      && forall i, j :: 0 <= i < j < |s| ==>
        if order.value.descending then !CellLess(Stored(s[i][column]), Stored(s[j][column]))
        else !CellLess(Stored(s[j][column]), Stored(s[i][column]))
  }

  ghost predicate Answers(st: Statement, binds: seq<Cell>, rows: seq<Row>, r: seq<Row>) {
    var kept := Answer(st.where, binds, rows);
    kept.Some? && exists s :: Arranged(kept.value, st.order, s) && Stretch(s, Some(st.offset), st.limit, r)
  }

  /** The order column is no keyword, and its cells are there and of one kind. */
  predicate Sortable(rows: seq<Row>, order: Option<Order>) {
    order.Some? ==>
      var column := order.value.column;
      && !Reserved(column) && AllHold(rows, column)
      && forall r <- rows, r' <- rows :: Kind(r[column]) == Kind(r'[column])
  }

  lemma StoredLess(a: Value, b: Value)
    requires Kind(a) == Kind(b) && CellLess(Stored(a), Stored(b))
    ensures Less(a, b)
  {
    hide CellLess, Stored, Less;
    LessInSql(a, b);
    if Misordered(a, b) { SameKindMisordered(a, b); }
  }

  lemma SameKindMisordered(a: Value, b: Value)
    requires Kind(a) == Kind(b) && Misordered(a, b)
    ensures !CellLess(Stored(a), Stored(b))
  {
    TextOrder(UpToNul(a.s), UpToNul(a.s), UpToNul(a.s));
  }

  lemma {:induction false} FilterHolds(rows: seq<Row>, wheres: seq<Where>)
    ensures forall r <- Filter(rows, wheres) :: r in rows
  {
    hide Kept;
    if rows != [] { FilterHolds(rows[1..], wheres); }
  }

  lemma OrderedIsArranged(rows: seq<Row>, kept: seq<Row>, order: Option<Order>, s: seq<Row>)
    requires Sortable(rows, order) && (forall r <- kept :: r in rows) && OrderedForm(kept, order, s)
    ensures Arranged(kept, order, s)
  {
    hide WithCell, Less, CellLess, Stored, Reserved, Kind;
    if order.Some? && |kept| >= 2 {
      var column := order.value.column;
      forall i, j | 0 <= i < j < |s|
        ensures if order.value.descending then !CellLess(Stored(s[i][column]), Stored(s[j][column]))
                else !CellLess(Stored(s[j][column]), Stored(s[i][column]))
      {
        assert s[i] in multiset(kept) && s[j] in multiset(kept);
        if CellLess(Stored(s[i][column]), Stored(s[j][column])) { StoredLess(s[i][column], s[j][column]); }
        if CellLess(Stored(s[j][column]), Stored(s[i][column])) { StoredLess(s[j][column], s[i][column]); }
      }
    }
  }

  /** The in-memory select gives an answer to the statement: read back and carried out on stored
      cells, it keeps the same rows, in the order asked for, from the same row to the same row. */
  lemma SelectMeansQuery(rows: seq<Row>, table: string, q: Query)
    requires Safe(table, q) && (forall w <- q.wheres :: !Reserved(w.column)) && Sortable(rows, q.order)
    requires forall r <- rows :: Evaluable(r, q.wheres)
    ensures Selected(rows, q).Some?
    ensures var st := ReadSelect(Lex(SelectText(table, q)));
      st.Some? && st.value.table == table && Answers(st.value, StoredAll(Bindings(q.wheres)), rows, Selected(rows, q).value)
  {
    hide Lex, WheresText, SelectText, Reserved, ReadSelect, Evaluable, Answer, StoredAll, Bindings, Selected, Filter,
      OrderedForm, Arranged, Sortable, Stretch, Safe;
    SelectReadsBack(table, q);
    SafeGuards(table, q);
    TableMeansFilter(rows, q.wheres);
    FilterHolds(rows, q.wheres);
    var kept := Filter(rows, q.wheres);
    SortableHolds(rows, kept, q.order);
    var s := SelectAnswers(rows, q);
    OrderedIsArranged(rows, kept, q.order, s);
    StretchFromZero(s, q.offset, q.limit, Selected(rows, q).value);
  }

  lemma SafeGuards(table: string, q: Query)
    requires Safe(table, q)
    ensures Guarded(q.wheres)
  {}

  lemma SortableHolds(rows: seq<Row>, kept: seq<Row>, order: Option<Order>)
    requires Sortable(rows, order) && forall r <- kept :: r in rows
    ensures order.Some? ==> AllHold(kept, order.value.column)
  {}

  lemma StretchFromZero(s: seq<Row>, offset: Option<nat>, limit: Option<nat>, r: seq<Row>)
    requires Stretch(s, offset, limit, r)
    ensures Stretch(s, Some(if offset.Some? then offset.value else 0), limit, r)
  {}
}
