/** What the WHERE text of module Sql means: a tokenizer and an evaluator over stored cells, and
    the proof that the text under its bindings keeps the rows the in-memory filter keeps. */
module SqlMeaning {
  import opened Wrappers
  import opened Database
  import opened Sql
  import Numbers

  // ---- stored cells ----

  datatype Cell = CInt(i: int) | CReal(d: real) | CText(s: string)

  /** `sqlite3_bind_text` with length -1 stops at the first NUL. */
  function UpToNul(s: string): string {
    if s == "" || s[0] == '\0' then "" else [s[0]] + UpToNul(s[1..])
  }

  /** `bind_value`. */
  function Stored(v: Value): Cell {
    match v
    case Int(i) => CInt(i)
    case Dbl(d) => CReal(d)
    case Str(s) => CText(UpToNul(s))
    case Bool(b) => CInt(if b then 1 else 0)
  }

  function StoredAll(vs: seq<Value>): seq<Cell> {
    seq(|vs|, k requires 0 <= k < |vs| => Stored(vs[k]))
  }

  function StoredRow(r: Row): map<string, Cell> {
    map c <- r :: Stored(r[c])
  }

  function Number(c: Cell): real
    requires !c.CText?
  {
    if c.CInt? then c.i as real else c.d
  }

  /** Numbers compare by value and come before all text; text compares by its bytes. */
  predicate CellLess(a: Cell, b: Cell) {
    if a.CText? then b.CText? && TextLess(a.s, b.s) else b.CText? || Number(a) < Number(b)
  }

  predicate CellSame(a: Cell, b: Cell) {
    if a.CText? || b.CText? then a == b else Number(a) == Number(b)
  }

  predicate Compares(a: Cell, op: Op, b: Cell) {
    match op
    case Eq => CellSame(a, b)
    case Ne => !CellSame(a, b)
    case Lt => CellLess(a, b)
    case Lte => CellLess(a, b) || CellSame(a, b)
    case Gt => CellLess(b, a)
    case Gte => CellLess(b, a) || CellSame(a, b)
    case In => false
  }

  // ---- tokens ----

  datatype Token =
    | Name(text: string) | Digits(text: string) | Sign(op: Op)
    | Mark | LParen | RParen | Comma | Star | Minus | Unknown(c: char)

  predicate IsNameChar(c: char) {
    IsWord(c) || Numbers.IsDigit(c)
  }

  /** The length of the name a text begins with. */
  function NameLength(s: string): (n: nat)
    ensures n <= |s|
  {
    if s != "" && IsNameChar(s[0]) then 1 + NameLength(s[1..]) else 0
  }

  /** The token a text begins with and its length; operators are read as long as possible. */
  function FirstToken(s: string): (t: (Token, nat))
    requires s != ""
    ensures 1 <= t.1 <= |s|
  {
    var c, d := s[0], if |s| > 1 then s[1] else ' ';
    if IsWord(c) then (Name(s[..NameLength(s)]), NameLength(s))
    else if Numbers.IsDigit(c) then (Digits(Numbers.TakeDigits(s)), |Numbers.TakeDigits(s)|)
    else if c == '!' && d == '=' then (Sign(Ne), 2)
    else if c == '<' then (if d == '=' then (Sign(Lte), 2) else if d == '>' then (Sign(Ne), 2) else (Sign(Lt), 1))
    else if c == '>' then (if d == '=' then (Sign(Gte), 2) else (Sign(Gt), 1))
    else if c == '=' then (Sign(Eq), if d == '=' then 2 else 1)
    else if c == '?' then (Mark, 1)
    else if c == '(' then (LParen, 1)
    else if c == ')' then (RParen, 1)
    else if c == ',' then (Comma, 1)
    else if c == '*' then (Star, 1)
    else if c == '-' then (Minus, 1)
    else (Unknown(c), 1)
  }

  function Lex(s: string): seq<Token> {
    if s == "" then [] else if s[0] == ' ' then Lex(s[1..])
    else [FirstToken(s).0] + Lex(s[FirstToken(s).1..])
  }

  // ---- evaluation ----

  /** Words SQLite does not take as a bare column name. */
  const RESERVED: set<string> := {
    "ADD", "ALL", "ALTER", "AND", "AS", "AUTOINCREMENT", "BETWEEN", "CASE", "CHECK", "COLLATE", "COMMIT",
    "CONSTRAINT", "CREATE", "DEFAULT", "DEFERRABLE", "DELETE", "DISTINCT", "DROP", "ELSE", "ESCAPE", "EXISTS"
  } + {
    "FOREIGN", "FROM", "GROUP", "HAVING", "IN", "INDEX", "INSERT", "INTERSECT", "INTO", "IS", "ISNULL", "JOIN",
    "LIMIT", "NOT", "NOTNULL", "NULL", "ON", "OR", "ORDER", "PRIMARY", "REFERENCES", "SELECT", "SET", "TABLE",
    "THEN", "TO", "TRANSACTION", "UNION", "UNIQUE", "UPDATE", "USING", "VALUES", "WHEN", "WHERE"
  }

  function Upper(s: string): string {
    seq(|s|, k requires 0 <= k < |s| => if 'a' <= s[k] <= 'z' then 'A' + (s[k] - 'a') else s[k])
  }

  predicate Reserved(name: string) {
    Upper(name) in RESERVED
  }

  /** A condition's truth with the tokens and bindings it leaves; None for text that is no condition. */
  datatype Outcome = Outcome(holds: bool, toks: seq<Token>, binds: seq<Cell>)

  /** The rest of an IN list from a `?` on. */
  function EvalItems(toks: seq<Token>, binds: seq<Cell>, cell: Cell): (r: Option<Outcome>)
    ensures r.Some? ==> |r.value.toks| < |toks|
  {
    if |toks| < 2 || toks[0] != Mark || binds == [] then None
    else
      var hit := CellSame(cell, binds[0]);
      if toks[1] == RParen then Some(Outcome(hit, toks[2..], binds[1..]))
      else if toks[1] == Comma then
        var more := EvalItems(toks[2..], binds[1..], cell);
        if more.None? then None else Some(more.value.(holds := hit || more.value.holds))
      else None
  }

  function EvalList(toks: seq<Token>, binds: seq<Cell>, cell: Cell): (r: Option<Outcome>)
    ensures r.Some? ==> |r.value.toks| < |toks|
  {
    if toks != [] && toks[0] == RParen then Some(Outcome(false, toks[1..], binds)) else EvalItems(toks, binds, cell)
  }

  function EvalClause(toks: seq<Token>, binds: seq<Cell>, row: map<string, Cell>): (r: Option<Outcome>)
    ensures r.Some? ==> |r.value.toks| < |toks|
  {
    if |toks| < 3 || !toks[0].Name? || Reserved(toks[0].text) || toks[0].text !in row then None
    else
      var cell := row[toks[0].text];
      if toks[1] == Name("IN") && toks[2] == LParen then EvalList(toks[3..], binds, cell)
      else if toks[1].Sign? && toks[2] == Mark && binds != [] then
        Some(Outcome(Compares(cell, toks[1].op, binds[0]), toks[3..], binds[1..]))
      else None
  }

  function EvalMore(toks: seq<Token>, binds: seq<Cell>, row: map<string, Cell>): Option<bool>
    decreases |toks|
  {
    if toks == [] then (if binds == [] then Some(true) else None)
    else if toks[0] != Name("AND") then None
    else
      var first := EvalClause(toks[1..], binds, row);
      if first.None? then None
      else
        var more := EvalMore(first.value.toks, first.value.binds, row);
        if more.None? then None else Some(first.value.holds && more.value)
  }

  /** The truth of a WHERE text (or of no WHERE) for a row. */
  function EvalWhere(toks: seq<Token>, binds: seq<Cell>, row: map<string, Cell>): Option<bool> {
    if toks != [] && toks[0] == Name("WHERE") then EvalMore([Name("AND")] + toks[1..], binds, row)
    else EvalMore(toks, binds, row)
  }

  // ---- the tokens of the text ----

  function MarkTokens(n: nat): seq<Token> {
    if n == 0 then [] else if n == 1 then [Mark] else [Mark, Comma] + MarkTokens(n - 1)
  }

  function ClauseTokens(w: Where): seq<Token> {
    [Name(w.column)] +
    if w.op == In then [Name("IN"), LParen] + (MarkTokens(|w.values|) + [RParen]) else [Sign(w.op), Mark]
  }

  function MoreTokens(ws: seq<Where>): seq<Token> {
    if ws == [] then [] else [Name("AND")] + (ClauseTokens(ws[0]) + MoreTokens(ws[1..]))
  }

  lemma {:induction false} NameLengthIs(name: string, rest: string)
    requires forall c <- name :: IsNameChar(c)
    requires rest == "" || !IsNameChar(rest[0])
    ensures NameLength(name + rest) == |name|
  {
    if name == "" {
      assert name + rest == rest;
    } else {
      assert name[0] in name && (name + rest)[1..] == name[1..] + rest;
      NameLengthIs(name[1..], rest);
    }
  }

  lemma LexName(name: string, rest: string)
    requires IsIdentifier(name) && (rest == "" || !IsNameChar(rest[0]))
    ensures Lex(name + rest) == [Name(name)] + Lex(rest)
  {
    NameLengthIs(name, rest);
    assert (name + rest)[0] == name[0];
    assert (name + rest)[..|name|] == name && (name + rest)[|name|..] == rest;
  }

  lemma LexBlank(rest: string)
    ensures Lex(" " + rest) == Lex(rest)
  {
    assert (" " + rest)[1..] == rest;
  }

  lemma LexSymbol(c: char, rest: string)
    requires c in "?(),*-"
    ensures Lex([c] + rest) == [FirstToken([c]).0] + Lex(rest)
  {
    assert ([c] + rest)[1..] == rest;
  }

  /** Before a blank, every operator is read back as itself. */
  lemma LexSign(op: Op, rest: string)
    requires op != In
    ensures Lex(OpText(op) + (" " + rest)) == [Sign(op)] + Lex(rest)
  {
    var s := OpText(op) + (" " + rest);
    assert s[|OpText(op)|..] == " " + rest;
    LexBlank(rest);
  }

  lemma {:induction false} MarkListFront(n: nat)
    requires n >= 2
    ensures MarkList(n) == "?," + MarkList(n - 1)
  {
    if n > 2 {
      MarkListFront(n - 1);
      assert ("?," + MarkList(n - 2)) + ",?" == "?," + (MarkList(n - 2) + ",?");
    } else {
      assert MarkList(2) == "?" + ",?" && MarkList(1) == "?";
    }
  }

  lemma {:induction false} LexMarks(n: nat, rest: string)
    ensures Lex(MarkList(n) + rest) == MarkTokens(n) + Lex(rest)
  {
    hide Lex;
    if n == 0 {
      assert MarkList(0) + rest == rest;
      assert MarkTokens(0) + Lex(rest) == Lex(rest);
    } else if n == 1 {
      LexSymbol('?', rest);
    } else {
      MarkListFront(n);
      var tail := MarkList(n - 1) + rest;
      assert MarkList(n) + rest == ['?'] + ([','] + tail);
      LexSymbol('?', [','] + tail);
      LexSymbol(',', tail);
      LexMarks(n - 1, rest);
      assert [Mark] + ([Comma] + Lex(tail)) == [Mark, Comma] + Lex(tail);
      assert [Mark, Comma] + (MarkTokens(n - 1) + Lex(rest)) == MarkTokens(n) + Lex(rest);
    }
  }

  lemma LexList(w: Where, rest: string)
    ensures Lex(" IN (" + MarkList(|w.values|) + ")" + rest)
      == [Name("IN"), LParen] + (MarkTokens(|w.values|) + [RParen]) + Lex(rest)
  {
    hide Lex, MarkList, MarkTokens;
    var n := |w.values|;
    var marks := MarkList(n) + (")" + rest);
    assert " IN (" + MarkList(n) + ")" + rest == " " + ("IN" + (" " + ("(" + marks)));
    LexBlank("IN" + (" " + ("(" + marks)));
    LexName("IN", " " + ("(" + marks));
    LexBlank("(" + marks);
    LexSymbol('(', marks);
    LexMarks(n, ")" + rest);
    LexSymbol(')', rest);
    assert [Name("IN")] + ([LParen] + (MarkTokens(n) + ([RParen] + Lex(rest))))
      == [Name("IN"), LParen] + (MarkTokens(n) + [RParen]) + Lex(rest);
  }

  lemma LexComparison(op: Op, rest: string)
    requires op != In
    ensures Lex(" " + OpText(op) + " ?" + rest) == [Sign(op), Mark] + Lex(rest)
  {
    hide Lex, OpText;
    assert " " + OpText(op) + " ?" + rest == " " + (OpText(op) + (" " + ("?" + rest)));
    LexBlank(OpText(op) + (" " + ("?" + rest)));
    LexSign(op, "?" + rest);
    LexSymbol('?', rest);
    assert [Sign(op)] + ([Mark] + Lex(rest)) == [Sign(op), Mark] + Lex(rest);
  }

  lemma LexClause(w: Where, rest: string)
    requires IsIdentifier(w.column)
    ensures Lex(ClauseText(w) + rest) == ClauseTokens(w) + Lex(rest)
  {
    hide Lex, MarkList, MarkTokens, OpText, IsIdentifier;
    if w.op == In {
      var tail := " IN (" + MarkList(|w.values|) + ")";
      assert ClauseText(w) + rest == w.column + (tail + rest);
      LexList(w, rest);
      LexName(w.column, tail + rest);
    } else {
      var tail := " " + OpText(w.op) + " ?";
      assert ClauseText(w) + rest == w.column + (tail + rest);
      LexComparison(w.op, rest);
      LexName(w.column, tail + rest);
    }
  }

  lemma {:induction false} LexMore(ws: seq<Where>)
    requires Guarded(ws)
    ensures Lex(MoreText(ws)) == MoreTokens(ws)
  {
    hide Lex, ClauseText, ClauseTokens, IsIdentifier;
    if ws == [] {
      LexNothing();
    } else {
      assert ws[0] in ws;
      LexMore(ws[1..]);
      var body := ClauseText(ws[0]) + MoreText(ws[1..]);
      LexClause(ws[0], MoreText(ws[1..]));
      assert " AND " + body == " " + ("AND" + (" " + body));
      LexBlank("AND" + (" " + body));
      AndIsName();
      LexName("AND", " " + body);
      LexBlank(body);
    }
  }

  lemma AndIsName()
    ensures IsIdentifier("AND") && IsIdentifier("WHERE")
  {}

  lemma LexNothing()
    ensures Lex("") == []
  {}

  // ---- agreement ----

  predicate NulFree(v: Value) {
    v.Str? ==> '\0' !in v.s
  }

  /** The operands a condition compares. */
  function Operands(w: Where): seq<Value> {
    if w.op == In then w.values else [w.value]
  }

  /** The row holds the column, and the cell and the operands are of one kind, without NUL. */
  predicate Comparable(row: Row, w: Where) {
    && w.column in row && NulFree(row[w.column])
    && forall v <- Operands(w) :: Kind(v) == Kind(row[w.column]) && NulFree(v)
  }

  lemma {:induction false} NulFreeText(s: string)
    requires '\0' !in s
    ensures UpToNul(s) == s
  {
    if s != "" {
      assert s[0] in s;
      NulFreeText(s[1..]);
    }
  }

  /** Between cells of one kind, SQL compares as the in-memory match does. */
  lemma ComparesAsMatches(a: Value, op: Op, v: Value)
    requires Kind(a) == Kind(v) && NulFree(a) && NulFree(v) && op != In
    ensures Compares(Stored(a), op, Stored(v)) == Matches(a, op, v)
    ensures CellSame(Stored(a), Stored(v)) == (a == v)
  {
    if a.Str? {
      NulFreeText(a.s);
      NulFreeText(v.s);
      TextOrder(a.s, v.s, a.s);
    }
  }

  lemma StoredHead(v: Value, vs: seq<Value>)
    ensures StoredAll([v] + vs) == [Stored(v)] + StoredAll(vs)
  {}

  lemma StoredCat(a: seq<Value>, b: seq<Value>)
    ensures StoredAll(a + b) == StoredAll(a) + StoredAll(b)
  {}

  /** Whether SQL finds the cell among the listed values. */
  predicate Listed(cell: Value, vs: seq<Value>) {
    exists v <- vs :: CellSame(Stored(cell), Stored(v))
  }

  /** The truth of one condition as SQL computes it on stored cells. */
  predicate HoldsInSql(cell: Value, w: Where) {
    if w.op == In then Listed(cell, w.values) else Compares(Stored(cell), w.op, Stored(w.value))
  }

  lemma {:induction false} ItemsEvaluate(cell: Value, vs: seq<Value>, toks: seq<Token>, binds: seq<Cell>)
    requires vs != []
    ensures EvalItems(MarkTokens(|vs|) + ([RParen] + toks), StoredAll(vs) + binds, Stored(cell))
      == Some(Outcome(Listed(cell, vs), toks, binds))
  {
    hide Stored, CellSame, StoredAll, EvalItems, Listed;
    var n := |vs|;
    assert vs == [vs[0]] + vs[1..];
    ListedHead(cell, vs[0], vs[1..]);
    StoredHead(vs[0], vs[1..]);
    var here := Stored(vs[0]);
    if n == 1 {
      StoredNone();
      assert vs[1..] == [];
      assert StoredAll(vs) + binds == [here] + binds;
      assert MarkTokens(1) + ([RParen] + toks) == [Mark, RParen] + toks;
      LastItem(toks, here, binds, Stored(cell));
      NoneListed(cell);
    } else {
      var rest := MarkTokens(n - 1) + ([RParen] + toks);
      assert MarkTokens(n) + ([RParen] + toks) == [Mark, Comma] + rest;
      assert StoredAll(vs) + binds == [here] + (StoredAll(vs[1..]) + binds);
      ItemsEvaluate(cell, vs[1..], toks, binds);
      OneItem(rest, here, StoredAll(vs[1..]) + binds, Stored(cell));
    }
  }

  lemma ListedHead(cell: Value, v: Value, vs: seq<Value>)
    ensures Listed(cell, [v] + vs) <==> CellSame(Stored(cell), Stored(v)) || Listed(cell, vs)
  {
    hide Stored, CellSame;
    if CellSame(Stored(cell), Stored(v)) { assert ([v] + vs)[0] == v; }
    if Listed(cell, vs) {
      var x :| x in vs && CellSame(Stored(cell), Stored(x));
      assert x in [v] + vs;
    }
  }

  lemma NoneListed(cell: Value)
    ensures !Listed(cell, [])
  {}

  lemma StoredNone()
    ensures StoredAll([]) == []
  {}

  lemma LastItem(toks: seq<Token>, b: Cell, binds: seq<Cell>, cell: Cell)
    ensures EvalItems([Mark, RParen] + toks, [b] + binds, cell) == Some(Outcome(CellSame(cell, b), toks, binds))
  {
    assert ([Mark, RParen] + toks)[2..] == toks && ([b] + binds)[1..] == binds;
  }

  lemma OneItem(toks: seq<Token>, b: Cell, binds: seq<Cell>, cell: Cell)
    ensures EvalItems([Mark, Comma] + toks, [b] + binds, cell) ==
      var more := EvalItems(toks, binds, cell);
      if more.None? then None else Some(more.value.(holds := CellSame(cell, b) || more.value.holds))
  {
    assert ([Mark, Comma] + toks)[2..] == toks && ([b] + binds)[1..] == binds;
  }

  lemma ListClause(column: string, toks: seq<Token>, binds: seq<Cell>, row: map<string, Cell>)
    requires !Reserved(column) && column in row && toks != []
    ensures EvalClause([Name(column), Name("IN"), LParen] + toks, binds, row) == EvalList(toks, binds, row[column])
  {
    hide Reserved;
    assert ([Name(column), Name("IN"), LParen] + toks)[3..] == toks;
  }

  lemma SignClause(column: string, op: Op, toks: seq<Token>, b: Cell, binds: seq<Cell>, row: map<string, Cell>)
    requires !Reserved(column) && column in row
    ensures EvalClause([Name(column), Sign(op), Mark] + toks, [b] + binds, row)
      == Some(Outcome(Compares(row[column], op, b), toks, binds))
  {
    hide Reserved;
    assert ([Name(column), Sign(op), Mark] + toks)[3..] == toks && ([b] + binds)[1..] == binds;
  }

  lemma ListEvaluates(cell: Value, vs: seq<Value>, toks: seq<Token>, binds: seq<Cell>)
    ensures EvalList(MarkTokens(|vs|) + ([RParen] + toks), StoredAll(vs) + binds, Stored(cell))
      == Some(Outcome(Listed(cell, vs), toks, binds))
  {
    hide Stored, CellSame, Listed, EvalItems;
    var all := MarkTokens(|vs|) + ([RParen] + toks);
    if vs == [] {
      NoneListed(cell);
      assert all == [RParen] + toks && all[1..] == toks && StoredAll(vs) + binds == binds;
    } else {
      ItemsEvaluate(cell, vs, toks, binds);
      assert MarkTokens(|vs|)[0] == Mark && all[0] == Mark;
    }
  }

  /** One condition, read under its own bindings, has the truth SQL gives it on stored cells. */
  lemma ClauseEvaluates(row: Row, w: Where, toks: seq<Token>, binds: seq<Cell>)
    requires w.column in row && !Reserved(w.column)
    ensures EvalClause(ClauseTokens(w) + toks, StoredAll(Operands(w)) + binds, StoredRow(row))
      == Some(Outcome(HoldsInSql(row[w.column], w), toks, binds))
  {
    hide Reserved, Stored, Compares, MarkTokens, EvalClause, EvalList, Listed;
    var cell := row[w.column];
    assert StoredRow(row)[w.column] == Stored(cell);
    if w.op == In {
      ListEvaluates(cell, w.values, toks, binds);
      var rest := MarkTokens(|w.values|) + ([RParen] + toks);
      assert ClauseTokens(w) + toks == [Name(w.column), Name("IN"), LParen] + rest;
      ListClause(w.column, rest, StoredAll(w.values) + binds, StoredRow(row));
    } else {
      assert StoredAll(Operands(w)) + binds == [Stored(w.value)] + binds;
      assert ClauseTokens(w) + toks == [Name(w.column), Sign(w.op), Mark] + toks;
      SignClause(w.column, w.op, toks, Stored(w.value), binds, StoredRow(row));
    }
  }

  /** Between a cell and operands of one kind without NUL, that is the truth of the filter. */
  lemma ClauseAgrees(row: Row, w: Where)
    requires Comparable(row, w)
    ensures HoldsInSql(row[w.column], w) == Satisfies(row, w)
  {
    hide NulFree, Stored, Compares, CellSame, Matches;
    var cell := row[w.column];
    if w.op == In {
      forall v | v in w.values ensures CellSame(Stored(cell), Stored(v)) == (cell == v) {
        ComparesAsMatches(cell, Eq, v);
      }
    } else {
      assert w.value in Operands(w);
      ComparesAsMatches(cell, w.op, w.value);
    }
  }

  predicate Evaluable(row: Row, ws: seq<Where>) {
    forall w <- ws :: Comparable(row, w) && !Reserved(w.column)
  }

  lemma KeptHead(row: Row, ws: seq<Where>)
    requires ws != []
    ensures Kept(row, ws) <==> Satisfies(row, ws[0]) && Kept(row, ws[1..])
  {
    assert ws[0] in ws && forall w <- ws :: w == ws[0] || w in ws[1..];
  }

  lemma EvaluableHead(row: Row, ws: seq<Where>)
    requires ws != [] && Evaluable(row, ws)
    ensures Comparable(row, ws[0]) && !Reserved(ws[0].column) && Evaluable(row, ws[1..])
  {
    hide Comparable, Reserved;
    assert ws[0] in ws;
  }

  lemma StoredBindings(ws: seq<Where>)
    requires ws != []
    ensures StoredAll(Bindings(ws)) == StoredAll(Operands(ws[0])) + StoredAll(Bindings(ws[1..]))
  {
    StoredCat(Operands(ws[0]), Bindings(ws[1..]));
  }

  lemma EvalAnd(toks: seq<Token>, binds: seq<Cell>, row: map<string, Cell>, first: Outcome)
    requires EvalClause(toks, binds, row) == Some(first)
    ensures EvalMore([Name("AND")] + toks, binds, row) ==
      var more := EvalMore(first.toks, first.binds, row);
      if more.None? then None else Some(first.holds && more.value)
  {
    hide EvalClause;
    assert ([Name("AND")] + toks)[1..] == toks;
  }

  lemma {:induction false} MoreAgrees(row: Row, ws: seq<Where>)
    requires Evaluable(row, ws)
    ensures EvalMore(MoreTokens(ws), StoredAll(Bindings(ws)), StoredRow(row)) == Some(Kept(row, ws))
  {
    hide Evaluable, EvalMore, EvalClause, ClauseTokens, StoredAll, StoredRow, Kept, Satisfies, Reserved;
    if ws == [] {
      StoredNone();
      NothingMore(row);
    } else {
      EvaluableHead(row, ws);
      KeptHead(row, ws);
      StoredBindings(ws);
      var toks, binds := MoreTokens(ws[1..]), StoredAll(Bindings(ws[1..]));
      ClauseEvaluates(row, ws[0], toks, binds);
      ClauseAgrees(row, ws[0]);
      EvalAnd(ClauseTokens(ws[0]) + toks, StoredAll(Operands(ws[0])) + binds, StoredRow(row),
              Outcome(Satisfies(row, ws[0]), toks, binds));
      MoreAgrees(row, ws[1..]);
    }
  }

  lemma NothingMore(row: Row)
    ensures EvalMore([], [], StoredRow(row)) == Some(true) && Kept(row, [])
  {}

  lemma {:induction false} LexWheres(ws: seq<Where>)
    requires Guarded(ws)
    ensures Lex(WheresText(ws)) ==
      if ws == [] then [] else [Name("WHERE")] + (ClauseTokens(ws[0]) + MoreTokens(ws[1..]))
  {
    hide Lex, ClauseText, ClauseTokens, IsIdentifier;
    if ws == [] {
      LexNothing();
    } else {
      assert ws[0] in ws;
      LexMore(ws[1..]);
      var body := ClauseText(ws[0]) + MoreText(ws[1..]);
      LexClause(ws[0], MoreText(ws[1..]));
      assert " WHERE " + body == " " + ("WHERE" + (" " + body));
      LexBlank("WHERE" + (" " + body));
      AndIsName();
      LexName("WHERE", " " + body);
      LexBlank(body);
    }
  }

  /** The WHERE text, tokenised and evaluated under the bound values, keeps a stored row exactly
      when the in-memory filter keeps the row. */
  lemma WhereMeansFilter(row: Row, ws: seq<Where>)
    requires Guarded(ws) && Evaluable(row, ws)
    ensures EvalWhere(Lex(WheresText(ws)), StoredAll(Bindings(ws)), StoredRow(row)) == Some(Kept(row, ws))
  {
    hide Lex, Evaluable, EvalMore, ClauseTokens, StoredAll, StoredRow, Kept, WheresText, Guarded;
    LexWheres(ws);
    MoreAgrees(row, ws);
    if ws != [] {
      var toks := [Name("WHERE")] + (ClauseTokens(ws[0]) + MoreTokens(ws[1..]));
      assert [Name("AND")] + toks[1..] == MoreTokens(ws);
    }
  }

  /** The rows of a table whose stored form makes a WHERE text true; None when it is refused. */
  function Answer(toks: seq<Token>, binds: seq<Cell>, rows: seq<Row>): Option<seq<Row>> {
    if rows == [] then Some([])
    else
      var here, rest := EvalWhere(toks, binds, StoredRow(rows[0])), Answer(toks, binds, rows[1..]);
      if here.None? || rest.None? then None
      else Some((if here.value then [rows[0]] else []) + rest.value)
  }

  /** Over a table: the SQL condition keeps the same rows, in the same order, as the filter. */
  lemma {:induction false} TableMeansFilter(rows: seq<Row>, ws: seq<Where>)
    requires Guarded(ws) && forall r <- rows :: Evaluable(r, ws)
    ensures Answer(Lex(WheresText(ws)), StoredAll(Bindings(ws)), rows) == Some(Filter(rows, ws))
  {
    hide Lex, Evaluable, EvalWhere, StoredAll, StoredRow, Kept, WheresText, Guarded, Bindings;
    if rows != [] {
      assert rows[0] in rows;
      WhereMeansFilter(rows[0], ws);
      TableMeansFilter(rows[1..], ws);
    }
  }

  // ---- where the agreement ends ----

  function AsReal(v: Value): real
    requires !v.Str?
  {
    match v case Int(i) => i as real case Dbl(d) => d case Bool(b) => if b then 1.0 else 0.0
  }

  /** Different values that the database cannot tell apart: texts equal up to their first NUL, or
      an integer, a real or a boolean of another kind but of equal number. */
  predicate Confused(a: Value, b: Value) {
    a != b && if a.Str? then b.Str? && UpToNul(a.s) == UpToNul(b.s) else !b.Str? && AsReal(a) == AsReal(b)
  }

  lemma SameInSql(a: Value, b: Value)
    ensures CellSame(Stored(a), Stored(b)) <==> a == b || Confused(a, b)
    ensures Confused(a, b) ==> a != b
  {}

  lemma KeptOne(row: Row, w: Where)
    ensures Kept(row, [w]) == Satisfies(row, w)
  {
    assert w in [w];
  }

  /** A WHERE text of one clause, evaluated with no hypothesis on the values. */
  lemma OneClause(row: Row, w: Where)
    requires IsIdentifier(w.column) && w.column in row && !Reserved(w.column)
    ensures EvalWhere(Lex(WheresText([w])), StoredAll(Bindings([w])), StoredRow(row)) == Some(HoldsInSql(row[w.column], w))
  {
    hide Lex, EvalMore, EvalClause, ClauseTokens, StoredAll, StoredRow, WheresText, HoldsInSql, IsIdentifier, Reserved;
    assert forall x <- [w] :: x == w;
    LexWheres([w]);
    StoredBindings([w]);
    assert [w][1..] == [];
    StoredNone();
    var toks, binds := ClauseTokens(w), StoredAll(Operands(w));
    assert toks + [] == toks && binds + [] == binds;
    ClauseEvaluates(row, w, [], []);
    EvalAnd(toks, binds, StoredRow(row), Outcome(HoldsInSql(row[w.column], w), [], []));
    NothingMore(row);
    assert MoreTokens([]) == [] && Bindings([]) == [];
    assert ([Name("WHERE")] + toks)[1..] == toks;
  }

  /** Whether SQL orders `a` before `b` otherwise than the filter: texts equal up to their first NUL
      of which `a` is the smaller, a boolean and a text, or numbers of two kinds whose kinds are
      not ordered as the numbers are. */
  predicate Misordered(a: Value, b: Value) {
    if a.Str? && b.Str? then UpToNul(a.s) == UpToNul(b.s) && TextLess(a.s, b.s)
    else if a.Str? || b.Str? then a.Bool? || b.Bool?
    else Kind(a) != Kind(b) && (Kind(a) < Kind(b)) != (AsReal(a) < AsReal(b))
  }

  /** Cutting two texts at their first NUL keeps their order, unless it makes them equal. */
  lemma {:induction false} CutKeepsOrder(a: string, b: string)
    requires UpToNul(a) != UpToNul(b)
    ensures TextLess(UpToNul(a), UpToNul(b)) == TextLess(a, b)
    decreases |a| + |b|
  {
    if a != "" && b != "" && a[0] != '\0' && b[0] != '\0' {
      assert UpToNul(a)[1..] == UpToNul(a[1..]) && UpToNul(b)[1..] == UpToNul(b[1..]);
      if a[0] == b[0] { CutKeepsOrder(a[1..], b[1..]); }
    }
  }

  lemma LessInSql(a: Value, b: Value)
    ensures CellLess(Stored(a), Stored(b)) == Less(a, b) <==> !Misordered(a, b)
  {
    if a.Str? && b.Str? {
      if UpToNul(a.s) == UpToNul(b.s) {
        TextOrder(UpToNul(a.s), UpToNul(a.s), UpToNul(a.s));
      } else {
        CutKeepsOrder(a.s, b.s);
      }
    }
  }

  /** SQL's order on cells is total. */
  lemma TotalInSql(a: Cell, b: Cell)
    ensures CellLess(a, b) || CellSame(a, b) <==> !CellLess(b, a)
  {
    if a.CText? && b.CText? { TextOrder(a.s, b.s, a.s); }
  }

  /** The operands on which the two executions of a clause part. */
  predicate SplitOn(cell: Value, w: Where) {
    match w.op
    case Eq => Confused(cell, w.value)
    case Ne => Confused(cell, w.value)
    case Lt => Misordered(cell, w.value)
    case Gte => Misordered(cell, w.value)
    case Gt => Misordered(w.value, cell)
    case Lte => Misordered(w.value, cell)
    case In => cell !in w.values && exists v <- w.values :: Confused(cell, v)
  }

  lemma ListSplits(cell: Value, vs: seq<Value>)
    ensures Listed(cell, vs) == (cell in vs) <==> !(cell !in vs && exists v <- vs :: Confused(cell, v))
  {
    hide CellSame, Stored, Confused;
    forall v
      ensures CellSame(Stored(cell), Stored(v)) <==> cell == v || Confused(cell, v)
      ensures Confused(cell, v) ==> cell != v
    {
      SameInSql(cell, v);
    }
  }

  lemma ClauseSplits(cell: Value, w: Where)
    requires w.op != In
    ensures HoldsInSql(cell, w) == Matches(cell, w.op, w.value) <==> !SplitOn(cell, w)
  {
    hide CellSame, CellLess, Stored, Confused, Misordered, Less;
    SameInSql(cell, w.value);
    LessInSql(cell, w.value);
    LessInSql(w.value, cell);
    TotalInSql(Stored(cell), Stored(w.value));
    TotalInSql(Stored(w.value), Stored(cell));
    SymmetricInSql(Stored(cell), Stored(w.value));
  }

  lemma SymmetricInSql(a: Cell, b: Cell)
    ensures CellSame(a, b) == CellSame(b, a)
  {}

  /** Exactly when the two executions of a clause agree, for every operator, any cell and any
      operands: unless the operand is confused with the cell, misordered against it, or, in a list,
      confused with it while the cell itself is not there. */
  lemma ExecutionsAgreeIff(row: Row, w: Where)
    requires IsIdentifier(w.column) && w.column in row && !Reserved(w.column)
    ensures EvalWhere(Lex(WheresText([w])), StoredAll(Bindings([w])), StoredRow(row)) == Some(Kept(row, [w]))
      <==> !SplitOn(row[w.column], w)
  {
    hide Lex, EvalWhere, StoredAll, StoredRow, WheresText, Matches, Listed, Confused, Misordered, IsIdentifier, Reserved, Compares;
    OneClause(row, w);
    KeptOne(row, w);
    if w.op == In { ListSplits(row[w.column], w.values); } else { ClauseSplits(row[w.column], w); }
  }

  /** A row and a clause on which the executions differ. */
  ghost predicate Differ(row: Row, w: Where) {
    EvalWhere(Lex(WheresText([w])), StoredAll(Bindings([w])), StoredRow(row)) == Some(true) && !Kept(row, [w])
  }

  lemma ConfusedDiffer(row: Row, w: Where)
    requires IsIdentifier(w.column) && w.column in row && !Reserved(w.column)
    requires w.op == Eq && Confused(row[w.column], w.value)
    ensures Differ(row, w)
  {
    hide Lex, EvalWhere, StoredAll, StoredRow, WheresText, Bindings, Reserved, CellSame, Stored;
    OneClause(row, w);
    KeptOne(row, w);
    SameInSql(row[w.column], w.value);
  }

  /** Such rows exist: a NUL cuts the stored text short, and true is stored as 1. */
  lemma BeyondAgreement()
    ensures Differ(map["n" := Str("a\0b")], Where("n", Eq, Str("a\0c"), []))
    ensures Differ(map["b" := Bool(true)], Where("b", Eq, Int(1), []))
  {
    hide Differ, Reserved;
    NotReserved();
    assert "a\0b"[1..] == "\0b" && "a\0c"[1..] == "\0c";
    assert UpToNul("a\0b") == "a" == UpToNul("a\0c");
    assert "a\0b"[2] != "a\0c"[2];
    ConfusedDiffer(map["n" := Str("a\0b")], Where("n", Eq, Str("a\0c"), []));
    ConfusedDiffer(map["b" := Bool(true)], Where("b", Eq, Int(1), []));
  }

  lemma ReservedLength(r: string)
    requires r in RESERVED
    ensures |r| >= 2
  {}

  lemma NotReserved()
    ensures !Reserved("n") && !Reserved("b")
  {
    forall r | r in RESERVED ensures |r| >= 2 { ReservedLength(r); }
    assert |Upper("n")| == 1 && |Upper("b")| == 1;
  }
}
