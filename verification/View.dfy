/** The template renderer of include/view.hpp. Templates are strings that the code scans; here
    they are also trees with a printer and a direct evaluator, and the scanner is proved to
    compute the evaluator's answer on every printed tree. */
module Views {
  import opened Wrappers
  import opened Strings

  datatype View = View(vars: map<string, string>, lists: map<string, seq<View>>)

  function Var(v: View, key: string): string {
    if key in v.vars then v.vars[key] else ""
  }

  function Truthy(s: string): bool {
    s != "" && s != "0" && s != "false"
  }

  function Unquote(s: string): string {
    var t := Trim(s);
    if |t| >= 2 && (t[0] == '"' || t[0] == '\'') && t[|t| - 1] == t[0] then t[1..|t| - 1] else t
  }

  function Entity(c: char): string {
    match c
    case '&' => "&amp;"
    case '<' => "&lt;"
    case '>' => "&gt;"
    case '"' => "&quot;"
    case '\'' => "&#39;"
    case _ => [c]
  }

  function Escaped(s: string): string {
    if s == "" then "" else Escaped(s[..|s| - 1]) + Entity(s[|s| - 1])
  }

  // ---- markers ----

  datatype Marker =
    | RawM | EscM | IfM | ForM | IncM | YieldM | SecM | ExtM | ElseM | EndIfM | EndForM | EndSecM

  function Lit(m: Marker): (s: string)
    ensures |s| >= 2
  {
    match m
    case RawM => "{!!"
    case EscM => "{{"
    case IfM => "@if("
    case ForM => "@foreach("
    case IncM => "@include("
    case YieldM => "@yield("
    case SecM => "@section("
    case ExtM => "@extends("
    case ElseM => "@else"
    case EndIfM => "@endif"
    case EndForM => "@endforeach"
    case EndSecM => "@endsection"
  }

  predicate Control(m: Marker) {
    m != RawM && m != EscM
  }

  /** The marker standing at a position; no two can stand at the same one. */
  function MarkerAt(t: string, i: nat): Option<Marker> {
    if At(t, i, Lit(RawM)) then Some(RawM)
    else if At(t, i, Lit(EscM)) then Some(EscM)
    else if At(t, i, Lit(IfM)) then Some(IfM)
    else if At(t, i, Lit(ForM)) then Some(ForM)
    else if At(t, i, Lit(IncM)) then Some(IncM)
    else if At(t, i, Lit(YieldM)) then Some(YieldM)
    else if At(t, i, Lit(SecM)) then Some(SecM)
    else if At(t, i, Lit(ExtM)) then Some(ExtM)
    else if At(t, i, Lit(ElseM)) then Some(ElseM)
    else if At(t, i, Lit(EndIfM)) then Some(EndIfM)
    else if At(t, i, Lit(EndForM)) then Some(EndForM)
    else if At(t, i, Lit(EndSecM)) then Some(EndSecM)
    else None
  }

  lemma MarkersDiffer(t: string, i: nat, m: Marker, n: Marker)
    requires At(t, i, Lit(m)) && At(t, i, Lit(n))
    ensures m == n
  {
    var a, b := Lit(m), Lit(n);
    AtChar(t, i, a, 1);
    AtChar(t, i, b, 1);
    if |a| > 2 && |b| > 2 {
      AtChar(t, i, a, 2);
      AtChar(t, i, b, 2);
    }
    if |a| > 4 && |b| > 4 {
      AtChar(t, i, a, 4);
      AtChar(t, i, b, 4);
    }
  }

  lemma MarkerAtIs(t: string, i: nat, m: Marker)
    ensures At(t, i, Lit(m)) <==> MarkerAt(t, i) == Some(m)
  {
    hide Lit;
    if At(t, i, Lit(m)) {
      var n := MarkerAt(t, i).value;
      MarkersDiffer(t, i, m, n);
    }
  }

  lemma MarkerStart(t: string, i: nat)
    requires MarkerAt(t, i).Some?
    ensures i < |t| && (if Control(MarkerAt(t, i).value) then t[i] == '@' else t[i] == '{')
  {
    var m := MarkerAt(t, i).value;
    assert At(t, i, Lit(m));
    AtChar(t, i, Lit(m), 0);
  }

  // ---- control tokens ----

  datatype Token = Token(pos: nat, marker: Marker)

  /** The control markers of a template from position `i` on. */
  function Tokens(t: string, i: nat): (ts: seq<Token>)
    ensures forall k :: 0 <= k < |ts| ==> i <= ts[k].pos && At(t, ts[k].pos, Lit(ts[k].marker))
    decreases |t| - i
  {
    if i >= |t| then []
    else
      var m := MarkerAt(t, i);
      (if m.Some? && Control(m.value) then [Token(i, m.value)] else []) + Tokens(t, i + 1)
  }

  predicate Quiet(t: string, i: nat, j: nat) {
    forall k :: i <= k < j ==> MarkerAt(t, k).None? || !Control(MarkerAt(t, k).value)
  }

  lemma {:induction false} TokensSkip(t: string, i: nat, j: nat)
    requires i <= j <= |t| && Quiet(t, i, j)
    ensures Tokens(t, i) == Tokens(t, j)
    decreases j - i
  {
    if i < j { TokensSkip(t, i + 1, j); }
  }

  lemma LiteralQuiet(t: string, i: nat, m: Marker)
    requires At(t, i, Lit(m)) && Control(m)
    ensures Quiet(t, i + 1, i + |Lit(m)|)
  {
    forall k | i + 1 <= k < i + |Lit(m)| ensures MarkerAt(t, k).None? || !Control(MarkerAt(t, k).value) {
      AtChar(t, i, Lit(m), k - i);
      LiteralChars(m, k - i);
      if MarkerAt(t, k).Some? { MarkerStart(t, k); }
    }
  }

  lemma LiteralChars(m: Marker, k: nat)
    requires Control(m) && k < |Lit(m)|
    ensures Lit(m)[k] !in ")}!{" && (k > 0 ==> Lit(m)[k] != '@')
  {}

  /** A control marker opens the token list and is followed by what comes behind it. */
  lemma TokensAtMarker(t: string, i: nat, m: Marker)
    requires At(t, i, Lit(m)) && Control(m)
    ensures Tokens(t, i) == [Token(i, m)] + Tokens(t, i + |Lit(m)|)
  {
    hide Lit;
    MarkerAtIs(t, i, m);
    LiteralQuiet(t, i, m);
    TokensSkip(t, i + 1, i + |Lit(m)|);
  }

  /** The close marker matching an already opened block. */
  function Closing(ts: seq<Token>, depth: nat, open: Marker, close: Marker): (r: Option<nat>)
    requires depth >= 1
    ensures r.Some? ==> Token(r.value, close) in ts
  {
    if ts == [] then None
    else if ts[0].marker == open then Closing(ts[1..], depth + 1, open, close)
    else if ts[0].marker == close then
      if depth == 1 then Some(ts[0].pos) else Closing(ts[1..], depth - 1, open, close)
    else Closing(ts[1..], depth, open, close)
  }

  /** The else at nesting level zero before `end`. */
  function Else(ts: seq<Token>, depth: int, end: nat): (r: Option<nat>)
    ensures r.Some? ==> r.value < end && Token(r.value, ElseM) in ts
  {
    if ts == [] || ts[0].pos >= end then None
    else if ts[0].marker == IfM then Else(ts[1..], depth + 1, end)
    else if ts[0].marker == EndIfM then Else(ts[1..], depth - 1, end)
    else if ts[0].marker == ElseM && depth == 0 then Some(ts[0].pos)
    else Else(ts[1..], depth, end)
  }

  // ---- what the renderer computes ----

  /** `t.substr(from, to - from)`: a negative count wraps and reaches to the end. */
  function Between(t: string, from: nat, to: nat): string
    requires from <= |t| && to <= |t|
  {
    if from <= to then t[from..to] else t[from..]
  }

  function Cat(a: Option<string>, b: Option<string>): Option<string> {
    if a.Some? && b.Some? then Some(a.value + b.value) else None
  }

  function Merged(ctx: View, item: View): View {
    View(ctx.vars + item.vars, item.lists)
  }

  function ListName(arg: string): string {
    var spec := Trim(arg);
    var k := Find(spec, " as ", 0);
    Trim(if k.Some? then spec[..k.value] else spec)
  }

  function Items(ctx: View, name: string): seq<View> {
    if name in ctx.lists then ctx.lists[name] else []
  }

  type Registry = map<string, string>
  type Sections = map<string, string>

  function Template(env: Registry, name: string): string {
    if name in env then env[name] else ""
  }

  /** One directive: the text it produces and where scanning goes on. */
  datatype Step = Step(text: Option<string>, next: nat) | Unterminated

  /** `render_impl`. None stands for a directive that is not terminated, on which the code
      goes on at a wrapped position, and for includes nested deeper than `depth`. A null
      section table yields what an empty one does. */
  function Render(t: string, ctx: View, env: Registry, sections: Sections, depth: nat): Option<string>
    decreases depth, |t|, 3, 0
  {
    var ext := Find(t, Lit(ExtM), 0);
    if ext.None? then RenderFrom(t, 0, ctx, env, sections, depth)
    else
      var close := Find(t, ")", ext.value);
      if close.None? || depth == 0 then None
      else
        var layout := Unquote(Between(t, ext.value + 9, close.value));
        var secs := Collect(t, 0, ctx, env, map[], depth);
        if secs.None? then None else Render(Template(env, layout), ctx, env, secs.value, depth - 1)
  }

  /** The scan from position `i` to the end. */
  function RenderFrom(t: string, i: nat, ctx: View, env: Registry, sections: Sections, depth: nat): Option<string>
    decreases depth, |t|, 2, |t| - i
  {
    if i >= |t| then Some("")
    else
      var m := MarkerAt(t, i);
      if m.None? || !Directive(m.value) then
        Cat(Some([t[i]]), RenderFrom(t, i + 1, ctx, env, sections, depth))
      else
        match Apply(t, i, m.value, ctx, env, sections, depth)
        case Unterminated => None
        case Step(text, next) =>
          Cat(text, RenderFrom(t, next, ctx, env, sections, depth))
  }

  /** The markers `render_impl` acts on; a stray else or close tag is plain text. */
  predicate Directive(m: Marker) {
    m == RawM || m == EscM || m == IfM || m == ForM || m == IncM || m == YieldM || m == SecM
  }

  function Apply(t: string, i: nat, m: Marker, ctx: View, env: Registry, sections: Sections, depth: nat): (r: Step)
    requires MarkerAt(t, i) == Some(m) && Directive(m)
    ensures r.Step? ==> i < r.next <= |t|
    decreases depth, |t|, 1, 0
  {
    if m == RawM || m == EscM then ApplyBraces(t, i, m, ctx)
    else
      var close := Find(t, ")", i);
      if close.None? then Unterminated
      else
        var arg := Between(t, i + |Lit(m)|, close.value);
        var body := close.value + 1;
        if m == IncM then
          Step(if depth == 0 then None else Render(Template(env, Unquote(arg)), ctx, env, sections, depth - 1), body)
        else if m == YieldM then
          Step(Some(if Unquote(arg) in sections then sections[Unquote(arg)] else ""), body)
        else
          ApplyBlock(t, body, m, arg, ctx, env, sections, depth)
  }

  function ApplyBraces(t: string, i: nat, m: Marker, ctx: View): (r: Step)
    requires At(t, i, Lit(m)) && (m == RawM || m == EscM)
    ensures r.Step? ==> i < r.next <= |t|
  {
    var e := Find(t, if m == RawM then "!!}" else "}}", i);
    if e.None? then Unterminated
    else
      var value := Var(ctx, Trim(Between(t, i + |Lit(m)|, e.value)));
      if m == RawM then Step(Some(value), e.value + 3) else Step(Some(Escaped(value)), e.value + 2)
  }

  lemma ClosingInside(t: string, body: nat, open: Marker, close: Marker)
    ensures var end := Closing(Tokens(t, body), 1, open, close);
      end.Some? ==> body <= end.value && end.value + |Lit(close)| <= |t|
  {}

  lemma ElseInside(t: string, body: nat, end: nat)
    ensures var els := Else(Tokens(t, body), 0, end);
      els.Some? ==> body <= els.value < end && els.value + 5 <= |t|
  {}

  /** The branch of an if that its condition selects; `end` is the position of its endif. */
  function Chosen(t: string, body: nat, end: nat, arg: string, ctx: View): (r: string)
    requires 0 < body <= end <= |t|
    ensures |r| < |t|
  {
    hide Tokens, Else, Truthy, Var, Trim;
    ElseInside(t, body, end);
    var els := Else(Tokens(t, body), 0, end);
    var thenPart := t[body..if els.Some? then els.value else end];
    var elsePart := if els.Some? then Between(t, els.value + 5, end) else "";
    if Truthy(Var(ctx, Trim(arg))) then thenPart else elsePart
  }

  /** A block whose argument ends just before `body`. */
  function ApplyBlock(t: string, body: nat, m: Marker, arg: string, ctx: View, env: Registry, sections: Sections, depth: nat): (r: Step)
    requires 0 < body <= |t| && (m == IfM || m == ForM || m == SecM)
    ensures r.Step? ==> body <= r.next <= |t|
    decreases depth, |t|, 0, 0
  {
    hide Closing, Tokens, Lit, Render, RenderEach, Items, ListName, Chosen, CloseOf;
    ClosingInside(t, body, m, CloseOf(m));
    var end := Closing(Tokens(t, body), 1, m, CloseOf(m));
    if end.None? then Unterminated
    else
      var text :=
        if m == IfM then Render(Chosen(t, body, end.value, arg, ctx), ctx, env, sections, depth)
        else if m == ForM then RenderEach(t[body..end.value], ctx, Items(ctx, ListName(arg)), env, sections, depth)
        else Render(t[body..end.value], ctx, env, sections, depth);
      Step(text, end.value + |Lit(CloseOf(m))|)
  }

  function CloseOf(m: Marker): Marker {
    if m == IfM then EndIfM else if m == ForM then EndForM else EndSecM
  }

  function RenderEach(inner: string, ctx: View, items: seq<View>, env: Registry, sections: Sections, depth: nat): Option<string>
    decreases depth, |inner|, 4, |items|
  {
    if items == [] then Some("")
    else Cat(Render(inner, Merged(ctx, items[0]), env, sections, depth),
             RenderEach(inner, ctx, items[1..], env, sections, depth))
  }

  /** `collect_sections`: the blocks of a child template from position `p` on, rendered. */
  function Collect(t: string, p: nat, ctx: View, env: Registry, acc: Sections, depth: nat): Option<Sections>
    decreases depth, |t|, 1, |t| - p
  {
    var s := Find(t, Lit(SecM), p);
    if s.None? then Some(acc)
    else
      var close := Find(t, ")", s.value);
      if close.None? then None
      else
        var name := Unquote(Between(t, s.value + 9, close.value));
        var body := close.value + 1;
        var end := Closing(Tokens(t, body), 1, SecM, EndSecM);
        if end.None? then None
        else
          var text := Render(t[body..end.value], ctx, env, map[], depth);
          if text.None? then None
          else Collect(t, end.value + 11, ctx, env, acc[name := text.value], depth)
  }

  // ---- finding a control marker is reading the token list ----

  function FirstPos(ts: seq<Token>, m: Marker): Option<nat> {
    if ts == [] then None else if ts[0].marker == m then Some(ts[0].pos) else FirstPos(ts[1..], m)
  }

  lemma {:induction false} FindIsFirst(t: string, i: nat, m: Marker)
    requires Control(m)
    ensures Find(t, Lit(m), i) == FirstPos(Tokens(t, i), m)
    decreases |t| - i
  {
    hide *;
    FindStep(t, Lit(m), i);
    if i >= |t| {
      NothingFrom(t, i, m);
    } else {
      FindIsFirst(t, i + 1, m);
      MarkerAtIs(t, i, m);
      TokensStep(t, i);
      var k := MarkerAt(t, i);
      if k.Some? && Control(k.value) {
        FirstCons(Token(i, k.value), Tokens(t, i + 1), m);
      }
    }
  }

  lemma NothingFrom(t: string, i: nat, m: Marker)
    requires i >= |t|
    ensures Find(t, Lit(m), i) == None && FirstPos(Tokens(t, i), m) == None
  {
    hide Lit;
  }

  lemma TokensStep(t: string, i: nat)
    requires i < |t|
    ensures var k := MarkerAt(t, i);
      Tokens(t, i) == if k.Some? && Control(k.value) then [Token(i, k.value)] + Tokens(t, i + 1) else Tokens(t, i + 1)
  {
    hide MarkerAt;
    assert [] + Tokens(t, i + 1) == Tokens(t, i + 1);
  }

  lemma FirstCons(k: Token, ts: seq<Token>, m: Marker)
    ensures FirstPos([k] + ts, m) == if k.marker == m then Some(k.pos) else FirstPos(ts, m)
  {
    assert ([k] + ts)[1..] == ts;
  }

  lemma FindStep(t: string, p: string, i: nat)
    ensures Find(t, p, i) == if At(t, i, p) then Some(i) else Find(t, p, i + 1)
  {}

  /** Scanning over a stretch without directives copies it. */
  lemma {:induction false} RenderCopies(t: string, i: nat, j: nat, ctx: View, env: Registry, sections: Sections, depth: nat)
    requires i <= j <= |t|
    requires forall k :: i <= k < j ==> MarkerAt(t, k).None? || !Directive(MarkerAt(t, k).value)
    ensures RenderFrom(t, i, ctx, env, sections, depth)
      == Cat(Some(t[i..j]), RenderFrom(t, j, ctx, env, sections, depth))
    decreases j - i
  {
    hide MarkerAt, Apply, Cat, RenderFrom;
    if i < j {
      CopyTurn(t, i, ctx, env, sections, depth);
      RenderCopies(t, i + 1, j, ctx, env, sections, depth);
      assert t[i..j] == [t[i]] + t[i + 1..j];
      CatTwice([t[i]], t[i + 1..j], RenderFrom(t, j, ctx, env, sections, depth));
    } else {
      assert t[i..j] == "";
      CatEmpty(RenderFrom(t, j, ctx, env, sections, depth));
    }
  }

  lemma CopyTurn(t: string, i: nat, ctx: View, env: Registry, sections: Sections, depth: nat)
    requires i < |t| && (MarkerAt(t, i).None? || !Directive(MarkerAt(t, i).value))
    ensures RenderFrom(t, i, ctx, env, sections, depth)
      == Cat(Some([t[i]]), RenderFrom(t, i + 1, ctx, env, sections, depth))
  {
    hide MarkerAt, Apply, Cat;
  }

  lemma CatTwice(a: string, b: string, c: Option<string>)
    ensures Cat(Some(a), Cat(Some(b), c)) == Cat(Some(a + b), c)
  {
    if c.Some? { assert a + (b + c.value) == (a + b) + c.value; }
  }

  lemma CatEmpty(c: Option<string>)
    ensures Cat(Some(""), c) == c && Cat(c, Some("")) == c
  {
    if c.Some? { assert "" + c.value == c.value && c.value + "" == c.value; }
  }

  lemma CatAssociative(a: Option<string>, b: Option<string>, c: Option<string>)
    ensures Cat(a, Cat(b, c)) == Cat(Cat(a, b), c)
  {
    if a.Some? && b.Some? && c.Some? { assert a.value + (b.value + c.value) == (a.value + b.value) + c.value; }
  }

  /** One turn of the scan at a directive. */
  lemma RenderTurn(t: string, i: nat, m: Marker, ctx: View, env: Registry, sections: Sections, depth: nat)
    requires MarkerAt(t, i) == Some(m) && Directive(m) && i < |t|
    ensures var s := Apply(t, i, m, ctx, env, sections, depth);
      RenderFrom(t, i, ctx, env, sections, depth)
        == if s.Unterminated? then None else Cat(s.text, RenderFrom(t, s.next, ctx, env, sections, depth))
  {
    hide MarkerAt, Apply;
  }
}
