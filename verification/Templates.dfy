/** Templates as trees: a printer, a direct evaluator, and the theorem that scanning a printed
    tree computes the evaluator's answer. */
module Templates {
  import opened Wrappers
  import opened Strings
  import opened Views

  /** A node followed by the nodes behind it. */
  datatype Tree =
    | End
    | Text(s: string, rest: Tree)
    | Raw(key: string, rest: Tree)
    | Esc(key: string, rest: Tree)
    | If(cond: string, thn: Tree, els: Option<Tree>, rest: Tree)
    | Foreach(spec: string, body: Tree, rest: Tree)
    | Include(name: string, rest: Tree)
    | Yield(name: string, rest: Tree)
    | Section(name: string, body: Tree, rest: Tree)

  /** A whole template; an extending one contributes only its sections to the layout. */
  datatype Doc = Plain(body: Tree) | Extends(layout: string, body: Tree)

  // ---- printing ----

  function Block(m: Marker, arg: string, inner: string): string {
    Opening(m, arg) + (inner + Lit(CloseOf(m)))
  }

  function Opening(m: Marker, arg: string): string {
    Lit(m) + (arg + ")")
  }

  function Print(n: Tree): string {
    match n
    case End => ""
    case Text(s, rest) => s + Print(rest)
    case Raw(key, rest) => ("{!!" + (key + "!!}")) + Print(rest)
    case Esc(key, rest) => ("{{" + (key + "}}")) + Print(rest)
    case If(cond, thn, els, rest) => Block(IfM, cond, Print(thn) + PrintElse(els)) + Print(rest)
    case Foreach(spec, body, rest) => Block(ForM, spec, Print(body)) + Print(rest)
    case Include(name, rest) => Opening(IncM, name) + Print(rest)
    case Yield(name, rest) => Opening(YieldM, name) + Print(rest)
    case Section(name, body, rest) => Block(SecM, name, Print(body)) + Print(rest)
  }

  function PrintElse(els: Option<Tree>): string {
    match els case None => "" case Some(e) => Lit(ElseM) + Print(e)
  }

  function PrintDoc(d: Doc): string {
    match d case Plain(body) => Print(body) case Extends(layout, body) => Opening(ExtM, layout) + Print(body)
  }

  // ---- which trees print faithfully ----

  predicate Comparable(a: string, b: string) {
    a <= b || b <= a
  }

  /** No marker begins in the text, not even one cut off by its end. */
  ghost predicate Clean(s: string) {
    forall k, m: Marker :: 0 <= k < |s| ==> !Comparable(s[k..], Lit(m))
  }

  /** No control marker stands in the argument, nor the character that ends it. */
  ghost predicate Inert(arg: string, stop: char) {
    && stop !in arg
    && forall k: nat, m: Marker :: Control(m) ==> !At(arg, k, Lit(m))
  }

  ghost predicate WellFormed(n: Tree) {
    match n
    case End => true
    case Text(s, rest) => Clean(s) && WellFormed(rest)
    case Raw(key, rest) => Inert(key, '}') && WellFormed(rest)
    case Esc(key, rest) => Inert(key, '}') && WellFormed(rest)
    case If(cond, thn, els, rest) =>
      Inert(cond, ')') && WellFormed(thn) && (els.Some? ==> WellFormed(els.value)) && WellFormed(rest)
    case Foreach(spec, body, rest) => Inert(spec, ')') && WellFormed(body) && WellFormed(rest)
    case Include(name, rest) => Inert(name, ')') && WellFormed(rest)
    case Yield(name, rest) => Inert(name, ')') && WellFormed(rest)
    case Section(name, body, rest) => Inert(name, ')') && WellFormed(body) && WellFormed(rest)
  }

  ghost predicate WellFormedDoc(d: Doc) {
    WellFormed(d.body) && (d.Extends? ==> Inert(d.layout, ')'))
  }

  // ---- direct evaluation ----

  type Library = map<string, Doc>

  function Lookup(lib: Library, name: string): Doc {
    if name in lib then lib[name] else Plain(End)
  }

  function Sources(lib: Library): Registry {
    map name | name in lib :: PrintDoc(lib[name])
  }

  function Eval(n: Tree, ctx: View, lib: Library, sections: Sections, depth: nat): Option<string>
    decreases depth, 0, n, 0
  {
    match n
    case End => Some("")
    case Text(s, rest) => Cat(Some(s), Eval(rest, ctx, lib, sections, depth))
    case Raw(key, rest) => Cat(Some(Var(ctx, Trim(key))), Eval(rest, ctx, lib, sections, depth))
    case Esc(key, rest) => Cat(Some(Escaped(Var(ctx, Trim(key)))), Eval(rest, ctx, lib, sections, depth))
    case If(cond, thn, els, rest) =>
      Cat(if Truthy(Var(ctx, Trim(cond))) then Eval(thn, ctx, lib, sections, depth)
          else match els case None => Some("") case Some(e) => Eval(e, ctx, lib, sections, depth),
          Eval(rest, ctx, lib, sections, depth))
    case Foreach(spec, body, rest) =>
      Cat(EvalEach(body, ctx, Items(ctx, ListName(spec)), lib, sections, depth), Eval(rest, ctx, lib, sections, depth))
    case Include(name, rest) =>
      Cat(if depth == 0 then None else EvalDoc(Lookup(lib, Unquote(name)), ctx, lib, sections, depth - 1),
          Eval(rest, ctx, lib, sections, depth))
    case Yield(name, rest) =>
      Cat(Some(if Unquote(name) in sections then sections[Unquote(name)] else ""), Eval(rest, ctx, lib, sections, depth))
    case Section(name, body, rest) =>
      Cat(Eval(body, ctx, lib, sections, depth), Eval(rest, ctx, lib, sections, depth))
  }

  function EvalEach(body: Tree, ctx: View, items: seq<View>, lib: Library, sections: Sections, depth: nat): Option<string>
    decreases depth, 0, body, 1 + |items|
  {
    if items == [] then Some("")
    else Cat(Eval(body, Merged(ctx, items[0]), lib, sections, depth),
             EvalEach(body, ctx, items[1..], lib, sections, depth))
  }

  function EvalDoc(d: Doc, ctx: View, lib: Library, sections: Sections, depth: nat): Option<string>
    decreases depth, 1, d.body, 0
  {
    match d
    case Plain(body) => Eval(body, ctx, lib, sections, depth)
    case Extends(layout, body) =>
      if depth == 0 then None
      else
        var secs := SectionsOf(body, ctx, lib, map[], depth);
        if secs.None? then None else EvalDoc(Lookup(lib, Unquote(layout)), ctx, lib, secs.value, depth - 1)
  }

  /** The sections a child template fills, later ones winning. Blocks are looked into whether
      or not they would render; a section's own body is not. */
  function SectionsOf(n: Tree, ctx: View, lib: Library, acc: Sections, depth: nat): Option<Sections>
    decreases depth, 0, n, 0
  {
    match n
    case End => Some(acc)
    case Text(_, rest) => SectionsOf(rest, ctx, lib, acc, depth)
    case Raw(_, rest) => SectionsOf(rest, ctx, lib, acc, depth)
    case Esc(_, rest) => SectionsOf(rest, ctx, lib, acc, depth)
    case If(_, thn, els, rest) =>
      var a := SectionsOf(thn, ctx, lib, acc, depth);
      if a.None? then None
      else
        var b := match els case None => a case Some(e) => SectionsOf(e, ctx, lib, a.value, depth);
        if b.None? then None else SectionsOf(rest, ctx, lib, b.value, depth)
    case Foreach(_, body, rest) =>
      var a := SectionsOf(body, ctx, lib, acc, depth);
      if a.None? then None else SectionsOf(rest, ctx, lib, a.value, depth)
    case Include(_, rest) => SectionsOf(rest, ctx, lib, acc, depth)
    case Yield(_, rest) => SectionsOf(rest, ctx, lib, acc, depth)
    case Section(name, body, rest) =>
      var text := Eval(body, ctx, lib, map[], depth);
      if text.None? then None else SectionsOf(rest, ctx, lib, acc[Unquote(name) := text.value], depth)
  }

  // ---- the tokens of a printed tree ----

  /** A block's own two markers around what stands inside and behind it. */
  function Enclose(m: Marker, i: nat, close: nat, inner: seq<Token>, after: seq<Token>): seq<Token> {
    [Token(i, m)] + (inner + ([Token(close, CloseOf(m))] + after))
  }

  /** The control markers of a tree printed from position `i` on. */
  function TreeTokens(n: Tree, i: nat): seq<Token> {
    match n
    case End => []
    case Text(s, rest) => TreeTokens(rest, i + |s|)
    case Raw(key, rest) => TreeTokens(rest, i + 6 + |key|)
    case Esc(key, rest) => TreeTokens(rest, i + 4 + |key|)
    case If(cond, thn, els, rest) =>
      var b := i + |Opening(IfM, cond)|;
      var e := b + |Print(thn)|;
      var c := e + |PrintElse(els)|;
      Enclose(IfM, i, c, TreeTokens(thn, b) + ElseTokens(els, e), TreeTokens(rest, c + |Lit(EndIfM)|))
    case Foreach(spec, body, rest) =>
      var b := i + |Opening(ForM, spec)|;
      var c := b + |Print(body)|;
      Enclose(ForM, i, c, TreeTokens(body, b), TreeTokens(rest, c + |Lit(EndForM)|))
    case Include(name, rest) => [Token(i, IncM)] + TreeTokens(rest, i + |Opening(IncM, name)|)
    case Yield(name, rest) => [Token(i, YieldM)] + TreeTokens(rest, i + |Opening(YieldM, name)|)
    case Section(name, body, rest) =>
      var b := i + |Opening(SecM, name)|;
      var c := b + |Print(body)|;
      Enclose(SecM, i, c, TreeTokens(body, b), TreeTokens(rest, c + |Lit(EndSecM)|))
  }

  function ElseTokens(els: Option<Tree>, i: nat): seq<Token> {
    match els case None => [] case Some(e) => [Token(i, ElseM)] + TreeTokens(e, i + |Lit(ElseM)|)
  }

  // ---- where nothing stands ----

  lemma MarkerInText(t: string, i: nat, s: string, k: nat, m: Marker)
    requires At(t, i, s) && i <= k < i + |s| && At(t, k, Lit(m))
    ensures Comparable(s[k - i..], Lit(m))
  {
    hide Lit;
    var tail := s[k - i..];
    assert tail == t[k..i + |s|] by { assert t[i..i + |s|][k - i..] == t[k..i + |s|]; }
    if |tail| <= |Lit(m)| {
      assert tail == t[k..k + |Lit(m)|][..|tail|];
    } else {
      assert Lit(m) == tail[..|Lit(m)|];
    }
  }

  lemma CleanHasNoMarker(t: string, i: nat, s: string)
    requires At(t, i, s) && Clean(s)
    ensures forall k :: i <= k < i + |s| ==> MarkerAt(t, k).None?
  {
    hide Lit, At, Comparable;
    forall k | i <= k < i + |s| ensures MarkerAt(t, k).None? {
      if MarkerAt(t, k).Some? {
        MarkerInText(t, i, s, k, MarkerAt(t, k).value);
      }
    }
  }

  /** No control marker begins in an argument that its end character follows. */
  lemma ArgumentQuiet(t: string, i: nat, arg: string, stop: char)
    requires At(t, i, arg) && Inert(arg, stop)
    requires i + |arg| < |t| && t[i + |arg|] in ")}!"
    ensures Quiet(t, i, i + |arg| + 1)
  {
    forall k, m | i <= k < i + |arg| + 1 && Control(m) ensures !At(t, k, Lit(m)) {
      if At(t, k, Lit(m)) && k + |Lit(m)| <= i + |arg| {
        InnerAt(t, i, arg, k, Lit(m));
      } else if At(t, k, Lit(m)) {
        AtChar(t, k, Lit(m), i + |arg| - k);
        LiteralChars(m, i + |arg| - k);
      }
    }
  }

  lemma InnerAt(t: string, i: nat, a: string, k: nat, p: string)
    requires At(t, i, a) && At(t, k, p) && i <= k && k + |p| <= i + |a|
    ensures At(a, k - i, p)
  {
    var x := k - i;
    forall q | 0 <= q < |p| ensures a[x + q] == p[q] {
      AtChar(t, i, a, x + q);
      AtChar(t, k, p, q);
    }
    assert a[x..x + |p|] == p;
  }

  /** `find` of an end string right behind an argument that its character does not occur in. */
  lemma FindEnd(t: string, i: nat, head: string, arg: string, stop: string, c: char)
    requires At(t, i, head + (arg + stop)) && stop != "" && stop[|stop| - 1] == c
    requires c !in head && c !in arg && forall k :: 0 <= k < |stop| - 1 ==> stop[k] != c
    ensures Find(t, stop, i) == Some(i + |head| + |arg|)
  {
    var e := i + |head| + |arg|;
    AtCat(t, i, head, arg + stop);
    AtCat(t, i + |head|, arg, stop);
    forall p | i <= p < e + |stop| - 1 ensures t[p] != c {
      if p < i + |head| {
        AtChar(t, i, head, p - i);
      } else if p < e {
        AtChar(t, i + |head|, arg, p - i - |head|);
      } else {
        AtChar(t, e, stop, p - e);
      }
    }
    forall j | i <= j < e ensures !At(t, j, stop) {
      NotAt(t, j, stop, |stop| - 1);
    }
    FindAt(t, stop, i, e);
  }

  // ---- the scanner reads the tree's tokens ----

  /** The opening of a directive: its marker, then an argument without control markers. */
  lemma OpeningTokens(t: string, i: nat, m: Marker, arg: string)
    requires At(t, i, Opening(m, arg)) && Control(m) && Inert(arg, ')')
    ensures Tokens(t, i) == [Token(i, m)] + Tokens(t, i + |Opening(m, arg)|)
  {
    hide Tokens, At, Lit, MarkerAt, Quiet, Inert;
    AtCat(t, i, Lit(m), arg + ")");
    var j := i + |Lit(m)|;
    AtCat(t, j, arg, ")");
    AtEnd(t, j + |arg|, ")");
    TokensAtMarker(t, i, m);
    ArgumentQuiet(t, j, arg, ')');
    TokensSkip(t, j, j + |arg| + 1);
  }

  lemma AtEnd(t: string, i: nat, p: string)
    requires At(t, i, p) && p != ""
    ensures i + |p| <= |t| && t[i] == p[0]
  {
    AtChar(t, i, p, 0);
  }

  lemma NoAtQuiet(t: string, i: nat, s: string)
    requires At(t, i, s) && '@' !in s
    ensures Quiet(t, i, i + |s|)
  {
    hide At, MarkerAt;
    forall k | i <= k < i + |s| ensures MarkerAt(t, k).None? || !Control(MarkerAt(t, k).value) {
      AtChar(t, i, s, k - i);
      if MarkerAt(t, k).Some? { MarkerStart(t, k); }
    }
  }

  lemma BracesTokens(t: string, i: nat, open: string, key: string, close: string)
    requires At(t, i, open + (key + close)) && Inert(key, '}')
    requires (open == "{!!" && close == "!!}") || (open == "{{" && close == "}}")
    ensures Tokens(t, i) == Tokens(t, i + |open| + |key| + |close|)
  {
    hide At, MarkerAt, Tokens, Inert, Quiet;
    AtCat(t, i, open, key + close);
    var j := i + |open|;
    var e := j + |key|;
    AtCat(t, j, key, close);
    AtEnd(t, e, close);
    NoAtQuiet(t, i, open);
    NoAtQuiet(t, e, close);
    ArgumentQuiet(t, j, key, '}');
    QuietStart(t, j, e, e + 1);
    TokensSkip(t, i, j);
    TokensSkip(t, j, e);
    TokensSkip(t, e, e + |close|);
  }

  lemma QuietStart(t: string, i: nat, j: nat, k: nat)
    requires Quiet(t, i, k) && j <= k
    ensures Quiet(t, i, j)
  {}

  // ---- the three kinds of node besides if ----

  predicate IsPlain(n: Tree) {
    n.Text? || n.Raw? || n.Esc?
  }

  predicate IsLeaf(n: Tree) {
    n.Include? || n.Yield?
  }

  predicate IsBlock(n: Tree) {
    n.Foreach? || n.Section?
  }

  function HeadText(n: Tree): string
    requires IsPlain(n)
  {
    if n.Text? then n.s else if n.Raw? then "{!!" + (n.key + "!!}") else "{{" + (n.key + "}}")
  }

  function MarkerOf(n: Tree): Marker
    requires IsLeaf(n) || IsBlock(n)
  {
    if n.Include? then IncM else if n.Yield? then YieldM else if n.Foreach? then ForM else SecM
  }

  function ArgOf(n: Tree): string
    requires IsLeaf(n) || IsBlock(n)
  {
    if n.Foreach? then n.spec else n.name
  }

  lemma EndIs(i: nat)
    ensures Print(End) == "" && TreeTokens(End, i) == []
  {}

  lemma PlainIs(n: Tree, i: nat)
    requires IsPlain(n)
    ensures Print(n) == HeadText(n) + Print(n.rest)
    ensures TreeTokens(n, i) == TreeTokens(n.rest, i + |HeadText(n)|)
    ensures WellFormed(n) ==> WellFormed(n.rest) && if n.Text? then Clean(n.s) else Inert(n.key, '}')
  {
    hide Clean, Inert;
  }

  lemma LeafIs(n: Tree, i: nat)
    requires IsLeaf(n)
    ensures Print(n) == Opening(MarkerOf(n), ArgOf(n)) + Print(n.rest)
    ensures TreeTokens(n, i) == [Token(i, MarkerOf(n))] + TreeTokens(n.rest, i + |Opening(MarkerOf(n), ArgOf(n))|)
    ensures WellFormed(n) ==> WellFormed(n.rest) && Inert(ArgOf(n), ')')
    ensures Control(MarkerOf(n)) && (MarkerOf(n) == IncM || MarkerOf(n) == YieldM)
  {
    hide Opening, Inert;
  }

  lemma BlockIs(n: Tree, i: nat)
    requires IsBlock(n)
    ensures Print(n) == Block(MarkerOf(n), ArgOf(n), Print(n.body)) + Print(n.rest)
    ensures var m, b := MarkerOf(n), i + |Opening(MarkerOf(n), ArgOf(n))|;
      var c := b + |Print(n.body)|;
      TreeTokens(n, i) == Enclose(m, i, c, TreeTokens(n.body, b), TreeTokens(n.rest, c + |Lit(CloseOf(m))|))
    ensures WellFormed(n) ==> WellFormed(n.body) && WellFormed(n.rest) && Inert(ArgOf(n), ')')
    ensures BlockMarker(MarkerOf(n)) && Control(MarkerOf(n)) && (MarkerOf(n) == ForM || MarkerOf(n) == SecM)
  {
    hide Opening, Block, Lit, Enclose, Inert;
  }

  lemma HeadTokens(t: string, i: nat, n: Tree)
    requires IsPlain(n) && WellFormed(n) && At(t, i, HeadText(n))
    ensures Tokens(t, i) == Tokens(t, i + |HeadText(n)|)
  {
    hide At, Tokens, WellFormed, Print, TreeTokens;
    PlainIs(n, i);
    if n.Text? {
      TextTokens(t, i, n.s);
    } else if n.Raw? {
      BracesTokens(t, i, "{!!", n.key, "!!}");
    } else {
      BracesTokens(t, i, "{{", n.key, "}}");
    }
  }

  /** The control markers of any text that a well-formed tree is printed in are the tree's own
      and then those behind it. */
  lemma {:induction false} TokensOfTree(t: string, i: nat, n: Tree)
    requires WellFormed(n) && At(t, i, Print(n))
    ensures Tokens(t, i) == TreeTokens(n, i) + Tokens(t, i + |Print(n)|)
    decreases n, 1
  {
    hide *;
    if n.End? {
      EndIs(i);
      assert [] + Tokens(t, i) == Tokens(t, i);
    } else if n.If? {
      TokensOfIf(t, i, n);
    } else if n.Foreach? || n.Section? {
      KindIs(n);
      BlockIs(n, i);
      var m := MarkerOf(n);
      var b, c := BlockLayout(t, i, m, ArgOf(n), n.body, n.rest);
      TokensOfTree(t, b, n.body);
      TokensOfTree(t, c + |Lit(CloseOf(m))|, n.rest);
      BlockTokens(t, i, m, ArgOf(n), c, TreeTokens(n.body, b), TreeTokens(n.rest, c + |Lit(CloseOf(m))|),
                  Tokens(t, i + |Print(n)|));
    } else if n.Include? || n.Yield? {
      KindIs(n);
      LeafIs(n, i);
      var m := MarkerOf(n);
      var head := Opening(m, ArgOf(n));
      AtCat(t, i, head, Print(n.rest));
      OpeningTokens(t, i, m, ArgOf(n));
      TokensOfTree(t, i + |head|, n.rest);
      Regroup([Token(i, m)], TreeTokens(n.rest, i + |head|), Tokens(t, i + |Print(n)|));
    } else {
      KindIs(n);
      PlainIs(n, i);
      AtCat(t, i, HeadText(n), Print(n.rest));
      HeadTokens(t, i, n);
      TokensOfTree(t, i + |HeadText(n)|, n.rest);
    }
  }

  lemma KindIs(n: Tree)
    ensures IsPlain(n) <==> n.Text? || n.Raw? || n.Esc?
    ensures IsLeaf(n) <==> n.Include? || n.Yield?
    ensures IsBlock(n) <==> n.Foreach? || n.Section?
  {}

  lemma {:induction false} TokensOfIf(t: string, i: nat, n: Tree)
    requires WellFormed(n) && At(t, i, Print(n)) && n.If?
    ensures Tokens(t, i) == TreeTokens(n, i) + Tokens(t, i + |Print(n)|)
    decreases n, 0
  {
    hide *;
    var If(cond, thn, els, rest) := n;
    IfIs(n, i);
    CloseIs();
    var b, e, c := IfLayout(t, i, cond, thn, els, rest);
    TokensOfTree(t, b, thn);
    if els.Some? { TokensOfTree(t, e + |Lit(ElseM)|, els.value); }
    TokensOfTree(t, c + |Lit(EndIfM)|, rest);
    ThenElseTokens(t, b, e, c, thn, els);
    BlockTokens(t, i, IfM, cond, c, TreeTokens(thn, b) + ElseTokens(els, e), TreeTokens(rest, c + |Lit(EndIfM)|),
                Tokens(t, i + |Print(n)|));
  }

  lemma Regroup(x: seq<Token>, y: seq<Token>, z: seq<Token>)
    ensures x + (y + z) == (x + y) + z
  {}

  lemma ThenElseTokens(t: string, b: nat, e: nat, c: nat, thn: Tree, els: Option<Tree>)
    requires Tokens(t, b) == TreeTokens(thn, b) + Tokens(t, e) && c == e + |PrintElse(els)|
    requires els.Some? ==> At(t, e, Lit(ElseM))
    requires els.Some? ==>
      Tokens(t, e + |Lit(ElseM)|) == TreeTokens(els.value, e + |Lit(ElseM)|) + Tokens(t, e + |Lit(ElseM)| + |Print(els.value)|)
    ensures Tokens(t, b) == (TreeTokens(thn, b) + ElseTokens(els, e)) + Tokens(t, c)
  {
    hide Lit, Tokens, TreeTokens, At;
    if els.Some? {
      TokensAtMarker(t, e, ElseM);
      Regroup([Token(e, ElseM)], TreeTokens(els.value, e + |Lit(ElseM)|), Tokens(t, c));
    }
    Regroup(TreeTokens(thn, b), ElseTokens(els, e), Tokens(t, c));
  }

  lemma BlockTokens(t: string, i: nat, m: Marker, arg: string, c: nat, inner: seq<Token>, after: seq<Token>, behind: seq<Token>)
    requires (m == IfM || m == ForM || m == SecM) && Inert(arg, ')')
    requires At(t, i, Opening(m, arg)) && At(t, c, Lit(CloseOf(m)))
    requires Tokens(t, i + |Opening(m, arg)|) == inner + Tokens(t, c)
    requires Tokens(t, c + |Lit(CloseOf(m))|) == after + behind
    ensures Tokens(t, i) == Enclose(m, i, c, inner, after) + behind
  {
    hide Lit, Tokens, Inert, At, Opening;
    OpeningTokens(t, i, m, arg);
    TokensAtMarker(t, c, CloseOf(m));
    Regroup([Token(c, CloseOf(m))], after, behind);
    Regroup(inner, [Token(c, CloseOf(m))] + after, behind);
    Regroup([Token(i, m)], inner + ([Token(c, CloseOf(m))] + after), behind);
  }

  lemma TextTokens(t: string, i: nat, s: string)
    requires At(t, i, s) && Clean(s)
    ensures Tokens(t, i) == Tokens(t, i + |s|)
  {
    hide At, Clean, MarkerAt, Tokens;
    CleanHasNoMarker(t, i, s);
    AtIsSlice(t, i, s);
    TokensSkip(t, i, i + |s|);
  }

  /** Where the body and the close tag of a printed block stand. */
  lemma BlockLayout(t: string, i: nat, m: Marker, arg: string, body: Tree, rest: Tree) returns (b: nat, c: nat)
    requires At(t, i, Block(m, arg, Print(body)) + Print(rest))
    ensures b == i + |Opening(m, arg)| && c == b + |Print(body)|
    ensures At(t, i, Opening(m, arg)) && At(t, b, Print(body)) && At(t, c, Lit(CloseOf(m)))
    ensures At(t, c + |Lit(CloseOf(m))|, Print(rest))
    ensures |Block(m, arg, Print(body))| == c + |Lit(CloseOf(m))| - i
    ensures c + |Lit(CloseOf(m))| <= |t|
  {
    hide At, Lit;
    AtCat(t, i, Block(m, arg, Print(body)), Print(rest));
    AtCat(t, i, Opening(m, arg), Print(body) + Lit(CloseOf(m)));
    b := i + |Opening(m, arg)|;
    AtCat(t, b, Print(body), Lit(CloseOf(m)));
    c := b + |Print(body)|;
    AtIsSlice(t, c, Lit(CloseOf(m)));
  }

  lemma IfLayout(t: string, i: nat, cond: string, thn: Tree, els: Option<Tree>, rest: Tree) returns (b: nat, e: nat, c: nat)
    requires At(t, i, Block(IfM, cond, Print(thn) + PrintElse(els)) + Print(rest))
    ensures b == i + |Opening(IfM, cond)| && e == b + |Print(thn)| && c == e + |PrintElse(els)|
    ensures At(t, i, Opening(IfM, cond)) && At(t, b, Print(thn)) && At(t, c, Lit(EndIfM))
    ensures els.Some? ==> At(t, e, Lit(ElseM)) && At(t, e + |Lit(ElseM)|, Print(els.value))
    ensures At(t, c + |Lit(EndIfM)|, Print(rest))
    ensures |Block(IfM, cond, Print(thn) + PrintElse(els))| == c + |Lit(EndIfM)| - i
    ensures c + |Lit(EndIfM)| <= |t|
  {
    hide At, Lit;
    var inner := Print(thn) + PrintElse(els);
    AtCat(t, i, Block(IfM, cond, inner), Print(rest));
    AtCat(t, i, Opening(IfM, cond), inner + Lit(CloseOf(IfM)));
    b := i + |Opening(IfM, cond)|;
    AtCat(t, b, inner, Lit(CloseOf(IfM)));
    AtCat(t, b, Print(thn), PrintElse(els));
    e := b + |Print(thn)|;
    c := e + |PrintElse(els)|;
    if els.Some? { AtCat(t, e, Lit(ElseM), Print(els.value)); }
    AtIsSlice(t, c, Lit(EndIfM));
  }

  // ---- blocks close where they were printed ----

  predicate BlockMarker(m: Marker) {
    m == IfM || m == ForM || m == SecM
  }

  lemma EncloseAppend(m: Marker, i: nat, c: nat, inner: seq<Token>, after: seq<Token>, w: seq<Token>)
    ensures Enclose(m, i, c, inner, after) + w == [Token(i, m)] + (inner + ([Token(c, CloseOf(m))] + (after + w)))
  {}

  lemma ClosingCons(k: Token, ts: seq<Token>, d: nat, m: Marker)
    requires d >= 1 && BlockMarker(m)
    ensures Closing([k] + ts, d, m, CloseOf(m)) ==
      if k.marker == m then Closing(ts, d + 1, m, CloseOf(m))
      else if k.marker == CloseOf(m) then if d == 1 then Some(k.pos) else Closing(ts, d - 1, m, CloseOf(m))
      else Closing(ts, d, m, CloseOf(m))
  {
    assert ([k] + ts)[1..] == ts;
  }

  /** A block passes the search on at the depth it came with, if its inside and what follows do. */
  lemma ClosingEnclose(k: Marker, i: nat, c: nat, inner: seq<Token>, after: seq<Token>, w: seq<Token>, d: nat, m: Marker)
    requires d >= 1 && BlockMarker(m) && BlockMarker(k)
    requires var d' := if k == m then d + 1 else d; var w' := [Token(c, CloseOf(k))] + (after + w);
      Closing(inner + w', d', m, CloseOf(m)) == Closing(w', d', m, CloseOf(m))
    requires Closing(after + w, d, m, CloseOf(m)) == Closing(w, d, m, CloseOf(m))
    ensures Closing(Enclose(k, i, c, inner, after) + w, d, m, CloseOf(m)) == Closing(w, d, m, CloseOf(m))
  {
    hide Closing, Enclose;
    EncloseAppend(k, i, c, inner, after, w);
    var w' := [Token(c, CloseOf(k))] + (after + w);
    ClosingCons(Token(i, k), inner + w', d, m);
    ClosingCons(Token(c, CloseOf(k)), after + w, if k == m then d + 1 else d, m);
  }

  /** Balance: a whole tree leaves the search for a close tag at the depth it found it. */
  lemma {:induction false} ClosingSkips(n: Tree, i: nat, w: seq<Token>, d: nat, m: Marker)
    requires d >= 1 && BlockMarker(m)
    ensures Closing(TreeTokens(n, i) + w, d, m, CloseOf(m)) == Closing(w, d, m, CloseOf(m))
    decreases n, 1
  {
    hide *;
    KindIs(n);
    if n.End? {
      EndIs(i);
      assert [] + w == w;
    } else if n.If? {
      ClosingSkipsIf(n, i, w, d, m);
    } else if IsBlock(n) {
      BlockIs(n, i);
      var k, b := MarkerOf(n), i + |Opening(MarkerOf(n), ArgOf(n))|;
      var c := b + |Print(n.body)|;
      var after := TreeTokens(n.rest, c + |Lit(CloseOf(k))|);
      ClosingSkips(n.rest, c + |Lit(CloseOf(k))|, w, d, m);
      ClosingSkips(n.body, b, [Token(c, CloseOf(k))] + (after + w), if k == m then d + 1 else d, m);
      ClosingEnclose(k, i, c, TreeTokens(n.body, b), after, w, d, m);
    } else if IsLeaf(n) {
      LeafIs(n, i);
      var next := i + |Opening(MarkerOf(n), ArgOf(n))|;
      ClosingSkips(n.rest, next, w, d, m);
      ClosingSkipsLeaf(i, MarkerOf(n), TreeTokens(n.rest, next), w, d, m);
    } else {
      PlainIs(n, i);
      ClosingSkips(n.rest, i + |HeadText(n)|, w, d, m);
    }
  }

  lemma ClosingSkipsLeaf(i: nat, k: Marker, after: seq<Token>, w: seq<Token>, d: nat, m: Marker)
    requires d >= 1 && BlockMarker(m) && (k == IncM || k == YieldM || k == ElseM)
    ensures Closing([Token(i, k)] + after + w, d, m, CloseOf(m)) == Closing(after + w, d, m, CloseOf(m))
  {
    hide Closing;
    Regroup([Token(i, k)], after, w);
    ClosingCons(Token(i, k), after + w, d, m);
  }

  lemma {:induction false} ClosingSkipsIf(n: Tree, i: nat, w: seq<Token>, d: nat, m: Marker)
    requires d >= 1 && BlockMarker(m) && n.If?
    ensures Closing(TreeTokens(n, i) + w, d, m, CloseOf(m)) == Closing(w, d, m, CloseOf(m))
    decreases n, 0
  {
    hide *;
    var If(cond, thn, els, rest) := n;
    IfIs(n, i);
    var b := i + |Opening(IfM, cond)|;
    var e := b + |Print(thn)|;
    var c := e + |PrintElse(els)|;
    var after := TreeTokens(rest, c + |Lit(EndIfM)|);
    var d' := if IfM == m then d + 1 else d;
    var w' := [Token(c, EndIfM)] + (after + w);
    ClosingSkips(rest, c + |Lit(EndIfM)|, w, d, m);
    ClosingSkips(thn, b, ElseTokens(els, e) + w', d', m);
    Regroup(TreeTokens(thn, b), ElseTokens(els, e), w');
    ElseTokensIs(els, e);
    CloseIs();
    if els.Some? {
      ClosingSkips(els.value, e + |Lit(ElseM)|, w', d', m);
      ClosingSkipsLeaf(e, ElseM, TreeTokens(els.value, e + |Lit(ElseM)|), w', d', m);
    } else {
      assert [] + w' == w';
    }
    ClosingEnclose(IfM, i, c, TreeTokens(thn, b) + ElseTokens(els, e), after, w, d, m);
  }

  lemma ElseCons(k: Token, ts: seq<Token>, d: int, end: nat)
    requires k.pos < end
    ensures Else([k] + ts, d, end) ==
      if k.marker == IfM then Else(ts, d + 1, end)
      else if k.marker == EndIfM then Else(ts, d - 1, end)
      else if k.marker == ElseM && d == 0 then Some(k.pos)
      else Else(ts, d, end)
  {
    assert ([k] + ts)[1..] == ts;
  }

  lemma ElseEnclose(k: Marker, i: nat, c: nat, inner: seq<Token>, after: seq<Token>, w: seq<Token>, d: int, end: nat)
    requires BlockMarker(k) && i < end && c < end
    requires var d' := if k == IfM then d + 1 else d; var w' := [Token(c, CloseOf(k))] + (after + w);
      Else(inner + w', d', end) == Else(w', d', end)
    requires Else(after + w, d, end) == Else(w, d, end)
    ensures Else(Enclose(k, i, c, inner, after) + w, d, end) == Else(w, d, end)
  {
    hide Else, Enclose;
    EncloseAppend(k, i, c, inner, after, w);
    var w' := [Token(c, CloseOf(k))] + (after + w);
    ElseCons(Token(i, k), inner + w', d, end);
    ElseCons(Token(c, CloseOf(k)), after + w, if k == IfM then d + 1 else d, end);
  }

  lemma ElseSkipsLeaf(i: nat, k: Marker, after: seq<Token>, w: seq<Token>, d: int, end: nat)
    requires i < end && (k == IncM || k == YieldM || (k == ElseM && d > 0))
    ensures Else([Token(i, k)] + after + w, d, end) == Else(after + w, d, end)
  {
    hide Else;
    Regroup([Token(i, k)], after, w);
    ElseCons(Token(i, k), after + w, d, end);
  }

  /** A whole tree hides its own else tags from the search. */
  lemma {:induction false} ElseSkips(n: Tree, i: nat, w: seq<Token>, d: nat, end: nat)
    requires i + |Print(n)| <= end
    ensures Else(TreeTokens(n, i) + w, d, end) == Else(w, d, end)
    decreases n, 2
  {
    hide *;
    KindIs(n);
    if n.End? {
      EndIs(i);
      assert [] + w == w;
    } else if n.If? {
      ElseSkipsIf(n, i, w, d, end);
    } else if IsBlock(n) {
      BlockIs(n, i);
      var k, b := MarkerOf(n), i + |Opening(MarkerOf(n), ArgOf(n))|;
      var c := b + |Print(n.body)|;
      BlockLength(k, ArgOf(n), Print(n.body));
      var after := TreeTokens(n.rest, c + |Lit(CloseOf(k))|);
      ElseSkips(n.rest, c + |Lit(CloseOf(k))|, w, d, end);
      ElseSkips(n.body, b, [Token(c, CloseOf(k))] + (after + w), d, end);
      ElseEnclose(k, i, c, TreeTokens(n.body, b), after, w, d, end);
    } else if IsLeaf(n) {
      LeafIs(n, i);
      OpeningLength(MarkerOf(n), ArgOf(n));
      var next := i + |Opening(MarkerOf(n), ArgOf(n))|;
      ElseSkips(n.rest, next, w, d, end);
      ElseSkipsLeaf(i, MarkerOf(n), TreeTokens(n.rest, next), w, d, end);
    } else {
      PlainIs(n, i);
      ElseSkips(n.rest, i + |HeadText(n)|, w, d, end);
    }
  }

  lemma OpeningLength(m: Marker, arg: string)
    ensures |Opening(m, arg)| == |Lit(m)| + |arg| + 1 > 0
  {}

  lemma BlockLength(m: Marker, arg: string, inner: string)
    ensures |Block(m, arg, inner)| == |Opening(m, arg)| + |inner| + |Lit(CloseOf(m))| && |Opening(m, arg)| > 0
  {}

  lemma {:induction false} ElseSkipsIf(n: Tree, i: nat, w: seq<Token>, d: nat, end: nat)
    requires n.If? && i + |Print(n)| <= end
    ensures Else(TreeTokens(n, i) + w, d, end) == Else(w, d, end)
    decreases n, 1
  {
    hide *;
    var If(cond, thn, els, rest) := n;
    IfIs(n, i);
    var b := i + |Opening(IfM, cond)|;
    var e := b + |Print(thn)|;
    var c := e + |PrintElse(els)|;
    BlockLength(IfM, cond, Print(thn) + PrintElse(els));
    CloseIs();
    var after := TreeTokens(rest, c + |Lit(EndIfM)|);
    ElseSkips(rest, c + |Lit(EndIfM)|, w, d, end);
    ElseSkipsBranches(n, b, [Token(c, EndIfM)] + (after + w), d + 1, end);
    ElseEnclose(IfM, i, c, TreeTokens(thn, b) + ElseTokens(els, e), after, w, d, end);
  }

  /** Inside an if, both branches and the else between them are passed over. */
  lemma {:induction false} ElseSkipsBranches(n: Tree, b: nat, w: seq<Token>, d: nat, end: nat)
    requires n.If? && b + |Print(n.thn)| + |PrintElse(n.els)| <= end && d > 0
    ensures Else(TreeTokens(n.thn, b) + ElseTokens(n.els, b + |Print(n.thn)|) + w, d, end) == Else(w, d, end)
    decreases n, 0
  {
    hide *;
    var If(_, thn, els, _) := n;
    var e := b + |Print(thn)|;
    ElseTokensIs(els, e);
    ElseSkips(thn, b, ElseTokens(els, e) + w, d, end);
    Regroup(TreeTokens(thn, b), ElseTokens(els, e), w);
    if els.Some? {
      LiteralNonempty(ElseM);
      ElseSkips(els.value, e + |Lit(ElseM)|, w, d, end);
      ElseSkipsLeaf(e, ElseM, TreeTokens(els.value, e + |Lit(ElseM)|), w, d, end);
    } else {
      assert [] + w == w;
    }
  }

  lemma LiteralNonempty(m: Marker)
    ensures |Lit(m)| > 0
  {}

  /** `matching_end` finds the close tag of a printed block, whatever follows it. */
  lemma BlockCloses(t: string, i: nat, m: Marker, arg: string, body: Tree, rest: Tree)
    requires BlockMarker(m) && WellFormed(body) && At(t, i, Block(m, arg, Print(body)) + Print(rest))
    ensures var b := i + |Opening(m, arg)|;
      Closing(Tokens(t, b), 1, m, CloseOf(m)) == Some(b + |Print(body)|)
  {
    hide Closing, Tokens, TreeTokens, Lit, At, Opening, Block, Print, WellFormed;
    var b, c := BlockLayout(t, i, m, arg, body, rest);
    TokensOfTree(t, b, body);
    TokensAtMarker(t, c, CloseOf(m));
    ClosingSkips(body, b, Tokens(t, c), 1, m);
    ClosingCons(Token(c, CloseOf(m)), Tokens(t, c + |Lit(CloseOf(m))|), 1, m);
  }

  /** For a printed if, `matching_end` finds its own endif and `find_else` its own else. */
  lemma IfCloses(t: string, i: nat, cond: string, thn: Tree, els: Option<Tree>, rest: Tree)
    requires WellFormed(thn) && (els.Some? ==> WellFormed(els.value))
    requires At(t, i, Block(IfM, cond, Print(thn) + PrintElse(els)) + Print(rest))
    ensures var b := i + |Opening(IfM, cond)|; var e := b + |Print(thn)|; var c := e + |PrintElse(els)|;
      && Closing(Tokens(t, b), 1, IfM, EndIfM) == Some(c)
      && Else(Tokens(t, b), 0, c) == if els.Some? then Some(e) else None
  {
    hide Closing, Else, Tokens, TreeTokens, Lit, At, Opening, Block, Print, WellFormed;
    var b, e, c := IfLayout(t, i, cond, thn, els, rest);
    var w := Tokens(t, c);
    TokensOfTree(t, b, thn);
    TokensAtMarker(t, c, EndIfM);
    ClosingCons(Token(c, EndIfM), Tokens(t, c + |Lit(EndIfM)|), 1, IfM);
    ElseStops(Token(c, EndIfM), Tokens(t, c + |Lit(EndIfM)|), c);
    ClosingSkips(thn, b, Tokens(t, e), 1, IfM);
    ElseSkips(thn, b, Tokens(t, e), 0, c);
    if els.Some? {
      var o := e + |Lit(ElseM)|;
      TokensAtMarker(t, e, ElseM);
      TokensOfTree(t, o, els.value);
      ClosingSkips(els.value, o, w, 1, IfM);
      ClosingCons(Token(e, ElseM), Tokens(t, o), 1, IfM);
      ElseCons(Token(e, ElseM), Tokens(t, o), 0, c);
    }
  }

  lemma ElseStops(k: Token, ts: seq<Token>, end: nat)
    requires k.pos >= end
    ensures Else([k] + ts, 0, end) == None
  {}

  // ---- what each directive does to a printed tree ----

  lemma PlainArgument(m: Marker, arg: string)
    requires Control(m) && Inert(arg, ')')
    ensures ')' !in Lit(m) && ')' !in arg
  {
    forall c | c in Lit(m) ensures c != ')' {
      var k :| 0 <= k < |Lit(m)| && Lit(m)[k] == c;
      LiteralChars(m, k);
    }
  }

  /** The argument of a printed directive is read back whole. */
  lemma OpeningReads(t: string, i: nat, m: Marker, arg: string)
    requires At(t, i, Opening(m, arg)) && Control(m) && Inert(arg, ')')
    ensures MarkerAt(t, i) == Some(m)
    ensures var e := i + |Lit(m)| + |arg|;
      && Find(t, ")", i) == Some(e) && e < |t| && e + 1 == i + |Opening(m, arg)|
      && Between(t, i + |Lit(m)|, e) == arg
  {
    hide MarkerAt, Inert, Lit;
    PlainArgument(m, arg);
    FindEnd(t, i, Lit(m), arg, ")", ')');
    AtCat(t, i, Lit(m), arg + ")");
    AtCat(t, i + |Lit(m)|, arg, ")");
    MarkerAtIs(t, i, m);
  }

  lemma BracesRead(t: string, i: nat, m: Marker, key: string, ctx: View)
    requires m == RawM || m == EscM
    requires At(t, i, Lit(m) + (key + if m == RawM then "!!}" else "}}")) && Inert(key, '}')
    ensures MarkerAt(t, i) == Some(m)
    ensures var value := Var(ctx, Trim(key));
      ApplyBraces(t, i, m, ctx) == if m == RawM then Step(Some(value), i + 6 + |key|) else Step(Some(Escaped(value)), i + 4 + |key|)
  {
    hide MarkerAt, Inert, At, Find, Lit, Trim, Escaped;
    var stop := if m == RawM then "!!}" else "}}";
    BraceLiterals();
    AtCat(t, i, Lit(m), key + stop);
    AtCat(t, i + |Lit(m)|, key, stop);
    AtIsSlice(t, i + |Lit(m)|, key);
    AtIsSlice(t, i + |Lit(m)| + |key|, stop);
    MarkerAtIs(t, i, m);
    InertStop(key, '}');
    if m == RawM {
      RawEnd(t, i, key);
    } else {
      FirstDoubleBrace(t, i, key);
    }
  }

  lemma BraceLiterals()
    ensures Lit(RawM) == "{!!" && Lit(EscM) == "{{"
  {}

  lemma RawEnd(t: string, i: nat, key: string)
    requires At(t, i, "{!!" + (key + "!!}")) && '}' !in key
    ensures Find(t, "!!}", i) == Some(i + 3 + |key|)
  {
    hide At, Find;
    FindEnd(t, i, "{!!", key, "!!}", '}');
  }

  lemma InertStop(arg: string, stop: char)
    requires Inert(arg, stop)
    ensures stop !in arg
  {}

  lemma FirstDoubleBrace(t: string, i: nat, key: string)
    requires At(t, i, "{{" + (key + "}}")) && '}' !in key
    ensures Find(t, "}}", i) == Some(i + 2 + |key|)
  {
    var e := i + 2 + |key|;
    AtCat(t, i, "{{", key + "}}");
    AtCat(t, i + 2, key, "}}");
    forall p | i <= p < e ensures t[p] != '}' {
      if p < i + 2 { AtChar(t, i, "{{", p - i); } else { AtChar(t, i + 2, key, p - i - 2); }
    }
    forall j | i <= j < e ensures !At(t, j, "}}") {
      NotAt(t, j, "}}", 0);
    }
    FindAt(t, "}}", i, e);
  }

  predicate NoneAre(ts: seq<Token>, m: Marker) {
    forall k <- ts :: k.marker != m
  }

  lemma NoneAreCat(a: seq<Token>, b: seq<Token>, m: Marker)
    requires NoneAre(a, m) && NoneAre(b, m)
    ensures NoneAre(a + b, m)
  {}

  lemma NoneAreEnclosed(k: Marker, i: nat, c: nat, inner: seq<Token>, after: seq<Token>, m: Marker)
    requires BlockMarker(k) && NoneAre(inner, m) && NoneAre(after, m) && k != m && CloseOf(k) != m
    ensures NoneAre(Enclose(k, i, c, inner, after), m)
  {}

  lemma {:induction false} TreeHasNoExtends(n: Tree, i: nat)
    ensures NoneAre(TreeTokens(n, i), ExtM)
    decreases n
  {
    hide *;
    KindIs(n);
    CloseIs();
    EmptyNone();
    if n.End? {
      EndIs(i);
    } else if n.If? {
      IfIs(n, i);
      var b := i + |Opening(IfM, n.cond)|;
      var e := b + |Print(n.thn)|;
      var c := e + |PrintElse(n.els)|;
      TreeHasNoExtends(n.thn, b);
      ElseTokensIs(n.els, e);
      if n.els.Some? {
        TreeHasNoExtends(n.els.value, e + |Lit(ElseM)|);
        SingleNone(e, ElseM);
        NoneAreCat([Token(e, ElseM)], TreeTokens(n.els.value, e + |Lit(ElseM)|), ExtM);
      }
      TreeHasNoExtends(n.rest, c + |Lit(EndIfM)|);
      NoneAreCat(TreeTokens(n.thn, b), ElseTokens(n.els, e), ExtM);
      NoneAreEnclosed(IfM, i, c, TreeTokens(n.thn, b) + ElseTokens(n.els, e), TreeTokens(n.rest, c + |Lit(EndIfM)|), ExtM);
    } else if IsBlock(n) {
      BlockIs(n, i);
      var k, b := MarkerOf(n), i + |Opening(MarkerOf(n), ArgOf(n))|;
      var c := b + |Print(n.body)|;
      TreeHasNoExtends(n.body, b);
      TreeHasNoExtends(n.rest, c + |Lit(CloseOf(k))|);
      NoneAreEnclosed(k, i, c, TreeTokens(n.body, b), TreeTokens(n.rest, c + |Lit(CloseOf(k))|), ExtM);
    } else if IsLeaf(n) {
      LeafIs(n, i);
      var next := i + |Opening(MarkerOf(n), ArgOf(n))|;
      TreeHasNoExtends(n.rest, next);
      SingleNone(i, MarkerOf(n));
      NoneAreCat([Token(i, MarkerOf(n))], TreeTokens(n.rest, next), ExtM);
    } else {
      PlainIs(n, i);
      TreeHasNoExtends(n.rest, i + |HeadText(n)|);
    }
  }

  lemma IfIs(n: Tree, i: nat)
    requires n.If?
    ensures Print(n) == Block(IfM, n.cond, Print(n.thn) + PrintElse(n.els)) + Print(n.rest)
    ensures var b := i + |Opening(IfM, n.cond)|; var e := b + |Print(n.thn)|; var c := e + |PrintElse(n.els)|;
      TreeTokens(n, i) == Enclose(IfM, i, c, TreeTokens(n.thn, b) + ElseTokens(n.els, e), TreeTokens(n.rest, c + |Lit(EndIfM)|))
    ensures WellFormed(n) ==> Inert(n.cond, ')') && WellFormed(n.thn) && WellFormed(n.rest)
    ensures WellFormed(n) && n.els.Some? ==> WellFormed(n.els.value)
  {
    hide Opening, Block, Lit, Enclose, Inert, ElseTokens, PrintElse;
  }

  lemma ElseTokensIs(els: Option<Tree>, i: nat)
    ensures PrintElse(els) == if els.None? then "" else Lit(ElseM) + Print(els.value)
    ensures ElseTokens(els, i) == if els.None? then [] else [Token(i, ElseM)] + TreeTokens(els.value, i + |Lit(ElseM)|)
  {}

  lemma EmptyNone()
    ensures NoneAre([], ExtM)
  {}

  lemma SingleNone(i: nat, k: Marker)
    requires k != ExtM
    ensures NoneAre([Token(i, k)], ExtM)
  {}

  lemma {:induction false} NotAmong(ts: seq<Token>, m: Marker)
    requires NoneAre(ts, m)
    ensures FirstPos(ts, m) == None
  {
    if ts != [] {
      assert ts[0] in ts;
      NotAmong(ts[1..], m);
    }
  }

  /** A printed tree is no extending template, so rendering it scans it from its start. */
  lemma RenderPrinted(n: Tree, ctx: View, env: Registry, sections: Sections, depth: nat)
    requires WellFormed(n)
    ensures Render(Print(n), ctx, env, sections, depth) == RenderFrom(Print(n), 0, ctx, env, sections, depth)
  {
    hide *;
    var t := Print(n);
    WholeAt(t);
    TokensOfTree(t, 0, n);
    NoTokensBehind(t);
    assert TreeTokens(n, 0) + [] == TreeTokens(n, 0);
    TreeHasNoExtends(n, 0);
    NotAmong(TreeTokens(n, 0), ExtM);
    ControlIs();
    FindIsFirst(t, 0, ExtM);
    RenderWithoutLayout(t, ctx, env, sections, depth);
  }

  lemma NoTokensBehind(t: string)
    ensures Tokens(t, |t|) == []
  {}

  lemma ControlIs()
    ensures Control(ExtM) && Control(SecM) && Control(ElseM) && Control(EndIfM) && Control(EndForM) && Control(EndSecM)
    ensures Control(IfM) && Control(ForM) && Control(IncM) && Control(YieldM)
  {}

  lemma RenderWithoutLayout(t: string, ctx: View, env: Registry, sections: Sections, depth: nat)
    requires Find(t, Lit(ExtM), 0) == None
    ensures Render(t, ctx, env, sections, depth) == RenderFrom(t, 0, ctx, env, sections, depth)
  {
    hide Find, Lit, RenderFrom, Collect, Unquote, Between;
  }

  // ---- the theorem ----

  ghost predicate WellFormedLibrary(lib: Library) {
    forall name <- lib :: WellFormedDoc(lib[name])
  }

  lemma LookupPrints(lib: Library, name: string)
    requires WellFormedLibrary(lib)
    ensures Template(Sources(lib), name) == PrintDoc(Lookup(lib, name)) && WellFormedDoc(Lookup(lib, name))
  {}

  lemma RenderText(t: string, i: nat, s: string, ctx: View, env: Registry, sections: Sections, depth: nat)
    requires At(t, i, s) && Clean(s)
    ensures RenderFrom(t, i, ctx, env, sections, depth) == Cat(Some(s), RenderFrom(t, i + |s|, ctx, env, sections, depth))
  {
    CleanHasNoMarker(t, i, s);
    RenderCopies(t, i, i + |s|, ctx, env, sections, depth);
  }

  lemma UnfoldText(n: Tree, ctx: View, lib: Library, sections: Sections, depth: nat)
    requires n.Text? && WellFormed(n)
    ensures WellFormed(n.rest) && Clean(n.s) && Print(n) == n.s + Print(n.rest)
    ensures Eval(n, ctx, lib, sections, depth) == Cat(Some(n.s), Eval(n.rest, ctx, lib, sections, depth))
  {}

  lemma UnfoldIf(n: Tree, ctx: View, lib: Library, sections: Sections, depth: nat)
    requires n.If? && WellFormed(n)
    ensures WellFormed(n.thn) && (n.els.Some? ==> WellFormed(n.els.value)) && WellFormed(n.rest) && Inert(n.cond, ')')
    ensures Print(n) == Block(IfM, n.cond, Print(n.thn) + PrintElse(n.els)) + Print(n.rest)
    ensures Eval(n, ctx, lib, sections, depth) ==
      Cat(if Truthy(Var(ctx, Trim(n.cond))) then Eval(n.thn, ctx, lib, sections, depth)
          else if n.els.Some? then Eval(n.els.value, ctx, lib, sections, depth) else Some(""),
          Eval(n.rest, ctx, lib, sections, depth))
  {}

  lemma UnfoldForeach(n: Tree, ctx: View, lib: Library, sections: Sections, depth: nat)
    requires n.Foreach? && WellFormed(n)
    ensures WellFormed(n.body) && WellFormed(n.rest) && Inert(n.spec, ')')
    ensures Print(n) == Block(ForM, n.spec, Print(n.body)) + Print(n.rest)
    ensures Eval(n, ctx, lib, sections, depth) ==
      Cat(EvalEach(n.body, ctx, Items(ctx, ListName(n.spec)), lib, sections, depth), Eval(n.rest, ctx, lib, sections, depth))
  {}

  lemma UnfoldSection(n: Tree, ctx: View, lib: Library, sections: Sections, depth: nat)
    requires n.Section? && WellFormed(n)
    ensures WellFormed(n.body) && WellFormed(n.rest) && Inert(n.name, ')')
    ensures Print(n) == Block(SecM, n.name, Print(n.body)) + Print(n.rest)
    ensures Eval(n, ctx, lib, sections, depth) ==
      Cat(Eval(n.body, ctx, lib, sections, depth), Eval(n.rest, ctx, lib, sections, depth))
  {}

  lemma UnfoldLeaf(n: Tree, ctx: View, lib: Library, sections: Sections, depth: nat)
    requires (n.Include? || n.Yield?) && WellFormed(n)
    ensures var m := if n.Include? then IncM else YieldM; var name := Unquote(n.name);
      && WellFormed(n.rest) && Inert(n.name, ')')
      && Print(n) == Opening(m, n.name) + Print(n.rest)
      && Eval(n, ctx, lib, sections, depth) ==
        Cat(if m == YieldM then Some(if name in sections then sections[name] else "")
            else if depth == 0 then None else EvalDoc(Lookup(lib, name), ctx, lib, sections, depth - 1),
            Eval(n.rest, ctx, lib, sections, depth))
  {}

  lemma UnfoldBraces(n: Tree, ctx: View, lib: Library, sections: Sections, depth: nat)
    requires (n.Raw? || n.Esc?) && WellFormed(n)
    ensures var m := if n.Raw? then RawM else EscM; var value := Var(ctx, Trim(n.key));
      && WellFormed(n.rest) && Inert(n.key, '}')
      && Print(n) == (Lit(m) + (n.key + if m == RawM then "!!}" else "}}")) + Print(n.rest)
      && Eval(n, ctx, lib, sections, depth) ==
        Cat(Some(if m == RawM then value else Escaped(value)), Eval(n.rest, ctx, lib, sections, depth))
  {}

  /** Scanning a printed tree from where it starts gives its evaluation, then what scanning
      from behind it gives. */
  lemma {:induction false} RenderTree(t: string, i: nat, n: Tree, ctx: View, lib: Library, sections: Sections, depth: nat)
    requires WellFormed(n) && WellFormedLibrary(lib) && At(t, i, Print(n))
    ensures RenderFrom(t, i, ctx, Sources(lib), sections, depth)
      == Cat(Eval(n, ctx, lib, sections, depth), RenderFrom(t, i + |Print(n)|, ctx, Sources(lib), sections, depth))
    decreases depth, 0, n, 2
  {
    match n {
      case End => CatEmpty(RenderFrom(t, i, ctx, Sources(lib), sections, depth));
      case Text(_, _) => RenderTextNode(t, i, n, ctx, lib, sections, depth);
      case Raw(_, _) => RenderBracesNode(t, i, n, ctx, lib, sections, depth);
      case Esc(_, _) => RenderBracesNode(t, i, n, ctx, lib, sections, depth);
      case If(_, _, _, _) => RenderIf(t, i, n, ctx, lib, sections, depth);
      case Foreach(_, _, _) => RenderForeach(t, i, n, ctx, lib, sections, depth);
      case Include(_, _) => RenderLeafNode(t, i, n, ctx, lib, sections, depth);
      case Yield(_, _) => RenderLeafNode(t, i, n, ctx, lib, sections, depth);
      case Section(_, _, _) => RenderSection(t, i, n, ctx, lib, sections, depth);
    }
  }

  lemma {:induction false} RenderTextNode(t: string, i: nat, n: Tree, ctx: View, lib: Library, sections: Sections, depth: nat)
    requires n.Text? && WellFormed(n) && WellFormedLibrary(lib) && At(t, i, Print(n))
    ensures RenderFrom(t, i, ctx, Sources(lib), sections, depth)
      == Cat(Eval(n, ctx, lib, sections, depth), RenderFrom(t, i + |Print(n)|, ctx, Sources(lib), sections, depth))
    decreases depth, 0, n, 1
  {
    hide *;
    var Text(s, rest) := n;
    UnfoldText(n, ctx, lib, sections, depth);
    AtCat(t, i, s, Print(rest));
    RenderText(t, i, s, ctx, Sources(lib), sections, depth);
    RenderTree(t, i + |s|, rest, ctx, lib, sections, depth);
    CatAssociative(Some(s), Eval(rest, ctx, lib, sections, depth),
                   RenderFrom(t, i + |Print(n)|, ctx, Sources(lib), sections, depth));
  }

  lemma {:induction false} RenderBracesNode(t: string, i: nat, n: Tree, ctx: View, lib: Library, sections: Sections, depth: nat)
    requires (n.Raw? || n.Esc?) && WellFormed(n) && WellFormedLibrary(lib) && At(t, i, Print(n))
    ensures RenderFrom(t, i, ctx, Sources(lib), sections, depth)
      == Cat(Eval(n, ctx, lib, sections, depth), RenderFrom(t, i + |Print(n)|, ctx, Sources(lib), sections, depth))
    decreases depth, 0, n, 1
  {
    hide *;
    UnfoldBraces(n, ctx, lib, sections, depth);
    var m := if n.Raw? then RawM else EscM;
    RenderBraces(t, i, m, n.key, n.rest, ctx, Sources(lib), sections, depth);
    var j := i + |n.key| + if m == RawM then 6 else 4;
    RenderTree(t, j, n.rest, ctx, lib, sections, depth);
    var value := Var(ctx, Trim(n.key));
    CatAssociative(Some(if m == RawM then value else Escaped(value)), Eval(n.rest, ctx, lib, sections, depth),
                   RenderFrom(t, i + |Print(n)|, ctx, Sources(lib), sections, depth));
  }

  lemma RenderBraces(t: string, i: nat, m: Marker, key: string, rest: Tree, ctx: View, env: Registry, sections: Sections, depth: nat)
    requires m == RawM || m == EscM
    requires At(t, i, (Lit(m) + (key + if m == RawM then "!!}" else "}}")) + Print(rest)) && Inert(key, '}')
    ensures var j := i + |key| + if m == RawM then 6 else 4; var value := Var(ctx, Trim(key));
      && At(t, j, Print(rest))
      && |(Lit(m) + (key + if m == RawM then "!!}" else "}}"))| == j - i
      && RenderFrom(t, i, ctx, env, sections, depth)
        == Cat(Some(if m == RawM then value else Escaped(value)), RenderFrom(t, j, ctx, env, sections, depth))
  {
    hide RenderFrom, MarkerAt, Inert, At, Cat, ApplyBraces;
    var whole := Lit(m) + (key + if m == RawM then "!!}" else "}}");
    AtCat(t, i, whole, Print(rest));
    BracesRead(t, i, m, key, ctx);
    MarkerStart(t, i);
    RenderTurn(t, i, m, ctx, env, sections, depth);
  }

  /** The scan at a printed if, foreach or section. */
  lemma RenderBlock(t: string, i: nat, m: Marker, arg: string, ctx: View, env: Registry, sections: Sections, depth: nat)
    requires At(t, i, Opening(m, arg)) && BlockMarker(m) && Inert(arg, ')')
    ensures var b := i + |Opening(m, arg)|;
      && 0 < b <= |t|
      && var s := ApplyBlock(t, b, m, arg, ctx, env, sections, depth);
      RenderFrom(t, i, ctx, env, sections, depth)
        == if s.Unterminated? then None else Cat(s.text, RenderFrom(t, s.next, ctx, env, sections, depth))
  {
    hide RenderFrom, MarkerAt, Inert, At, Cat, ApplyBlock, Lit;
    OpeningReads(t, i, m, arg);
    RenderTurn(t, i, m, ctx, env, sections, depth);
  }

  lemma {:induction false} RenderIf(t: string, i: nat, n: Tree, ctx: View, lib: Library, sections: Sections, depth: nat)
    requires n.If? && WellFormed(n) && WellFormedLibrary(lib) && At(t, i, Print(n))
    ensures RenderFrom(t, i, ctx, Sources(lib), sections, depth)
      == Cat(Eval(n, ctx, lib, sections, depth), RenderFrom(t, i + |Print(n)|, ctx, Sources(lib), sections, depth))
    decreases depth, 0, n, 1
  {
    hide *;
    var env := Sources(lib);
    var If(cond, thn, els, rest) := n;
    UnfoldIf(n, ctx, lib, sections, depth);
    CloseIs();
    var b, e, c := IfLayout(t, i, cond, thn, els, rest);
    RenderBlock(t, i, IfM, cond, ctx, env, sections, depth);
    IfCloses(t, i, cond, thn, els, rest);
    RenderTree(t, c + |Lit(EndIfM)|, rest, ctx, lib, sections, depth);
    RenderWhole(thn, ctx, lib, sections, depth);
    if els.Some? { RenderWhole(els.value, ctx, lib, sections, depth); }
    IfStep(t, b, e, c, cond, thn, els, ctx, env, sections, depth);
    RenderEmpty(ctx, env, sections, depth);
    var behind := RenderFrom(t, i + |Print(n)|, ctx, env, sections, depth);
    var chosen := if Truthy(Var(ctx, Trim(cond))) then Eval(thn, ctx, lib, sections, depth)
      else if els.Some? then Eval(els.value, ctx, lib, sections, depth) else Some("");
    CatAssociative(chosen, Eval(rest, ctx, lib, sections, depth), behind);
  }

  lemma RenderEmpty(ctx: View, env: Registry, sections: Sections, depth: nat)
    ensures Render("", ctx, env, sections, depth) == Some("")
  {
    assert |Lit(ExtM)| >= 2;
  }

  /** The branch chosen by the scanner is the printed branch. */
  lemma IfStep(t: string, b: nat, e: nat, c: nat, cond: string, thn: Tree, els: Option<Tree>,
               ctx: View, env: Registry, sections: Sections, depth: nat)
    requires 0 < b <= |t| && e == b + |Print(thn)| && c == e + |PrintElse(els)| && c <= |t|
    requires At(t, b, Print(thn)) && (els.Some? ==> At(t, e + |Lit(ElseM)|, Print(els.value)))
    requires Closing(Tokens(t, b), 1, IfM, EndIfM) == Some(c)
    requires Else(Tokens(t, b), 0, c) == if els.Some? then Some(e) else None
    ensures ApplyBlock(t, b, IfM, cond, ctx, env, sections, depth) ==
      Step(if Truthy(Var(ctx, Trim(cond))) then Render(Print(thn), ctx, env, sections, depth)
           else if els.Some? then Render(Print(els.value), ctx, env, sections, depth)
           else Render("", ctx, env, sections, depth),
           c + |Lit(EndIfM)|)
  {
    hide Closing, Else, Tokens, Render, RenderEach, RenderFrom, Apply, ApplyBraces, Collect, Truthy, Trim, Var,
         Items, ListName, Lit, At, Print, PrintElse, Find, MarkerAt;
    AtIsSlice(t, b, Print(thn));
    if els.Some? { AtIsSlice(t, e + |Lit(ElseM)|, Print(els.value)); }
    ElseLength(els);
    CloseIs();
  }

  lemma ElseLength(els: Option<Tree>)
    ensures |Lit(ElseM)| == 5
    ensures |PrintElse(els)| == if els.Some? then 5 + |Print(els.value)| else 0
  {}

  /** A tree printed as a whole template. */
  lemma {:induction false} RenderWhole(n: Tree, ctx: View, lib: Library, sections: Sections, depth: nat)
    requires WellFormed(n) && WellFormedLibrary(lib)
    ensures Render(Print(n), ctx, Sources(lib), sections, depth) == Eval(n, ctx, lib, sections, depth)
    decreases depth, 0, n, 3
  {
    hide *;
    RenderPrinted(n, ctx, Sources(lib), sections, depth);
    WholeAt(Print(n));
    RenderBehind(Print(n), ctx, Sources(lib), sections, depth);
    RenderTree(Print(n), 0, n, ctx, lib, sections, depth);
    CatEmpty(Eval(n, ctx, lib, sections, depth));
  }

  lemma RenderBehind(t: string, ctx: View, env: Registry, sections: Sections, depth: nat)
    ensures RenderFrom(t, |t|, ctx, env, sections, depth) == Some("")
  {}

  lemma WholeAt(t: string)
    ensures At(t, 0, t)
  {}

  lemma BlockStep(t: string, b: nat, c: nat, m: Marker, arg: string, body: Tree, ctx: View, env: Registry, sections: Sections, depth: nat)
    requires (m == ForM || m == SecM) && 0 < b <= |t| && c == b + |Print(body)| && At(t, b, Print(body))
    requires Closing(Tokens(t, b), 1, m, CloseOf(m)) == Some(c)
    ensures ApplyBlock(t, b, m, arg, ctx, env, sections, depth) ==
      Step(if m == ForM then RenderEach(Print(body), ctx, Items(ctx, ListName(arg)), env, sections, depth)
           else Render(Print(body), ctx, env, sections, depth),
           c + |Lit(CloseOf(m))|)
  {
    hide Closing, Else, Tokens, Render, RenderEach, RenderFrom, Apply, ApplyBraces, Collect, Truthy, Trim, Var,
         Items, ListName, Lit, At, Print, PrintElse, Find, MarkerAt;
    AtIsSlice(t, b, Print(body));
  }

  lemma {:induction false} RenderForeach(t: string, i: nat, n: Tree, ctx: View, lib: Library, sections: Sections, depth: nat)
    requires n.Foreach? && WellFormed(n) && WellFormedLibrary(lib) && At(t, i, Print(n))
    ensures RenderFrom(t, i, ctx, Sources(lib), sections, depth)
      == Cat(Eval(n, ctx, lib, sections, depth), RenderFrom(t, i + |Print(n)|, ctx, Sources(lib), sections, depth))
    decreases depth, 0, n, 1
  {
    hide *;
    var env := Sources(lib);
    var Foreach(spec, body, rest) := n;
    UnfoldForeach(n, ctx, lib, sections, depth);
    CloseIs();
    var b, c := BlockLayout(t, i, ForM, spec, body, rest);
    RenderBlock(t, i, ForM, spec, ctx, env, sections, depth);
    BlockCloses(t, i, ForM, spec, body, rest);
    BlockStep(t, b, c, ForM, spec, body, ctx, env, sections, depth);
    RenderTree(t, c + |Lit(EndForM)|, rest, ctx, lib, sections, depth);
    var items := Items(ctx, ListName(spec));
    RenderItems(body, ctx, items, lib, sections, depth);
    var behind := RenderFrom(t, i + |Print(n)|, ctx, env, sections, depth);
    CatAssociative(EvalEach(body, ctx, items, lib, sections, depth), Eval(rest, ctx, lib, sections, depth), behind);
  }

  lemma {:induction false} RenderItems(body: Tree, ctx: View, items: seq<View>, lib: Library, sections: Sections, depth: nat)
    requires WellFormed(body) && WellFormedLibrary(lib)
    ensures RenderEach(Print(body), ctx, items, Sources(lib), sections, depth) == EvalEach(body, ctx, items, lib, sections, depth)
    decreases depth, 0, body, 4 + |items|
  {
    hide Render, Eval, Sources;
    if items != [] {
      RenderWhole(body, Merged(ctx, items[0]), lib, sections, depth);
      RenderItems(body, ctx, items[1..], lib, sections, depth);
    }
  }

  lemma {:induction false} RenderSection(t: string, i: nat, n: Tree, ctx: View, lib: Library, sections: Sections, depth: nat)
    requires n.Section? && WellFormed(n) && WellFormedLibrary(lib) && At(t, i, Print(n))
    ensures RenderFrom(t, i, ctx, Sources(lib), sections, depth)
      == Cat(Eval(n, ctx, lib, sections, depth), RenderFrom(t, i + |Print(n)|, ctx, Sources(lib), sections, depth))
    decreases depth, 0, n, 1
  {
    hide *;
    var env := Sources(lib);
    var Section(name, body, rest) := n;
    UnfoldSection(n, ctx, lib, sections, depth);
    CloseIs();
    var b, c := BlockLayout(t, i, SecM, name, body, rest);
    RenderBlock(t, i, SecM, name, ctx, env, sections, depth);
    BlockCloses(t, i, SecM, name, body, rest);
    BlockStep(t, b, c, SecM, name, body, ctx, env, sections, depth);
    RenderTree(t, c + |Lit(EndSecM)|, rest, ctx, lib, sections, depth);
    RenderWhole(body, ctx, lib, sections, depth);
    var behind := RenderFrom(t, i + |Print(n)|, ctx, env, sections, depth);
    CatAssociative(Eval(body, ctx, lib, sections, depth), Eval(rest, ctx, lib, sections, depth), behind);
  }

  /** The scan at a printed include or yield. */
  lemma RenderLeaf(t: string, i: nat, m: Marker, arg: string, rest: Tree, ctx: View, env: Registry, sections: Sections, depth: nat)
    requires (m == IncM || m == YieldM) && At(t, i, Opening(m, arg) + Print(rest)) && Inert(arg, ')')
    ensures var j := i + |Opening(m, arg)|; var name := Unquote(arg);
      var text := if m == YieldM then Some(if name in sections then sections[name] else "")
        else if depth == 0 then None else Render(Template(env, name), ctx, env, sections, depth - 1);
      && At(t, j, Print(rest))
      && RenderFrom(t, i, ctx, env, sections, depth) == Cat(text, RenderFrom(t, j, ctx, env, sections, depth))
  {
    hide *;
    ControlIs();
    DirectiveIs();
    AtCat(t, i, Opening(m, arg), Print(rest));
    OpeningReads(t, i, m, arg);
    ApplyLeaf(t, i, m, arg, ctx, env, sections, depth);
    MarkerStart(t, i);
    RenderTurn(t, i, m, ctx, env, sections, depth);
  }

  lemma DirectiveIs()
    ensures Directive(IncM) && Directive(YieldM)
  {}

  lemma ApplyLeaf(t: string, i: nat, m: Marker, arg: string, ctx: View, env: Registry, sections: Sections, depth: nat)
    requires (m == IncM || m == YieldM) && MarkerAt(t, i) == Some(m) && Directive(m)
    requires var e := i + |Lit(m)| + |arg|; Find(t, ")", i) == Some(e) && e < |t| && Between(t, i + |Lit(m)|, e) == arg
    ensures Apply(t, i, m, ctx, env, sections, depth) ==
      Step(if m == YieldM then Some(if Unquote(arg) in sections then sections[Unquote(arg)] else "")
           else if depth == 0 then None else Render(Template(env, Unquote(arg)), ctx, env, sections, depth - 1),
           i + |Lit(m)| + |arg| + 1)
  {
    hide Render, MarkerAt, Find, Between, Unquote, Lit, Directive;
  }

  lemma {:induction false} RenderLeafNode(t: string, i: nat, n: Tree, ctx: View, lib: Library, sections: Sections, depth: nat)
    requires (n.Include? || n.Yield?) && WellFormed(n) && WellFormedLibrary(lib) && At(t, i, Print(n))
    ensures RenderFrom(t, i, ctx, Sources(lib), sections, depth)
      == Cat(Eval(n, ctx, lib, sections, depth), RenderFrom(t, i + |Print(n)|, ctx, Sources(lib), sections, depth))
    decreases depth, 0, n, 1
  {
    hide *;
    var m, name := if n.Include? then IncM else YieldM, Unquote(n.name);
    var doc := Lookup(lib, name);
    UnfoldLeaf(n, ctx, lib, sections, depth);
    LookupPrints(lib, name);
    RenderLeaf(t, i, m, n.name, n.rest, ctx, Sources(lib), sections, depth);
    RenderTree(t, i + |Opening(m, n.name)|, n.rest, ctx, lib, sections, depth);
    if n.Include? && depth > 0 { RenderDoc(doc, ctx, lib, sections, depth - 1); }
    var text := if m == YieldM then Some(if name in sections then sections[name] else "")
      else if depth == 0 then None else EvalDoc(doc, ctx, lib, sections, depth - 1);
    CatAssociative(text, Eval(n.rest, ctx, lib, sections, depth),
                   RenderFrom(t, i + |Print(n)|, ctx, Sources(lib), sections, depth));
  }

  /** The main result: on any well-formed template, with any library of well-formed templates,
      values, sections and include depth, rendering the printed text is evaluating the tree. */
  lemma {:induction false} RenderDoc(d: Doc, ctx: View, lib: Library, sections: Sections, depth: nat)
    requires WellFormedDoc(d) && WellFormedLibrary(lib)
    ensures Render(PrintDoc(d), ctx, Sources(lib), sections, depth) == EvalDoc(d, ctx, lib, sections, depth)
    decreases depth, 1
  {
    hide *;
    UnfoldDoc(d, ctx, lib, sections, depth);
    if d.Plain? {
      RenderWhole(d.body, ctx, lib, sections, depth);
    } else {
      var t, env := PrintDoc(d), Sources(lib);
      var b := |Opening(ExtM, d.layout)|;
      LookupPrints(lib, Unquote(d.layout));
      WholeAt(t);
      AtCat(t, 0, Opening(ExtM, d.layout), Print(d.body));
      ControlIs();
      OpeningReads(t, 0, ExtM, d.layout);
      OpeningTokens(t, 0, ExtM, d.layout);
      FindIsFirst(t, 0, ExtM);
      FirstCons(Token(0, ExtM), Tokens(t, b), ExtM);
      FirstCons(Token(0, ExtM), Tokens(t, b), SecM);
      CollectSame(t, 0, b, ctx, env, map[], depth);
      CollectTree(t, b, d.body, ctx, lib, map[], depth);
      CollectEnd(SectionsOf(d.body, ctx, lib, map[], depth), t, ctx, env, depth);
      ExtLength();
      RenderWithLayout(t, |Lit(ExtM)| + |d.layout|, ctx, env, sections, depth);
      if depth > 0 {
        var secs := SectionsOf(d.body, ctx, lib, map[], depth);
        if secs.Some? { RenderDoc(Lookup(lib, Unquote(d.layout)), ctx, lib, secs.value, depth - 1); }
      }
    }
  }

  lemma UnfoldDoc(d: Doc, ctx: View, lib: Library, sections: Sections, depth: nat)
    requires WellFormedDoc(d)
    ensures WellFormed(d.body) && (d.Extends? ==> Inert(d.layout, ')'))
    ensures PrintDoc(d) == if d.Plain? then Print(d.body) else Opening(ExtM, d.layout) + Print(d.body)
    ensures EvalDoc(d, ctx, lib, sections, depth) ==
      if d.Plain? then Eval(d.body, ctx, lib, sections, depth)
      else if depth == 0 then None
      else
        var secs := SectionsOf(d.body, ctx, lib, map[], depth);
        if secs.None? then None else EvalDoc(Lookup(lib, Unquote(d.layout)), ctx, lib, secs.value, depth - 1)
  {}

  lemma RenderWithLayout(t: string, close: nat, ctx: View, env: Registry, sections: Sections, depth: nat)
    requires Find(t, Lit(ExtM), 0) == Some(0) && Find(t, ")", 0) == Some(close) && 9 <= close < |t|
    ensures Render(t, ctx, env, sections, depth) ==
      if depth == 0 then None
      else
        var secs := Collect(t, 0, ctx, env, map[], depth);
        if secs.None? then None
        else Render(Template(env, Unquote(Between(t, 9, close))), ctx, env, secs.value, depth - 1)
  {
    hide Find, Lit, RenderFrom, Collect, Unquote, Between, Template;
  }

  lemma CloseIs()
    ensures CloseOf(IfM) == EndIfM && CloseOf(ForM) == EndForM && CloseOf(SecM) == EndSecM
    ensures BlockMarker(IfM) && BlockMarker(ForM) && BlockMarker(SecM)
  {}

  lemma ExtLength()
    ensures |Lit(ExtM)| == 9 && |Lit(SecM)| == 9 && |Lit(EndSecM)| == 11
  {}

  lemma CollectEnd(acc: Option<Sections>, t: string, ctx: View, env: Registry, depth: nat)
    ensures Then(acc, t, |t|, ctx, env, depth) == acc
  {
    assert |Lit(SecM)| >= 2;
  }

  /** Collecting from two positions with the same next section is the same. */
  lemma CollectSame(t: string, p: nat, q: nat, ctx: View, env: Registry, acc: Sections, depth: nat)
    requires FirstPos(Tokens(t, p), SecM) == FirstPos(Tokens(t, q), SecM)
    ensures Collect(t, p, ctx, env, acc, depth) == Collect(t, q, ctx, env, acc, depth)
  {
    hide Find, Render, Closing, Tokens, Between, Lit, FirstPos, Unquote, Trim, At, RenderFrom;
    FindIsFirst(t, p, SecM);
    FindIsFirst(t, q, SecM);
  }

  /** The rest of a collection, if there is one. */
  function Then(acc: Option<Sections>, t: string, p: nat, ctx: View, env: Registry, depth: nat): Option<Sections> {
    if acc.None? then None else Collect(t, p, ctx, env, acc.value, depth)
  }

  lemma CollectOpening(t: string, i: nat, m: Marker, arg: string, ctx: View, env: Registry, acc: Sections, depth: nat)
    requires At(t, i, Opening(m, arg)) && Control(m) && m != SecM && Inert(arg, ')')
    ensures Collect(t, i, ctx, env, acc, depth) == Collect(t, i + |Opening(m, arg)|, ctx, env, acc, depth)
  {
    hide At, Inert, Lit, Opening, Collect, Tokens;
    OpeningTokens(t, i, m, arg);
    FirstCons(Token(i, m), Tokens(t, i + |Opening(m, arg)|), SecM);
    CollectSame(t, i, i + |Opening(m, arg)|, ctx, env, acc, depth);
  }

  lemma CollectMarker(t: string, i: nat, m: Marker, ctx: View, env: Registry, acc: Sections, depth: nat)
    requires At(t, i, Lit(m)) && Control(m) && m != SecM
    ensures Collect(t, i, ctx, env, acc, depth) == Collect(t, i + |Lit(m)|, ctx, env, acc, depth)
  {
    hide At, Lit, Collect, Tokens;
    TokensAtMarker(t, i, m);
    FirstCons(Token(i, m), Tokens(t, i + |Lit(m)|), SecM);
    CollectSame(t, i, i + |Lit(m)|, ctx, env, acc, depth);
  }

  lemma SectionsPass(n: Tree, ctx: View, lib: Library, acc: Sections, depth: nat)
    ensures n.End? ==> SectionsOf(n, ctx, lib, acc, depth) == Some(acc)
    ensures IsPlain(n) || IsLeaf(n) ==> SectionsOf(n, ctx, lib, acc, depth) == SectionsOf(n.rest, ctx, lib, acc, depth)
  {
    hide Eval;
  }

  lemma SectionsOfEach(n: Tree, ctx: View, lib: Library, acc: Sections, depth: nat)
    requires n.Foreach?
    ensures var a := SectionsOf(n.body, ctx, lib, acc, depth);
      SectionsOf(n, ctx, lib, acc, depth) == if a.None? then None else SectionsOf(n.rest, ctx, lib, a.value, depth)
  {
    hide Eval;
  }

  lemma SectionsOfIf(n: Tree, ctx: View, lib: Library, acc: Sections, depth: nat)
    requires n.If?
    ensures var a := SectionsOf(n.thn, ctx, lib, acc, depth);
      SectionsOf(n, ctx, lib, acc, depth) ==
        if a.None? then None
        else
          var b := if n.els.None? then a else SectionsOf(n.els.value, ctx, lib, a.value, depth);
          if b.None? then None else SectionsOf(n.rest, ctx, lib, b.value, depth)
  {
    hide Eval;
  }

  lemma ThenIs(acc: Option<Sections>, t: string, p: nat, ctx: View, env: Registry, depth: nat)
    ensures Then(acc, t, p, ctx, env, depth) == if acc.None? then None else Collect(t, p, ctx, env, acc.value, depth)
  {
    hide Collect;
  }

  /** Collecting over a printed tree gathers the tree's sections, then goes on behind it. */
  lemma {:induction false} CollectTree(t: string, i: nat, n: Tree, ctx: View, lib: Library, acc: Sections, depth: nat)
    requires WellFormed(n) && WellFormedLibrary(lib) && At(t, i, Print(n))
    ensures Collect(t, i, ctx, Sources(lib), acc, depth)
      == Then(SectionsOf(n, ctx, lib, acc, depth), t, i + |Print(n)|, ctx, Sources(lib), depth)
    decreases depth, 0, n, 5
  {
    hide *;
    var env := Sources(lib);
    KindIs(n);
    SectionsPass(n, ctx, lib, acc, depth);
    if n.End? {
      EndIs(i);
      ThenIs(Some(acc), t, i, ctx, env, depth);
    } else if n.If? {
      CollectIf(t, i, n, ctx, lib, acc, depth);
    } else if n.Section? {
      CollectSection(t, i, n, ctx, lib, acc, depth);
    } else if n.Foreach? {
      CollectEach(t, i, n, ctx, lib, acc, depth);
    } else if IsLeaf(n) {
      LeafIs(n, i);
      var head := Opening(MarkerOf(n), ArgOf(n));
      AtCat(t, i, head, Print(n.rest));
      CollectOpening(t, i, MarkerOf(n), ArgOf(n), ctx, env, acc, depth);
      CollectTree(t, i + |head|, n.rest, ctx, lib, acc, depth);
    } else {
      PlainIs(n, i);
      AtCat(t, i, HeadText(n), Print(n.rest));
      HeadTokens(t, i, n);
      CollectSame(t, i, i + |HeadText(n)|, ctx, env, acc, depth);
      CollectTree(t, i + |HeadText(n)|, n.rest, ctx, lib, acc, depth);
    }
  }

  lemma {:induction false} CollectEach(t: string, i: nat, n: Tree, ctx: View, lib: Library, acc: Sections, depth: nat)
    requires n.Foreach? && WellFormed(n) && WellFormedLibrary(lib) && At(t, i, Print(n))
    ensures Collect(t, i, ctx, Sources(lib), acc, depth)
      == Then(SectionsOf(n, ctx, lib, acc, depth), t, i + |Print(n)|, ctx, Sources(lib), depth)
    decreases depth, 0, n, 4
  {
    hide *;
    var env := Sources(lib);
    KindIs(n);
    BlockIs(n, i);
    ForIs(n);
    CloseIs();
    ControlIs();
    SectionsOfEach(n, ctx, lib, acc, depth);
    var b, c := BlockLayout(t, i, ForM, n.spec, n.body, n.rest);
    CollectOpening(t, i, ForM, n.spec, ctx, env, acc, depth);
    CollectTree(t, b, n.body, ctx, lib, acc, depth);
    var a := SectionsOf(n.body, ctx, lib, acc, depth);
    ThenIs(a, t, c, ctx, env, depth);
    ThenIs(None, t, i + |Print(n)|, ctx, env, depth);
    if a.Some? {
      CollectMarker(t, c, EndForM, ctx, env, a.value, depth);
      CollectTree(t, c + |Lit(EndForM)|, n.rest, ctx, lib, a.value, depth);
    }
  }

  lemma ForIs(n: Tree)
    requires n.Foreach?
    ensures MarkerOf(n) == ForM && ArgOf(n) == n.spec
  {}

  lemma {:induction false} CollectIf(t: string, i: nat, n: Tree, ctx: View, lib: Library, acc: Sections, depth: nat)
    requires n.If? && WellFormed(n) && WellFormedLibrary(lib) && At(t, i, Print(n))
    ensures Collect(t, i, ctx, Sources(lib), acc, depth)
      == Then(SectionsOf(n, ctx, lib, acc, depth), t, i + |Print(n)|, ctx, Sources(lib), depth)
    decreases depth, 0, n, 4
  {
    hide *;
    var env := Sources(lib);
    var If(cond, thn, els, rest) := n;
    IfIs(n, i);
    CloseIs();
    ControlIs();
    SectionsOfIf(n, ctx, lib, acc, depth);
    var b, e, c := IfLayout(t, i, cond, thn, els, rest);
    ElseTokensIs(els, e);
    CollectOpening(t, i, IfM, cond, ctx, env, acc, depth);
    CollectTree(t, b, thn, ctx, lib, acc, depth);
    var x := SectionsOf(thn, ctx, lib, acc, depth);
    ThenIs(x, t, e, ctx, env, depth);
    ThenIs(None, t, i + |Print(n)|, ctx, env, depth);
    if x.Some? {
      if els.Some? {
        CollectMarker(t, e, ElseM, ctx, env, x.value, depth);
        CollectTree(t, e + |Lit(ElseM)|, els.value, ctx, lib, x.value, depth);
      }
      var y := if els.Some? then SectionsOf(els.value, ctx, lib, x.value, depth) else x;
      ThenIs(y, t, c, ctx, env, depth);
      if y.Some? {
        CollectMarker(t, c, EndIfM, ctx, env, y.value, depth);
        CollectTree(t, c + |Lit(EndIfM)|, rest, ctx, lib, y.value, depth);
      }
    }
  }

  lemma {:induction false} CollectSection(t: string, i: nat, n: Tree, ctx: View, lib: Library, acc: Sections, depth: nat)
    requires n.Section? && WellFormed(n) && WellFormedLibrary(lib) && At(t, i, Print(n))
    ensures Collect(t, i, ctx, Sources(lib), acc, depth)
      == Then(SectionsOf(n, ctx, lib, acc, depth), t, i + |Print(n)|, ctx, Sources(lib), depth)
    decreases depth, 0, n, 4
  {
    hide *;
    var env := Sources(lib);
    var Section(name, body, rest) := n;
    UnfoldSection(n, ctx, lib, map[], depth);
    CloseIs();
    ControlIs();
    var b, c := BlockLayout(t, i, SecM, name, body, rest);
    OpeningTokens(t, i, SecM, name);
    FindIsFirst(t, i, SecM);
    FirstCons(Token(i, SecM), Tokens(t, b), SecM);
    OpeningReads(t, i, SecM, name);
    ExtLength();
    BlockCloses(t, i, SecM, name, body, rest);
    AtIsSlice(t, b, Print(body));
    RenderWhole(body, ctx, lib, map[], depth);
    var text := Eval(body, ctx, lib, map[], depth);
    CollectTurn(t, i, b, c, name, body, ctx, env, acc, depth);
    SectionsOfSection(n, ctx, lib, acc, depth, t, i + |Print(n)|, env);
    if text.Some? {
      CollectTree(t, c + 11, rest, ctx, lib, acc[Unquote(name) := text.value], depth);
    }
  }

  lemma SectionsOfSection(n: Tree, ctx: View, lib: Library, acc: Sections, depth: nat, t: string, p: nat, env: Registry)
    requires n.Section?
    ensures var text := Eval(n.body, ctx, lib, map[], depth);
      Then(SectionsOf(n, ctx, lib, acc, depth), t, p, ctx, env, depth) ==
        if text.None? then None
        else Then(SectionsOf(n.rest, ctx, lib, acc[Unquote(n.name) := text.value], depth), t, p, ctx, env, depth)
  {
    hide Eval, Collect, Unquote;
  }

  lemma CollectTurn(t: string, i: nat, b: nat, c: nat, name: string, body: Tree, ctx: View, env: Registry, acc: Sections, depth: nat)
    requires Find(t, Lit(SecM), i) == Some(i) && Find(t, ")", i) == Some(i + 9 + |name|) && b == i + 9 + |name| + 1 <= c <= |t|
    requires Between(t, i + 9, i + 9 + |name|) == name && Closing(Tokens(t, b), 1, SecM, EndSecM) == Some(c)
    requires t[b..c] == Print(body)
    ensures var text := Render(Print(body), ctx, env, map[], depth);
      Collect(t, i, ctx, env, acc, depth) ==
        if text.None? then None else Collect(t, c + 11, ctx, env, acc[Unquote(name) := text.value], depth)
  {
    hide Find, Render, Closing, Tokens, Between, Lit, Unquote, At, RenderFrom, Print;
  }

  lemma AtIsSlice(t: string, i: nat, p: string)
    requires At(t, i, p)
    ensures i + |p| <= |t| && t[i..i + |p|] == p
  {}
}
