/** What include/view.hpp renders, node by node and with its own words written out: the text of each
    directive, the values that count as false, the entities, and how arguments are read. */
module Rendering {
  import opened Wrappers
  import opened Strings
  import opened Views
  import opened Templates

  // ---- the text of a template ----

  /** The printed form of every node, markers spelled out. */
  lemma PrintedText(n: Tree)
    ensures n.End? ==> Print(n) == ""
    ensures n.Text? ==> Print(n) == n.s + Print(n.rest)
    ensures n.Raw? ==> Print(n) == "{!!" + n.key + "!!}" + Print(n.rest)
    ensures n.Esc? ==> Print(n) == "{{" + n.key + "}}" + Print(n.rest)
    ensures n.If? && n.els.None? ==> Print(n) == "@if(" + n.cond + ")" + Print(n.thn) + "@endif" + Print(n.rest)
    ensures n.If? && n.els.Some? ==>
      Print(n) == "@if(" + n.cond + ")" + Print(n.thn) + "@else" + Print(n.els.value) + "@endif" + Print(n.rest)
    ensures n.Foreach? ==> Print(n) == "@foreach(" + n.spec + ")" + Print(n.body) + "@endforeach" + Print(n.rest)
    ensures n.Include? ==> Print(n) == "@include(" + n.name + ")" + Print(n.rest)
    ensures n.Yield? ==> Print(n) == "@yield(" + n.name + ")" + Print(n.rest)
    ensures n.Section? ==> Print(n) == "@section(" + n.name + ")" + Print(n.body) + "@endsection" + Print(n.rest)
  {
    hide *;
    MarkersSpelled();
    KindIs(n);
    if n.End? {
      EndIs(0);
    } else if n.If? {
      IfIs(n, 0);
      ElseTokensIs(n.els, 0);
      BlockSpelled(IfM, n.cond, Print(n.thn) + PrintElse(n.els));
      if n.els.None? { assert Print(n.thn) + "" == Print(n.thn); } else { BranchesText(n.cond, Print(n.thn), Print(n.els.value)); }
    } else if IsBlock(n) {
      BlockIs(n, 0);
      NodeMarker(n);
      BlockSpelled(MarkerOf(n), ArgOf(n), Print(n.body));
    } else if IsLeaf(n) {
      LeafIs(n, 0);
      NodeMarker(n);
      OpeningSpelled(MarkerOf(n), ArgOf(n));
    } else {
      PlainIs(n, 0);
      HeadSpelled(n);
    }
  }

  lemma MarkersSpelled()
    ensures Lit(IfM) == "@if(" && Lit(ForM) == "@foreach(" && Lit(IncM) == "@include(" && Lit(YieldM) == "@yield("
    ensures Lit(SecM) == "@section(" && Lit(ExtM) == "@extends(" && Lit(ElseM) == "@else"
    ensures Lit(CloseOf(IfM)) == "@endif" && Lit(CloseOf(ForM)) == "@endforeach" && Lit(CloseOf(SecM)) == "@endsection"
  {}

  lemma NodeMarker(n: Tree)
    requires IsBlock(n) || IsLeaf(n)
    ensures MarkerOf(n) == if n.Include? then IncM else if n.Yield? then YieldM else if n.Foreach? then ForM else SecM
    ensures ArgOf(n) == if n.Foreach? then n.spec else n.name
  {}

  lemma HeadSpelled(n: Tree)
    requires IsPlain(n)
    ensures HeadText(n) == if n.Text? then n.s else if n.Raw? then "{!!" + n.key + "!!}" else "{{" + n.key + "}}"
  {
    if n.Raw? { assert "{!!" + (n.key + "!!}") == "{!!" + n.key + "!!}"; }
    if n.Esc? { assert "{{" + (n.key + "}}") == "{{" + n.key + "}}"; }
  }

  lemma OpeningSpelled(m: Marker, arg: string)
    ensures Opening(m, arg) == Lit(m) + arg + ")"
  {
    hide Lit;
    assert Lit(m) + (arg + ")") == Lit(m) + arg + ")";
  }

  lemma BlockSpelled(m: Marker, arg: string, inner: string)
    ensures Block(m, arg, inner) == Lit(m) + arg + ")" + inner + Lit(CloseOf(m))
  {
    hide Lit, CloseOf;
    assert Lit(m) + (arg + ")") + (inner + Lit(CloseOf(m))) == Lit(m) + arg + ")" + inner + Lit(CloseOf(m));
  }

  lemma BranchesText(cond: string, thn: string, els: string)
    ensures "@if(" + cond + ")" + (thn + ("@else" + els)) + "@endif" == "@if(" + cond + ")" + thn + "@else" + els + "@endif"
  {}

  /** An extending template. */
  lemma ExtendingText(layout: string, body: Tree)
    ensures PrintDoc(Extends(layout, body)) == "@extends(" + layout + ")" + Print(body)
  {
    assert "@extends(" + (layout + ")") == "@extends(" + layout + ")";
  }

  // ---- branches ----

  /** What a variable holds; a missing one is the empty text. */
  function ValueOf(ctx: View, key: string): string {
    if key in ctx.vars then ctx.vars[key] else ""
  }

  /** A printed if renders its else branch, or nothing, when its variable is missing, empty, "0" or
      "false", and its then branch for every other value. */
  lemma IfRenders(cond: string, thn: Tree, els: Option<Tree>, ctx: View, lib: Library, sections: Sections, depth: nat)
    requires WellFormed(If(cond, thn, els, End)) && WellFormedLibrary(lib)
    ensures var v := ValueOf(ctx, Trim(cond));
      Render(Print(If(cond, thn, els, End)), ctx, Sources(lib), sections, depth) ==
        if v != "" && v != "0" && v != "false" then Render(Print(thn), ctx, Sources(lib), sections, depth)
        else if els.Some? then Render(Print(els.value), ctx, Sources(lib), sections, depth)
        else Some("")
  {
    var n := If(cond, thn, els, End);
    IfIs(n, 0);
    RenderWhole(n, ctx, lib, sections, depth);
    RenderWhole(thn, ctx, lib, sections, depth);
    if els.Some? { RenderWhole(els.value, ctx, lib, sections, depth); }
    hide Render, WellFormed, Print, Sources, Cat;
    UnfoldIf(n, ctx, lib, sections, depth);
    var chosen := if Truthy(Var(ctx, Trim(cond))) then Eval(thn, ctx, lib, sections, depth)
      else if els.Some? then Eval(els.value, ctx, lib, sections, depth) else Some("");
    CatEmpty(chosen);
    EndRenders(ctx, lib, sections, depth);
  }

  lemma EndRenders(ctx: View, lib: Library, sections: Sections, depth: nat)
    ensures Eval(End, ctx, lib, sections, depth) == Some("")
  {}

  // ---- interpolation ----

  /** The five entities one by one; every other character stands for itself. */
  lemma Entities(c: char, a: string, b: string)
    ensures Escaped("&") == "&amp;" && Escaped("<") == "&lt;" && Escaped(">") == "&gt;"
    ensures Escaped("\"") == "&quot;" && Escaped("'") == "&#39;"
    ensures c !in "&<>\"'" ==> Escaped([c]) == [c]
    ensures Escaped(a + b) == Escaped(a) + Escaped(b)
  {
    OneEntity('&');
    OneEntity('<');
    OneEntity('>');
    OneEntity('\"');
    OneEntity('\'');
    OneEntity(c);
    EscapedCat(a, b);
  }

  lemma OneEntity(c: char)
    ensures Escaped([c]) == Entity(c)
  {
    assert [c][..0] == "";
    assert "" + Entity(c) == Entity(c);
  }

  lemma {:induction false} EscapedCat(a: string, b: string)
    ensures Escaped(a + b) == Escaped(a) + Escaped(b)
  {
    hide Entity;
    if b == "" {
      assert a + b == a;
    } else {
      assert (a + b)[..|a + b| - 1] == a + b[..|b| - 1];
      EscapedCat(a, b[..|b| - 1]);
    }
  }

  /** Raw and escaped interpolation of a variable, a missing one being empty. */
  lemma VariableRenders(key: string, ctx: View, lib: Library, sections: Sections, depth: nat)
    requires WellFormed(Raw(key, End)) && WellFormedLibrary(lib)
    ensures Render(Print(Raw(key, End)), ctx, Sources(lib), sections, depth) == Some(ValueOf(ctx, Trim(key)))
    ensures Render(Print(Esc(key, End)), ctx, Sources(lib), sections, depth) == Some(Escaped(ValueOf(ctx, Trim(key))))
  {
    RenderWhole(Raw(key, End), ctx, lib, sections, depth);
    RenderWhole(Esc(key, End), ctx, lib, sections, depth);
    hide Render, Print, Sources, Escaped;
    var v := ValueOf(ctx, Trim(key));
    assert v + "" == v && Escaped(v) + "" == Escaped(v);
  }

  // ---- loops ----

  /** An item seen from inside the loop: its variables over those around it, its own lists only. */
  ghost predicate SeenInside(ctx: View, item: View, inside: View) {
    && inside.lists == item.lists
    && (forall k :: k in inside.vars <==> k in ctx.vars || k in item.vars)
    && forall k :: k in inside.vars ==> inside.vars[k] == if k in item.vars then item.vars[k] else ctx.vars[k]
  }

  /** The body once per item, in order. */
  ghost predicate OncePerItem(body: string, ctx: View, items: seq<View>, env: Registry, sections: Sections, depth: nat, r: Option<string>)
    decreases |items|
  {
    if items == [] then r == Some("")
    else exists inside, first, rest ::
      && SeenInside(ctx, items[0], inside) && first == Render(body, inside, env, sections, depth)
      && OncePerItem(body, ctx, items[1..], env, sections, depth, rest)
      && r == if first.Some? && rest.Some? then Some(first.value + rest.value) else None
  }

  lemma {:induction false} EachIsOncePerItem(body: string, ctx: View, items: seq<View>, env: Registry, sections: Sections, depth: nat)
    ensures OncePerItem(body, ctx, items, env, sections, depth, RenderEach(body, ctx, items, env, sections, depth))
  {
    hide Render, SeenInside;
    if items != [] {
      EachIsOncePerItem(body, ctx, items[1..], env, sections, depth);
      MergedIsSeen(ctx, items[0]);
      var inside := Merged(ctx, items[0]);
      var first := Render(body, inside, env, sections, depth);
      var rest := RenderEach(body, ctx, items[1..], env, sections, depth);
      assert SeenInside(ctx, items[0], inside) && OncePerItem(body, ctx, items[1..], env, sections, depth, rest);
    }
  }

  lemma MergedIsSeen(ctx: View, item: View)
    ensures SeenInside(ctx, item, Merged(ctx, item))
  {}

  /** A printed foreach renders its body once per item of its list; an unknown list has none. */
  lemma ForeachRenders(spec: string, body: Tree, ctx: View, lib: Library, sections: Sections, depth: nat)
    requires WellFormed(Foreach(spec, body, End)) && WellFormedLibrary(lib)
    ensures var name := ListName(spec);
      OncePerItem(Print(body), ctx, if name in ctx.lists then ctx.lists[name] else [], Sources(lib), sections, depth,
                  Render(Print(Foreach(spec, body, End)), ctx, Sources(lib), sections, depth))
  {
    var n := Foreach(spec, body, End);
    KindIs(n);
    BlockIs(n, 0);
    RenderWhole(n, ctx, lib, sections, depth);
    hide Render, Print, Sources, Cat, ListName, WellFormed, OncePerItem;
    var items := Items(ctx, ListName(spec));
    RenderItems(body, ctx, items, lib, sections, depth);
    UnfoldForeach(n, ctx, lib, sections, depth);
    EndRenders(ctx, lib, sections, depth);
    CatEmpty(EvalEach(body, ctx, items, lib, sections, depth));
    EachIsOncePerItem(Print(body), ctx, items, Sources(lib), sections, depth);
  }

  // ---- includes, yields and layouts ----

  /** A yield gives its section's text, or nothing. */
  lemma YieldRenders(name: string, ctx: View, lib: Library, sections: Sections, depth: nat)
    requires WellFormed(Yield(name, End)) && WellFormedLibrary(lib)
    ensures Render(Print(Yield(name, End)), ctx, Sources(lib), sections, depth)
      == Some(if Unquote(name) in sections then sections[Unquote(name)] else "")
  {
    hide *;
    RenderWhole(Yield(name, End), ctx, lib, sections, depth);
    UnfoldLeaf(Yield(name, End), ctx, lib, sections, depth);
    EndRenders(ctx, lib, sections, depth);
    CatEmpty(Some(if Unquote(name) in sections then sections[Unquote(name)] else ""));
  }

  /** An include renders the template of its name; an unknown one is empty. */
  lemma IncludeRenders(name: string, ctx: View, lib: Library, sections: Sections, depth: nat)
    requires WellFormed(Include(name, End)) && WellFormedLibrary(lib) && depth > 0
    ensures Render(Print(Include(name, End)), ctx, Sources(lib), sections, depth)
      == Render(if Unquote(name) in lib then PrintDoc(lib[Unquote(name)]) else "", ctx, Sources(lib), sections, depth - 1)
  {
    hide *;
    var d := Lookup(lib, Unquote(name));
    RenderWhole(Include(name, End), ctx, lib, sections, depth);
    LookupPrints(lib, Unquote(name));
    LookupIs(lib, Unquote(name));
    UnfoldLeaf(Include(name, End), ctx, lib, sections, depth);
    EndRenders(ctx, lib, sections, depth);
    RenderDoc(d, ctx, lib, sections, depth - 1);
    CatEmpty(EvalDoc(d, ctx, lib, sections, depth - 1));
  }

  lemma LookupIs(lib: Library, name: string)
    ensures PrintDoc(Lookup(lib, name)) == if name in lib then PrintDoc(lib[name]) else ""
  {}

  /** Outside an extending template a section renders its body in place. */
  lemma SectionRenders(name: string, body: Tree, ctx: View, lib: Library, sections: Sections, depth: nat)
    requires WellFormed(Section(name, body, End)) && WellFormedLibrary(lib)
    ensures Render(Print(Section(name, body, End)), ctx, Sources(lib), sections, depth)
      == Render(Print(body), ctx, Sources(lib), sections, depth)
  {
    hide *;
    var n := Section(name, body, End);
    UnfoldSection(n, ctx, lib, sections, depth);
    RenderWhole(n, ctx, lib, sections, depth);
    RenderWhole(body, ctx, lib, sections, depth);
    EndRenders(ctx, lib, sections, depth);
    CatEmpty(Eval(body, ctx, lib, sections, depth));
  }

  /** What an extending template's own nodes hand to its layout. */
  function Filled(body: Tree, ctx: View, lib: Library, depth: nat): Option<Sections> {
    SectionsOf(body, ctx, lib, map[], depth)
  }

  /** An extending template renders its layout, an unknown one being empty, with the sections it fills. */
  lemma ExtendsRenders(layout: string, body: Tree, ctx: View, lib: Library, sections: Sections, depth: nat)
    requires WellFormedDoc(Extends(layout, body)) && WellFormedLibrary(lib) && depth > 0
    ensures var filled := Filled(body, ctx, lib, depth);
      Render(PrintDoc(Extends(layout, body)), ctx, Sources(lib), sections, depth) ==
        if filled.None? then None
        else Render(if Unquote(layout) in lib then PrintDoc(lib[Unquote(layout)]) else "", ctx, Sources(lib), filled.value, depth - 1)
  {
    hide *;
    var d := Lookup(lib, Unquote(layout));
    var filled := Filled(body, ctx, lib, depth);
    FilledIs(body, ctx, lib, depth);
    RenderDoc(Extends(layout, body), ctx, lib, sections, depth);
    UnfoldDoc(Extends(layout, body), ctx, lib, sections, depth);
    LookupPrints(lib, Unquote(layout));
    LookupIs(lib, Unquote(layout));
    if filled.Some? { RenderDoc(d, ctx, lib, filled.value, depth - 1); }
  }

  lemma FilledIs(body: Tree, ctx: View, lib: Library, depth: nat)
    ensures Filled(body, ctx, lib, depth) == SectionsOf(body, ctx, lib, map[], depth)
  {}

  /** Of two sections the later wins, and both are rendered with no section filled. */
  lemma LaterSectionWins(name: string, body: Tree, name': string, body': Tree, ctx: View, lib: Library, depth: nat)
    requires WellFormed(body) && WellFormed(body') && WellFormedLibrary(lib)
    ensures var text := Render(Print(body), ctx, Sources(lib), map[], depth);
      var text' := Render(Print(body'), ctx, Sources(lib), map[], depth);
      Filled(Section(name, body, Section(name', body', End)), ctx, lib, depth) ==
        if text.None? || text'.None? then None
        else if Unquote(name) == Unquote(name') then Some(map[Unquote(name) := text'.value])
        else Some(map[Unquote(name) := text.value, Unquote(name') := text'.value])
  {
    hide *;
    RenderWhole(body, ctx, lib, map[], depth);
    RenderWhole(body', ctx, lib, map[], depth);
    var behind := Section(name', body', End);
    FilledIs(Section(name, body, behind), ctx, lib, depth);
    SectionFills(name, body, behind, ctx, lib, map[], depth);
    var text := Eval(body, ctx, lib, map[], depth);
    if text.Some? {
      var filled: Sections := map[Unquote(name) := text.value];
      SectionFills(name', body', End, ctx, lib, filled, depth);
      var text' := Eval(body', ctx, lib, map[], depth);
      if text'.Some? {
        assert filled[Unquote(name') := text'.value] ==
          if Unquote(name) == Unquote(name') then map[Unquote(name) := text'.value]
          else map[Unquote(name) := text.value, Unquote(name') := text'.value];
        SectionsPass(End, ctx, lib, filled[Unquote(name') := text'.value], depth);
      }
    }
  }

  lemma SectionFills(name: string, body: Tree, rest: Tree, ctx: View, lib: Library, acc: Sections, depth: nat)
    ensures var text := Eval(body, ctx, lib, map[], depth);
      SectionsOf(Section(name, body, rest), ctx, lib, acc, depth)
        == if text.None? then None else SectionsOf(rest, ctx, lib, acc[Unquote(name) := text.value], depth)
  {}

  // ---- sequences of nodes ----

  /** The first node alone. */
  function Head(n: Tree): Tree {
    if n.End? then n else n.(rest := End)
  }

  /** Nodes render one after another. */
  lemma NodesRenderInOrder(n: Tree, ctx: View, lib: Library, sections: Sections, depth: nat)
    requires WellFormed(n) && WellFormedLibrary(lib) && !n.End?
    ensures var first := Render(Print(Head(n)), ctx, Sources(lib), sections, depth);
      var behind := Render(Print(n.rest), ctx, Sources(lib), sections, depth);
      Render(Print(n), ctx, Sources(lib), sections, depth)
        == if first.Some? && behind.Some? then Some(first.value + behind.value) else None
    ensures n.Text? ==> Render(Print(Head(n)), ctx, Sources(lib), sections, depth) == Some(n.s)
  {
    HeadWellFormed(n);
    HeadEvaluates(n, ctx, lib, sections, depth);
    hide Render, Print, Sources, Eval, Head, WellFormed;
    RenderWhole(n, ctx, lib, sections, depth);
    RenderWhole(n.rest, ctx, lib, sections, depth);
    RenderWhole(Head(n), ctx, lib, sections, depth);
  }

  lemma HeadWellFormed(n: Tree)
    requires WellFormed(n) && !n.End?
    ensures WellFormed(n.rest) && WellFormed(Head(n))
  {
    hide Clean, Inert;
  }

  lemma HeadEvaluates(n: Tree, ctx: View, lib: Library, sections: Sections, depth: nat)
    requires WellFormed(n) && !n.End?
    ensures Eval(n, ctx, lib, sections, depth)
      == Cat(Eval(Head(n), ctx, lib, sections, depth), Eval(n.rest, ctx, lib, sections, depth))
    ensures n.Text? ==> Eval(Head(n), ctx, lib, sections, depth) == Some(n.s)
  {
    hide *;
    HeadWellFormed(n);
    HeadIs(n);
    var h := Head(n);
    EndRenders(ctx, lib, sections, depth);
    if n.Text? {
      UnfoldText(n, ctx, lib, sections, depth);
      UnfoldText(h, ctx, lib, sections, depth);
      CatEmpty(Some(n.s));
    } else if n.Raw? || n.Esc? {
      UnfoldBraces(n, ctx, lib, sections, depth);
      UnfoldBraces(h, ctx, lib, sections, depth);
      var value := Var(ctx, Trim(n.key));
      CatEmpty(Some(if n.Raw? then value else Escaped(value)));
    } else if n.If? {
      UnfoldIf(n, ctx, lib, sections, depth);
      UnfoldIf(h, ctx, lib, sections, depth);
      CatEmpty(if Truthy(Var(ctx, Trim(n.cond))) then Eval(n.thn, ctx, lib, sections, depth)
               else if n.els.Some? then Eval(n.els.value, ctx, lib, sections, depth) else Some(""));
    } else if n.Foreach? {
      UnfoldForeach(n, ctx, lib, sections, depth);
      UnfoldForeach(h, ctx, lib, sections, depth);
      CatEmpty(EvalEach(n.body, ctx, Items(ctx, ListName(n.spec)), lib, sections, depth));
    } else if n.Section? {
      UnfoldSection(n, ctx, lib, sections, depth);
      UnfoldSection(h, ctx, lib, sections, depth);
      CatEmpty(Eval(n.body, ctx, lib, sections, depth));
    } else {
      UnfoldLeaf(n, ctx, lib, sections, depth);
      UnfoldLeaf(h, ctx, lib, sections, depth);
      var name := Unquote(n.name);
      CatEmpty(if n.Yield? then Some(if name in sections then sections[name] else "")
               else if depth == 0 then None else EvalDoc(Lookup(lib, name), ctx, lib, sections, depth - 1));
    }
  }

  lemma HeadIs(n: Tree)
    requires !n.End?
    ensures Head(n) == n.(rest := End)
  {}

  /** Text without at signs and opening braces is plain text, and an argument without at signs and
      the character that ends it is one. */
  lemma OrdinaryIsWellFormed(s: string, stop: char)
    ensures '@' !in s && '{' !in s ==> Clean(s)
    ensures '@' !in s && stop !in s ==> Inert(s, stop)
  {
    if '@' !in s && '{' !in s {
      forall k, m: Marker | 0 <= k < |s| ensures !Comparable(s[k..], Lit(m)) {
        assert s[k..][0] == s[k] && s[k] in s;
        MarkerBegins(m);
      }
    }
    if '@' !in s && stop !in s {
      forall k: nat, m: Marker | Control(m) ensures !At(s, k, Lit(m)) {
        MarkerBegins(m);
        if k < |s| { assert s[k] in s; }
        if k + |Lit(m)| <= |s| { assert s[k..k + |Lit(m)|][0] == s[k]; }
      }
    }
  }

  lemma MarkerBegins(m: Marker)
    ensures |Lit(m)| > 0 && Lit(m)[0] == if Control(m) then '@' else '{'
  {}

  // ---- arguments ----

  predicate Blank(s: string) {
    forall c <- s :: c in " \t\r\n"
  }

  predicate Trimmed(s: string) {
    s == "" || (s[0] !in " \t\r\n" && s[|s| - 1] !in " \t\r\n")
  }

  /** Trimming cuts the blanks at both ends and nothing else. */
  lemma TrimCuts(s: string) returns (a: string, b: string)
    ensures s == a + Trim(s) + b && Blank(a) && Blank(b) && Trimmed(Trim(s))
  {
    a := LeftCut(s);
    b := RightCut(TrimLeft(s));
    assert s == a + (Trim(s) + b);
    if Trim(s) != "" { assert TrimLeft(s)[0] == Trim(s)[0]; }
  }

  lemma {:induction false} LeftCut(s: string) returns (a: string)
    ensures s == a + TrimLeft(s) && Blank(a)
    ensures TrimLeft(s) != "" ==> TrimLeft(s)[0] !in " \t\r\n"
  {
    if s != "" && IsSpace(s[0]) {
      var rest := LeftCut(s[1..]);
      a := [s[0]] + rest;
      assert s == [s[0]] + s[1..];
      assert forall c <- a :: c == s[0] || c in rest;
    } else {
      a := "";
    }
  }

  lemma {:induction false} RightCut(s: string) returns (b: string)
    ensures s == TrimRight(s) + b && Blank(b)
    ensures TrimRight(s) != "" ==> TrimRight(s)[|TrimRight(s)| - 1] !in " \t\r\n"
  {
    if s != "" && IsSpace(s[|s| - 1]) {
      var rest := RightCut(s[..|s| - 1]);
      b := rest + [s[|s| - 1]];
      assert s == s[..|s| - 1] + [s[|s| - 1]];
      assert forall c <- b :: c == s[|s| - 1] || c in rest;
    } else {
      b := "";
    }
  }

  /** Quotes come off an argument only as a pair of one kind around the trimmed text. */
  lemma QuotesComeOff(s: string, q: char, inner: string)
    ensures q in "\"'" && Trim(s) == [q] + inner + [q] ==> Unquote(s) == inner
    ensures |Trim(s)| < 2 || Trim(s)[0] !in "\"'" || Trim(s)[|Trim(s)| - 1] != Trim(s)[0] ==> Unquote(s) == Trim(s)
  {
    hide Trim;
    var t := Trim(s);
    if t == [q] + inner + [q] { assert t[1..|t| - 1] == inner; }
  }

  /** The list a foreach names stands before the first " as " of its trimmed argument; without one it
      is the whole argument. */
  lemma ListStandsBeforeAs(spec: string, name: string, item: string)
    ensures Trim(spec) == name + " as " + item && (forall k :: 0 <= k < |name| ==> !At(Trim(spec), k, " as "))
      ==> ListName(spec) == Trim(name)
    ensures (forall k: nat :: !At(Trim(spec), k, " as ")) ==> ListName(spec) == Trim(Trim(spec))
  {
    hide Trim;
    var t := Trim(spec);
    if t == name + " as " + item && forall k :: 0 <= k < |name| ==> !At(t, k, " as ") {
      assert t[|name|..|name| + 4] == " as ";
      FindAt(t, " as ", 0, |name|);
      assert t[..|name|] == name;
    }
  }
}
