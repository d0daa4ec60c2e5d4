/** The cursor loops of include/view.hpp, each proved to compute its specification in Views. */
module Renderer {
  import opened Wrappers
  import opened Strings
  import opened Views

  /** `escape`. */
  method Escape(s: string) returns (o: string)
    ensures o == Escaped(s)
  {
    o := "";
    for i := 0 to |s|
      invariant o == Escaped(s[..i])
    {
      assert s[..i + 1][..i] == s[..i];
      o := o + Entity(s[i]);
    }
    assert s[..|s|] == s;
  }

  /** Escaped text holds no character that opens or closes a tag or a quoted attribute. */
  lemma {:induction false} EscapedIsInert(s: string)
    ensures forall c <- Escaped(s) :: c !in "<>\"'"
  {
    if s != "" {
      EscapedIsInert(s[..|s| - 1]);
      EntityIsInert(s[|s| - 1]);
    }
  }

  lemma EntityIsInert(c: char)
    ensures forall d <- Entity(c) :: d !in "<>\"'"
  {}

  lemma {:induction false} ClosingJump(t: string, i: nat, n: nat, depth: nat, open: Marker, close: Marker)
    requires i <= n <= |t| && depth >= 1
    requires forall k :: i <= k < n ==> !At(t, k, Lit(open)) && !At(t, k, Lit(close))
    ensures Closing(Tokens(t, i), depth, open, close) == Closing(Tokens(t, n), depth, open, close)
    decreases n - i
  {
    hide Tokens, Lit, MarkerAt, At;
    if i < n {
      ClosingJump(t, i + 1, n, depth, open, close);
      TokensStep(t, i);
      MarkerAtIs(t, i, open);
      MarkerAtIs(t, i, close);
      var m := MarkerAt(t, i);
      if m.Some? { ClosingFirst(Token(i, m.value), Tokens(t, i + 1), depth, open, close); }
    }
  }

  lemma ClosingFirst(k: Token, ts: seq<Token>, depth: nat, open: Marker, close: Marker)
    requires depth >= 1
    ensures Closing([k] + ts, depth, open, close) ==
      if k.marker == open then Closing(ts, depth + 1, open, close)
      else if k.marker == close then if depth == 1 then Some(k.pos) else Closing(ts, depth - 1, open, close)
      else Closing(ts, depth, open, close)
  {
    assert ([k] + ts)[1..] == ts;
  }

  /** `matching_end`. */
  method MatchingEnd(t: string, from: nat, open: Marker, close: Marker) returns (r: Option<nat>)
    requires Control(open) && Control(close) && open != close && from <= |t|
    ensures r == Closing(Tokens(t, from), 1, open, close)
  {
    hide *;
    var depth, i := 1, from;
    while i < |t|
      invariant i <= |t| && depth >= 1
      invariant Closing(Tokens(t, from), 1, open, close) == Closing(Tokens(t, i), depth, open, close)
      decreases |t| - i
    {
      var o := Find(t, Lit(open), i);
      var c := Find(t, Lit(close), i);
      if c.None? {
        NoClosing(t, i, depth, open, close);
        return None;
      }
      FindInside(t, Lit(close), i);
      if o.Some? && o.value < c.value {
        FindInside(t, Lit(open), i);
        ClosingJump(t, i, o.value, depth, open, close);
        TokensAtMarker(t, o.value, open);
        i := o.value + |Lit(open)|;
        ClosingFirst(Token(o.value, open), Tokens(t, i), depth, open, close);
        depth := depth + 1;
      } else {
        ClosingJump(t, i, c.value, depth, open, close);
        TokensAtMarker(t, c.value, close);
        i := c.value + |Lit(close)|;
        ClosingFirst(Token(c.value, close), Tokens(t, i), depth, open, close);
        if depth == 1 { return c; }
        depth := depth - 1;
      }
    }
    NothingBehind(t, i, depth, open, close);
    return None;
  }

  lemma FindInside(t: string, p: string, i: nat)
    requires Find(t, p, i).Some? && p != ""
    ensures var k := Find(t, p, i).value; i <= k < k + |p| <= |t| && At(t, k, p)
  {}

  lemma NoClosing(t: string, i: nat, depth: nat, open: Marker, close: Marker)
    requires depth >= 1 && Find(t, Lit(close), i) == None
    ensures Closing(Tokens(t, i), depth, open, close) == None
  {
    hide Tokens, Lit, MarkerAt, At, Find, Closing;
  }

  lemma NothingBehind(t: string, i: nat, depth: nat, open: Marker, close: Marker)
    requires depth >= 1 && i >= |t|
    ensures Closing(Tokens(t, i), depth, open, close) == None
  {}

  lemma ElseFirst(k: Token, ts: seq<Token>, depth: int, end: nat)
    ensures Else([k] + ts, depth, end) ==
      if k.pos >= end then None
      else if k.marker == IfM then Else(ts, depth + 1, end)
      else if k.marker == EndIfM then Else(ts, depth - 1, end)
      else if k.marker == ElseM && depth == 0 then Some(k.pos)
      else Else(ts, depth, end)
  {
    assert ([k] + ts)[1..] == ts;
  }

  lemma ElseBehind(t: string, i: nat, depth: int, end: nat)
    requires i >= end
    ensures Else(Tokens(t, i), depth, end) == None
  {
    hide Tokens, Lit, MarkerAt, At;
  }

  lemma {:induction false} ElseJump(t: string, i: nat, n: nat, depth: int, end: nat)
    requires i <= n <= |t|
    requires forall k :: i <= k < n ==> !At(t, k, Lit(IfM)) && !At(t, k, Lit(EndIfM)) && !At(t, k, Lit(ElseM))
    ensures Else(Tokens(t, i), depth, end) == Else(Tokens(t, n), depth, end)
    decreases n - i
  {
    hide Tokens, Lit, MarkerAt, At, Else;
    if i < n {
      ElseJump(t, i + 1, n, depth, end);
      TokensStep(t, i);
      MarkerAtIs(t, i, IfM);
      MarkerAtIs(t, i, EndIfM);
      MarkerAtIs(t, i, ElseM);
      var m := MarkerAt(t, i);
      if m.Some? {
        ElseFirst(Token(i, m.value), Tokens(t, i + 1), depth, end);
        if i >= end { ElseBehind(t, n, depth, end); }
      }
    }
  }

  function Earlier(a: Option<nat>, b: Option<nat>): Option<nat> {
    if a.None? then b else if b.None? || a.value <= b.value then a else b
  }

  lemma NoElse(t: string, i: nat, depth: int, end: nat)
    requires var el := Find(t, Lit(ElseM), i); el.None? || el.value >= end
    ensures Else(Tokens(t, i), depth, end) == None
  {
    hide Tokens, Lit, MarkerAt, At, Find, Else;
  }

  /** `find_else`. */
  method FindElse(t: string, from: nat, end: nat) returns (r: Option<nat>)
    requires end <= |t|
    ensures r == Else(Tokens(t, from), 0, end)
  {
    hide Tokens, Lit, MarkerAt, At, Find, Else;
    var depth, i := 0, from;
    while i < end
      invariant Else(Tokens(t, from), 0, end) == Else(Tokens(t, i), depth, end)
      decreases end - i
    {
      var fi := Find(t, Lit(IfM), i);
      var fe := Find(t, Lit(EndIfM), i);
      var el := Find(t, Lit(ElseM), i);
      var n := Earlier(fi, Earlier(fe, el));
      if n.None? || n.value >= end {
        NoElse(t, i, depth, end);
        return None;
      }
      ElseJump(t, i, n.value, depth, end);
      if n == fi {
        TokensAtMarker(t, n.value, IfM);
        i := n.value + |Lit(IfM)|;
        ElseFirst(Token(n.value, IfM), Tokens(t, i), depth, end);
        depth := depth + 1;
      } else if n == fe {
        TokensAtMarker(t, n.value, EndIfM);
        i := n.value + |Lit(EndIfM)|;
        ElseFirst(Token(n.value, EndIfM), Tokens(t, i), depth, end);
        depth := depth - 1;
      } else {
        TokensAtMarker(t, n.value, ElseM);
        i := n.value + |Lit(ElseM)|;
        ElseFirst(Token(n.value, ElseM), Tokens(t, i), depth, end);
        if depth == 0 { return el; }
      }
    }
    ElseBehind(t, i, depth, end);
    return None;
  }

  const DIRECTIVES: seq<Marker> := [RawM, EscM, IfM, ForM, IncM, YieldM, SecM]

  /** The seven searches at the top of the render loop and the earliest of their answers. */
  method NextDirective(t: string, i: nat) returns (r: Option<Token>)
    ensures r.Some? ==> i <= r.value.pos < |t| && Directive(r.value.marker) && MarkerAt(t, r.value.pos) == Some(r.value.marker)
    ensures forall k :: i <= k < (if r.Some? then r.value.pos else |t|) ==> MarkerAt(t, k).None? || !Directive(MarkerAt(t, k).value)
  {
    hide Find, At, MarkerAt, Lit;
    r := None;
    for j := 0 to |DIRECTIVES|
      invariant r.Some? ==> i <= r.value.pos < |t| && r.value.marker in DIRECTIVES[..j] && At(t, r.value.pos, Lit(r.value.marker))
      invariant forall k, d :: i <= k < (if r.Some? then r.value.pos else |t|) && 0 <= d < j ==> !At(t, k, Lit(DIRECTIVES[d]))
    {
      var p := Find(t, Lit(DIRECTIVES[j]), i);
      if p.Some? {
        FindInside(t, Lit(DIRECTIVES[j]), i);
        if r.None? || p.value < r.value.pos { r := Some(Token(p.value, DIRECTIVES[j])); }
      }
    }
    if r.Some? { MarkerAtIs(t, r.value.pos, r.value.marker); }
    forall k | i <= k < (if r.Some? then r.value.pos else |t|)
      ensures MarkerAt(t, k).None? || !Directive(MarkerAt(t, k).value)
    {
      if MarkerAt(t, k).Some? && Directive(MarkerAt(t, k).value) {
        MarkerAtIs(t, k, MarkerAt(t, k).value);
        ListedDirective(MarkerAt(t, k).value);
      }
    }
  }

  lemma ListedDirective(m: Marker)
    ensures Directive(m) <==> exists d :: 0 <= d < |DIRECTIVES| && DIRECTIVES[d] == m
  {
    assert DIRECTIVES[0] == RawM && DIRECTIVES[1] == EscM && DIRECTIVES[2] == IfM && DIRECTIVES[3] == ForM
      && DIRECTIVES[4] == IncM && DIRECTIVES[5] == YieldM && DIRECTIVES[6] == SecM;
  }

  /** `render_impl`, with one `partials` lookup allowed per level of `depth`. */
  method RenderImpl(t: string, ctx: View, env: Registry, sections: Sections, depth: nat) returns (r: Option<string>)
    ensures r == Render(t, ctx, env, sections, depth)
    decreases depth, |t|, 4
  {
    hide Find, At, MarkerAt, Lit, Apply, Tokens, Closing, Else, RenderFrom;
    var ext := Find(t, Lit(ExtM), 0);
    if ext.Some? {
      LayoutOpens(t);
      var close := Find(t, ")", ext.value);
      if close.None? || depth == 0 { return None; }
      FindInside(t, ")", ext.value);
      var layout := Unquote(Between(t, ext.value + 9, close.value));
      var secs := CollectSections(t, ctx, env, depth);
      if secs.None? { return None; }
      r := RenderImpl(Template(env, layout), ctx, env, secs.value, depth - 1);
      return;
    }
    r := RenderLoop(t, ctx, env, sections, depth);
  }

  lemma LayoutOpens(t: string)
    requires Find(t, Lit(ExtM), 0).Some?
    ensures Find(t, Lit(ExtM), 0).value + 9 <= |t|
  {}

  /** The loop of `render_impl`. */
  method RenderLoop(t: string, ctx: View, env: Registry, sections: Sections, depth: nat) returns (r: Option<string>)
    ensures r == RenderFrom(t, 0, ctx, env, sections, depth)
    decreases depth, |t|, 3
  {
    hide MarkerAt, Apply, RenderFrom, Cat;
    var out := "";
    var i := 0;
    CatEmpty(RenderFrom(t, 0, ctx, env, sections, depth));
    while i < |t|
      invariant i <= |t|
      invariant RenderFrom(t, 0, ctx, env, sections, depth) == Cat(Some(out), RenderFrom(t, i, ctx, env, sections, depth))
      decreases |t| - i
    {
      var next := NextDirective(t, i);
      var stop := if next.Some? then next.value.pos else |t|;
      RenderCopies(t, i, stop, ctx, env, sections, depth);
      CatTwice(out, t[i..stop], RenderFrom(t, stop, ctx, env, sections, depth));
      out := out + t[i..stop];
      if next.None? {
        i := stop;
        break;
      }
      var m := next.value.marker;
      RenderTurn(t, stop, m, ctx, env, sections, depth);
      var s := ApplyDirective(t, stop, m, ctx, env, sections, depth);
      if s.Unterminated? || s.text.None? {
        CatNone(out, if s.Unterminated? then None else RenderFrom(t, s.next, ctx, env, sections, depth));
        return None;
      }
      CatTwice(out, s.text.value, RenderFrom(t, s.next, ctx, env, sections, depth));
      out := out + s.text.value;
      i := s.next;
    }
    RenderAtEnd(t, i, ctx, env, sections, depth);
    CatEmpty(Some(out));
    return Some(out);
  }

  lemma CatNone(a: string, b: Option<string>)
    ensures Cat(Some(a), None) == None && Cat(Some(a), Cat(None, b)) == None
  {}

  lemma RenderAtEnd(t: string, i: nat, ctx: View, env: Registry, sections: Sections, depth: nat)
    requires i >= |t|
    ensures RenderFrom(t, i, ctx, env, sections, depth) == Some("")
  {}

  /** One branch of the directive chain in `render_impl`. */
  method ApplyDirective(t: string, i: nat, m: Marker, ctx: View, env: Registry, sections: Sections, depth: nat) returns (s: Step)
    requires MarkerAt(t, i) == Some(m) && Directive(m)
    ensures s == Apply(t, i, m, ctx, env, sections, depth)
    decreases depth, |t|, 2
  {
    hide Find, Lit, At, MarkerAt, Render, Tokens, Unquote, ApplyBlock, ApplyBraces;
    MarkerFits(t, i, m);
    if m == RawM || m == EscM {
      s := ApplyBracesDirective(t, i, m, ctx);
    } else {
      var close := Find(t, ")", i);
      if close.None? { return Unterminated; }
      FindInside(t, ")", i);
      var arg := Between(t, i + |Lit(m)|, close.value);
      var body := close.value + 1;
      if m == IncM {
        if depth == 0 { return Step(None, body); }
        var text := RenderImpl(Template(env, Unquote(arg)), ctx, env, sections, depth - 1);
        s := Step(text, body);
      } else if m == YieldM {
        s := Step(Some(if Unquote(arg) in sections then sections[Unquote(arg)] else ""), body);
      } else {
        s := ApplyBlockDirective(t, body, m, arg, ctx, env, sections, depth);
      }
    }
  }

  lemma MarkerFits(t: string, i: nat, m: Marker)
    requires MarkerAt(t, i) == Some(m)
    ensures At(t, i, Lit(m)) && i + |Lit(m)| <= |t|
  {
    hide Lit;
  }

  /** The two interpolation branches. */
  method ApplyBracesDirective(t: string, i: nat, m: Marker, ctx: View) returns (s: Step)
    requires At(t, i, Lit(m)) && (m == RawM || m == EscM)
    ensures s == ApplyBraces(t, i, m, ctx)
  {
    hide Find, Trim, Escaped;
    if m == RawM {
      var e := Find(t, "!!}", i);
      if e.None? { return Unterminated; }
      s := Step(Some(Var(ctx, Trim(Between(t, i + 3, e.value)))), e.value + 3);
    } else {
      var e := Find(t, "}}", i);
      if e.None? { return Unterminated; }
      var text := Escape(Var(ctx, Trim(Between(t, i + 2, e.value))));
      s := Step(Some(text), e.value + 2);
    }
  }

  /** The if, foreach and section branches. */
  method ApplyBlockDirective(t: string, body: nat, m: Marker, arg: string, ctx: View, env: Registry, sections: Sections, depth: nat)
    returns (s: Step)
    requires 0 < body <= |t| && (m == IfM || m == ForM || m == SecM)
    ensures s == ApplyBlock(t, body, m, arg, ctx, env, sections, depth)
    decreases depth, |t|, 1
  {
    hide Find, Lit, At, Render, RenderEach, Closing, Else, Tokens, Trim, ListName, Items;
    ClosingInside(t, body, m, CloseOf(m));
    var end := MatchingEnd(t, body, m, CloseOf(m));
    if end.None? { return Unterminated; }
    ElseInside(t, body, end.value);
    var next := end.value + |Lit(CloseOf(m))|;
    if m == IfM {
      var els := FindElse(t, body, end.value);
      var thenPart := t[body..if els.Some? then els.value else end.value];
      var elsePart := if els.Some? then Between(t, els.value + 5, end.value) else "";
      var text := RenderImpl(if Truthy(Var(ctx, Trim(arg))) then thenPart else elsePart, ctx, env, sections, depth);
      s := Step(text, next);
    } else if m == ForM {
      var text := RenderItems(t[body..end.value], ctx, Items(ctx, ListName(arg)), env, sections, depth);
      s := Step(text, next);
    } else {
      var text := RenderImpl(t[body..end.value], ctx, env, sections, depth);
      s := Step(text, next);
    }
  }

  /** The foreach loop: once per item, with the item's variables over the context's. */
  method RenderItems(inner: string, ctx: View, items: seq<View>, env: Registry, sections: Sections, depth: nat) returns (r: Option<string>)
    ensures r == RenderEach(inner, ctx, items, env, sections, depth)
    decreases depth, |inner|, 5
  {
    hide Render, Cat;
    var out := "";
    CatEmpty(RenderEach(inner, ctx, items, env, sections, depth));
    for k := 0 to |items|
      invariant RenderEach(inner, ctx, items, env, sections, depth)
        == Cat(Some(out), RenderEach(inner, ctx, items[k..], env, sections, depth))
    {
      assert items[k..][0] == items[k] && items[k..][1..] == items[k + 1..];
      var text := RenderImpl(inner, Merged(ctx, items[k]), env, sections, depth);
      if text.None? {
        CatNone(out, RenderEach(inner, ctx, items[k + 1..], env, sections, depth));
        return None;
      }
      CatTwice(out, text.value, RenderEach(inner, ctx, items[k + 1..], env, sections, depth));
      out := out + text.value;
    }
    assert items[|items|..] == [];
    CatEmpty(Some(out));
    return Some(out);
  }

  /** `collect_sections`. */
  method CollectSections(t: string, ctx: View, env: Registry, depth: nat) returns (r: Option<Sections>)
    ensures r == Collect(t, 0, ctx, env, map[], depth)
    decreases depth, |t|, 3
  {
    hide Find, Lit, At, Render, Closing, Tokens, Unquote, Collect, Between, Trim;
    var out: Sections := map[];
    var p := 0;
    while true
      invariant p <= |t|
      invariant Collect(t, 0, ctx, env, map[], depth) == Collect(t, p, ctx, env, out, depth)
      decreases |t| - p
    {
      CollectTurn(t, p, ctx, env, out, depth);
      var s := Find(t, Lit(SecM), p);
      if s.None? { return Some(out); }
      SectionOpens(t, p);
      var close := Find(t, ")", s.value);
      if close.None? { return None; }
      FindInside(t, ")", s.value);
      var name := Unquote(Between(t, s.value + 9, close.value));
      var body := close.value + 1;
      SectionCloses(t, body);
      var end := MatchingEnd(t, body, SecM, EndSecM);
      if end.None? { return None; }
      var text := RenderImpl(t[body..end.value], ctx, env, map[], depth);
      if text.None? { return None; }
      out := out[name := text.value];
      p := end.value + 11;
    }
  }

  /** `Collect`, one section at a time. */
  lemma CollectTurn(t: string, p: nat, ctx: View, env: Registry, acc: Sections, depth: nat)
    ensures var s := Find(t, Lit(SecM), p);
      && (s.None? ==> Collect(t, p, ctx, env, acc, depth) == Some(acc))
      && (s.Some? ==>
        var close := Find(t, ")", s.value);
        && (close.None? ==> Collect(t, p, ctx, env, acc, depth) == None)
        && (close.Some? && s.value + 9 <= |t| && close.value < |t| ==>
          var name := Unquote(Between(t, s.value + 9, close.value));
          var end := Closing(Tokens(t, close.value + 1), 1, SecM, EndSecM);
          && (end.None? ==> Collect(t, p, ctx, env, acc, depth) == None)
          && (end.Some? && close.value + 1 <= end.value <= |t| ==>
            var text := Render(t[close.value + 1..end.value], ctx, env, map[], depth);
            Collect(t, p, ctx, env, acc, depth) ==
              if text.None? then None else Collect(t, end.value + 11, ctx, env, acc[name := text.value], depth))))
  {
    hide Find, Lit, At, Render, Closing, Tokens, Unquote, Between, Trim, RenderFrom;
  }

  lemma SectionOpens(t: string, p: nat)
    requires Find(t, Lit(SecM), p).Some?
    ensures p <= Find(t, Lit(SecM), p).value && Find(t, Lit(SecM), p).value + 9 <= |t|
  {}

  lemma SectionCloses(t: string, body: nat)
    ensures var end := Closing(Tokens(t, body), 1, SecM, EndSecM);
      end.Some? ==> body <= end.value && end.value + 11 <= |t|
  {
    ClosingInside(t, body, SecM, EndSecM);
  }
}
