/** The wire format of include/livewire.hpp: flat objects of strings, written and read back. */
module Livewire {
  import opened Wrappers
  import opened Strings

  type Entry = (string, string)

  // ---- writing ----

  function EscChar(c: char): string {
    if c == '\"' then "\\\"" else if c == '\\' then "\\\\" else if c == '\n' then "\\n"
    else if c == '\r' then "\\r" else if c == '\t' then "\\t" else [c]
  }

  function Escaped(s: string): string {
    if s == "" then "" else EscChar(s[0]) + Escaped(s[1..])
  }

  function PairText(e: Entry): string {
    "\"" + (Escaped(e.0) + ("\":\"" + (Escaped(e.1) + "\"")))
  }

  function MorePairs(es: seq<Entry>): string {
    if es == [] then "" else "," + (PairText(es[0]) + MorePairs(es[1..]))
  }

  function Inner(es: seq<Entry>): string {
    if es == [] then "" else PairText(es[0]) + MorePairs(es[1..])
  }

  function ObjectText(es: seq<Entry>): string {
    "{" + (Inner(es) + "}")
  }

  /** `esc`. */
  method Esc(s: string) returns (o: string)
    ensures o == Escaped(s)
  {
    hide Escaped;
    o := "";
    EscapedAt(s, |s|);
    assert s[0..] == s;
    for i := 0 to |s|
      invariant o + Escaped(s[i..]) == Escaped(s)
    {
      EscapedAt(s, i);
      var c, before := s[i], o;
      Regrouped(before, EscChar(c), Escaped(s[i + 1..]));
      if c == '\"' { o := o + "\\\""; }
      else if c == '\\' { o := o + "\\\\"; }
      else if c == '\n' { o := o + "\\n"; }
      else if c == '\r' { o := o + "\\r"; }
      else if c == '\t' { o := o + "\\t"; }
      else { o := o + [c]; }
      assert o == before + EscChar(c);
    }
  }

  lemma Regrouped(a: string, b: string, c: string)
    ensures a + (b + c) == a + b + c
  {}

  lemma EscapedAt(s: string, i: nat)
    requires i <= |s|
    ensures Escaped(s[i..]) == if i == |s| then "" else EscChar(s[i]) + Escaped(s[i + 1..])
  {
    hide EscChar;
    if i < |s| { assert s[i..][1..] == s[i + 1..]; }
  }

  /** What `object` still has to write before entry `i`. */
  function StillToWrite(es: seq<Entry>, i: nat): string
    requires i <= |es|
  {
    if i == 0 then Inner(es) else MorePairs(es[i..])
  }

  lemma WriteOne(es: seq<Entry>, i: nat)
    requires i < |es|
    ensures StillToWrite(es, i) == (if i == 0 then "" else ",") + PairText(es[i]) + StillToWrite(es, i + 1)
  {
    hide PairText;
    if i > 0 { assert es[i..][1..] == es[i + 1..]; }
  }

  lemma NothingToWrite(es: seq<Entry>)
    ensures StillToWrite(es, |es|) == "" && StillToWrite(es, 0) == Inner(es)
  {}

  /** `object`, over the entries in the order the map yields them. */
  method Object(es: seq<Entry>) returns (o: string)
    ensures o == ObjectText(es)
  {
    hide StillToWrite, Inner, MorePairs, Escaped;
    o := "{";
    var first := true;
    NothingToWrite(es);
    for i := 0 to |es|
      invariant first == (i == 0)
      invariant o + StillToWrite(es, i) == "{" + Inner(es)
    {
      WriteOne(es, i);
      if !first { o := o + ","; }
      first := false;
      var key := Esc(es[i].0);
      var value := Esc(es[i].1);
      var pair := "\"" + key + "\":\"" + value + "\"";
      assert pair == PairText(es[i]);
      o := o + pair;
    }
    o := o + "}";
    assert (o[..|o| - 1] + "") + "}" == o;
  }

  // ---- reading ----

  /** Only `\n` and `\t` are decoded; any other escaped character stands for itself. */
  function Unescaped(c: char): char {
    if c == 'n' then '\n' else if c == 't' then '\t' else c
  }

  /** The string a text holds up to its closing quote, and the text from that quote on. */
  function Quoted(t: string): (r: (string, string))
    ensures |r.1| <= |t|
  {
    if t == "" || t[0] == '\"' then ("", t)
    else if t[0] == '\\' && |t| > 1 then
      var r := Quoted(t[2..]);
      ([Unescaped(t[1])] + r.0, r.1)
    else
      var r := Quoted(t[1..]);
      ([t[0]] + r.0, r.1)
  }

  function Tail(t: string): string {
    if t == "" then "" else t[1..]
  }

  /** One `"key":"value"` of a text and what follows it; None when there is none left. */
  function NextEntry(t: string): (r: Option<(Entry, string)>)
    ensures r.Some? ==> |r.value.1| < |t|
  {
    var q := Suffix(t, "\"");
    if q.None? then None
    else
      var key := Quoted(q.value[1..]);
      var colon := Suffix(key.1, ":");
      if colon.None? then None
      else
        var v := Suffix(colon.value, "\"");
        if v.None? then None
        else
          var val := Quoted(v.value[1..]);
          Some(((key.0, val.0), Tail(val.1)))
  }

  function ReadFrom(t: string, acc: map<string, string>): map<string, string>
    decreases |t|
  {
    var e := NextEntry(t);
    if e.None? then acc else ReadFrom(e.value.1, acc[e.value.0.0 := e.value.0.1])
  }

  function Parsed(s: string): map<string, string> {
    ReadFrom(s, map[])
  }

  /** The string read by `parse_object`'s inner loop; `pos` moves to the closing quote. */
  method ReadString(s: string, start: nat) returns (r: string, pos: nat)
    requires start < |s|
    ensures start < pos <= |s| && Quoted(s[start + 1..]) == (r, s[pos..])
  {
    hide Quoted;
    r, pos := "", start + 1;
    assert "" + Quoted(s[pos..]).0 == Quoted(s[pos..]).0;
    while pos < |s| && s[pos] != '\"'
      invariant start < pos <= |s|
      invariant var rest := Quoted(s[pos..]); Quoted(s[start + 1..]) == (r + rest.0, rest.1)
      decreases |s| - pos
    {
      if s[pos] == '\\' && pos + 1 < |s| {
        QuotedStep(s[pos..]);
        assert s[pos..][2..] == s[pos + 2..];
        assert r + ([Unescaped(s[pos + 1])] + Quoted(s[pos + 2..]).0) == r + [Unescaped(s[pos + 1])] + Quoted(s[pos + 2..]).0;
        r := r + [if s[pos + 1] == 'n' then '\n' else if s[pos + 1] == 't' then '\t' else s[pos + 1]];
        pos := pos + 2;
      } else {
        QuotedStep(s[pos..]);
        assert s[pos..][1..] == s[pos + 1..];
        assert r + ([s[pos]] + Quoted(s[pos + 1..]).0) == r + [s[pos]] + Quoted(s[pos + 1..]).0;
        r := r + [s[pos]];
        pos := pos + 1;
      }
    }
    QuotedStep(s[pos..]);
    assert r + "" == r;
  }

  lemma QuotedStep(t: string)
    ensures t == "" || t[0] == '\"' ==> Quoted(t) == ("", t)
    ensures |t| > 1 && t[0] == '\\' ==> Quoted(t) == ([Unescaped(t[1])] + Quoted(t[2..]).0, Quoted(t[2..]).1)
    ensures t != "" && t[0] != '\"' && (t[0] != '\\' || |t| == 1) ==> Quoted(t) == ([t[0]] + Quoted(t[1..]).0, Quoted(t[1..]).1)
  {}

  /** One round of `parse_object`'s loop. */
  method ReadEntry(s: string, i: nat) returns (e: Option<Entry>, next: nat)
    requires i < |s|
    ensures next <= |s|
    ensures NextEntry(s[i..]) == if e.None? then None else Some((e.value, s[next..]))
    ensures e.Some? ==> i < next
  {
    hide Quoted, Suffix, Find;
    next := i;
    var q := Find(s, "\"", i);
    FindIsSuffix(s, "\"", i);
    if q.None? { return None, i; }
    FoundInside(s, "\"", i);
    var key, k := ReadString(s, q.value);
    assert s[q.value..][1..] == s[q.value + 1..];
    var colon := Find(s, ":", k);
    FindIsSuffix(s, ":", k);
    if colon.None? { return None, i; }
    FoundInside(s, ":", k);
    var v := Find(s, "\"", colon.value);
    FindIsSuffix(s, "\"", colon.value);
    if v.None? { return None, i; }
    FoundInside(s, "\"", colon.value);
    var val, z := ReadString(s, v.value);
    assert s[v.value..][1..] == s[v.value + 1..];
    next := if z + 1 <= |s| then z + 1 else |s|;
    assert Tail(s[z..]) == s[next..];
    return Some((key, val)), next;
  }

  lemma FoundInside(s: string, p: string, i: nat)
    requires |p| == 1
    ensures var r := Find(s, p, i); r.Some? ==> i <= r.value < |s|
  {}

  /** `parse_object`. */
  method ParseObject(s: string) returns (m: map<string, string>)
    ensures m == Parsed(s)
  {
    hide NextEntry;
    m := map[];
    var i := 0;
    assert s[0..] == s;
    while i < |s|
      invariant i <= |s| && ReadFrom(s[i..], m) == Parsed(s)
      decreases |s| - i
    {
      var e, next := ReadEntry(s, i);
      if e.None? { return; }
      m := m[e.value.0 := e.value.1];
      i := next;
    }
    assert s[i..] == "";
    NoEntryLeft();
  }

  lemma NoEntryLeft()
    ensures NextEntry("") == None
  {}

  // ---- round trip ----

  /** A string as it comes back: a carriage return is read back as the letter r. */
  function Worn(s: string): string {
    seq(|s|, k requires 0 <= k < |s| => if s[k] == '\r' then 'r' else s[k])
  }

  lemma {:induction false} QuotedBack(s: string, rest: string)
    ensures Quoted(Escaped(s) + ("\"" + rest)) == (Worn(s), "\"" + rest)
  {
    hide Quoted, EscChar;
    EscapedAt(s, 0);
    assert s[0..] == s;
    if s == "" {
      assert Escaped(s) + ("\"" + rest) == "\"" + rest;
      QuotedStep("\"" + rest);
    } else {
      var tail := Escaped(s[1..]) + ("\"" + rest);
      QuotedBack(s[1..], rest);
      OneBack(s[0], tail);
      assert Escaped(s) + ("\"" + rest) == EscChar(s[0]) + tail;
      assert Worn(s) == [if s[0] == '\r' then 'r' else s[0]] + Worn(s[1..]);
    }
  }

  lemma OneBack(c: char, tail: string)
    ensures Quoted(EscChar(c) + tail) == ([if c == '\r' then 'r' else c] + Quoted(tail).0, Quoted(tail).1)
  {
    hide Quoted;
    var t := EscChar(c) + tail;
    QuotedStep(t);
    if |EscChar(c)| == 2 {
      assert t[2..] == tail && t[0] == '\\';
      assert Unescaped(t[1]) == if c == '\r' then 'r' else c;
    } else {
      assert t[1..] == tail && t[0] == c;
    }
  }

  lemma SuffixHere(p: string, rest: string)
    ensures Suffix(p + rest, p) == Some(p + rest)
  {}

  lemma SuffixNext(c: char, p: string, rest: string)
    requires p != "" && p[0] != c
    ensures Suffix([c] + (p + rest), p) == Some(p + rest)
  {
    SuffixSkipsWithout([c], p + rest, p);
    SuffixHere(p, rest);
  }

  /** After one separating character, an entry is read back and the scan stands behind it. */
  lemma EntryBack(x: char, e: Entry, rest: string)
    requires x != '\"'
    ensures NextEntry([x] + (PairText(e) + rest)) == Some(((Worn(e.0), Worn(e.1)), rest))
  {
    hide Quoted, Escaped, Suffix, Worn;
    var value := Escaped(e.1) + ("\"" + rest);
    var key := Escaped(e.0) + ("\"" + (":" + ("\"" + value)));
    assert PairText(e) + rest == "\"" + key;
    SuffixNext(x, "\"", key);
    assert ("\"" + key)[1..] == key;
    QuotedBack(e.0, ":" + ("\"" + value));
    SuffixNext('\"', ":", "\"" + value);
    SuffixNext(':', "\"", value);
    assert ("\"" + value)[1..] == value;
    QuotedBack(e.1, rest);
    assert Tail("\"" + rest) == rest;
  }

  function MapFrom(es: seq<Entry>, acc: map<string, string>): map<string, string> {
    if es == [] then acc else MapFrom(es[1..], acc[es[0].0 := es[0].1])
  }

  function WornAll(es: seq<Entry>): seq<Entry> {
    seq(|es|, k requires 0 <= k < |es| => (Worn(es[k].0), Worn(es[k].1)))
  }

  lemma ReadStep(t: string, acc: map<string, string>, e: Entry, rest: string)
    requires NextEntry(t) == Some((e, rest))
    ensures ReadFrom(t, acc) == ReadFrom(rest, acc[e.0 := e.1])
  {
    hide NextEntry;
  }

  lemma {:induction false} ReadBack(x: char, es: seq<Entry>, acc: map<string, string>)
    requires x != '\"'
    ensures ReadFrom([x] + (Inner(es) + "}"), acc) == MapFrom(WornAll(es), acc)
    decreases |es|
  {
    hide NextEntry, ReadFrom, PairText, Worn;
    if es == [] {
      assert [x] + (Inner(es) + "}") == [x] + "}";
      EndsHere(x, acc);
    } else {
      var rest := MorePairs(es[1..]) + "}";
      assert Inner(es) + "}" == PairText(es[0]) + rest;
      EntryBack(x, es[0], rest);
      var e := (Worn(es[0].0), Worn(es[0].1));
      ReadStep([x] + (Inner(es) + "}"), acc, e, rest);
      assert WornAll(es) == [e] + WornAll(es[1..]);
      if es[1..] == [] {
        assert rest == "}";
        NoEntryInBrace(acc[e.0 := e.1]);
      } else {
        assert rest == [','] + (Inner(es[1..]) + "}");
        ReadBack(',', es[1..], acc[e.0 := e.1]);
      }
    }
  }

  lemma EndsHere(x: char, acc: map<string, string>)
    requires x != '\"'
    ensures ReadFrom([x] + "}", acc) == acc
  {
    SuffixSkipsWithout([x] + "}", "", "\"");
    assert [x] + "}" + "" == [x] + "}";
  }

  lemma NoEntryInBrace(acc: map<string, string>)
    ensures ReadFrom("}", acc) == acc
  {
    SuffixSkipsWithout("}", "", "\"");
    assert "}" + "" == "}";
  }

  /** What an object reads back as, whatever its strings hold. */
  lemma ParsedObject(es: seq<Entry>)
    ensures Parsed(ObjectText(es)) == MapFrom(WornAll(es), map[])
  {
    ReadBack('{', es, map[]);
  }

  /** `es` lists each entry of `m` once: one order in which iterating over the map may yield it. */
  ghost predicate Lists(es: seq<Entry>, m: map<string, string>) {
    && (forall i, j :: 0 <= i < j < |es| ==> es[i].0 != es[j].0)
    && (forall e <- es :: e.0 in m && m[e.0] == e.1)
    && (forall k <- m :: (k, m[k]) in es)
  }

  lemma {:induction false} MapFromHas(es: seq<Entry>, acc: map<string, string>)
    requires forall i, j :: 0 <= i < j < |es| ==> es[i].0 != es[j].0
    ensures forall e <- es :: e.0 in MapFrom(es, acc) && MapFrom(es, acc)[e.0] == e.1
    ensures forall k | (forall e <- es :: e.0 != k) ::
      (k in MapFrom(es, acc) <==> k in acc) && (k in acc ==> MapFrom(es, acc)[k] == acc[k])
  {
    if es != [] {
      var next := acc[es[0].0 := es[0].1];
      MapFromHas(es[1..], next);
      assert forall e <- es[1..] :: e in es && e.0 != es[0].0;
      assert es[0] in es && forall e <- es :: e == es[0] || e in es[1..];
    }
  }

  lemma ListsIsMap(es: seq<Entry>, m: map<string, string>)
    requires Lists(es, m)
    ensures MapFrom(es, map[]) == m
  {
    MapFromHas(es, map[]);
    var r := MapFrom(es, map[]);
    forall k ensures k in r <==> k in m {
      if k in m { assert (k, m[k]) in es; }
    }
  }

  predicate NoReturns(m: map<string, string>) {
    forall k <- m :: '\r' !in k && '\r' !in m[k]
  }

  lemma {:induction false} WornHasNoReturn(es: seq<Entry>, acc: map<string, string>)
    requires NoReturns(acc)
    ensures NoReturns(MapFrom(WornAll(es), acc))
  {
    if es != [] {
      assert WornAll(es) == [(Worn(es[0].0), Worn(es[0].1))] + WornAll(es[1..]);
      WornHasNoReturn(es[1..], acc[Worn(es[0].0) := Worn(es[0].1)]);
    }
  }

  lemma WornSame(s: string)
    requires '\r' !in s
    ensures Worn(s) == s
  {}

  /** An object read back is the map that was written, in whatever order it was written, exactly
      when no key and no value holds a carriage return. */
  lemma ObjectRoundTrip(es: seq<Entry>, m: map<string, string>)
    requires Lists(es, m)
    ensures Parsed(ObjectText(es)) == m <==> NoReturns(m)
  {
    ParsedObject(es);
    WornHasNoReturn(es, map[]);
    if NoReturns(m) {
      forall i | 0 <= i < |es| ensures WornAll(es)[i] == es[i] {
        assert es[i] in es;
        WornSame(es[i].0);
        WornSame(es[i].1);
      }
      assert WornAll(es) == es;
      ListsIsMap(es, m);
    }
  }

  /** The text of an object, character by character: two-letter forms for quote, backslash, line feed,
      carriage return and tab, themselves for all others; entries in quotes, a colon within and a comma
      between them, braces around. */
  lemma {:induction false} ObjectSpelled(es: seq<Entry>, e: Entry, c: char, s: string)
    ensures c !in "\"\\\n\r\t" ==> Escaped([c] + s) == [c] + Escaped(s)
    ensures Escaped("\"" + s) == "\\\"" + Escaped(s) && Escaped("\\" + s) == "\\\\" + Escaped(s)
    ensures Escaped("\n" + s) == "\\n" + Escaped(s) && Escaped("\r" + s) == "\\r" + Escaped(s)
    ensures Escaped("\t" + s) == "\\t" + Escaped(s) && Escaped("") == ""
    ensures Inner([]) == "" && ObjectText(es) == "{" + Inner(es) + "}"
    ensures Inner(es + [e])
      == Inner(es) + (if es == [] then "" else ",") + "\"" + Escaped(e.0) + "\":\"" + Escaped(e.1) + "\""
  {
    OneEscaped(c, s);
    OneEscaped('\"', s);
    OneEscaped('\\', s);
    OneEscaped('\n', s);
    OneEscaped('\r', s);
    OneEscaped('\t', s);
    hide Inner, Escaped, PairText;
    assert "{" + (Inner(es) + "}") == "{" + Inner(es) + "}";
    PairSpelled(e);
    InnerAppend(es, e);
    var sep, k, v := if es == [] then "" else ",", Escaped(e.0), Escaped(e.1);
    assert Inner(es) + (sep + ("\"" + k + "\":\"" + v + "\"")) == Inner(es) + sep + "\"" + k + "\":\"" + v + "\"";
    EmptySpelled();
  }

  lemma OneEscaped(c: char, s: string)
    ensures Escaped([c] + s) == EscChar(c) + Escaped(s)
  {
    hide EscChar;
    assert ([c] + s)[1..] == s;
  }

  lemma EmptySpelled()
    ensures Inner([]) == "" && Escaped("") == ""
  {}

  lemma PairSpelled(e: Entry)
    ensures PairText(e) == "\"" + Escaped(e.0) + "\":\"" + Escaped(e.1) + "\""
  {
    hide Escaped;
    var k, v := Escaped(e.0), Escaped(e.1);
    assert "\"" + (k + ("\":\"" + (v + "\""))) == "\"" + k + "\":\"" + v + "\"";
  }

  lemma {:induction false} MoreAppend(es: seq<Entry>, e: Entry)
    ensures MorePairs(es + [e]) == MorePairs(es) + ("," + PairText(e))
  {
    hide PairText;
    if es == [] {
      assert [] + [e] == [e] && MorePairs([e]) == "," + (PairText(e) + MorePairs([e][1..])) && [e][1..] == [];
      assert PairText(e) + "" == PairText(e);
      assert "" + ("," + PairText(e)) == "," + PairText(e);
    } else {
      MoreAppend(es[1..], e);
      assert (es + [e])[1..] == es[1..] + [e];
      var head, mid, last := PairText(es[0]), MorePairs(es[1..]), "," + PairText(e);
      assert "," + (head + (mid + last)) == "," + (head + mid) + last;
    }
  }

  lemma InnerAppend(es: seq<Entry>, e: Entry)
    ensures Inner(es + [e]) == Inner(es) + ((if es == [] then "" else ",") + PairText(e))
  {
    hide PairText, MorePairs;
    if es == [] {
      assert [] + [e] == [e] && [e][1..] == [];
      NoMore();
      assert PairText(e) + "" == PairText(e) && "" + ("" + PairText(e)) == PairText(e);
    } else {
      MoreAppend(es[1..], e);
      assert (es + [e])[1..] == es[1..] + [e];
    }
  }

  lemma NoMore()
    ensures MorePairs([]) == ""
  {}

  // ---- the posted state ----

  /** The length of the brace group a text holds, from depth `depth`; None when it stays open. */
  function GroupLength(t: string, depth: int): (r: Option<nat>)
    ensures r.Some? ==> r.value <= |t|
  {
    if t == "" then None
    else if t[0] == '}' && depth == 1 then Some(1)
    else
      var more := GroupLength(t[1..], if t[0] == '{' then depth + 1 else if t[0] == '}' then depth - 1 else depth);
      if more.None? then None else Some(1 + more.value)
  }

  /** The text `object_field` reads: the first brace group after the first `"key"`. */
  function FieldText(s: string, key: string): string {
    var p := Suffix(s, "\"" + key + "\"");
    if p.None? then "{}"
    else
      var b := Suffix(p.value, "{");
      if b.None? then "{}"
      else
        var n := GroupLength(b.value, 0);
        if n.None? then "{}" else b.value[..n.value]
  }

  /** `object_field`. */
  method ObjectField(s: string, key: string) returns (r: string)
    ensures r == FieldText(s, key)
  {
    hide Find, Suffix, GroupLength;
    var p := Find(s, "\"" + key + "\"", 0);
    FindIsSuffix(s, "\"" + key + "\"", 0);
    assert s[0..] == s;
    if p.None? { return "{}"; }
    var b := Find(s, "{", p.value);
    FindIsSuffix(s, "{", p.value);
    if b.None? { return "{}"; }
    var depth := 0;
    for i := b.value to |s|
      invariant var more := GroupLength(s[i..], depth);
        GroupLength(s[b.value..], 0) == if more.None? then None else Some(i - b.value + more.value)
    {
      GroupStep(s, i, depth);
      if s[i] == '{' {
        depth := depth + 1;
      } else if s[i] == '}' {
        depth := depth - 1;
        if depth == 0 {
          assert s[b.value..][..i - b.value + 1] == s[b.value..i + 1];
          return s[b.value..i + 1];
        }
      }
    }
    assert s[|s|..] == "";
    GroupStep(s, |s|, depth);
    return "{}";
  }

  /** A state without the key, or without a brace behind it, reads as an empty object. */
  lemma FieldMissing(s: string, key: string)
    ensures (forall k: nat :: !At(s, k, "\"" + key + "\"")) ==> FieldText(s, key) == "{}"
    ensures '{' !in s ==> FieldText(s, key) == "{}"
  {
    hide Find, Suffix, GroupLength;
    FindIsSuffix(s, "\"" + key + "\"", 0);
    assert s[0..] == s;
    if '{' !in s && Suffix(s, "\"" + key + "\"").Some? {
      var p := Find(s, "\"" + key + "\"", 0).value;
      forall c | c in s[p..] ensures c in s {}
      SuffixSkipsWithout(s[p..], "", "{");
      assert s[p..] + "" == s[p..];
      ShortHasNone("", "{");
    }
  }

  lemma GroupStep(s: string, i: nat, depth: int)
    requires i <= |s|
    ensures GroupLength(s[i..], depth) ==
      if i == |s| then None
      else if s[i] == '}' && depth == 1 then Some(1)
      else
        var more := GroupLength(s[i + 1..], if s[i] == '{' then depth + 1 else if s[i] == '}' then depth - 1 else depth);
        if more.None? then None else Some(1 + more.value)
  {
    if i < |s| { assert s[i..][1..] == s[i + 1..]; }
  }

  function Braces(s: string): int {
    if s == "" then 0 else Braces(s[..|s| - 1]) + (if s[|s| - 1] == '{' then 1 else if s[|s| - 1] == '}' then -1 else 0)
  }

  /** No part of the text closes more braces than it opened, and all are closed at the end. */
  ghost predicate Balanced(u: string) {
    Braces(u) == 0 && forall k :: 0 <= k <= |u| ==> Braces(u[..k]) >= 0
  }

  lemma {:induction false} GroupFrom(u: string, k: nat, post: string)
    requires k <= |u| && forall j :: 0 <= j <= k ==> Braces(u[..j]) >= 0
    ensures GroupLength(u[k..] + ("}" + post), 1 + Braces(u[..k])) == Some(|u| - k + 1) <==> Balanced(u)
    decreases |u| - k
  {
    var t := u[k..] + ("}" + post);
    if k == |u| {
      assert t == "}" + post && u[..k] == u;
      if Braces(u) > 0 && GroupLength(t[1..], Braces(u)).Some? {
        GroupPositive(t[1..], Braces(u));
      }
    } else {
      assert t[0] == u[k] && t[1..] == u[k + 1..] + ("}" + post);
      assert u[..k + 1][..k] == u[..k];
      if Braces(u[..k + 1]) >= 0 {
        GroupFrom(u, k + 1, post);
      }
    }
  }

  lemma GroupPositive(t: string, depth: int)
    ensures GroupLength(t, depth).Some? ==> GroupLength(t, depth).value > 0
  {}

  /** The posted object is cut out whole exactly when the braces inside its strings balance:
      braces are counted inside strings too. */
  lemma FieldReadsObject(head: string, key: string, es: seq<Entry>, tail: string)
    requires var k := "\"" + key + "\"";
      Suffix(head + (k + (":" + (ObjectText(es) + tail))), k) == Some(k + (":" + (ObjectText(es) + tail)))
    requires '{' !in key
    ensures var k := "\"" + key + "\"";
      FieldText(head + (k + (":" + (ObjectText(es) + tail))), key) == ObjectText(es) <==> Balanced(Inner(es))
  {
    hide Suffix, Inner, Balanced, Braces;
    var k := "\"" + key + "\"";
    var u := Inner(es);
    var obj := ObjectText(es) + tail;
    assert obj == "{" + (u + ("}" + tail));
    SuffixSkipsWithout(k + ":", obj, "{");
    assert k + (":" + obj) == (k + ":") + obj;
    SuffixHere("{", u + ("}" + tail));
    GroupOpens(u + ("}" + tail));
    assert u[0..] == u && u[..0] == "";
    BracesNone();
    GroupFrom(u, 0, tail);
    var n := GroupLength(obj, 0);
    assert obj[..|u| + 2] == ObjectText(es);
    if n.None? {
      if u == "" { BalancedNone(); }
    } else if n.value != |u| + 2 {
      assert |obj[..n.value]| != |ObjectText(es)|;
    }
  }

  lemma BracesNone()
    ensures Braces("") == 0
  {}

  lemma BalancedNone()
    ensures Balanced("")
  {}

  lemma GroupOpens(t: string)
    ensures GroupLength("{" + t, 0) == var more := GroupLength(t, 1); if more.None? then None else Some(1 + more.value)
  {
    assert ("{" + t)[1..] == t;
  }

  predicate NoBraces(s: string) {
    '{' !in s && '}' !in s
  }

  lemma {:induction false} EscapedNoBraces(s: string)
    requires NoBraces(s)
    ensures NoBraces(Escaped(s))
  {
    if s != "" {
      assert s[0] in s;
      EscapedNoBraces(s[1..]);
    }
  }

  lemma PairNoBraces(e: Entry)
    requires NoBraces(e.0) && NoBraces(e.1)
    ensures NoBraces(PairText(e))
  {
    hide Escaped;
    EscapedNoBraces(e.0);
    EscapedNoBraces(e.1);
  }

  lemma {:induction false} InnerNoBraces(es: seq<Entry>)
    requires forall e <- es :: NoBraces(e.0) && NoBraces(e.1)
    ensures NoBraces(Inner(es)) && NoBraces(MorePairs(es))
  {
    hide PairText;
    if es != [] {
      assert es[0] in es;
      PairNoBraces(es[0]);
      InnerNoBraces(es[1..]);
    }
  }

  lemma {:induction false} NoBracesNone(u: string)
    requires NoBraces(u)
    ensures Braces(u) == 0
  {
    if u != "" {
      assert u[|u| - 1] in u;
      NoBracesNone(u[..|u| - 1]);
    }
  }

  lemma NoBracesBalanced(u: string)
    requires NoBraces(u)
    ensures Balanced(u)
  {
    NoBracesNone(u);
    forall k | 0 <= k <= |u| ensures Braces(u[..k]) >= 0 {
      NoBracesNone(u[..k]);
    }
  }

  /** The state a request carries is the state that was sent, when its strings hold neither a
      brace nor a carriage return. */
  lemma PostedState(head: string, es: seq<Entry>, tail: string, m: map<string, string>)
    requires var rest := "\"state\"" + (":" + (ObjectText(es) + tail));
      Suffix(head + rest, "\"state\"") == Some(rest)
    requires Lists(es, m) && NoReturns(m) && forall e <- es :: NoBraces(e.0) && NoBraces(e.1)
    ensures Parsed(FieldText(head + ("\"state\"" + (":" + (ObjectText(es) + tail))), "state")) == m
  {
    hide Suffix, ObjectText, Parsed, FieldText, NoReturns, Lists, Inner, Balanced;
    assert "\"" + "state" + "\"" == "\"state\"";
    InnerNoBraces(es);
    NoBracesBalanced(Inner(es));
    FieldReadsObject(head, "state", es, tail);
    ObjectRoundTrip(es, m);
  }
}
