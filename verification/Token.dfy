/** The signed tokens of include/token.hpp. The message authentication code is a parameter: any
    fixed function from a secret and a text to bytes. */
module Tokens {
  import opened Wrappers
  import opened Strings
  import opened Numbers
  import opened Base64Url

  datatype Claims = Claims(sub: string, abilities: seq<string>, iat: int, exp: int)

  predicate IsInt64(n: int) {
    INT64_MIN <= n <= INT64_MAX
  }

  /** What the C++ types guarantee: strings of bytes and 64-bit times. */
  predicate Representable(c: Claims) {
    && IsBytes(c.sub) && (forall a <- c.abilities :: IsBytes(a))
    && IsInt64(c.iat) && IsInt64(c.exp)
  }

  // ---- writing ----

  function EscapeChar(c: char): string {
    if c == '"' || c == '\\' then ['\\', c] else [c]
  }

  /** `json_escape`. */
  function Escaped(s: string): string {
    if s == "" then "" else Escaped(s[..|s| - 1]) + EscapeChar(s[|s| - 1])
  }

  function Quoted(s: string): string {
    "\"" + Escaped(s) + "\""
  }

  const MIDDLE := ",\"abilities\":["
  const IAT := "\"iat\":"
  const EXP := "\"exp\":"

  /** The text from the first ability on. */
  function Rest(abilities: seq<string>, iat: int, exp: int): string {
    if abilities == [] then "]," + IAT + IntText(iat) + "," + EXP + IntText(exp) + "}"
    else Quoted(abilities[0]) + (if |abilities| > 1 then "," else "") + Rest(abilities[1..], iat, exp)
  }

  /** `claims_json`. */
  function ClaimsJson(c: Claims): string {
    "{\"sub\":" + Quoted(c.sub) + MIDDLE + Rest(c.abilities, c.iat, c.exp)
  }

  // ---- reading ----

  /** A key in quotes, as the extractors search for it. */
  function KeyText(key: string): string {
    "\"" + key + "\""
  }

  /** The characters of a string value up to its closing quote, unescaped. */
  function StringValue(s: string): string {
    if s == "" || s[0] == '"' then ""
    else if s[0] == '\\' && |s| > 1 then [s[1]] + StringValue(s[2..])
    else [s[0]] + StringValue(s[1..])
  }

  /** Where the closing quote stands, or the length of the text. */
  function StringLength(s: string): (n: nat)
    ensures n <= |s|
  {
    if s == "" || s[0] == '"' then 0
    else if s[0] == '\\' && |s| > 1 then 2 + StringLength(s[2..])
    else 1 + StringLength(s[1..])
  }

  /** What follows the first colon behind the first occurrence of the key. */
  function AfterKey(j: string, key: string): Option<string> {
    var k := Suffix(j, KeyText(key));
    if k.None? then None
    else
      var c := Suffix(k.value, ":");
      if c.None? then None else Some(c.value[1..])
  }

  function ExtractString(j: string, key: string): string {
    var v := AfterKey(j, key);
    if v.None? then ""
    else
      var q := Suffix(v.value, "\"");
      if q.None? then "" else StringValue(q.value[1..])
  }

  function ExtractInt(j: string, key: string): int {
    var v := AfterKey(j, key);
    if v.None? then 0 else LeadingInt(v.value)
  }

  /** The strings that begin within the next `room` characters. */
  function StringValues(s: string, room: int): seq<string>
    decreases |s|
  {
    var q := Find(s, "\"", 0);
    if room <= 0 || q.None? || q.value >= room then []
    else
      var p := q.value + 1 + StringLength(s[q.value + 1..]);
      [StringValue(s[q.value + 1..])] + (if p < |s| then StringValues(s[p + 1..], room - (p + 1)) else [])
  }

  function ExtractStrings(j: string, key: string): seq<string> {
    var k := Suffix(j, KeyText(key));
    if k.None? then []
    else
      var b := Suffix(k.value, "[");
      if b.None? then []
      else
        var close := Find(b.value, "]", 0);
        if close.None? then [] else StringValues(b.value[1..], close.value - 1)
  }

  function ParsedClaims(j: string): Claims {
    Claims(ExtractString(j, "sub"), ExtractStrings(j, "abilities"), ExtractInt(j, "iat"), ExtractInt(j, "exp"))
  }

  // ---- signing and verifying ----

  type Mac = (string, string) -> string

  const HEADER := "{\"alg\":\"HS256\",\"typ\":\"JWT\"}"

  // ---- what reading gives back ----

  /** The string ends where the quoted key would be found: it is the key, or ends in a quote
      and the key. */
  predicate Collides(s: string, key: string) {
    s == key || ("\"" + key <= s[if |s| > |key| then |s| - |key| - 1 else 0..] && |s| > |key|)
  }

  /** The text behind the first colon in the abilities, up to the end of its ability. */
  function BehindColon(abilities: seq<string>): Option<string> {
    if abilities == [] then None
    else
      var k := Find(abilities[0], ":", 0);
      if k.Some? then Some(abilities[0][k.value + 1..]) else BehindColon(abilities[1..])
  }

  /** What a number key reads behind a colliding ability: a number in a later ability with a
      colon, else the issue time. */
  function Behind(abilities: seq<string>, iat: int): int {
    var z := BehindColon(abilities);
    if z.Some? then LeadingInt(z.value) else iat
  }

  function ReadNumber(abilities: seq<string>, key: string, own: int, iat: int): int {
    if abilities == [] then own
    else if Collides(abilities[0], key) then Behind(abilities[1..], iat)
    else ReadNumber(abilities[1..], key, own, iat)
  }

  /** Abilities up to and including the first with a closing bracket. */
  function Kept(abilities: seq<string>): seq<string> {
    if abilities == [] then []
    else [abilities[0]] + (if ']' in abilities[0] then [] else Kept(abilities[1..]))
  }

  /** The claims that come back from a signed token. */
  function ReadBack(c: Claims): Claims {
    Claims(c.sub, Kept(c.abilities),
           if Collides(c.sub, "iat") then 0 else ReadNumber(c.abilities, "iat", c.iat, c.iat),
           if Collides(c.sub, "exp") then 0 else ReadNumber(c.abilities, "exp", c.exp, c.iat))
  }

  // ---- escaping ----

  lemma {:induction false} EscapedCat(a: string, b: string)
    ensures Escaped(a + b) == Escaped(a) + Escaped(b)
  {
    if b == "" {
      assert a + b == a;
    } else {
      assert (a + b)[..|a + b| - 1] == a + b[..|b| - 1];
      EscapedCat(a, b[..|b| - 1]);
    }
  }

  lemma EscapedHead(s: string)
    requires s != ""
    ensures Escaped(s) == EscapeChar(s[0]) + Escaped(s[1..])
  {
    assert s == [s[0]] + s[1..];
    EscapedCat([s[0]], s[1..]);
    assert Escaped([s[0]]) == EscapeChar(s[0]) by { assert [s[0]][..0] == ""; }
  }

  /** Unescaping restores the string and stops at its closing quote. */
  lemma {:induction false} StringValueOfEscaped(s: string, rest: string)
    ensures StringValue(Escaped(s) + ("\"" + rest)) == s
    ensures StringLength(Escaped(s) + ("\"" + rest)) == |Escaped(s)|
  {
    hide Escaped;
    var t := Escaped(s) + ("\"" + rest);
    if s == "" {
      EscapedEmpty();
      assert t == "\"" + rest;
    } else {
      EscapedHead(s);
      StringValueOfEscaped(s[1..], rest);
      var u := Escaped(s[1..]) + ("\"" + rest);
      assert t == EscapeChar(s[0]) + u;
      assert s == [s[0]] + s[1..];
      if |EscapeChar(s[0])| == 2 { assert t[2..] == u; } else { assert t[1..] == u; }
    }
  }

  lemma EscapedOne(c: char)
    requires c != '"' && c != '\\'
    ensures Escaped([c]) == [c]
  {
    assert [c][..0] == "";
  }

  lemma EscapedEmpty()
    ensures Escaped("") == ""
  {}

  /** Inside escaped text a quote always stands behind a backslash. */
  lemma {:induction false} QuotesAreEscaped(s: string, k: nat)
    requires k < |Escaped(s)| && Escaped(s)[k] == '"'
    ensures k > 0 && Escaped(s)[k - 1] == '\\'
  {
    var n := |Escaped(s[..|s| - 1])|;
    if k < n { QuotesAreEscaped(s[..|s| - 1], k); }
  }

  /** A key is letters only: escaping and blanks do not touch it. */
  predicate IsKey(key: string) {
    key == "iat" || key == "exp" || key == "abilities"
  }

  lemma KeyLetters(key: string)
    requires IsKey(key)
    ensures key != "" && forall k :: 0 <= k < |key| ==> 'a' <= key[k] <= 'z'
  {}

  lemma {:induction false} LettersEscaped(s: string)
    requires forall k :: 0 <= k < |s| ==> 'a' <= s[k] <= 'z'
    ensures Escaped(s) == s
  {
    if s != "" { LettersEscaped(s[..|s| - 1]); }
  }

  /** Letters at the end of escaped text are letters at the end of the string. */
  lemma {:induction false} LettersAtEnd(s: string, pre: string, key: string) returns (s': string)
    requires forall k :: 0 <= k < |key| ==> 'a' <= key[k] <= 'z'
    requires Escaped(s) == pre + key
    ensures s == s' + key && Escaped(s') == pre
  {
    hide Escaped;
    if key == "" {
      s' := s;
      assert pre + key == pre && s' + key == s;
    } else {
      var init, last := key[..|key| - 1], key[|key| - 1];
      assert pre + key == (pre + init) + [last];
      LetterAtEnd(s, pre + init, last);
      s' := LettersAtEnd(s[..|s| - 1], pre, init);
      assert s' + init + [last] == s' + key;
    }
  }

  lemma LetterAtEnd(s: string, pre: string, c: char)
    requires Escaped(s) == pre + [c] && 'a' <= c <= 'z'
    ensures s != "" && s == s[..|s| - 1] + [c] && Escaped(s[..|s| - 1]) == pre
  {
    hide Escaped;
    var x := EscapedUnfold(s);
    var e := Escaped(s[..|s| - 1]);
    LastOfCat(e, EscapeChar(x));
    LastOfCat(pre, [c]);
    SameLast(e, pre, x, c);
  }

  lemma EscapedUnfold(s: string) returns (x: char)
    requires Escaped(s) != ""
    ensures s != "" && s == s[..|s| - 1] + [x] && Escaped(s) == Escaped(s[..|s| - 1]) + EscapeChar(x)
  {
    x := s[|s| - 1];
  }

  lemma LastOfCat(a: string, b: string)
    requires b != ""
    ensures (a + b)[|a + b| - 1] == b[|b| - 1]
  {}

  lemma SameLast(a: string, b: string, x: char, y: char)
    requires a + [x] == b + [y]
    ensures a == b && x == y
  {
    assert (a + [x])[..|a|] == a && (b + [y])[..|b|] == b;
    assert (a + [x])[|a|] == x && (b + [y])[|b|] == y;
  }

  lemma QuoteAtEnd(s: string)
    requires Escaped(s) != "" && Escaped(s)[|Escaped(s)| - 1] == '"'
    ensures s != "" && s[|s| - 1] == '"'
  {}

  lemma CollidesIs(s: string, key: string)
    requires key != ""
    ensures Collides(s, key) <==> s == key || (|s| > |key| && s[|s| - |key| - 1] == '"' && s[|s| - |key|..] == key)
  {
    if |s| > |key| {
      var tail := s[|s| - |key| - 1..];
      assert tail[1..] == s[|s| - |key|..];
      assert ("\"" + key)[1..] == key;
      if tail[0] == '"' && tail[1..] == key { assert tail == "\"" + key; }
    }
  }

  // ---- where a key is found ----

  lemma LetterInside(t: string, k: nat, key: string, x: nat)
    requires k + |key| < |t| && k < x <= k + |key|
    requires forall i :: 0 <= i < |key| ==> 'a' <= key[i] <= 'z' && t[k + 1 + i] == key[i]
    ensures 'a' <= t[x] <= 'z'
  {
    assert t[k + 1 + (x - k - 1)] == key[x - k - 1];
  }

  /** A key found in a string value ends at the value's closing quote. */
  lemma KeyPosition(s: string, key: string, rest: string, k: nat)
    requires IsKey(key) && k <= |Escaped(s)| && KeyText(key) <= (Quoted(s) + rest)[k..]
    ensures k + |key| == |Escaped(s)| && (k == 0 || Escaped(s)[k - 1] == '"') && Escaped(s)[k..] == key
  {
    hide Escaped, KeyText;
    var e := Escaped(s);
    var t := Quoted(s) + rest;
    KeyLetters(key);
    var n := k + |key| + 1;
    KeyChars(t, k, key);
    assert t[|e| + 1] == '"' && forall i :: 0 <= i < |e| ==> t[i + 1] == e[i];
    assert t[n] == '"' && t[n - 1] == key[|key| - 1];
    if n > |e| + 1 { LetterInside(t, k, key, |e| + 1); }
    if n < |e| + 1 { QuotesAreEscaped(s, n - 1); }
    assert e[k..] == t[k + 1..n];
  }

  /** In a string value, a key is found only at its very end, and only when the string collides. */
  lemma KeyInValue(s: string, key: string, rest: string, k: nat)
    requires IsKey(key) && k <= |Escaped(s)|
    ensures KeyText(key) <= (Quoted(s) + rest)[k..] ==>
      Collides(s, key) && (Quoted(s) + rest)[k..] == KeyText(key) + rest && k + |key| == |Escaped(s)|
  {
    hide Escaped, Collides;
    var e := Escaped(s);
    var t := Quoted(s) + rest;
    if KeyText(key) <= t[k..] {
      KeyPosition(s, key, rest, k);
      KeyLetters(key);
      assert e == e[..k] + key;
      var pre := LettersAtEnd(s, e[..k], key);
      CollidesIs(s, key);
      if k == 0 {
        EscapedNonempty(pre);
        assert s == key;
      } else {
        QuoteAtEnd(pre);
      }
      TailOfValue(e, rest, k, key);
    }
  }

  lemma TailOfValue(e: string, rest: string, k: nat, key: string)
    requires k <= |e| && e[k..] == key && KeyText(key) <= ("\"" + e + "\"" + rest)[k..]
    ensures ("\"" + e + "\"" + rest)[k..] == KeyText(key) + rest
  {
    var t := "\"" + e + "\"" + rest;
    var n := |KeyText(key)|;
    assert t[k..] == t[k..][..n] + t[k..][n..];
    assert t[k..][n..] == t[k + n..] == rest;
  }

  lemma EscapedNonempty(s: string)
    requires Escaped(s) == ""
    ensures s == ""
  {}

  lemma KeyChars(t: string, k: nat, key: string)
    requires k <= |t| && KeyText(key) <= t[k..]
    ensures k + |key| + 2 <= |t| && t[k] == '"' && t[k + |key| + 1] == '"'
    ensures t[k + 1..k + |key| + 1] == key
    ensures forall i :: 0 <= i < |key| ==> t[k + 1 + i] == key[i]
  {
    var p := KeyText(key);
    assert t[k..][..|p|] == p;
    assert forall i :: 0 <= i < |p| ==> t[k + i] == p[i];
  }

  /** A colliding string is where the key is found. */
  lemma KeyAtEnd(s: string, key: string, rest: string) returns (k: nat)
    requires IsKey(key) && Collides(s, key)
    ensures k <= |Escaped(s)| && KeyText(key) <= (Quoted(s) + rest)[k..]
  {
    KeyLetters(key);
    LettersEscaped(key);
    CollidesIs(s, key);
    if s == key {
      k := 0;
      assert (Quoted(s) + rest)[0..] == KeyText(key) + rest;
    } else {
      k := KeyBehindQuote(s, key, rest);
    }
  }

  lemma KeyBehindQuote(s: string, key: string, rest: string) returns (k: nat)
    requires Escaped(key) == key && |s| > |key| && s[|s| - |key| - 1] == '"' && s[|s| - |key|..] == key
    ensures k <= |Escaped(s)| && KeyText(key) <= (Quoted(s) + rest)[k..]
  {
    hide Escaped;
    var pre := s[..|s| - |key| - 1];
    assert s == pre + ("\"" + key);
    EscapedCat(pre, "\"" + key);
    EscapedCat("\"", key);
    EscapedQuote();
    k := |Escaped(pre)| + 2;
    DropToKey(Escaped(pre), key, rest);
  }

  lemma EscapedQuote()
    ensures Escaped("\"") == "\\\""
  {
    assert "\""[..0] == "";
  }

  lemma DropToKey(pre: string, key: string, rest: string)
    ensures ("\"" + (pre + ("\\\"" + key)) + "\"" + rest)[|pre| + 2..] == KeyText(key) + rest
  {
    var front := "\"" + pre + "\\";
    assert "\"" + (pre + ("\\\"" + key)) + "\"" + rest == front + (KeyText(key) + rest);
  }

  /** Searching a key from the start of a string value. */
  lemma KeySearchInValue(s: string, key: string, rest: string)
    requires IsKey(key) && rest != "" && !('a' <= rest[0] <= 'z')
    ensures Suffix(Quoted(s) + rest, KeyText(key)) ==
      if Collides(s, key) then Some(KeyText(key) + rest) else Suffix(rest, KeyText(key))
  {
    var e, t, p := Escaped(s), Quoted(s) + rest, KeyText(key);
    if Collides(s, key) {
      var k := KeyAtEnd(s, key, rest);
      FirstSuffix(t, p, k, s, key, rest);
    } else {
      forall k | 0 <= k < |Quoted(s)| ensures !(p <= Quoted(s)[k..] + rest) {
        assert Quoted(s)[k..] + rest == t[k..];
        if k <= |e| { KeyInValue(s, key, rest, k); } else { KeyNotAtClose(s, key, rest); }
      }
      SuffixSkips(Quoted(s), rest, p);
    }
  }

  lemma KeyNotAtClose(s: string, key: string, rest: string)
    requires IsKey(key) && rest != "" && !('a' <= rest[0] <= 'z')
    ensures !(KeyText(key) <= (Quoted(s) + rest)[|Escaped(s)| + 1..])
  {
    KeyLetters(key);
    var u := (Quoted(s) + rest)[|Escaped(s)| + 1..];
    assert u == "\"" + rest;
    assert u[1] == rest[0] && KeyText(key)[1] == key[0];
  }

  /** The first match inside a value is the match at its end. */
  lemma {:induction false} FirstSuffix(t: string, p: string, k: nat, s: string, key: string, rest: string)
    requires IsKey(key) && rest != "" && !('a' <= rest[0] <= 'z')
    requires t == Quoted(s) + rest && p == KeyText(key) && k <= |Escaped(s)| && p <= t[k..]
    ensures Suffix(t, p) == Some(p + rest)
  {
    KeyInValue(s, key, rest, k);
    forall i | 0 <= i < k ensures !(p <= t[..k][i..] + t[k..]) {
      assert t[..k][i..] + t[k..] == t[i..];
      KeyInValue(s, key, rest, i);
    }
    SuffixSkips(t[..k], t[k..], p);
    assert t[..k] + t[k..] == t;
  }

  // ---- reading the parts of a claims text ----

  predicate OtherStart(a: string, k: nat, c: char)
    requires k < |a|
  {
    a[k] == '"' ==> k + 1 < |a| && a[k + 1] != c
  }

  /** Text in which every quote is followed by something else than the key's first letter. */
  lemma SkipStructure(a: string, b: string, key: string)
    requires key != ""
    requires forall k :: 0 <= k < |a| ==> OtherStart(a, k, key[0])
    ensures Suffix(a + b, KeyText(key)) == Suffix(b, KeyText(key))
  {
    var p := KeyText(key);
    forall k | 0 <= k < |a| ensures !(p <= a[k..] + b) {
      assert p[0] == '"' && p[1] == key[0];
      assert (a[k..] + b)[0] == a[k];
      assert OtherStart(a, k, key[0]);
      if a[k] == '"' {
        assert (a[k..] + b)[1] == a[k + 1];
      }
    }
    SuffixSkips(a, b, p);
  }

  /** The number behind the first colon. */
  function NumberBehind(u: Option<string>): int {
    if u.None? then 0
    else
      var c := Suffix(u.value, ":");
      if c.None? then 0 else LeadingInt(c.value[1..])
  }

  lemma ExtractIntIs(j: string, key: string)
    ensures ExtractInt(j, key) == NumberBehind(Suffix(j, KeyText(key)))
  {}

  /** A prefix without a colon does not change the number behind it. */
  lemma NumberBehindSkips(a: string, b: string)
    requires ':' !in a
    ensures NumberBehind(Some(a + b)) == NumberBehind(Some(b))
  {
    SuffixSkipsWithout(a, b, ":");
  }

  lemma NumberAtColon(n: int, rest: string)
    requires IsInt64(n) && (rest == "" || !IsDigit(rest[0]))
    ensures NumberBehind(Some(":" + (IntText(n) + rest))) == n
  {
    hide LeadingInt, IntText;
    var t := ":" + (IntText(n) + rest);
    assert ":" <= t && t[1..] == IntText(n) + rest;
    LeadingIntOfText(n, rest);
  }

  lemma {:induction false} PlainInEscaped(s: string, x: char)
    requires x != '\\'
    ensures x in Escaped(s) <==> x in s
  {
    if s != "" {
      PlainInEscaped(s[..|s| - 1], x);
      assert s == s[..|s| - 1] + [s[|s| - 1]];
    }
  }

  /** Escaping does not touch the number a text begins with. */
  lemma {:induction false} LeadingIntOfEscaped(p: string, z: string)
    requires Escaped(p) == p
    ensures LeadingInt(p + Escaped(z)) == LeadingInt(p + z)
    decreases |z|
  {
    hide LeadingInt, Escaped;
    if z == "" {
      EscapedEmpty();
    } else {
      EscapedHead(z);
      assert z == [z[0]] + z[1..];
      if |EscapeChar(z[0])| == 2 {
        LeadingIntStops(p, '\\', [z[0]] + Escaped(z[1..]));
        assert p + Escaped(z) == p + "\\" + ([z[0]] + Escaped(z[1..]));
        LeadingIntStops(p, z[0], z[1..]);
        assert p + z == p + [z[0]] + z[1..];
      } else {
        EscapedCat(p, [z[0]]);
        EscapedOne(z[0]);
        assert Escaped(p + [z[0]]) == p + [z[0]];
        LeadingIntOfEscaped(p + [z[0]], z[1..]);
        assert p + [z[0]] + Escaped(z[1..]) == p + Escaped(z);
        assert p + [z[0]] + z[1..] == p + z;
      }
    }
  }

  lemma LeadingIntInValue(z: string, rest: string)
    ensures LeadingInt(Escaped(z) + ("\"" + rest)) == LeadingInt(z)
  {
    hide LeadingInt, Escaped;
    EscapedEmpty();
    LeadingIntStops(Escaped(z), '"', rest);
    assert Escaped(z) + ['"'] + rest == Escaped(z) + ("\"" + rest);
    LeadingIntOfEscaped("", z);
    assert "" + Escaped(z) == Escaped(z) && "" + z == z;
  }

  function Separator(abilities: seq<string>): string {
    if |abilities| > 1 then "," else ""
  }

  lemma RestStart(abilities: seq<string>, iat: int, exp: int)
    ensures var r := Rest(abilities, iat, exp);
      r != "" && (abilities == [] ==> r[0] == ']') && (abilities != [] ==> r[0] == '"')
    ensures abilities != [] ==>
      var u := Separator(abilities) + Rest(abilities[1..], iat, exp);
      u != "" && (u[0] == ',' || u[0] == ']')
  {
    hide Escaped, IntText;
  }

  /** The text of the numbers, once the abilities are closed. */
  lemma RestOfNone(iat: int, exp: int)
    ensures Rest([], iat, exp) == "],\"iat\"" + (":" + (IntText(iat) + ("," + EXP + IntText(exp) + "}")))
    ensures Rest([], iat, exp) == "]," + (IAT + IntText(iat) + ",") + ("\"exp\"" + (":" + (IntText(exp) + "}")))
  {
    hide IntText;
  }

  lemma RestOfSome(abilities: seq<string>, iat: int, exp: int)
    requires abilities != []
    ensures Rest(abilities, iat, exp) ==
      Quoted(abilities[0]) + (Separator(abilities) + Rest(abilities[1..], iat, exp))
  {
    hide IntText, Escaped;
  }

  lemma {:induction false} NumberBehindAbilities(abilities: seq<string>, iat: int, exp: int)
    requires IsInt64(iat)
    ensures NumberBehind(Some(Rest(abilities, iat, exp))) == Behind(abilities, iat)
  {
    hide NumberBehind, IntText, Escaped, LeadingInt, Rest;
    if abilities == [] {
      RestOfNone(iat, exp);
      var tail := "," + EXP + IntText(exp) + "}";
      NumberBehindSkips("],\"iat\"", ":" + (IntText(iat) + tail));
      NumberAtColon(iat, tail);
    } else {
      var a, u := abilities[0], Separator(abilities) + Rest(abilities[1..], iat, exp);
      RestOfSome(abilities, iat, exp);
      var k := Find(a, ":", 0);
      if k.Some? {
        ColonInAbility(a, u);
      } else {
        NoColon(a);
        PlainInEscaped(a, ':');
        NumberBehindSkips(Quoted(a), u);
        NumberBehindSkips(Separator(abilities), Rest(abilities[1..], iat, exp));
        NumberBehindAbilities(abilities[1..], iat, exp);
      }
    }
  }

  lemma NoColon(a: string)
    requires Find(a, ":", 0) == None
    ensures ':' !in a
  {
    forall k | 0 <= k < |a| ensures a[k] != ':' { assert !Strings.At(a, k, ":"); assert a[k..k + 1] == [a[k]]; }
  }

  lemma ColonInAbility(a: string, rest: string)
    requires Find(a, ":", 0).Some?
    ensures NumberBehind(Some(Quoted(a) + rest)) == LeadingInt(a[Find(a, ":", 0).value + 1..])
  {
    hide LeadingInt, Escaped;
    var k := Find(a, ":", 0).value;
    var x, z := a[..k], a[k + 1..];
    assert a[k] == a[k..k + 1][0] == ':';
    assert a == x + (":" + z);
    forall i | 0 <= i < k ensures a[i] != ':' { assert !Strings.At(a, i, ":"); assert a[i..i + 1] == [a[i]]; }
    EscapedCat(x, ":" + z);
    EscapedCat(":", z);
    EscapedOne(':');
    PlainInEscaped(x, ':');
    var front := "\"" + Escaped(x);
    var back := ":" + (Escaped(z) + ("\"" + rest));
    assert Quoted(a) + rest == front + back;
    SuffixSkipsWithout(front, back, ":");
    assert ":" <= back && back[1..] == Escaped(z) + ("\"" + rest);
    LeadingIntInValue(z, rest);
  }

  /** What a number key reads from the abilities on. */
  lemma {:induction false} NumberFromAbilities(abilities: seq<string>, key: string, iat: int, exp: int)
    requires IsInt64(iat) && IsInt64(exp) && (key == "iat" || key == "exp")
    ensures NumberBehind(Suffix(Rest(abilities, iat, exp), KeyText(key)))
      == ReadNumber(abilities, key, if key == "iat" then iat else exp, iat)
  {
    hide NumberBehind, IntText, Escaped, LeadingInt, Rest, Suffix, Collides;
    if abilities == [] {
      NumberAfterAbilities(key, iat, exp);
    } else {
      var rest := Rest(abilities[1..], iat, exp);
      var u := Separator(abilities) + rest;
      RestOfSome(abilities, iat, exp);
      RestStart(abilities, iat, exp);
      KeySearchInValue(abilities[0], key, u);
      if Collides(abilities[0], key) {
        NumberBehindSkips(KeyText(key), u);
        NumberBehindSkips(Separator(abilities), rest);
        NumberBehindAbilities(abilities[1..], iat, exp);
      } else {
        SkipStructure(Separator(abilities), rest, key);
        NumberFromAbilities(abilities[1..], key, iat, exp);
      }
    }
  }

  lemma NumberTextHasNoQuote(n: int)
    ensures '"' !in IntText(n)
  {
    var d := NatText(if n < 0 then -n else n);
    assert forall k :: 0 <= k < |d| ==> IsDigit(d[k]);
  }

  lemma NumberAfterAbilities(key: string, iat: int, exp: int)
    requires IsInt64(iat) && IsInt64(exp) && (key == "iat" || key == "exp")
    ensures NumberBehind(Suffix(Rest([], iat, exp), KeyText(key))) == if key == "iat" then iat else exp
  {
    hide NumberBehind, IntText, LeadingInt, Rest;
    RestOfNone(iat, exp);
    if key == "iat" {
      var tail := "," + EXP + IntText(exp) + "}";
      var u := "\"iat\"" + (":" + (IntText(iat) + tail));
      assert "],\"iat\"" + (":" + (IntText(iat) + tail)) == "]," + u;
      SkipStructure("],", u, key);
      assert KeyText(key) <= u;
      NumberBehindSkips("\"iat\"", ":" + (IntText(iat) + tail));
      NumberAtColon(iat, tail);
    } else {
      var u := "\"exp\"" + (":" + (IntText(exp) + "}"));
      NumberTextHasNoQuote(iat);
      SkipStructure("]," + (IAT + IntText(iat) + ","), u, key);
      assert KeyText(key) <= u;
      NumberBehindSkips("\"exp\"", ":" + (IntText(exp) + "}"));
      NumberAtColon(exp, "}");
    }
  }

  /** A number key of a whole claims text. */
  lemma NumberRead(c: Claims, key: string)
    requires IsInt64(c.iat) && IsInt64(c.exp) && (key == "iat" || key == "exp")
    ensures ExtractInt(ClaimsJson(c), key) ==
      if Collides(c.sub, key) then 0
      else ReadNumber(c.abilities, key, if key == "iat" then c.iat else c.exp, c.iat)
  {
    hide NumberBehind, IntText, Escaped, LeadingInt, Rest, Suffix, Collides, ReadNumber;
    var j, r := ClaimsJson(c), Rest(c.abilities, c.iat, c.exp);
    var u := MIDDLE + r;
    ExtractIntIs(j, key);
    assert j == "{\"sub\":" + (Quoted(c.sub) + u);
    SkipStructure("{\"sub\":", Quoted(c.sub) + u, key);
    KeySearchInValue(c.sub, key, u);
    if Collides(c.sub, key) {
      var front := KeyText(key) + ",\"abilities\"";
      assert KeyText(key) + u == front + (":[" + r);
      NumberBehindSkips(front, ":[" + r);
      NumberAtBracket(r);
    } else {
      SkipStructure(MIDDLE, r, key);
      NumberFromAbilities(c.abilities, key, c.iat, c.exp);
    }
  }

  lemma NumberAtBracket(r: string)
    ensures NumberBehind(Some(":[" + r)) == 0
  {
    assert ":" <= ":[" + r && (":[" + r)[1..] == "" + ['['] + r;
    LeadingIntStops("", '[', r);
  }

  /** The subject always reads back. */
  lemma SubjectRead(c: Claims)
    ensures ExtractString(ClaimsJson(c), "sub") == c.sub
  {
    hide Escaped, Rest, StringValue, Suffix, ClaimsJson;
    var rest := MIDDLE + Rest(c.abilities, c.iat, c.exp);
    var v := "\"" + (Escaped(c.sub) + ("\"" + rest));
    var u := "\"sub\"" + (":" + v);
    SubjectLayout(c, rest, v);
    SuffixSkipsWithout("{", u, KeyText("sub"));
    SuffixAtStart(u, KeyText("sub"));
    SuffixSkipsWithout("\"sub\"", ":" + v, ":");
    SuffixAtStart(":" + v, ":");
    SuffixAtStart(v, "\"");
    StringValueOfEscaped(c.sub, rest);
  }

  lemma SubjectLayout(c: Claims, rest: string, v: string)
    requires rest == MIDDLE + Rest(c.abilities, c.iat, c.exp)
    requires v == "\"" + (Escaped(c.sub) + ("\"" + rest))
    ensures ClaimsJson(c) == "{" + ("\"sub\"" + (":" + v))
    ensures KeyText("sub") <= "\"sub\"" + (":" + v)
    ensures (":" + v)[1..] == v && v[1..] == Escaped(c.sub) + ("\"" + rest)
  {
    hide Escaped, Rest;
    LayoutText(Escaped(c.sub), rest);
    assert KeyText("sub") + (":" + v) == "\"sub\"" + (":" + v);
  }

  lemma LayoutText(e: string, rest: string)
    ensures "{\"sub\":" + ("\"" + e + "\"") + rest == "{" + ("\"sub\"" + (":" + ("\"" + (e + ("\"" + rest)))))
  {}

  // ---- the abilities ----

  lemma FindSkips(a: string, b: string, c: char)
    requires c !in a
    ensures var k := Find(b, [c], 0);
      Find(a + b, [c], 0) == if k.None? then None else Some(|a| + k.value)
  {
    hide Find, Suffix;
    FindIsSuffix(a + b, [c], 0);
    FindIsSuffix(b, [c], 0);
    SuffixSkipsWithout(a, b, [c]);
    FindBound(a + b, [c]);
    FindBound(b, [c]);
    assert (a + b)[0..] == a + b && b[0..] == b;
    var k, m := Find(b, [c], 0), Find(a + b, [c], 0);
    if k.Some? && m.Some? { assert |(a + b)[m.value..]| == |b[k.value..]|; }
  }

  lemma FindBound(s: string, p: string)
    ensures Find(s, p, 0).Some? ==> Find(s, p, 0).value + |p| <= |s|
  {}

  lemma FindFirst(c: char, b: string)
    ensures Find([c] + b, [c], 0) == Some(0)
  {
    assert ([c] + b)[0..1] == [c];
    FindAt([c] + b, [c], 0, 0);
  }

  lemma FindWithin(a: string, b: string, c: char)
    requires c in a
    ensures Find(a + b, [c], 0).Some? && Find(a + b, [c], 0).value < |a|
  {
    var k :| 0 <= k < |a| && a[k] == c;
    assert (a + b)[k..k + 1] == [c];
    assert Strings.At(a + b, k, [c]);
  }

  /** The first closing bracket of the abilities' text. */
  lemma {:induction false} ClosesSomewhere(abilities: seq<string>, iat: int, exp: int)
    ensures Find(Rest(abilities, iat, exp), "]", 0).Some?
  {
    hide Escaped, IntText, Find, Rest;
    if abilities == [] {
      RestOfNone(iat, exp);
      var t := ",\"iat\"" + (":" + (IntText(iat) + ("," + EXP + IntText(exp) + "}")));
      assert Rest([], iat, exp) == "]" + t;
      FindFirst(']', t);
    } else {
      RestOfSome(abilities, iat, exp);
      var q, u := Quoted(abilities[0]), Separator(abilities) + Rest(abilities[1..], iat, exp);
      ClosesSomewhere(abilities[1..], iat, exp);
      FindSkips(Separator(abilities), Rest(abilities[1..], iat, exp), ']');
      if ']' in q { FindWithin(q, u, ']'); } else { FindSkips(q, u, ']'); }
    }
  }

  /** One string of the array, and where reading goes on. */
  lemma StringValuesStep(a: string, u: string, room: int)
    requires room > 0
    ensures StringValues(Quoted(a) + u, room) ==
      [a] + StringValues(u, room - |Quoted(a)|)
  {
    hide Escaped, StringValue, StringLength, StringValues, Find;
    var e := Escaped(a);
    var s, t := Quoted(a) + u, e + ("\"" + u);
    ValueLayout(e, u);
    FindFirst('"', t);
    StringValueOfEscaped(a, u);
    StringValuesUnfold(s, room);
  }

  lemma ValueLayout(e: string, u: string)
    ensures var s := "\"" + e + "\"" + u; var t := e + ("\"" + u);
      s == ['"'] + t && s[1..] == t && s[|e| + 2..] == u && |s| == |e| + 2 + |u|
  {
    var f := "\"" + e + "\"";
    assert f + u == ['"'] + (e + ("\"" + u));
    assert (f + u)[|f|..] == u;
  }

  lemma StringValuesUnfold(s: string, room: int)
    ensures var q := Find(s, "\"", 0);
      StringValues(s, room) ==
        if room <= 0 || q.None? || q.value >= room then []
        else
          var p := q.value + 1 + StringLength(s[q.value + 1..]);
          [StringValue(s[q.value + 1..])] + (if p < |s| then StringValues(s[p + 1..], room - (p + 1)) else [])
  {
    hide StringValue, StringLength, Find;
  }

  lemma NoRoom(s: string, room: int)
    requires room <= 0
    ensures StringValues(s, room) == []
  {}

  /** A separator in front shifts the reading by one. */
  lemma SkipSeparator(s: string, room: int)
    requires s != "" && s[0] == '"'
    ensures StringValues("," + s, room + 1) == StringValues(s, room)
  {
    hide StringValue, StringLength, Find, StringValues;
    var t := "," + s;
    assert s == ['"'] + s[1..];
    FindFirst('"', s[1..]);
    FindSkips(",", s, '"');
    StringValuesUnfold(t, room + 1);
    StringValuesUnfold(s, room);
    assert t[2..] == s[1..];
    var p := 1 + StringLength(s[1..]);
    if p < |s| { assert t[p + 2..] == s[p + 1..]; }
  }

  /** The array reads back up to the first ability that holds a closing bracket. */
  lemma {:induction false} AbilitiesRead(abilities: seq<string>, iat: int, exp: int)
    ensures var r := Rest(abilities, iat, exp); var k := Find(r, "]", 0);
      k.Some? && StringValues(r, k.value) == Kept(abilities)
  {
    hide Escaped, IntText, Find, Rest, StringValues;
    ClosesSomewhere(abilities, iat, exp);
    var r := Rest(abilities, iat, exp);
    if abilities == [] {
      RestOfNone(iat, exp);
      var t := ",\"iat\"" + (":" + (IntText(iat) + ("," + EXP + IntText(exp) + "}")));
      assert r == "]" + t;
      FindFirst(']', t);
      NoRoom(r, 0);
    } else {
      var a, q := abilities[0], Quoted(abilities[0]);
      var r' := Rest(abilities[1..], iat, exp);
      var u := Separator(abilities) + r';
      RestOfSome(abilities, iat, exp);
      RestStart(abilities, iat, exp);
      RestStart(abilities[1..], iat, exp);
      PlainInEscaped(a, ']');
      assert ']' in q <==> ']' in a;
      AbilitiesRead(abilities[1..], iat, exp);
      FindSkips(Separator(abilities), r', ']');
      if ']' in a {
        FindWithin(q, u, ']');
        RoomIsPositive(q, u);
        StringValuesStep(a, u, Find(r, "]", 0).value);
        NoRoom(u, Find(r, "]", 0).value - |q|);
      } else {
        FindSkips(q, u, ']');
        var room := Find(u, "]", 0).value;
        StringValuesStep(a, u, |q| + room);
        if |abilities| > 1 {
          SkipSeparator(r', room - 1);
        } else {
          assert u == r';
        }
      }
    }
  }

  lemma RoomIsPositive(q: string, u: string)
    requires q != "" && q[0] == '"' && Find(q + u, "]", 0).Some?
    ensures Find(q + u, "]", 0).value > 0
  {
    assert (q + u)[0] == '"';
    Strings.NotAt(q + u, 0, "]", 0);
  }

  /** The abilities of a whole claims text, whether or not the subject collides with the key. */
  lemma AbilitiesOfText(c: Claims)
    ensures ExtractStrings(ClaimsJson(c), "abilities") == Kept(c.abilities)
  {
    hide IntText, Escaped, Rest, Suffix, Collides, Find, StringValues, Kept;
    var j, r := ClaimsJson(c), Rest(c.abilities, c.iat, c.exp);
    var u, key := MIDDLE + r, "abilities";
    assert j == "{\"sub\":" + (Quoted(c.sub) + u);
    SkipStructure("{\"sub\":", Quoted(c.sub) + u, key);
    KeySearchInValue(c.sub, key, u);
    var b := "[" + r;
    if Collides(c.sub, key) {
      var front := KeyText(key) + ",\"abilities\":";
      assert KeyText(key) + u == front + b;
      SuffixSkipsWithout(front, b, "[");
    } else {
      var k := KeyText(key) + (":" + b);
      assert u == "," + k;
      SuffixSkipsWithout(",", k, KeyText(key));
      SuffixAtStart(k, KeyText(key));
      assert k == (KeyText(key) + ":") + b;
      SuffixSkipsWithout(KeyText(key) + ":", b, "[");
    }
    SuffixAtStart(b, "[");
    FindSkips("[", r, ']');
    AbilitiesRead(c.abilities, c.iat, c.exp);
    assert b[1..] == r;
  }

  lemma SuffixAtStart(s: string, p: string)
    requires p <= s
    ensures Suffix(s, p) == Some(s)
  {}

  /** Reading a claims text gives exactly `ReadBack` of the claims. */
  lemma ClaimsReadBack(c: Claims)
    requires IsInt64(c.iat) && IsInt64(c.exp)
    ensures ParsedClaims(ClaimsJson(c)) == ReadBack(c)
  {
    hide ClaimsJson, ExtractString, ExtractStrings, ExtractInt;
    SubjectRead(c);
    AbilitiesOfText(c);
    NumberRead(c, "iat");
    NumberRead(c, "exp");
  }

  // ---- signing and verifying ----

  function SigningInput(c: Claims): string
    requires IsBytes(ClaimsJson(c))
  {
    Base64Url.Encoded(HEADER) + "." + Base64Url.Encoded(ClaimsJson(c))
  }

  lemma {:induction false} EscapedBytes(s: string)
    requires IsBytes(s)
    ensures IsBytes(Escaped(s))
  {
    if s != "" { EscapedBytes(s[..|s| - 1]); }
  }

  lemma {:induction false} NatTextBytes(n: nat)
    ensures IsBytes(NatText(n))
  {
    if n >= 10 { NatTextBytes(n / 10); }
  }

  lemma {:induction false} RestBytes(abilities: seq<string>, iat: int, exp: int)
    requires forall a <- abilities :: IsBytes(a)
    ensures IsBytes(Rest(abilities, iat, exp))
  {
    hide Rest, Escaped, IntText;
    if abilities == [] {
      RestOfNone(iat, exp);
      IntTextBytes(iat);
      IntTextBytes(exp);
    } else {
      assert abilities[0] in abilities;
      RestOfSome(abilities, iat, exp);
      EscapedBytes(abilities[0]);
      RestBytes(abilities[1..], iat, exp);
    }
  }

  lemma IntTextBytes(n: int)
    ensures IsBytes(IntText(n))
  {
    NatTextBytes(if n < 0 then -n else n);
  }

  lemma ClaimsBytes(c: Claims)
    requires Representable(c)
    ensures IsBytes(ClaimsJson(c))
  {
    hide Rest, Escaped;
    EscapedBytes(c.sub);
    RestBytes(c.abilities, c.iat, c.exp);
  }

  /** The token that `sign` makes. */
  function Signed(c: Claims, secret: string, mac: Mac): string
    requires Representable(c) && IsBytes(mac(secret, (ClaimsBytes(c); SigningInput(c))))
  {
    ClaimsBytes(c);
    SigningInput(c) + "." + Base64Url.Encoded(mac(secret, SigningInput(c)))
  }

  /** What `verify` answers; `now` is not 0. */
  function Verified(token: string, secret: string, now: int, mac: Mac): Option<Claims>
    requires forall text :: IsBytes(mac(secret, text))
  {
    var d1 := Find(token, ".", 0);
    if d1.None? then None
    else
      var d2 := Find(token, ".", d1.value + 1);
      if d2.None? then None
      else if token[d2.value + 1..] != Base64Url.Encoded(mac(secret, token[..d2.value])) then None
      else
        var c := ParsedClaims(Decoded(token[d1.value + 1..d2.value]));
        if c.exp != 0 && now > c.exp then None else Some(c)
  }

  // ---- main results ----

  lemma EncodedHasNoDot(s: string)
    requires IsBytes(s)
    ensures '.' !in Base64Url.Encoded(s)
  {
    EncodedShape(s);
    assert Value('.') == -1;
  }

  /** The next dot ends the part that starts here. */
  lemma DotAfter(t: string, n: nat, a: string, u: string)
    requires n <= |t| && t[n..] == a + (['.'] + u) && '.' !in a
    ensures Find(t, ".", n) == Some(n + |a|)
  {
    hide *;
    FindFrom(t, ".", n);
    FindFirst('.', u);
    FindSkips(a, ['.'] + u, '.');
  }

  lemma DotSlices(t: string, a: string, b: string, c: string, u: string)
    requires t == a + "." + b + "." + c && u == b + (['.'] + c)
    ensures var n := |a| + 1 + |b|;
      && n < |t| && t[0..] == a + (['.'] + u) && t[|a| + 1..] == u
      && t[|a| + 1..n] == b && t[..n] == a + "." + b && t[n + 1..] == c
  {
    assert t == (a + ".") + u;
    assert t == (a + "." + b) + (['.'] + c);
    assert t == (a + "." + b + ".") + c;
  }

  lemma FindFrom(t: string, p: string, i: nat)
    requires i <= |t| && p != ""
    ensures var k := Find(t[i..], p, 0);
      Find(t, p, i) == if k.None? then None else Some(i + k.value)
  {
    hide Find, Suffix;
    FindIsSuffix(t, p, i);
    FindIsSuffix(t[i..], p, 0);
    assert t[i..][0..] == t[i..];
    FindBoundFrom(t, p, i);
    FindBoundFrom(t[i..], p, 0);
    var k, m := Find(t[i..], p, 0), Find(t, p, i);
    if k.Some? && m.Some? { assert |t[m.value..]| == |t[i..][k.value..]|; }
  }

  lemma FindBoundFrom(s: string, p: string, i: nat)
    ensures Find(s, p, i).Some? ==> i <= Find(s, p, i).value && Find(s, p, i).value + |p| <= |s|
  {}

  /** Three parts with a dot behind each of the first two. */
  predicate Parts(token: string, head: string, body: string, sig: string) {
    token == head + "." + body + "." + sig && '.' !in head && '.' !in body
  }

  /** What a token must be to be accepted with these claims: its last part is the code of all that
      stands before it, its middle part holds the claims, and they have not expired. */
  ghost predicate Accepted(token: string, secret: string, now: int, mac: Mac, c: Claims)
    requires forall text :: IsBytes(mac(secret, text))
  {
    && (c.exp == 0 || now <= c.exp)
    && exists head, body, sig ::
         Parts(token, head, body, sig)
         && sig == Base64Url.Encoded(mac(secret, head + "." + body)) && c == ParsedClaims(Decoded(body))
  }

  lemma NoDotBefore(t: string, n: nat, k: nat)
    requires n <= |t| && Find(t, ".", n) == Some(k)
    ensures n <= k < |t| && t[k] == '.' && '.' !in t[n..k]
  {
    AtChar(t, k, ".", 0);
    forall j | n <= j < k ensures t[j] != '.' {
      DotIsAt(t, j);
    }
  }

  lemma DotIsAt(t: string, j: nat)
    requires j < |t|
    ensures t[j] == '.' ==> At(t, j, ".")
  {
    assert t[j..j + 1] == [t[j]];
  }

  /** The dots of a token in three parts are where its searches find them. */
  lemma PartsFound(token: string, head: string, body: string, sig: string)
    requires Parts(token, head, body, sig)
    ensures var n := |head| + 1 + |body|;
      && Find(token, ".", 0) == Some(|head|) && Find(token, ".", |head| + 1) == Some(n)
      && n < |token| && token[|head| + 1..n] == body && token[..n] == head + "." + body && token[n + 1..] == sig
  {
    hide Find;
    DotSlices(token, head, body, sig, body + (['.'] + sig));
    DotAfter(token, 0, head, body + (['.'] + sig));
    DotAfter(token, |head| + 1, body, sig);
  }

  lemma FoundParts(token: string, d1: nat, d2: nat)
    requires Find(token, ".", 0) == Some(d1) && d1 < |token| && Find(token, ".", d1 + 1) == Some(d2)
    ensures d1 < d2 < |token| && Parts(token, token[..d1], token[d1 + 1..d2], token[d2 + 1..])
    ensures token[..d2] == token[..d1] + "." + token[d1 + 1..d2]
  {
    hide Find;
    NoDotBefore(token, 0, d1);
    NoDotBefore(token, d1 + 1, d2);
    assert token[0..d1] == token[..d1];
    assert token[..d2] == token[..d1] + "." + token[d1 + 1..d2];
    assert token == token[..d2] + "." + token[d2 + 1..];
  }

  /** Exactly which tokens are accepted, and with which claims: forged or not, whoever made them. */
  lemma VerifiedIffAccepted(token: string, secret: string, now: int, mac: Mac, c: Claims)
    requires forall text :: IsBytes(mac(secret, text))
    ensures Verified(token, secret, now, mac) == Some(c) <==> Accepted(token, secret, now, mac, c)
  {
    hide Find, ParsedClaims, Base64Url.Encoded, Decoded, Parts;
    if Verified(token, secret, now, mac) == Some(c) {
      FindBoundFrom(token, ".", 0);
      var d1 := Find(token, ".", 0).value;
      var d2 := Find(token, ".", d1 + 1).value;
      FoundParts(token, d1, d2);
      assert Parts(token, token[..d1], token[d1 + 1..d2], token[d2 + 1..]);
    }
    if Accepted(token, secret, now, mac, c) {
      var head, body, sig :| Parts(token, head, body, sig)
        && sig == Base64Url.Encoded(mac(secret, head + "." + body)) && c == ParsedClaims(Decoded(body));
      PartsFound(token, head, body, sig);
    }
  }

  /** The whole path: a signed token verifies, and gives back exactly `ReadBack` of its claims,
      unless the expiry that is read back has passed. Holds for any authentication code. */
  lemma VerifySigned(c: Claims, secret: string, now: int, mac: Mac)
    requires Representable(c) && forall text :: IsBytes(mac(secret, text))
    ensures Verified(Signed(c, secret, mac), secret, now, mac) ==
      if ReadBack(c).exp != 0 && now > ReadBack(c).exp then None else Some(ReadBack(c))
  {
    hide ParsedClaims, ClaimsJson, Base64Url.Encoded, Decoded, Find, ReadBack, Representable;
    ClaimsBytes(c);
    HeaderBytes();
    var j := ClaimsJson(c);
    var a, b := Base64Url.Encoded(HEADER), Base64Url.Encoded(j);
    EncodedHasNoDot(HEADER);
    EncodedHasNoDot(j);
    var sig := Base64Url.Encoded(mac(secret, SigningInput(c)));
    DotSlices(Signed(c, secret, mac), a, b, sig, b + (['.'] + sig));
    DotAfter(Signed(c, secret, mac), 0, a, b + (['.'] + sig));
    DotAfter(Signed(c, secret, mac), |a| + 1, b, sig);
    DecodeEncode(j);
    Int64Times(c);
    ClaimsReadBack(c);
  }

  lemma HeaderBytes()
    ensures IsBytes(HEADER)
  {}

  lemma Int64Times(c: Claims)
    requires Representable(c)
    ensures IsInt64(c.iat) && IsInt64(c.exp)
  {}

  /** Exactly when signing and verifying is the identity: the number keys are read from the
      right place and no ability but the last holds a closing bracket. */
  predicate Faithful(c: Claims) {
    && (if Collides(c.sub, "iat") then c.iat == 0 else ReadNumber(c.abilities, "iat", c.iat, c.iat) == c.iat)
    && (if Collides(c.sub, "exp") then c.exp == 0 else ReadNumber(c.abilities, "exp", c.exp, c.iat) == c.exp)
    && forall k :: 0 <= k < |c.abilities| - 1 ==> ']' !in c.abilities[k]
  }

  lemma {:induction false} KeptAll(abilities: seq<string>)
    ensures Kept(abilities) == abilities <==> forall k :: 0 <= k < |abilities| - 1 ==> ']' !in abilities[k]
  {
    if abilities != [] {
      var rest := abilities[1..];
      KeptAll(rest);
      assert abilities == [abilities[0]] + rest;
      assert forall k :: 0 <= k < |rest| ==> abilities[k + 1] == rest[k];
      if ']' in abilities[0] {
        if |abilities| == 1 { assert rest == []; }
      } else {
        assert Kept(abilities)[1..] == Kept(rest);
        if forall k :: 0 <= k < |rest| - 1 ==> ']' !in rest[k] {
          forall k | 0 <= k < |abilities| - 1 ensures ']' !in abilities[k] {
            if k > 0 { assert abilities[k] == rest[k - 1]; }
          }
        }
      }
    }
  }

  /** The round trip holds for exactly the faithful claims that have not expired. */
  lemma RoundTripIff(c: Claims, secret: string, now: int, mac: Mac)
    requires Representable(c) && forall text :: IsBytes(mac(secret, text))
    ensures Verified(Signed(c, secret, mac), secret, now, mac) == Some(c) <==>
      Faithful(c) && (c.exp == 0 || now <= c.exp)
  {
    hide Verified, Signed, Representable, ReadNumber, Collides, Kept;
    VerifySigned(c, secret, now, mac);
    KeptAll(c.abilities);
  }

  /** Ordinary claims are faithful: no string is or ends like a quoted number key, and no
      ability holds a closing bracket. */
  lemma {:induction false} OrdinaryIsFaithful(c: Claims)
    requires !Collides(c.sub, "iat") && !Collides(c.sub, "exp")
    requires forall a <- c.abilities :: !Collides(a, "iat") && !Collides(a, "exp") && ']' !in a
    ensures Faithful(c)
  {
    hide Collides;
    NoCollision(c.abilities, "iat", c.iat, c.iat);
    NoCollision(c.abilities, "exp", c.exp, c.iat);
  }

  lemma {:induction false} NoCollision(abilities: seq<string>, key: string, own: int, iat: int)
    requires forall a <- abilities :: !Collides(a, key)
    ensures ReadNumber(abilities, key, own, iat) == own
  {
    hide Collides;
    if abilities != [] { NoCollision(abilities[1..], key, own, iat); }
  }

  /** A subject spelled like a key does not come back: its token reads as issued at 0. */
  lemma CollidingSubject(secret: string, now: int, mac: Mac)
    requires forall text :: IsBytes(mac(secret, text))
    ensures var c := Claims("iat", [], 5, 0);
      Representable(c) && Verified(Signed(c, secret, mac), secret, now, mac) == Some(c.(iat := 0))
  {
    VerifySigned(Claims("iat", [], 5, 0), secret, now, mac);
  }

  // ---- which strings round-trip whatever the times ----

  /** No ability behind the first that collides with the issue-time key holds a colon. */
  predicate ColonsAhead(abilities: seq<string>) {
    abilities == [] ||
    if Collides(abilities[0], "iat") then forall k :: 0 < k < |abilities| ==> ':' !in abilities[k]
    else ColonsAhead(abilities[1..])
  }

  /** The subject collides with neither number key, no ability with the expiry key, no colon
      stands behind an ability that collides with the issue-time key, and only the last ability
      may hold a closing bracket. */
  predicate SafeStrings(sub: string, abilities: seq<string>) {
    && !Collides(sub, "iat") && !Collides(sub, "exp")
    && (forall a <- abilities :: !Collides(a, "exp"))
    && ColonsAhead(abilities)
    && forall k :: 0 <= k < |abilities| - 1 ==> ']' !in abilities[k]
  }

  lemma {:induction false} BehindColonIs(abilities: seq<string>)
    ensures BehindColon(abilities).None? <==> forall a <- abilities :: ':' !in a
  {
    if abilities != [] {
      hide Find;
      BehindColonIs(abilities[1..]);
      ColonFound(abilities[0]);
      assert abilities[0] in abilities && forall a <- abilities :: a == abilities[0] || a in abilities[1..];
    }
  }

  lemma ColonFound(s: string)
    ensures Find(s, ":", 0).Some? <==> ':' in s
  {
    var k := Find(s, ":", 0);
    if ':' in s {
      var i :| 0 <= i < |s| && s[i] == ':';
      assert s[i..i + 1] == ":";
      assert At(s, i, ":");
    }
    if k.Some? {
      AtChar(s, k.value, ":", 0);
    }
  }

  lemma ColonsAheadHead(abilities: seq<string>)
    requires abilities != []
    ensures ColonsAhead(abilities) <==>
      if Collides(abilities[0], "iat") then BehindColon(abilities[1..]).None? else ColonsAhead(abilities[1..])
  {
    hide Collides;
    var rest := abilities[1..];
    BehindColonIs(rest);
    if ColonsAhead(abilities) && Collides(abilities[0], "iat") {
      forall a | a in rest ensures ':' !in a {
        var k :| 0 <= k < |rest| && rest[k] == a;
        assert abilities[k + 1] == a;
      }
    } else if forall a <- rest :: ':' !in a {
      forall k | 0 < k < |abilities| ensures ':' !in abilities[k] {
        assert abilities[k] == rest[k - 1] && rest[k - 1] in rest;
      }
    }
  }

  /** With no colon behind a colliding ability, the issue time reads back. */
  lemma {:induction false} IssueTimeKept(abilities: seq<string>, iat: int)
    requires ColonsAhead(abilities)
    ensures ReadNumber(abilities, "iat", iat, iat) == iat
  {
    hide Collides, LeadingInt, ColonsAhead;
    if abilities != [] {
      ColonsAheadHead(abilities);
      if !Collides(abilities[0], "iat") { IssueTimeKept(abilities[1..], iat); }
    }
  }

  /** With one, the same number is read whatever the issue time was. */
  lemma {:induction false} IssueTimeLost(abilities: seq<string>) returns (z: int)
    requires !ColonsAhead(abilities)
    ensures forall iat :: ReadNumber(abilities, "iat", iat, iat) == z
  {
    ColonsAheadHead(abilities);
    hide Collides, LeadingInt, ColonsAhead;
    if Collides(abilities[0], "iat") {
      z := LeadingInt(BehindColon(abilities[1..]).value);
    } else {
      z := IssueTimeLost(abilities[1..]);
    }
  }

  /** A colliding ability takes the expiry's place: the number read does not depend on it. */
  lemma {:induction false} ExpiryLost(abilities: seq<string>, iat: int) returns (z: int)
    requires exists a <- abilities :: Collides(a, "exp")
    ensures forall exp :: ReadNumber(abilities, "exp", exp, iat) == z
  {
    hide Collides;
    if Collides(abilities[0], "exp") {
      z := Behind(abilities[1..], iat);
    } else {
      var a :| a in abilities && Collides(a, "exp");
      assert a in abilities[1..];
      z := ExpiryLost(abilities[1..], iat);
    }
  }

  /** Claims with these strings are faithful whatever their times. */
  ghost predicate AlwaysFaithful(sub: string, abilities: seq<string>) {
    forall iat, exp | IsInt64(iat) && IsInt64(exp) :: Faithful(Claims(sub, abilities, iat, exp))
  }

  lemma SafeIsFaithful(sub: string, abilities: seq<string>)
    requires SafeStrings(sub, abilities)
    ensures AlwaysFaithful(sub, abilities)
  {
    hide Collides, ReadNumber, ColonsAhead;
    forall iat, exp | IsInt64(iat) && IsInt64(exp) ensures Faithful(Claims(sub, abilities, iat, exp)) {
      IssueTimeKept(abilities, iat);
      NoCollision(abilities, "exp", exp, iat);
    }
  }

  /** Strings that are not safe already fail with times 0 or 1. */
  lemma UnsafeIsUnfaithful(sub: string, abilities: seq<string>) returns (iat: int, exp: int)
    requires !SafeStrings(sub, abilities)
    ensures 0 <= iat <= 1 && 0 <= exp <= 1 && !Faithful(Claims(sub, abilities, iat, exp))
  {
    hide Collides, ReadNumber, ColonsAhead;
    iat, exp := if Collides(sub, "iat") then 1 else 0, if Collides(sub, "exp") then 1 else 0;
    if Collides(sub, "iat") || Collides(sub, "exp") {
    } else if !ColonsAhead(abilities) {
      var z := IssueTimeLost(abilities);
      iat := if z == 0 then 1 else 0;
    } else if exists a <- abilities :: Collides(a, "exp") {
      var z := ExpiryLost(abilities, 0);
      exp := if z == 0 then 1 else 0;
    }
  }

  /** The round trip, as a condition on the strings alone: signing and verifying gives claims back
      for every issue time and every expiry that has not passed if and only if the strings are
      safe. */
  lemma StringsRoundTrip(sub: string, abilities: seq<string>, secret: string, mac: Mac)
    requires IsBytes(sub) && (forall a <- abilities :: IsBytes(a)) && forall text :: IsBytes(mac(secret, text))
    ensures SafeStrings(sub, abilities) <==>
      forall iat, exp, now | IsInt64(iat) && IsInt64(exp) && (exp == 0 || now <= exp) ::
        Verified(Signed(Claims(sub, abilities, iat, exp), secret, mac), secret, now, mac) == Some(Claims(sub, abilities, iat, exp))
  {
    hide Verified, Signed, Faithful, SafeStrings;
    if SafeStrings(sub, abilities) {
      SafeIsFaithful(sub, abilities);
      forall iat, exp, now | IsInt64(iat) && IsInt64(exp) && (exp == 0 || now <= exp)
        ensures Verified(Signed(Claims(sub, abilities, iat, exp), secret, mac), secret, now, mac) == Some(Claims(sub, abilities, iat, exp))
      {
        RoundTripIff(Claims(sub, abilities, iat, exp), secret, now, mac);
      }
    } else {
      var iat, exp := UnsafeIsUnfaithful(sub, abilities);
      RoundTripIff(Claims(sub, abilities, iat, exp), secret, exp, mac);
    }
  }
}
