/** The accumulator loops and compositions of include/token.hpp, each proved to compute its
    specification in Tokens. */
module TokenCodec {
  import opened Bits
  import opened Wrappers
  import opened Strings
  import opened Numbers
  import B = Base64Url
  import opened Tokens

  method JsonEscape(s: string) returns (o: string)
    ensures o == Escaped(s)
  {
    o := "";
    for i := 0 to |s|
      invariant o == Escaped(s[..i])
    {
      var c := s[i];
      assert s[..i + 1][..i] == s[..i] && s[..i + 1][i] == c;
      hide Escaped;
      if c == '"' || c == '\\' {
        o := o + "\\";
        o := o + [c];
        assert o == Escaped(s[..i]) + ['\\', c];
      } else {
        o := o + [c];
      }
      EscapedSnoc(s, i);
    }
    assert s[..|s|] == s;
  }

  lemma EscapedSnoc(s: string, i: nat)
    requires i < |s|
    ensures Escaped(s[..i + 1]) == Escaped(s[..i]) + EscapeChar(s[i])
  {
    assert s[..i + 1][..i] == s[..i];
  }

  /** The comma the loop of `claims_json` puts before ability `i`. */
  function Comma(abilities: seq<string>, i: nat): string {
    if 0 < i < |abilities| then "," else ""
  }

  lemma RestTurn(abilities: seq<string>, i: nat, iat: int, exp: int)
    requires i < |abilities|
    ensures Rest(abilities[i..], iat, exp) ==
      Quoted(abilities[i]) + (Comma(abilities, i + 1) + Rest(abilities[i + 1..], iat, exp))
  {
    hide Rest, Escaped;
    RestOfSome(abilities[i..], iat, exp);
    assert abilities[i..][1..] == abilities[i + 1..];
  }

  /** `claims_json`. */
  method ClaimsText(c: Claims) returns (s: string)
    ensures s == ClaimsJson(c)
  {
    hide Rest, Escaped, IntText;
    var sub := JsonEscape(c.sub);
    s := "{\"sub\":" + ("\"" + sub + "\"") + MIDDLE;
    assert c.abilities[0..] == c.abilities;
    assert "" + Rest(c.abilities, c.iat, c.exp) == Rest(c.abilities, c.iat, c.exp);
    for i := 0 to |c.abilities|
      invariant ClaimsJson(c) == s + (Comma(c.abilities, i) + Rest(c.abilities[i..], c.iat, c.exp))
    {
      ghost var tail := Rest(c.abilities[i..], c.iat, c.exp);
      AppendTwice(s, Comma(c.abilities, i), tail);
      if i > 0 { s := s + ","; } else { assert s + "" == s; }
      var a := JsonEscape(c.abilities[i]);
      RestTurn(c.abilities, i, c.iat, c.exp);
      AppendTwice(s, Quoted(c.abilities[i]), Comma(c.abilities, i + 1) + Rest(c.abilities[i + 1..], c.iat, c.exp));
      s := s + ("\"" + a + "\"");
    }
    assert c.abilities[|c.abilities|..] == [];
    RestIs(c.iat, c.exp);
    s := s + ("]," + IAT + IntText(c.iat) + "," + EXP + IntText(c.exp) + "}");
  }

  lemma RestIs(iat: int, exp: int)
    ensures "" + Rest([], iat, exp) == "]," + IAT + IntText(iat) + "," + EXP + IntText(exp) + "}"
  {
    hide IntText;
  }

  /** Looking a key up by positions is looking it up in the rest of the text. */
  lemma AfterKeyByPosition(j: string, key: string)
    ensures var k := Find(j, KeyText(key), 0);
      if k.None? then AfterKey(j, key) == None && Suffix(j, KeyText(key)) == None
      else
        && k.value <= |j| && Suffix(j, KeyText(key)) == Some(j[k.value..])
        && var c := Find(j, ":", k.value);
        if c.None? then AfterKey(j, key) == None
        else c.value < |j| && AfterKey(j, key) == Some(j[c.value + 1..])
  {
    hide Find, Suffix;
    assert j[0..] == j && |KeyText(key)| > 0;
    FindIsSuffix(j, KeyText(key), 0);
    FindBoundFrom(j, KeyText(key), 0);
    var k := Find(j, KeyText(key), 0);
    if k.Some? {
      FindIsSuffix(j, ":", k.value);
      FindBoundFrom(j, ":", k.value);
      var c := Find(j, ":", k.value);
      if c.Some? { assert j[c.value..][1..] == j[c.value + 1..]; }
    }
  }

  /** The unescaping loop shared by the string extractors, from behind an opening quote. */
  method ReadString(j: string, from: nat) returns (out: string, p: nat)
    requires from <= |j|
    ensures out == StringValue(j[from..]) && p == from + StringLength(j[from..]) && p <= |j|
  {
    hide StringValue, StringLength;
    out, p := "", from;
    while p < |j| && j[p] != '"'
      invariant from <= p <= |j|
      invariant StringValue(j[from..]) == out + StringValue(j[p..])
      invariant from + StringLength(j[from..]) == p + StringLength(j[p..])
      decreases |j| - p
    {
      StringTurn(j, p);
      if j[p] == '\\' && p + 1 < |j| {
        AppendTwice(out, [j[p + 1]], StringValue(j[p + 2..]));
        out := out + [j[p + 1]];
        p := p + 2;
      } else {
        AppendTwice(out, [j[p]], StringValue(j[p + 1..]));
        out := out + [j[p]];
        p := p + 1;
      }
    }
    StringEnds(j, p);
    assert out + "" == out;
  }

  lemma StringTurn(j: string, p: nat)
    requires p < |j| && j[p] != '"'
    ensures if j[p] == '\\' && p + 1 < |j|
      then StringValue(j[p..]) == [j[p + 1]] + StringValue(j[p + 2..]) && StringLength(j[p..]) == 2 + StringLength(j[p + 2..])
      else StringValue(j[p..]) == [j[p]] + StringValue(j[p + 1..]) && StringLength(j[p..]) == 1 + StringLength(j[p + 1..])
  {
    var t := j[p..];
    assert t[0] == j[p] && t[1..] == j[p + 1..];
    if p + 1 < |j| { assert t[1] == j[p + 1] && t[2..] == j[p + 2..]; }
  }

  lemma StringEnds(j: string, p: nat)
    requires p <= |j| && (p < |j| ==> j[p] == '"')
    ensures StringValue(j[p..]) == "" && StringLength(j[p..]) == 0
  {}

  method ReadStringField(j: string, key: string) returns (out: string)
    ensures out == ExtractString(j, key)
  {
    hide Find, Suffix, AfterKey, StringValue, StringLength;
    AfterKeyByPosition(j, key);
    var k := Find(j, KeyText(key), 0);
    if k.None? { return ""; }
    var colon := Find(j, ":", k.value);
    if colon.None? { return ""; }
    FindIsSuffix(j, "\"", colon.value + 1);
    FindBoundFrom(j, "\"", colon.value + 1);
    var q1 := Find(j, "\"", colon.value + 1);
    if q1.None? { return ""; }
    assert j[q1.value..][1..] == j[q1.value + 1..];
    var s, p := ReadString(j, q1.value + 1);
    out := s;
  }

  lemma {:induction false} DigitsOfDigits(s: string)
    requires AllDigits(s)
    ensures TakeDigits(s) == s
  {
    TakesDigits(s, "");
    assert s + "" == s;
  }

  /** Only the sign and the digits of a text matter for its number. */
  lemma NumberOfPrefix(t: string)
    ensures var u := SkipSpaces(t); var signed := u != "" && (u[0] == '-' || u[0] == '+');
      var digits := TakeDigits(if signed then u[1..] else u);
      LeadingInt(t) == LeadingInt((if signed then [u[0]] else "") + digits)
  {
    var u := SkipSpaces(t);
    var signed := u != "" && (u[0] == '-' || u[0] == '+');
    var digits := TakeDigits(if signed then u[1..] else u);
    DigitsOfDigits(digits);
    hide TakeDigits;
    if signed {
      assert ([u[0]] + digits)[1..] == digits;
    } else {
      assert "" + digits == digits;
      StartsWithDigit(digits);
    }
  }

  lemma StartsWithDigit(digits: string)
    requires AllDigits(digits)
    ensures SkipSpaces(digits) == digits && (digits != "" ==> digits[0] != '-' && digits[0] != '+')
  {}

  /** `extract_int`; std::stoll of the collected text, with its exceptions read as 0, is
      `LeadingInt`. */
  method ReadInt(j: string, key: string) returns (n: int)
    ensures n == ExtractInt(j, key)
  {
    hide Find, Suffix, AfterKey, LeadingInt, SkipSpaces, TakeDigits;
    AfterKeyByPosition(j, key);
    var k := Find(j, KeyText(key), 0);
    if k.None? { return 0; }
    var colon := Find(j, ":", k.value);
    if colon.None? { return 0; }
    var i := colon.value + 1;
    ghost var text := j[i..];
    while i < |j| && j[i] == ' '
      invariant i <= |j| && SkipSpaces(text) == SkipSpaces(j[i..])
    {
      SpacesAt(j, i);
      i := i + 1;
    }
    SpacesAt(j, i);
    var num := "";
    ghost var at := i;
    if i < |j| && (j[i] == '-' || j[i] == '+') {
      num := [j[i]];
      assert j[i..][1..] == j[i + 1..];
      i := i + 1;
    }
    ghost var sign := num;
    while i < |j| && IsDigit(j[i])
      invariant i <= |j|
      invariant sign + TakeDigits(if sign == "" then j[at..] else j[at..][1..]) == num + TakeDigits(j[i..])
    {
      DigitsAt(j, i);
      assert num + ([j[i]] + TakeDigits(j[i + 1..])) == (num + [j[i]]) + TakeDigits(j[i + 1..]);
      num := num + [j[i]];
      i := i + 1;
    }
    NumberOfPrefix(text);
    DigitsAt(j, i);
    assert num + "" == num;
    assert num == sign + TakeDigits(if sign == "" then j[at..] else j[at..][1..]);
    n := LeadingInt(num);
  }

  lemma SpacesAt(j: string, i: nat)
    requires i <= |j|
    ensures SkipSpaces(j[i..]) == if i < |j| && j[i] == ' ' then SkipSpaces(j[i + 1..]) else j[i..]
  {
    if i < |j| { assert j[i..][1..] == j[i + 1..]; }
  }

  lemma DigitsAt(j: string, i: nat)
    requires i <= |j|
    ensures TakeDigits(j[i..]) == if i < |j| && IsDigit(j[i]) then [j[i]] + TakeDigits(j[i + 1..]) else ""
  {
    if i < |j| { assert j[i..][1..] == j[i + 1..]; }
  }

  /** `extract_string_array`. */
  method ReadStringArray(j: string, key: string) returns (out: seq<string>)
    ensures out == ExtractStrings(j, key)
  {
    hide Find, Suffix, StringValue, StringLength, StringValues, AfterKey;
    out := [];
    AfterKeyByPosition(j, key);
    var k := Find(j, KeyText(key), 0);
    if k.None? { return; }
    FindIsSuffix(j, "[", k.value);
    FindBoundFrom(j, "[", k.value);
    var lb := Find(j, "[", k.value);
    if lb.None? { return; }
    FindFrom(j, "]", lb.value);
    FindBoundFrom(j, "]", lb.value);
    var rb := Find(j, "]", lb.value);
    if rb.None? { return; }
    assert j[lb.value..][1..] == j[lb.value + 1..];
    out := ReadStrings(j, lb.value + 1, rb.value);
    assert out == StringValues(j[lb.value + 1..], rb.value - (lb.value + 1));
  }

  /** The strings from position `i` on that begin before `rb`. */
  function StringsFrom(j: string, i: nat, rb: nat): seq<string> {
    if i <= |j| then StringValues(j[i..], rb - i) else []
  }

  /** The loop of `extract_string_array`. */
  method ReadStrings(j: string, from: nat, rb: nat) returns (out: seq<string>)
    requires from <= |j| && rb <= |j|
    ensures out == StringsFrom(j, from, rb)
  {
    hide *;
    out := [];
    var i := from;
    assert out + StringsFrom(j, i, rb) == StringsFrom(j, i, rb);
    while i < rb
      invariant StringsFrom(j, from, rb) == out + StringsFrom(j, i, rb)
      decreases |j| + 1 - i
    {
      StringsTurn(j, i, rb);
      var q1 := Find(j, "\"", i);
      if q1.None? || q1.value >= rb {
        assert out + [] == out;
        return;
      }
      var s, p := ReadString(j, q1.value + 1);
      ghost var more := StringsFrom(j, p + 1, rb);
      assert out + ([s] + more) == (out + [s]) + more;
      out := out + [s];
      i := p + 1;
    }
    NoStringsBehind(j, i, rb);
    assert out + [] == out;
  }

  lemma NoStringsBehind(j: string, i: nat, rb: nat)
    requires rb <= i
    ensures StringsFrom(j, i, rb) == []
  {
    hide StringValues;
    if i <= |j| { NoRoom(j[i..], rb - i); }
  }

  /** `StringValues`, by positions. */
  lemma StringsTurn(j: string, i: nat, rb: nat)
    requires i < rb <= |j|
    ensures var q := Find(j, "\"", i);
      if q.None? || q.value >= rb then StringsFrom(j, i, rb) == []
      else
        && i <= q.value < |j|
        && var from := q.value + 1; var p := from + StringLength(j[from..]);
        StringsFrom(j, i, rb) == [StringValue(j[from..])] + StringsFrom(j, p + 1, rb)
  {
    hide Find, StringValue, StringLength, StringValues;
    FindFrom(j, "\"", i);
    FindBoundFrom(j, "\"", i);
    StringValuesUnfold(j[i..], rb - i);
    var q := Find(j, "\"", i);
    if q.Some? {
      assert j[i..][q.value - i + 1..] == j[q.value + 1..];
      var p := q.value + 1 + StringLength(j[q.value + 1..]);
      if p < |j| { assert j[i..][p - i + 1..] == j[p + 1..]; }
    }
  }

  /** `constant_time_equal`: the accumulated difference is zero exactly for equal strings. */
  method ConstantTimeEqual(a: string, b: string) returns (equal: bool)
    requires B.IsBytes(a) && B.IsBytes(b)
    ensures equal <==> a == b
  {
    if |a| != |b| { return false; }
    var r := 0;
    assert Power2(8) == 256;
    for i := 0 to |a|
      invariant 0 <= r < 256 && (r == 0 <==> a[..i] == b[..i])
    {
      XorTwice(a[i] as int, b[i] as int, 8);
      XorZero(a[i] as int, b[i] as int, 8);
      OrZero(r, XorBits(a[i] as int, b[i] as int, 8), 8);
      PrefixesEqual(a, b, i);
      r := OrBits(r, XorBits(a[i] as int, b[i] as int, 8), 8);
    }
    assert a[..|a|] == a && b[..|b|] == b;
    return r == 0;
  }

  lemma PrefixesEqual(a: string, b: string, i: nat)
    requires i < |a| == |b|
    ensures a[..i + 1] == b[..i + 1] <==> a[..i] == b[..i] && a[i] == b[i]
  {
    if a[..i + 1] == b[..i + 1] {
      assert a[..i] == a[..i + 1][..i] && b[..i] == b[..i + 1][..i];
      assert a[i] == a[..i + 1][i] && b[i] == b[..i + 1][i];
    } else if a[i] == b[i] {
      assert a[..i + 1] == a[..i] + [a[i]] && b[..i + 1] == b[..i] + [b[i]];
    }
  }

  method ParseClaims(j: string) returns (c: Claims)
    ensures c == ParsedClaims(j)
  {
    var sub := ReadStringField(j, "sub");
    var iat := ReadInt(j, "iat");
    var exp := ReadInt(j, "exp");
    var abilities := ReadStringArray(j, "abilities");
    c := Claims(sub, abilities, iat, exp);
  }

  /** `sign`. */
  method Sign(c: Claims, secret: string, mac: Mac) returns (token: string)
    requires Representable(c) && forall text :: B.IsBytes(mac(secret, text))
    ensures token == Signed(c, secret, mac)
  {
    hide ClaimsJson, Representable;
    ClaimsBytes(c);
    HeaderBytes();
    var head := B.Encode(HEADER);
    var text := ClaimsText(c);
    var body := B.Encode(text);
    var input := head + "." + body;
    var sig := B.Encode(mac(secret, input));
    token := input + "." + sig;
  }

  /** `verify`; a `now` of 0 reads the clock. */
  method Verify(token: string, secret: string, now: int, clock: int, mac: Mac) returns (r: Option<Claims>)
    requires B.IsBytes(token) && forall text :: B.IsBytes(mac(secret, text))
    ensures r == Verified(token, secret, if now == 0 then clock else now, mac)
  {
    hide Find, ParsedClaims, B.Encoded, B.Decoded;
    FindBoundFrom(token, ".", 0);
    var d1 := Find(token, ".", 0);
    if d1.None? { return None; }
    FindBoundFrom(token, ".", d1.value + 1);
    var d2 := Find(token, ".", d1.value + 1);
    if d2.None? { return None; }
    var input := token[..d2.value];
    var presented := token[d2.value + 1..];
    var expected := B.Encode(mac(secret, input));
    EncodedBytes(mac(secret, input));
    var same := ConstantTimeEqual(presented, expected);
    if !same { return None; }
    var json := B.Decode(token[d1.value + 1..d2.value]);
    var c := ParseClaims(json);
    var at := if now == 0 then clock else now;
    if c.exp != 0 && at > c.exp { return None; }
    return Some(c);
  }

  lemma EncodedBytes(s: string)
    requires B.IsBytes(s)
    ensures B.IsBytes(B.Encoded(s))
  {
    B.EncodedShape(s);
  }
}
