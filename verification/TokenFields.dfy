/** The text of the tokens of include/token.hpp written out, and what its field readers make of any
    claims text, not only of those the library writes. */
module TokenFields {
  import opened Wrappers
  import opened Strings
  import opened Numbers
  import opened Base64Url
  import opened Tokens

  // ---- the text that is signed ----

  /** The abilities, each in quotes, with a comma between any two. */
  function Listed(abilities: seq<string>): string {
    if abilities == [] then ""
    else if |abilities| == 1 then "\"" + Escaped(abilities[0]) + "\""
    else Listed(abilities[..|abilities| - 1]) + ",\"" + Escaped(abilities[|abilities| - 1]) + "\""
  }

  lemma {:induction false} ListedFront(a: string, more: seq<string>)
    requires more != []
    ensures Listed([a] + more) == "\"" + Escaped(a) + "\"" + "," + Listed(more)
  {
    hide Escaped;
    var n, all := |more|, [a] + more;
    assert all[..|all| - 1] == [a] + more[..n - 1] && all[|all| - 1] == more[n - 1];
    var last := ",\"" + Escaped(more[n - 1]) + "\"";
    if n == 1 {
      assert [a] + more[..0] == [a];
      assert "\"" + Escaped(a) + "\"" + ",\"" + Escaped(more[0]) + "\""
        == "\"" + Escaped(a) + "\"" + "," + ("\"" + Escaped(more[0]) + "\"");
    } else {
      ListedFront(a, more[..n - 1]);
      ListedLast(all);
      ListedLast(more);
      var head, mid := "\"" + Escaped(a) + "\"" + ",", Listed(more[..n - 1]);
      assert (head + mid) + last == head + (mid + last);
    }
  }

  lemma ListedLast(all: seq<string>)
    requires |all| > 1
    ensures Listed(all) == Listed(all[..|all| - 1]) + (",\"" + Escaped(all[|all| - 1]) + "\"")
  {
    hide Escaped;
    var front, last := Listed(all[..|all| - 1]), Escaped(all[|all| - 1]);
    assert front + ",\"" + last + "\"" == front + (",\"" + last + "\"");
  }

  lemma {:induction false} RestSpelled(abilities: seq<string>, iat: int, exp: int)
    ensures Rest(abilities, iat, exp)
      == Listed(abilities) + ("],\"iat\":" + (IntText(iat) + (",\"exp\":" + (IntText(exp) + "}"))))
  {
    hide *;
    var end := "],\"iat\":" + (IntText(iat) + (",\"exp\":" + (IntText(exp) + "}")));
    EndSpelled(iat, exp);
    if abilities == [] {
      RestNone(iat, exp);
      assert "" + end == end;
    } else {
      var tail := abilities[1..];
      RestSpelled(tail, iat, exp);
      RestSome(abilities, iat, exp);
      assert [abilities[0]] + tail == abilities;
      var a := "\"" + Escaped(abilities[0]) + "\"";
      if |abilities| == 1 {
        ListedOne(abilities[0]);
        assert tail == [] && abilities == [abilities[0]];
        assert a + "" + ("" + end) == a + end;
      } else {
        ListedFront(abilities[0], tail);
        var more := Listed(tail);
        assert a + "," + (more + end) == (a + "," + more) + end;
      }
    }
  }

  lemma ListedOne(a: string)
    ensures Listed([]) == "" && Listed([a]) == "\"" + Escaped(a) + "\""
  {}

  lemma RestNone(iat: int, exp: int)
    ensures Rest([], iat, exp) == "]," + IAT + IntText(iat) + "," + EXP + IntText(exp) + "}" && Listed([]) == ""
  {}

  lemma RestSome(abilities: seq<string>, iat: int, exp: int)
    requires abilities != []
    ensures Rest(abilities, iat, exp)
      == "\"" + Escaped(abilities[0]) + "\"" + (if |abilities| > 1 then "," else "") + Rest(abilities[1..], iat, exp)
  {
    hide Escaped;
  }

  lemma EndSpelled(iat: int, exp: int)
    ensures "]," + IAT + IntText(iat) + "," + EXP + IntText(exp) + "}"
      == "],\"iat\":" + (IntText(iat) + (",\"exp\":" + (IntText(exp) + "}")))
  {
    hide IntText;
    var i, e := IntText(iat), IntText(exp);
    assert "]," + IAT == "],\"iat\":" && "," + EXP == ",\"exp\":";
    assert "],\"iat\":" + i + "," + EXP + e + "}" == "],\"iat\":" + (i + (("," + EXP) + (e + "}")));
  }

  /** A token, letter by letter: the header, the claims and the code, each encoded, with dots between. */
  lemma SignedSpelled(c: Claims, secret: string, mac: Mac)
    requires Representable(c) && forall text :: IsBytes(mac(secret, text))
    ensures var json := "{\"sub\":\"" + Escaped(c.sub) + "\",\"abilities\":[" +
        (Listed(c.abilities) + ("],\"iat\":" + (IntText(c.iat) + (",\"exp\":" + (IntText(c.exp) + "}")))));
      var header := "{\"alg\":\"HS256\",\"typ\":\"JWT\"}";
      && IsBytes(json) && IsBytes(header)
      && Signed(c, secret, mac) == Encoded(header) + "." + Encoded(json) + "."
        + Encoded(mac(secret, Encoded(header) + "." + Encoded(json)))
  {
    hide Encoded, Rest, Escaped, Listed, IntText;
    ClaimsBytes(c);
    HeaderBytes();
    RestSpelled(c.abilities, c.iat, c.exp);
    JsonSpelled(c);
  }

  lemma JsonSpelled(c: Claims)
    ensures ClaimsJson(c) == "{\"sub\":\"" + Escaped(c.sub) + "\",\"abilities\":[" + Rest(c.abilities, c.iat, c.exp)
  {
    hide Rest, Escaped;
    var sub, rest := Escaped(c.sub), Rest(c.abilities, c.iat, c.exp);
    assert "{\"sub\":" + ("\"" + sub + "\"") + MIDDLE + rest == ("{\"sub\":" + "\"") + sub + ("\"" + MIDDLE) + rest;
  }

  /** Quotes and backslashes get a backslash in front; every other character stands for itself. */
  lemma EscapesSpelled(c: char, a: string, b: string)
    ensures Escaped("\"") == "\\\"" && Escaped("\\") == "\\\\" && Escaped("") == ""
    ensures c != '\"' && c != '\\' ==> Escaped([c]) == [c]
    ensures Escaped(a + b) == Escaped(a) + Escaped(b)
  {
    assert "\""[..0] == "" && "\\"[..0] == "";
    EscapedCat(a, b);
    if c != '\"' && c != '\\' { EscapedOne(c); }
  }

  // ---- reading any claims text ----

  /** The key in quotes stands behind `pre` and nowhere before. */
  ghost predicate FirstAt(j: string, pre: string, key: string, behind: string) {
    && j == pre + ("\"" + key + "\"" + behind)
    && forall k :: 0 <= k < |pre| ==> !At(j, k, "\"" + key + "\"")
  }

  ghost predicate Nowhere(j: string, key: string) {
    forall k: nat :: !At(j, k, "\"" + key + "\"")
  }

  lemma KeyFound(j: string, pre: string, key: string, behind: string)
    requires FirstAt(j, pre, key, behind)
    ensures Suffix(j, KeyText(key)) == Some(KeyText(key) + behind)
  {
    hide Suffix, Find;
    assert j[|pre|..|pre| + |KeyText(key)|] == KeyText(key);
    FindAt(j, KeyText(key), 0, |pre|);
    FindIsSuffix(j, KeyText(key), 0);
    assert j[0..] == j && j[|pre|..] == KeyText(key) + behind;
  }

  lemma KeyMissing(j: string, key: string)
    requires Nowhere(j, key)
    ensures Suffix(j, KeyText(key)) == None
  {
    hide Suffix, Find;
    FindIsSuffix(j, KeyText(key), 0);
    assert j[0..] == j;
    assert KeyText(key) == "\"" + key + "\"";
  }

  /** What stands behind the first colon from the key on. */
  lemma ColonFound(j: string, pre: string, key: string, gap: string, behind: string)
    requires ':' !in key && ':' !in gap && FirstAt(j, pre, key, gap + (":" + behind))
    ensures AfterKey(j, key) == Some(behind)
  {
    hide Suffix;
    KeyFound(j, pre, key, gap + (":" + behind));
    var t := KeyText(key) + gap;
    assert KeyText(key) + (gap + (":" + behind)) == t + (":" + behind);
    SuffixSkipsWithout(t, ":" + behind, ":");
    SuffixAtStart(":" + behind, ":");
    assert (":" + behind)[1..] == behind;
  }

  /** A string field is the string behind the colon behind its key, unescaped; a missing key or quote
      gives the empty string. */
  lemma StringFieldReads(j: string, pre: string, key: string, gap: string, blank: string, v: string, rest: string)
    requires ':' !in key && ':' !in gap && '\"' !in blank
    ensures FirstAt(j, pre, key, gap + (":" + (blank + ("\"" + (Escaped(v) + ("\"" + rest)))))) ==> ExtractString(j, key) == v
    ensures FirstAt(j, pre, key, gap + (":" + blank)) ==> ExtractString(j, key) == ""
    ensures Nowhere(j, key) || FirstAt(j, pre, key, gap) ==> ExtractString(j, key) == ""
  {
    hide Suffix, Escaped, StringValue, FirstAt, Nowhere, AfterKey;
    var value := "\"" + (Escaped(v) + ("\"" + rest));
    if FirstAt(j, pre, key, gap + (":" + (blank + value))) {
      ColonFound(j, pre, key, gap, blank + value);
      SuffixSkipsWithout(blank, value, "\"");
      SuffixAtStart(value, "\"");
      StringValueOfEscaped(v, rest);
      assert value[1..] == Escaped(v) + ("\"" + rest);
    }
    if FirstAt(j, pre, key, gap + (":" + blank)) {
      ColonFound(j, pre, key, gap, blank);
      NotThere(blank, "\"");
    }
    if FirstAt(j, pre, key, gap) { NoColonBehind(j, pre, key, gap); }
    if Nowhere(j, key) { NoField(j, key); }
  }

  lemma NoField(j: string, key: string)
    requires Nowhere(j, key)
    ensures AfterKey(j, key) == None
  {
    KeyMissing(j, key);
  }

  lemma NoColonBehind(j: string, pre: string, key: string, gap: string)
    requires ':' !in key && ':' !in gap && FirstAt(j, pre, key, gap)
    ensures AfterKey(j, key) == None
  {
    hide Suffix;
    KeyFound(j, pre, key, gap);
    NotThere(KeyText(key) + gap, ":");
  }

  lemma NotThere(a: string, p: string)
    requires |p| == 1 && p[0] !in a
    ensures Suffix(a, p) == None
  {
    hide Suffix;
    SuffixSkipsWithout(a, "", p);
    assert a + "" == a;
    ShortHasNone("", p);
  }

  /** A number field is the number behind the colon behind its key, 0 where there is none or it does
      not fit; only spaces may stand in front of it. */
  lemma IntFieldReads(j: string, pre: string, key: string, gap: string, blanks: string, sign: string, digits: string, rest: string)
    requires ':' !in key && ':' !in gap && (forall c <- blanks :: c == ' ')
    requires Numbers.Sign(sign) && AllDigits(digits) && (rest == "" || !IsDigit(rest[0]))
    requires sign == "" && digits == "" && rest != "" ==> rest[0] != ' ' && !Numbers.Sign([rest[0]])
    ensures FirstAt(j, pre, key, gap + (":" + (blanks + (sign + (digits + rest))))) ==>
      var n := if sign == "-" then -(NatOf(digits) as int) else NatOf(digits) as int;
      ExtractInt(j, key) == if digits != "" && INT64_MIN <= n <= INT64_MAX then n else 0
    ensures Nowhere(j, key) || FirstAt(j, pre, key, gap) ==> ExtractInt(j, key) == 0
  {
    hide LeadingInt, NatOf, FirstAt, Nowhere, AfterKey;
    var value := blanks + (sign + (digits + rest));
    if FirstAt(j, pre, key, gap + (":" + value)) {
      ColonFound(j, pre, key, gap, value);
      LeadingIntReads(blanks, sign, digits, rest);
    }
    if FirstAt(j, pre, key, gap) { NoColonBehind(j, pre, key, gap); }
    if Nowhere(j, key) { NoField(j, key); }
  }
}
