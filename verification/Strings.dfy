/** The std::string searches the components rely on. */
module Strings {
  import opened Wrappers

  /** `p` stands in `s` at position `i`. */
  predicate At(s: string, i: nat, p: string) {
    i + |p| <= |s| && s[i..i + |p|] == p
  }

  /** `s.find(p, i)`. */
  function Find(s: string, p: string, i: nat): (r: Option<nat>)
    ensures r.Some? ==> i <= r.value && At(s, r.value, p) && forall k :: i <= k < r.value ==> !At(s, k, p)
    ensures r.None? ==> forall k :: i <= k ==> !At(s, k, p)
    decreases |s| - i
  {
    if i + |p| > |s| then None else if At(s, i, p) then Some(i) else Find(s, p, i + 1)
  }

  lemma FindAt(s: string, p: string, i: nat, k: nat)
    requires i <= k && At(s, k, p) && forall j :: i <= j < k ==> !At(s, j, p)
    ensures Find(s, p, i) == Some(k)
  {}

  lemma AtCat(s: string, i: nat, a: string, b: string)
    ensures At(s, i, a + b) <==> At(s, i, a) && At(s, i + |a|, b)
  {
    if At(s, i, a + b) {
      assert s[i..i + |a|] == s[i..i + |a| + |b|][..|a|] == a;
      assert s[i + |a|..i + |a| + |b|] == s[i..i + |a| + |b|][|a|..] == b;
    }
  }

  lemma AtChar(s: string, i: nat, p: string, k: nat)
    requires At(s, i, p) && k < |p|
    ensures s[i + k] == p[k]
  {
    assert s[i..i + |p|][k] == p[k];
  }

  lemma NotAt(s: string, i: nat, p: string, k: nat)
    requires k < |p| && (i + k < |s| ==> s[i + k] != p[k])
    ensures !At(s, i, p)
  {
    if i + |p| <= |s| { assert s[i..i + |p|][k] == s[i + k]; }
  }

  predicate IsSpace(c: char) {
    c == ' ' || c == '\t' || c == '\r' || c == '\n'
  }

  function TrimLeft(s: string): string {
    if s != "" && IsSpace(s[0]) then TrimLeft(s[1..]) else s
  }

  function TrimRight(s: string): string {
    if s != "" && IsSpace(s[|s| - 1]) then TrimRight(s[..|s| - 1]) else s
  }

  /** `trim`: the text between the first and the last character that is no space. */
  function Trim(s: string): string {
    TrimRight(TrimLeft(s))
  }

  /** The rest of `s` from the first `p` on. */
  function Suffix(s: string, p: string): (r: Option<string>)
    ensures r.Some? ==> p <= r.value && |r.value| <= |s|
  {
    if p <= s then Some(s) else if s == "" then None else Suffix(s[1..], p)
  }

  /** Searching forward from a position is searching the rest of the text. */
  lemma {:induction false} FindIsSuffix(s: string, p: string, i: nat)
    requires i <= |s| && p != ""
    ensures var k := Find(s, p, i);
      Suffix(s[i..], p) == if k.None? then None else Some(s[k.value..])
    decreases |s| - i
  {
    AtIsPrefix(s, i, p);
    if i + |p| <= |s| && !At(s, i, p) {
      assert s[i..][1..] == s[i + 1..];
      FindIsSuffix(s, p, i + 1);
    } else if i + |p| > |s| {
      ShortHasNone(s[i..], p);
    }
  }

  lemma AtIsPrefix(s: string, i: nat, p: string)
    requires i <= |s|
    ensures At(s, i, p) <==> p <= s[i..]
  {
    if p <= s[i..] { assert s[i..i + |p|] == s[i..][..|p|]; }
    if At(s, i, p) { assert s[i..][..|p|] == s[i..i + |p|]; }
  }

  lemma {:induction false} ShortHasNone(s: string, p: string)
    requires |s| < |p|
    ensures Suffix(s, p) == None
  {
    if s != "" { ShortHasNone(s[1..], p); }
  }

  /** Characters at which the pattern cannot begin are passed over. */
  lemma {:induction false} SuffixSkips(a: string, b: string, p: string)
    requires forall k :: 0 <= k < |a| ==> !(p <= a[k..] + b)
    ensures Suffix(a + b, p) == Suffix(b, p)
  {
    if a == "" {
      assert a + b == b;
    } else {
      assert a[0..] == a && (a + b)[1..] == a[1..] + b;
      forall k | 0 <= k < |a[1..]| ensures !(p <= a[1..][k..] + b) {
        assert a[1..][k..] == a[k + 1..];
      }
      SuffixSkips(a[1..], b, p);
    }
  }

  /** A text without the pattern's first character is passed over. */
  lemma SuffixSkipsWithout(a: string, b: string, p: string)
    requires p != "" && p[0] !in a
    ensures Suffix(a + b, p) == Suffix(b, p)
  {
    forall k | 0 <= k < |a| ensures !(p <= a[k..] + b) {
      assert (a[k..] + b)[0] == a[k] && a[k] in a;
    }
    SuffixSkips(a, b, p);
  }
}
