/** Decimal text: what std::to_string writes and std::stoi and std::stoll read back. */
module Numbers {
  import opened Wrappers

  const INT_MIN: int := -0x8000_0000
  const INT_MAX: int := 0x7FFF_FFFF
  const INT64_MIN: int := -0x8000_0000_0000_0000
  const INT64_MAX: int := 0x7FFF_FFFF_FFFF_FFFF

  predicate IsDigit(c: char) {
    '0' <= c <= '9'
  }

  function DigitChar(d: nat): (c: char)
    requires d < 10
    ensures IsDigit(c) && DigitValue(c) == d
  {
    '0' + d as char
  }

  function DigitValue(c: char): (d: nat)
    requires IsDigit(c)
    ensures d < 10
  {
    (c - '0') as nat
  }

  predicate AllDigits(s: string) {
    forall k :: 0 <= k < |s| ==> IsDigit(s[k])
  }

  function NatText(n: nat): (s: string)
    ensures s != "" && AllDigits(s)
  {
    if n < 10 then [DigitChar(n)] else NatText(n / 10) + [DigitChar(n % 10)]
  }

  /** `std::to_string`. */
  function IntText(n: int): string {
    if n < 0 then "-" + NatText(-n) else NatText(n)
  }

  function NatOf(s: string): nat
    requires AllDigits(s)
  {
    if s == "" then 0 else 10 * NatOf(s[..|s| - 1]) + DigitValue(s[|s| - 1])
  }

  function TakeDigits(s: string): (r: string)
    ensures AllDigits(r) && |r| <= |s|
  {
    if s != "" && IsDigit(s[0]) then [s[0]] + TakeDigits(s[1..]) else ""
  }

  function SkipSpaces(s: string): string {
    if s != "" && s[0] == ' ' then SkipSpaces(s[1..]) else s
  }

  /** The value of the number a text begins with, after blanks; 0 when there is none or it does
      not fit 64 bits. */
  function LeadingInt(s: string): int {
    var t := SkipSpaces(s);
    var signed := t != "" && (t[0] == '-' || t[0] == '+');
    var digits := TakeDigits(if signed then t[1..] else t);
    var n := if signed && t[0] == '-' then -(NatOf(digits) as int) else NatOf(digits) as int;
    if INT64_MIN <= n <= INT64_MAX then n else 0
  }

  lemma {:induction false} NatRoundTrip(n: nat)
    ensures NatOf(NatText(n)) == n
  {
    if n >= 10 {
      NatRoundTrip(n / 10);
      var s := NatText(n);
      assert s[..|s| - 1] == NatText(n / 10);
    }
  }

  lemma {:induction false} TakesDigits(d: string, rest: string)
    requires AllDigits(d) && (rest == "" || !IsDigit(rest[0]))
    ensures TakeDigits(d + rest) == d
  {
    if d == "" {
      assert d + rest == rest;
    } else {
      assert (d + rest)[1..] == d[1..] + rest;
      TakesDigits(d[1..], rest);
      assert d == [d[0]] + d[1..];
    }
  }

  /** A number written and read back is the same, whatever non-digit follows. */
  lemma LeadingIntOfText(n: int, rest: string)
    requires INT64_MIN <= n <= INT64_MAX && (rest == "" || !IsDigit(rest[0]))
    ensures LeadingInt(IntText(n) + rest) == n
  {
    hide NatText, NatOf, TakeDigits;
    var d := NatText(if n < 0 then -n else n);
    TakesDigits(d, rest);
    NatRoundTrip(if n < 0 then -n else n);
    if n < 0 {
      assert (IntText(n) + rest)[1..] == d + rest;
    } else {
      assert (d + rest)[0] == d[0];
    }
  }

  /** Only the text before a character that is no blank, sign or digit counts. */
  lemma {:induction false} LeadingIntStops(a: string, stop: char, rest: string)
    requires stop != ' ' && stop != '-' && stop != '+' && !IsDigit(stop)
    ensures LeadingInt(a + [stop] + rest) == LeadingInt(a)
  {
    SpacesStop(a, [stop] + rest);
    assert a + [stop] + rest == a + ([stop] + rest);
    var t := SkipSpaces(a);
    if t == "" {
      assert t + ([stop] + rest) == [stop] + rest;
      assert TakeDigits([stop] + rest) == "";
    } else {
      DigitsStop(t, [stop] + rest);
      assert (t + ([stop] + rest))[1..] == t[1..] + ([stop] + rest);
      DigitsStop(t[1..], [stop] + rest);
    }
  }

  lemma {:induction false} SpacesStop(a: string, b: string)
    requires b != "" && b[0] != ' '
    ensures SkipSpaces(a + b) == SkipSpaces(a) + b
  {
    if a == "" {
      assert a + b == b;
    } else {
      assert (a + b)[1..] == a[1..] + b;
      if a[0] == ' ' { SpacesStop(a[1..], b); }
    }
  }

  lemma {:induction false} DigitsStop(a: string, b: string)
    requires b != "" && !IsDigit(b[0])
    ensures TakeDigits(a + b) == TakeDigits(a)
  {
    if a == "" {
      assert a + b == b;
    } else {
      assert (a + b)[1..] == a[1..] + b;
      if IsDigit(a[0]) { DigitsStop(a[1..], b); }
    }
  }

  // ---- std::stoi and std::stoll on arbitrary text ----

  function SkipBlanks(s: string): string {
    if s != "" && (s[0] == ' ' || '\t' <= s[0] <= '\r') then SkipBlanks(s[1..]) else s
  }

  /** The number a text begins with, after white space; None where the conversion throws, for
      want of a digit or because the number lies outside `lo..hi`. */
  function ParseInt(s: string, lo: int, hi: int): Option<int> {
    var t := SkipBlanks(s);
    var signed := t != "" && (t[0] == '-' || t[0] == '+');
    var digits := TakeDigits(if signed then t[1..] else t);
    var n := if signed && t[0] == '-' then -(NatOf(digits) as int) else NatOf(digits) as int;
    if digits != "" && lo <= n <= hi then Some(n) else None
  }

  lemma ParseIntOfText(n: int, rest: string, lo: int, hi: int)
    requires lo <= n <= hi && (rest == "" || !IsDigit(rest[0]))
    ensures ParseInt(IntText(n) + rest, lo, hi) == Some(n)
  {
    hide NatText, NatOf, TakeDigits;
    var d := NatText(if n < 0 then -n else n);
    TakesDigits(d, rest);
    NatRoundTrip(if n < 0 then -n else n);
    if n < 0 {
      assert (IntText(n) + rest)[1..] == d + rest;
    } else {
      assert (d + rest)[0] == d[0];
    }
  }

  lemma ParseIntOfDigits(d: string, lo: int, hi: int)
    requires AllDigits(d) && d != "" && lo <= NatOf(d) <= hi
    ensures ParseInt(d, lo, hi) == Some(NatOf(d) as int)
  {
    hide NatOf, TakeDigits;
    assert IsDigit(d[0]);
    TakesDigits(d, "");
    assert d + "" == d;
  }

  // ---- what any text is read as ----

  /** A sign that may stand before a number. */
  predicate Sign(s: string) {
    s == "" || s == "-" || s == "+"
  }

  predicate White(s: string) {
    forall c <- s :: c in " \t\n\r" || c == 11 as char || c == 12 as char
  }

  /** White space, a sign and digits are read as the number they write, whatever follows; without a
      digit, or outside the range, the conversion throws. */
  lemma ParseIntReads(blanks: string, sign: string, digits: string, rest: string, lo: int, hi: int)
    requires White(blanks) && Sign(sign) && AllDigits(digits) && (rest == "" || !IsDigit(rest[0]))
    requires sign == "" && digits == "" && rest != "" ==> !White([rest[0]]) && !Sign([rest[0]])
    ensures var n := if sign == "-" then -(NatOf(digits) as int) else NatOf(digits) as int;
      ParseInt(blanks + (sign + (digits + rest)), lo, hi) == if digits != "" && lo <= n <= hi then Some(n) else None
  {
    hide NatOf, TakeDigits;
    var t := sign + (digits + rest);
    if sign != "" {
      assert t[0] == sign[0] && (t[0] == '-' || t[0] == '+');
    } else if digits != "" {
      assert t[0] == digits[0] && IsDigit(t[0]);
    } else if rest != "" {
      BlankIs(rest[0]);
      assert t == rest && t[0] == rest[0];
    } else {
      assert t == "";
    }
    BlanksSkip(blanks, t);
    assert sign == "" ==> t == digits + rest;
    assert sign != "" ==> t[1..] == digits + rest;
    TakesDigits(digits, rest);
  }

  lemma BlankIs(c: char)
    ensures White([c]) <==> c == ' ' || '\t' <= c <= '\r'
  {
    assert c in [c];
  }

  lemma {:induction false} BlanksSkip(blanks: string, t: string)
    requires White(blanks) && (t == "" || !(t[0] == ' ' || '\t' <= t[0] <= '\r'))
    ensures SkipBlanks(blanks + t) == t
  {
    if blanks == "" {
      assert blanks + t == t;
    } else {
      assert (blanks + t)[1..] == blanks[1..] + t && blanks[0] in blanks;
      BlanksSkip(blanks[1..], t);
    }
  }

  /** Likewise for the numbers of a token's claims, where only spaces are skipped and 0 stands for
      whatever cannot be read. */
  lemma LeadingIntReads(blanks: string, sign: string, digits: string, rest: string)
    requires (forall c <- blanks :: c == ' ') && Sign(sign) && AllDigits(digits) && (rest == "" || !IsDigit(rest[0]))
    requires sign == "" && digits == "" && rest != "" ==> rest[0] != ' ' && !Sign([rest[0]])
    ensures var n := if sign == "-" then -(NatOf(digits) as int) else NatOf(digits) as int;
      LeadingInt(blanks + (sign + (digits + rest))) == if digits != "" && INT64_MIN <= n <= INT64_MAX then n else 0
  {
    hide TakeDigits;
    var t := sign + (digits + rest);
    assert sign == "" && digits == "" ==> t == rest;
    assert sign == "" && digits != "" ==> t[0] == digits[0] && IsDigit(digits[0]);
    SpacesSkip(blanks, t);
    assert sign == "" ==> t == digits + rest;
    assert sign != "" ==> t[1..] == digits + rest;
    TakesDigits(digits, rest);
  }

  lemma {:induction false} SpacesSkip(blanks: string, t: string)
    requires (forall c <- blanks :: c == ' ') && (t == "" || t[0] != ' ')
    ensures SkipSpaces(blanks + t) == t
  {
    if blanks == "" {
      assert blanks + t == t;
    } else {
      assert (blanks + t)[1..] == blanks[1..] + t && blanks[0] in blanks;
      assert forall c <- blanks[1..] :: c in blanks;
      SpacesSkip(blanks[1..], t);
    }
  }

  /** Digits are decimal, the most significant first. */
  lemma DecimalDigits()
    ensures IntText(0) == "0" && IntText(1024) == "1024" && IntText(-507) == "-507"
    ensures NatOf("1024") == 1024 && NatOf("507") == 507
  {
    assert NatText(1) == "1" && NatText(10) == "10" && NatText(102) == "102" && NatText(1024) == "1024";
    assert NatText(5) == "5" && NatText(50) == "50" && NatText(507) == "507";
    assert "-" + "507" == "-507";
    NatRoundTrip(1024);
    NatRoundTrip(507);
  }
}
