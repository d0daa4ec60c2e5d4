/** The base64url codec of include/token.hpp: strings of bytes, and an accumulator kept as a
    32-bit signed integer that wraps. */
module Base64Url {
  /** A C++ string: every character is one byte. */
  predicate IsBytes(s: string) {
    forall k :: 0 <= k < |s| ==> s[k] as int < 256
  }

  /** The value of a 32-bit signed integer after a shift that loses the high bits. */
  function Wrap32(x: int): (r: int)
    ensures -0x8000_0000 <= r < 0x8000_0000
    ensures exists q :: r == x + 0x1_0000_0000 * q
  {
    var r := (x + 0x8000_0000) % 0x1_0000_0000 - 0x8000_0000;
    assert r == x + 0x1_0000_0000 * -((x + 0x8000_0000) / 0x1_0000_0000);
    r
  }

  function Digit(n: int): (c: char)
    requires 0 <= n < 64
    ensures Value(c) == n
  {
    if n < 26 then 'A' + n as char
    else if n < 52 then 'a' + (n - 26) as char
    else if n < 62 then '0' + (n - 52) as char
    else if n == 62 then '-' else '_'
  }

  /** `b64url_val`. */
  function Value(c: char): int {
    if 'A' <= c <= 'Z' then c as int - 'A' as int
    else if 'a' <= c <= 'z' then c as int - 'a' as int + 26
    else if '0' <= c <= '9' then c as int - '0' as int + 52
    else if c == '-' then 62
    else if c == '_' then 63
    else -1
  }

  /** The encoding by groups of three bytes, unpadded (section 5 of RFC 4648). */
  function Encoded(s: string): string
    requires IsBytes(s)
  {
    if s == "" then ""
    else
      var a := s[0] as int;
      if |s| == 1 then [Digit(a / 4), Digit(a % 4 * 16)]
      else
        var b := s[1] as int;
        if |s| == 2 then [Digit(a / 4), Digit(a % 4 * 16 + b / 16), Digit(b % 16 * 4)]
        else Group(a, b, s[2] as int) + Encoded(s[3..])
  }

  function Group(a: int, b: int, c: int): string
    requires 0 <= a < 256 && 0 <= b < 256 && 0 <= c < 256
  {
    [Digit(a / 4), Digit(a % 4 * 16 + b / 16), Digit(b % 16 * 4 + c / 64), Digit(c % 64)]
  }

  /** The digits already written for an unfinished group. */
  function Partial(s: string): string
    requires IsBytes(s) && |s| < 3
  {
    if |s| == 0 then ""
    else if |s| == 1 then [Digit(s[0] as int / 4)]
    else [Digit(s[0] as int / 4), Digit(s[0] as int % 4 * 16 + s[1] as int / 16)]
  }

  lemma {:induction false} EncodedAppend(x: string, y: string)
    requires IsBytes(x) && IsBytes(y) && |x| % 3 == 0
    ensures IsBytes(x + y) && Encoded(x + y) == Encoded(x) + Encoded(y)
  {
    hide Digit, Group;
    if x == "" {
      assert x + y == y && Encoded(x) + Encoded(y) == Encoded(y);
    } else {
      EncodedAppend(x[3..], y);
      assert (x + y)[3..] == x[3..] + y;
      var g := Group(x[0] as int, x[1] as int, x[2] as int);
      assert g + (Encoded(x[3..]) + Encoded(y)) == g + Encoded(x[3..]) + Encoded(y);
    }
  }

  /** The encoding is as long as ceil(4n / 3) and uses only the alphabet. */
  lemma {:induction false} EncodedShape(s: string)
    requires IsBytes(s)
    ensures |Encoded(s)| == (4 * |s| + 2) / 3
    ensures forall k :: 0 <= k < |Encoded(s)| ==> Value(Encoded(s)[k]) >= 0
  {
    if |s| >= 3 { EncodedShape(s[3..]); }
  }

  // ---- arithmetic of the accumulator ----

  lemma Mod(m: int, q: int, r: int)
    requires m > 0 && 0 <= r < m
    ensures (m * q + r) % m == r && (m * q + r) / m == q
  {
    var x := m * q + r;
    assert x == m * (x / m) + x % m;
    MultipleBelow(m, x / m - q, r - x % m);
  }

  /** A multiple of `m` smaller than `m` in size is zero. */
  lemma MultipleBelow(m: int, k: int, d: int)
    requires m > 0 && m * k == d && -m < d < m
    ensures k == 0
  {
    Grows(m, k);
  }

  lemma Grows(m: int, k: int)
    requires m > 0
    ensures k >= 1 ==> m * k >= m
    ensures k <= -1 ==> m * k <= -m
  {}

  /** Appending a byte keeps the low bits that are still pending. */
  lemma PushByte(val: int, c: int)
    requires 0 <= c < 256
    ensures var v := Wrap32(val * 256) + c;
      v % 256 == c && v % 1024 == val % 4 * 256 + c && v % 4096 == val % 16 * 256 + c
  {
    var q :| Wrap32(val * 256) == val * 256 + 0x1_0000_0000 * q;
    var v := Wrap32(val * 256) + c;
    hide Wrap32;
    assert v == 256 * (val + 0x100_0000 * q) + c;
    Mod(256, val + 0x100_0000 * q, c);
    assert v == 1024 * (val / 4 + 0x40_0000 * q) + (val % 4 * 256 + c);
    Mod(1024, val / 4 + 0x40_0000 * q, val % 4 * 256 + c);
    assert v == 4096 * (val / 16 + 0x10_0000 * q) + (val % 16 * 256 + c);
    Mod(4096, val / 16 + 0x10_0000 * q, val % 16 * 256 + c);
  }

  lemma Shift2(v: int, r: int)
    requires v % 256 == r
    ensures v / 4 % 64 == r / 4
  {
    var q := v / 256;
    assert v == 4 * (64 * q + r / 4) + r % 4;
    Mod(4, 64 * q + r / 4, r % 4);
    Mod(64, q, r / 4);
  }

  lemma Shift4(v: int, r: int)
    requires v % 1024 == r
    ensures v / 16 % 64 == r / 16
  {
    var q := v / 1024;
    assert v == 16 * (64 * q + r / 16) + r % 16;
    Mod(16, 64 * q + r / 16, r % 16);
    Mod(64, q, r / 16);
  }

  lemma Shift6(v: int, r: int)
    requires v % 4096 == r
    ensures v / 64 % 64 == r / 64 && v % 64 == r % 64
  {
    var q := v / 4096;
    assert v == 64 * (64 * q + r / 64) + r % 64;
    Mod(64, 64 * q + r / 64, r % 64);
    Mod(64, q, r / 64);
  }

  /** The arithmetic shift right of a possibly negative value. */
  function ShiftRight(v: int, bits: nat): int
    decreases bits
  {
    if bits == 0 then v else ShiftRight(v / 2, bits - 1)
  }

  lemma Halves(v: int)
    ensures v / 2 / 2 == v / 4
  {
    var q, r := v / 4, v % 4;
    assert v == 2 * (2 * q + r / 2) + r % 2;
    Mod(2, 2 * q + r / 2, r % 2);
    Mod(2, q, r / 2);
  }

  lemma ShiftTwo(v: int, bits: nat)
    ensures ShiftRight(v, bits + 2) == ShiftRight(v / 4, bits)
  {
    Halves(v);
    assert ShiftRight(v, bits + 2) == ShiftRight(v / 2, bits + 1);
  }

  lemma ShiftRightIs(v: int)
    ensures ShiftRight(v, 0) == v && ShiftRight(v, 2) == v / 4 && ShiftRight(v, 4) == v / 16 && ShiftRight(v, 6) == v / 64
  {
    ShiftTwo(v, 0);
    ShiftTwo(v, 2);
    ShiftTwo(v / 4, 0);
    ShiftTwo(v, 4);
    ShiftTwo(v / 4, 2);
    ShiftTwo(v / 16, 0);
    Quarters(v);
    Quarters(v / 4);
    hide ShiftRight;
  }

  lemma Quarters(v: int)
    ensures v / 4 / 4 == v / 16 && v / 16 / 4 == v / 64
  {
    Halves(v / 4);
    var q, r := v / 16, v % 16;
    assert v == 4 * (4 * q + r / 4) + r % 4;
    Mod(4, 4 * q + r / 4, r % 4);
    Mod(4, q, r / 4);
    var q', r' := v / 64, v % 64;
    assert v == 16 * (4 * q' + r' / 16) + r' % 16;
    Mod(16, 4 * q' + r' / 16, r' % 16);
    Mod(4, q', r' / 16);
  }

  /** The digits that come out of one round of the inner loop, started with `bits` >= 0. */
  method Emit(val: int, bits: int) returns (digits: string, left: int)
    requires bits == 2 || bits == 4 || bits == 6
    ensures left == if bits == 6 then -6 else bits - 6
    ensures digits == if bits == 2 then [Digit(val / 4 % 64)] else if bits == 4 then [Digit(val / 16 % 64)]
                      else [Digit(val / 64 % 64), Digit(val % 64)]
  {
    digits, left := "", bits;
    ShiftRightIs(val);
    while left >= 0
      invariant
        || (left == bits && digits == "")
        || (left == bits - 6 && digits == [Digit(ShiftRight(val, bits) % 64)])
        || (bits == 6 && left == -6 && digits == [Digit(ShiftRight(val, 6) % 64), Digit(ShiftRight(val, 0) % 64)])
      decreases left + 6
    {
      digits := digits + [Digit(ShiftRight(val, left) % 64)];
      left := left - 6;
    }
  }

  /** What one more byte does to an unfinished group. */
  lemma RoundDigits(part: string, val: int, c: char)
    requires IsBytes(part) && |part| < 3 && c as int < 256
    requires |part| == 1 ==> val % 4 == part[0] as int % 4
    requires |part| == 2 ==> val % 16 == part[1] as int % 16
    ensures var v := Wrap32(val * 256) + c as int;
      && (|part| == 0 ==> Partial(part) + [Digit(v / 4 % 64)] == Partial([c]) && v % 4 == c as int % 4)
      && (|part| == 1 ==> Partial(part) + [Digit(v / 16 % 64)] == Partial(part + [c]) && v % 16 == c as int % 16)
      && (|part| == 2 ==>
        Partial(part) + [Digit(v / 64 % 64), Digit(v % 64)] == Group(part[0] as int, part[1] as int, c as int))
  {
    hide Wrap32, Digit, Value;
    var v := Wrap32(val * 256) + c as int;
    PushByte(val, c as int);
    Shift2(v, c as int);
    Shift4(v, val % 4 * 256 + c as int);
    Shift6(v, val % 16 * 256 + c as int);
    LowBits(v, c as int);
    assert (val % 4 * 256 + c as int) / 16 == val % 4 * 16 + c as int / 16;
    assert (val % 16 * 256 + c as int) / 64 == val % 16 * 4 + c as int / 64;
    assert (val % 16 * 256 + c as int) % 64 == c as int % 64;
  }

  lemma LowBits(v: int, c: int)
    requires 0 <= c < 256 && v % 256 == c
    ensures v % 4 == c % 4 && v % 16 == c % 16
  {
    var q := v / 256;
    assert v == 4 * (64 * q + c / 4) + c % 4;
    Mod(4, 64 * q + c / 4, c % 4);
    assert v == 16 * (16 * q + c / 16) + c % 16;
    Mod(16, 16 * q + c / 16, c % 16);
  }

  lemma LastDigit(part: string, val: int)
    requires IsBytes(part) && 0 < |part| < 3
    requires |part| == 1 ==> val % 4 == part[0] as int % 4
    requires |part| == 2 ==> val % 16 == part[1] as int % 16
    ensures var n := ShiftRight(Wrap32(val * 256), if |part| == 1 then 4 else 6) % 64;
      Partial(part) + [Digit(n)] == Encoded(part)
  {
    hide Wrap32, Digit, Value, ShiftRight;
    var w := Wrap32(val * 256);
    PushByte(val, 0);
    ShiftRightIs(w);
    Shift4(w, val % 4 * 256);
    Shift6(w, val % 16 * 256);
    assert val % 4 * 256 / 16 == val % 4 * 16 && val % 16 * 256 / 64 == val % 16 * 4;
  }

  lemma EncodedGroup(x: string, g: string)
    requires IsBytes(x) && IsBytes(g) && |x| % 3 == 0 && |g| == 3
    ensures IsBytes(x + g) && Encoded(x + g) == Encoded(x) + Group(g[0] as int, g[1] as int, g[2] as int)
  {
    EncodedAppend(x, g);
    assert g[3..] == "";
    assert Encoded(g) == Group(g[0] as int, g[1] as int, g[2] as int) + "";
  }

  /** The loop state: `whole` is encoded, the bytes of `part` are partly still in `val`. */
  ghost predicate Between(whole: string, part: string, out: string, val: int, bits: int) {
    && IsBytes(whole) && IsBytes(part) && |whole| % 3 == 0 && |part| < 3
    && bits == (if |part| == 0 then -6 else if |part| == 1 then -4 else -2)
    && (|part| == 1 ==> val % 4 == part[0] as int % 4)
    && (|part| == 2 ==> val % 16 == part[1] as int % 16)
    && out == Encoded(whole) + Partial(part)
  }

  /** One byte more. */
  method Round(c: char, out: string, val: int, bits: int, ghost whole: string, ghost part: string)
    returns (out': string, val': int, bits': int, ghost whole': string, ghost part': string)
    requires c as int < 256 && Between(whole, part, out, val, bits)
    ensures Between(whole', part', out', val', bits') && whole' + part' == whole + part + [c]
  {
    hide Between, Encoded, Partial, Wrap32, ShiftRight, Digit, Value;
    BitsOf(whole, part, out, val, bits);
    val' := Wrap32(val * 256) + c as int;
    var digits;
    digits, bits' := Emit(val', bits + 8);
    out' := out + digits;
    if |part| == 2 {
      RoundWhole(c, out, val, bits, whole, part);
      whole', part' := whole + (part + [c]), "";
      assert whole' + part' == whole' == whole + part + [c];
    } else {
      RoundPart(c, out, val, bits, whole, part, digits);
      Regroup(whole, part, [c]);
      whole', part' := whole, part + [c];
    }
  }

  lemma BitsOf(whole: string, part: string, out: string, val: int, bits: int)
    requires Between(whole, part, out, val, bits)
    ensures |part| < 3 && bits == (if |part| == 0 then -6 else if |part| == 1 then -4 else -2)
  {}

  /** The third byte of a group finishes it. */
  lemma RoundWhole(c: char, out: string, val: int, bits: int, whole: string, part: string)
    requires c as int < 256 && Between(whole, part, out, val, bits) && |part| == 2
    ensures var v := Wrap32(val * 256) + c as int;
      Between(whole + (part + [c]), "", out + [Digit(v / 64 % 64), Digit(v % 64)], v, -6)
  {
    hide Encoded, Partial, Group, Wrap32, Digit, Value;
    var v := Wrap32(val * 256) + c as int;
    RoundDigits(part, val, c);
    Regroup(Encoded(whole), Partial(part), [Digit(v / 64 % 64), Digit(v % 64)]);
    EncodedGroup(whole, part + [c]);
    EmptyParts();
    assert Encoded(whole + (part + [c])) + "" == Encoded(whole + (part + [c]));
  }

  /** A first or second byte stays in the group. */
  lemma RoundPart(c: char, out: string, val: int, bits: int, whole: string, part: string, digits: string)
    requires c as int < 256 && Between(whole, part, out, val, bits) && |part| < 2
    requires var v := Wrap32(val * 256) + c as int;
      digits == if |part| == 0 then [Digit(v / 4 % 64)] else [Digit(v / 16 % 64)]
    ensures Between(whole, part + [c], out + digits, Wrap32(val * 256) + c as int, bits + 2)
  {
    hide Encoded, Partial, Group, Wrap32, Digit, Value;
    RoundDigits(part, val, c);
    Regroup(Encoded(whole), Partial(part), digits);
    assert part + [c] == if part == "" then [c] else [part[0], c];
  }

  /** `b64url_encode`. */
  method Encode(s: string) returns (out: string)
    requires IsBytes(s)
    ensures out == Encoded(s)
  {
    out := "";
    var val, bits := 0, -6;
    ghost var whole, part := "", "";
    EmptyParts();
    for i := 0 to |s|
      invariant Between(whole, part, out, val, bits) && whole + part == s[..i]
    {
      hide Between;
      out, val, bits, whole, part := Round(s[i], out, val, bits, whole, part);
    }
    assert s[..|s|] == s;
    EncodedAppend(whole, part);
    if bits > -6 {
      hide Encoded, Partial, Wrap32, ShiftRight, Digit;
      LastDigit(part, val);
      Regroup(Encoded(whole), Partial(part), [Digit(ShiftRight(Wrap32(val * 256), bits + 8) % 64)]);
      out := out + [Digit(ShiftRight(Wrap32(val * 256), bits + 8) % 64)];
    }
  }

  lemma EmptyParts()
    ensures Encoded("") == "" && Partial("") == ""
  {}

  lemma Regroup(a: string, b: string, c: string)
    ensures (a + b) + c == a + (b + c)
  {}

  // ---- decoding ----

  /** The decoder's loop from a state of its accumulator. Characters outside the alphabet are
      passed over. */
  function DecodedFrom(s: string, val: int, bits: int): string
    requires -8 <= bits < 0
  {
    if s == "" then ""
    else
      var d := Value(s[0]);
      if d < 0 then DecodedFrom(s[1..], val, bits)
      else
        var v := Wrap32(val * 64) + d;
        if bits + 6 >= 0 then
          [(ShiftRight(v, bits + 6) % 256) as char] + DecodedFrom(s[1..], v, bits - 2)
        else DecodedFrom(s[1..], v, bits + 6)
  }

  function Decoded(s: string): string {
    DecodedFrom(s, 0, -8)
  }

  /** `b64url_decode`. */
  method Decode(s: string) returns (out: string)
    ensures out == Decoded(s)
  {
    out := "";
    var val, bits := 0, -8;
    for i := 0 to |s|
      invariant -8 <= bits < 0
      invariant out + DecodedFrom(s[i..], val, bits) == Decoded(s)
    {
      var d := Value(s[i]);
      assert s[i..][1..] == s[i + 1..];
      if d >= 0 {
        val := Wrap32(val * 64) + d;
        bits := bits + 6;
        if bits >= 0 {
          out := out + [(ShiftRight(val, bits) % 256) as char];
          bits := bits - 8;
        }
      }
    }
  }

  lemma PushSextet(val: int, d: int)
    requires 0 <= d < 64
    ensures var v := Wrap32(val * 64) + d;
      v % 64 == d && v % 4096 == val % 64 * 64 + d
  {
    var q :| Wrap32(val * 64) == val * 64 + 0x1_0000_0000 * q;
    var v := Wrap32(val * 64) + d;
    hide Wrap32;
    assert v == 64 * (val + 0x400_0000 * q) + d;
    Mod(64, val + 0x400_0000 * q, d);
    assert v == 4096 * (val / 64 + 0x10_0000 * q) + (val % 64 * 64 + d);
    Mod(4096, val / 64 + 0x10_0000 * q, val % 64 * 64 + d);
  }

  lemma DecodeStep(c: char, rest: string, val: int, bits: int)
    requires -8 <= bits < 0 && Value(c) >= 0
    ensures var v := Wrap32(val * 64) + Value(c);
      DecodedFrom([c] + rest, val, bits) ==
        if bits + 6 >= 0 then [(ShiftRight(v, bits + 6) % 256) as char] + DecodedFrom(rest, v, bits - 2)
        else DecodedFrom(rest, v, bits + 6)
  {
    assert ([c] + rest)[1..] == rest;
  }

  lemma Bytes(v: int, r: int)
    requires v % 4096 == r
    ensures v / 16 % 256 == r / 16 && v / 4 % 256 == r / 4 % 256 && v % 256 == r % 256
  {
    var q := v / 4096;
    assert v == 16 * (256 * q + r / 16) + r % 16;
    Mod(16, 256 * q + r / 16, r % 16);
    Mod(256, q, r / 16);
    assert v == 4 * (1024 * q + r / 4) + r % 4;
    Mod(4, 1024 * q + r / 4, r % 4);
    assert 1024 * q + r / 4 == 256 * (4 * q + r / 4 / 256) + r / 4 % 256;
    Mod(256, 4 * q + r / 4 / 256, r / 4 % 256);
    assert v == 256 * (16 * q + r / 256) + r % 256;
    Mod(256, 16 * q + r / 256, r % 256);
  }

  /** Two characters give one byte. */
  lemma DecodeTwo(d1: int, d2: int, rest: string, val: int) returns (v: int)
    requires 0 <= d1 < 64 && 0 <= d2 < 64
    ensures v % 64 == d2
    ensures DecodedFrom([Digit(d1)] + ([Digit(d2)] + rest), val, -8) ==
      [((d1 * 64 + d2) / 16) as char] + DecodedFrom(rest, v, -4)
  {
    hide DecodedFrom, ShiftRight, Wrap32, Digit, Value;
    var v1 := Wrap32(val * 64) + d1;
    v := Wrap32(v1 * 64) + d2;
    PushSextet(val, d1);
    PushSextet(v1, d2);
    Bytes(v, d1 * 64 + d2);
    ShiftRightIs(v);
    DecodeStep(Digit(d1), [Digit(d2)] + rest, val, -8);
    DecodeStep(Digit(d2), rest, v1, -2);
  }

  /** A third character gives the next byte. */
  lemma DecodeThird(d2: int, d3: int, rest: string, v2: int) returns (v: int)
    requires 0 <= d2 < 64 && 0 <= d3 < 64 && v2 % 64 == d2
    ensures v % 64 == d3
    ensures DecodedFrom([Digit(d3)] + rest, v2, -4) == [((d2 * 64 + d3) / 4 % 256) as char] + DecodedFrom(rest, v, -6)
  {
    hide DecodedFrom, ShiftRight, Wrap32, Digit, Value;
    v := Wrap32(v2 * 64) + d3;
    PushSextet(v2, d3);
    Bytes(v, d2 * 64 + d3);
    ShiftRightIs(v);
    DecodeStep(Digit(d3), rest, v2, -4);
  }

  /** A fourth character gives the last byte of the group. */
  lemma DecodeFourth(d3: int, d4: int, rest: string, v3: int) returns (v: int)
    requires 0 <= d3 < 64 && 0 <= d4 < 64 && v3 % 64 == d3
    ensures DecodedFrom([Digit(d4)] + rest, v3, -6) == [((d3 * 64 + d4) % 256) as char] + DecodedFrom(rest, v, -8)
  {
    hide DecodedFrom, ShiftRight, Wrap32, Digit, Value;
    v := Wrap32(v3 * 64) + d4;
    PushSextet(v3, d4);
    Bytes(v, d3 * 64 + d4);
    ShiftRightIs(v);
    DecodeStep(Digit(d4), rest, v3, -6);
  }

  /** The digits of a group hold its bytes. */
  lemma GroupBytes(a: int, b: int, c: int)
    requires 0 <= a < 256 && 0 <= b < 256 && 0 <= c < 256
    ensures (a / 4 * 64 + (a % 4 * 16 + b / 16)) / 16 == a
    ensures ((a % 4 * 16 + b / 16) * 64 + (b % 16 * 4 + c / 64)) / 4 % 256 == b
    ensures ((b % 16 * 4 + c / 64) * 64 + c % 64) % 256 == c
  {
    assert a / 4 * 64 + (a % 4 * 16 + b / 16) == 16 * a + b / 16;
    Mod(16, a, b / 16);
    assert (a % 4 * 16 + b / 16) * 64 + (b % 16 * 4 + c / 64) == 4 * (256 * (a % 4) + b) + c / 64;
    Mod(4, 256 * (a % 4) + b, c / 64);
    Mod(256, a % 4, b);
    assert (b % 16 * 4 + c / 64) * 64 + c % 64 == 256 * (b % 16) + c;
    Mod(256, b % 16, c);
  }

  /** A finished group decodes to its three bytes, whatever the accumulator held before. */
  lemma DecodeGroup(a: int, b: int, c: int, rest: string, val: int) returns (v: int)
    requires 0 <= a < 256 && 0 <= b < 256 && 0 <= c < 256
    ensures DecodedFrom(Group(a, b, c) + rest, val, -8) == [a as char, b as char, c as char] + DecodedFrom(rest, v, -8)
  {
    hide DecodedFrom, ShiftRight, Wrap32, Digit, Value;
    var d1, d2, d3, d4 := a / 4, a % 4 * 16 + b / 16, b % 16 * 4 + c / 64, c % 64;
    var r3 := [Digit(d4)] + rest;
    var r2 := [Digit(d3)] + r3;
    assert Group(a, b, c) + rest == [Digit(d1)] + ([Digit(d2)] + r2);
    GroupBytes(a, b, c);
    var v2 := DecodeTwo(d1, d2, r2, val);
    var v3 := DecodeThird(d2, d3, r3, v2);
    v := DecodeFourth(d3, d4, rest, v3);
    assert [a as char] + ([b as char] + ([c as char] + DecodedFrom(rest, v, -8)))
      == [a as char, b as char, c as char] + DecodedFrom(rest, v, -8);
  }

  /** An unfinished group decodes to its one or two bytes. */
  lemma DecodeTail(s: string, val: int)
    requires IsBytes(s) && (|s| == 1 || |s| == 2)
    ensures DecodedFrom(Encoded(s), val, -8) == s
  {
    hide DecodedFrom, ShiftRight, Wrap32, Digit, Value;
    var a := s[0] as int;
    var b := if |s| == 2 then s[1] as int else 0;
    var d1, d2, d3 := a / 4, a % 4 * 16 + b / 16, b % 16 * 4;
    GroupBytes(a, b, 0);
    var r2 := if |s| == 2 then [Digit(d3)] + "" else "";
    assert Encoded(s) == [Digit(d1)] + ([Digit(d2)] + r2);
    var v2 := DecodeTwo(d1, d2, r2, val);
    if |s| == 2 {
      var v3 := DecodeThird(d2, d3, "", v2);
      DecodeNone(v3, -6);
      assert s == [a as char] + ([b as char] + "");
    } else {
      DecodeNone(v2, -4);
      assert s == [a as char] + "";
    }
  }

  lemma DecodeNone(val: int, bits: int)
    requires -8 <= bits < 0
    ensures DecodedFrom("", val, bits) == ""
  {}

  lemma {:induction false} DecodedEncodedFrom(s: string, val: int)
    requires IsBytes(s)
    ensures DecodedFrom(Encoded(s), val, -8) == s
  {
    hide DecodedFrom, Group;
    if s == "" {
      DecodeNone(val, -8);
    } else if |s| < 3 {
      DecodeTail(s, val);
    } else {
      var v := DecodeGroup(s[0] as int, s[1] as int, s[2] as int, Encoded(s[3..]), val);
      DecodedEncodedFrom(s[3..], v);
      assert s == [s[0], s[1], s[2]] + s[3..];
    }
  }

  /** Round trip, for every byte string and with both accumulators wrapping. */
  lemma DecodeEncode(s: string)
    requires IsBytes(s)
    ensures Decoded(Encoded(s)) == s
  {
    DecodedEncodedFrom(s, 0);
  }
}
