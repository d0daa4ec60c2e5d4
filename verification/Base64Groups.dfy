/** The base64url codec of include/token.hpp against section 5 of RFC 4648: the alphabet written out,
    and three bytes and four characters as the same 24-bit number. */
module Base64Groups {
  import opened Base64Url

  /** The alphabet by its ASCII codes: upper case, lower case, digits, hyphen and underscore. */
  lemma AlphabetIs(n: int, c: char)
    requires 0 <= n < 64
    ensures Digit(n) as int == if n < 26 then 65 + n else if n < 52 then 97 + n - 26 else if n < 62 then 48 + n - 52
                               else if n == 62 then 45 else 95
    ensures Value(Digit(n)) == n
    ensures Value(c) >= 0 <==> var k := c as int; 65 <= k <= 90 || 97 <= k <= 122 || 48 <= k <= 57 || k == 45 || k == 95
    ensures Value(c) >= 0 ==> Value(c) < 64 && Digit(Value(c)) == c
  {}

  /** A byte of a text; behind its end, zero. */
  function ByteAt(s: string, i: nat): int {
    if i < |s| then s[i] as int else 0
  }

  function SextetAt(e: string, i: nat): int {
    if i < |e| then Value(e[i]) else 0
  }

  function Bytes24(s: string, k: nat): int {
    ByteAt(s, 3 * k) * 65536 + ByteAt(s, 3 * k + 1) * 256 + ByteAt(s, 3 * k + 2)
  }

  function Sextets24(e: string, k: nat): int {
    SextetAt(e, 4 * k) * 262144 + SextetAt(e, 4 * k + 1) * 4096 + SextetAt(e, 4 * k + 2) * 64 + SextetAt(e, 4 * k + 3)
  }

  /** Every three bytes, padded with zeros at the end, are the 24 bits of the four characters they
      become; no character is written for padding alone. */
  lemma {:induction false} EncodedGroups(s: string, k: nat)
    requires IsBytes(s)
    ensures |Encoded(s)| == (4 * |s| + 2) / 3
    ensures Bytes24(s, k) == Sextets24(Encoded(s), k)
  {
    hide *;
    EncodedShape(s);
    if k == 0 {
      FirstGroup(s);
    } else if |s| > 3 {
      EncodedTail(s);
      EncodedGroups(s[3..], k - 1);
      Moved(s, Encoded(s), k);
    } else {
      BehindEnd(s, Encoded(s), k);
    }
  }

  lemma EncodedTail(s: string)
    requires IsBytes(s) && |s| > 3
    ensures IsBytes(s[3..]) && |Encoded(s)| > 4 && Encoded(s)[4..] == Encoded(s[3..])
  {
    hide Digit;
  }

  lemma BehindEnd(s: string, e: string, k: nat)
    requires k > 0 && |s| <= 3 && |e| <= 4
    ensures Bytes24(s, k) == 0 == Sextets24(e, k)
  {
    hide Value;
  }

  lemma Moved(s: string, e: string, k: nat)
    requires k > 0 && |s| > 3 && |e| > 4
    ensures Bytes24(s, k) == Bytes24(s[3..], k - 1) && Sextets24(e, k) == Sextets24(e[4..], k - 1)
  {
    forall i: nat | i >= 3 ensures ByteAt(s, i) == ByteAt(s[3..], i - 3) {}
    forall i: nat | i >= 4 ensures SextetAt(e, i) == SextetAt(e[4..], i - 4) {}
  }

  lemma FirstGroup(s: string)
    requires IsBytes(s)
    ensures Bytes24(s, 0) == Sextets24(Encoded(s), 0)
  {
    hide Digit, Value;
  }

  // ---- decoding any text ----

  predicate Letters(e: string) {
    forall c <- e :: Value(c) >= 0
  }

  /** The characters of the alphabet in a text. */
  function Kept(s: string): (r: string)
    ensures Letters(r)
  {
    if s == "" then "" else (if Value(s[0]) >= 0 then [s[0]] else "") + Kept(s[1..])
  }

  /** The byte that the bits from `8 * i` on of a run of characters make. */
  function ByteOf(e: string, i: nat): int {
    var j := i / 3 * 4 + i % 3;
    var pair := SextetAt(e, j) * 64 + SextetAt(e, j + 1);
    if i % 3 == 0 then pair / 16 else if i % 3 == 1 then pair / 4 % 256 else pair % 256
  }

  /** Characters outside the alphabet are passed over. */
  lemma {:induction false} StraysSkipped(s: string, val: int, bits: int)
    requires -8 <= bits < 0
    ensures DecodedFrom(s, val, bits) == DecodedFrom(Kept(s), val, bits)
    decreases |s|
  {
    hide ShiftRight, Wrap32, Value;
    if s != "" {
      var v := Wrap32(val * 64) + Value(s[0]);
      if Value(s[0]) >= 0 {
        StraysSkipped(s[1..], v, if bits + 6 >= 0 then bits - 2 else bits + 6);
        assert ([s[0]] + Kept(s[1..]))[1..] == Kept(s[1..]);
      } else {
        StraysSkipped(s[1..], val, bits);
        assert "" + Kept(s[1..]) == Kept(s[1..]);
      }
    }
  }

  ghost predicate BytesOf(e: string, d: string) {
    |d| == |e| * 6 / 8 && forall i :: 0 <= i < |d| ==> d[i] as int == ByteOf(e, i)
  }

  lemma {:induction false} LettersDecode(e: string, val: int)
    requires Letters(e)
    ensures BytesOf(e, DecodedFrom(e, val, -8))
    decreases |e|
  {
    hide DecodedFrom, ShiftRight, Wrap32, Digit, Value, BytesOf;
    if |e| == 0 {
      DecodeNone(val, -8);
      NoBytes();
    } else if |e| == 1 {
      assert e[0] in e;
      DecodeStep(e[0], "", val, -8);
      assert [e[0]] + "" == e;
      DecodeNone(Wrap32(val * 64) + Value(e[0]), -2);
      NoByteOfOne(e);
    } else {
      var d1, d2 := Value(e[0]), Value(e[1]);
      LetterIs(e, 0);
      LetterIs(e, 1);
      var v2 := DecodeTwo(d1, d2, e[2..], val);
      assert e == [Digit(d1)] + ([Digit(d2)] + e[2..]);
      if |e| == 2 {
        DecodeNone(v2, -4);
        assert e[2..] == "";
        TailBytes(e, ((d1 * 64 + d2) / 16) as char, 'x');
      } else {
        var d3 := Value(e[2]);
        LetterIs(e, 2);
        var v3 := DecodeThird(d2, d3, e[3..], v2);
        assert e[2..] == [Digit(d3)] + e[3..];
        if |e| == 3 {
          DecodeNone(v3, -6);
          assert e[3..] == "";
          TailBytes(e, ((d1 * 64 + d2) / 16) as char, ((d2 * 64 + d3) / 4 % 256) as char);
        } else {
          LetterIs(e, 3);
          var v := DecodeFourth(d3, Value(e[3]), e[4..], v3);
          assert e[3..] == [Digit(Value(e[3]))] + e[4..];
          LettersDecode(e[4..], v);
          GroupsDecode(e, DecodedFrom(e[4..], v, -8));
        }
      }
    }
  }

  lemma LetterIs(e: string, k: nat)
    requires Letters(e) && k < |e|
    ensures 0 <= Value(e[k]) < 64 && Digit(Value(e[k])) == e[k] && Letters(e[k..])
  {
    assert e[k] in e;
    forall c | c in e[k..] ensures Value(c) >= 0 { assert c in e; }
  }

  lemma NoBytes()
    ensures BytesOf("", "")
  {}

  lemma NoByteOfOne(e: string)
    requires |e| == 1
    ensures BytesOf(e, "")
  {}

  lemma TailBytes(e: string, x: char, y: char)
    requires Letters(e) && 2 <= |e| <= 3
    requires x as int == (Value(e[0]) * 64 + Value(e[1])) / 16
    requires |e| == 3 ==> y as int == (Value(e[1]) * 64 + Value(e[2])) / 4 % 256
    ensures BytesOf(e, if |e| == 2 then [x] + "" else [x] + ([y] + ""))
  {
    hide Value;
  }

  lemma GroupsDecode(e: string, d: string)
    requires Letters(e) && |e| >= 4 && BytesOf(e[4..], d)
    ensures forall k <- [0, 1, 2, 3] :: 0 <= Value(e[k]) < 64
    ensures BytesOf(e, [((Value(e[0]) * 64 + Value(e[1])) / 16) as char] +
      ([((Value(e[1]) * 64 + Value(e[2])) / 4 % 256) as char] + ([((Value(e[2]) * 64 + Value(e[3])) % 256) as char] + d)))
  {
    forall k <- [0, 1, 2, 3] ensures 0 <= Value(e[k]) < 64 { LetterIs(e, k); }
    FirstBytes(e);
    hide Value, Letters, ByteOf;
    forall i: nat | i >= 3 ensures ByteOf(e, i) == ByteOf(e[4..], i - 3) { LaterByte(e, i); }
  }

  lemma FirstBytes(e: string)
    requires |e| >= 4
    ensures ByteOf(e, 0) == (Value(e[0]) * 64 + Value(e[1])) / 16
    ensures ByteOf(e, 1) == (Value(e[1]) * 64 + Value(e[2])) / 4 % 256
    ensures ByteOf(e, 2) == (Value(e[2]) * 64 + Value(e[3])) % 256
  {
    hide Value;
  }

  lemma LaterByte(e: string, i: nat)
    requires |e| >= 4 && i >= 3
    ensures ByteOf(e, i) == ByteOf(e[4..], i - 3)
  {
    forall j: nat | j >= 4 ensures SextetAt(e, j) == SextetAt(e[4..], j - 4) {}
    hide SextetAt;
  }

  /** Whatever the text: its characters of the alphabet, six bits each, cut into bytes; what is left
      of a last byte is dropped. */
  lemma AnyTextDecodes(s: string)
    ensures BytesOf(Kept(s), Decoded(s))
  {
    hide DecodedFrom;
    StraysSkipped(s, 0, -8);
    LettersDecode(Kept(s), 0);
  }
}
