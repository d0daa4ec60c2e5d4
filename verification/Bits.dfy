/** Bitwise operations on small numbers, bit by bit. */
module Bits {
  function Power2(k: nat): nat { if k == 0 then 1 else 2 * Power2(k - 1) }

  /** Bitwise exclusive or of the low `bits` bits. */
  function XorBits(a: nat, b: nat, bits: nat): nat {
    if bits == 0 then 0 else (a + b) % 2 + 2 * XorBits(a / 2, b / 2, bits - 1)
  }

  /** Bitwise or of the low `bits` bits. */
  function OrBits(a: nat, b: nat, bits: nat): nat {
    if bits == 0 then 0 else (if a % 2 + b % 2 > 0 then 1 else 0) + 2 * OrBits(a / 2, b / 2, bits - 1)
  }

  lemma {:induction false} Power2Positive(k: nat)
    ensures Power2(k) > 0
  {
    if k > 0 { Power2Positive(k - 1); }
  }

  lemma Remainder(d: nat, q: nat, r: nat, x: nat)
    requires d > 0 && x == d * q + r && r < d
    ensures x / d == q
  {
    assert x == d * (x / d) + x % d;
    var k: int := x / d - q;
    assert d * k == r - x % d;
    Grows(d, k);
  }

  lemma Grows(d: int, k: int)
    requires d > 0
    ensures k >= 1 ==> d * k >= d
    ensures k <= -1 ==> d * k <= -d
  {}

  lemma HalfFirst(x: nat, p: nat)
    requires p > 0
    ensures x / (2 * p) == x / 2 / p
  {
    var h := x / 2;
    var q, r := h / p, h % p;
    assert h == p * q + r;
    assert x == (2 * p) * q + (2 * r + x % 2);
    Remainder(2 * p, q, 2 * r + x % 2, x);
  }

  /** Every bit of the exclusive or is that of the two bits it stands under. */
  lemma {:induction false} XorBitwise(a: nat, b: nat, bits: nat, k: nat)
    requires k < bits
    ensures Power2(k) > 0
    ensures XorBits(a, b, bits) / Power2(k) % 2 == (a / Power2(k) + b / Power2(k)) % 2
  {
    hide *;
    Power2Positive(k);
    XorStep(a, b, bits);
    Power2Is(k);
    if k == 0 {
      Units(XorBits(a, b, bits), a, b);
    } else {
      XorBitwise(a / 2, b / 2, bits - 1, k - 1);
      NextBit(XorBits(a, b, bits), a, b, Power2(k - 1));
    }
  }

  lemma Units(x: nat, a: nat, b: nat)
    requires x % 2 == (a + b) % 2
    ensures x / 1 % 2 == (a / 1 + b / 1) % 2
  {}

  lemma NextBit(x: nat, a: nat, b: nat, p: nat)
    requires p > 0 && x / 2 / p % 2 == (a / 2 / p + b / 2 / p) % 2
    ensures x / (2 * p) % 2 == (a / (2 * p) + b / (2 * p)) % 2
  {
    HalfFirst(x, p);
    HalfFirst(a, p);
    HalfFirst(b, p);
  }

  lemma Power2Is(k: nat)
    ensures Power2(k) == if k == 0 then 1 else 2 * Power2(k - 1)
  {}

  lemma XorStep(a: nat, b: nat, bits: nat)
    requires bits > 0
    ensures XorBits(a, b, bits) / 2 == XorBits(a / 2, b / 2, bits - 1)
    ensures XorBits(a, b, bits) % 2 == (a + b) % 2
  {}

  lemma Parity(a: nat, b: nat, y: nat)
    ensures var x := (a + b) % 2 + 2 * y; x / 2 == y && (x + b) % 2 == a % 2
  {}

  lemma {:induction false} XorTwice(a: nat, b: nat, bits: nat)
    requires a < Power2(bits)
    ensures XorBits(a, b, bits) < Power2(bits)
    ensures XorBits(XorBits(a, b, bits), b, bits) == a
  {
    if bits > 0 {
      XorTwice(a / 2, b / 2, bits - 1);
      var x := XorBits(a, b, bits);
      var y := XorBits(a / 2, b / 2, bits - 1);
      Parity(a, b, y);
      assert x == (a + b) % 2 + 2 * y;
    }
  }

  lemma {:induction false} XorZero(a: nat, b: nat, bits: nat)
    requires a < Power2(bits) && b < Power2(bits)
    ensures XorBits(a, b, bits) == 0 <==> a == b
  {
    if bits > 0 { XorZero(a / 2, b / 2, bits - 1); }
  }

  lemma {:induction false} OrZero(a: nat, b: nat, bits: nat)
    requires a < Power2(bits) && b < Power2(bits)
    ensures OrBits(a, b, bits) < Power2(bits)
    ensures OrBits(a, b, bits) == 0 <==> a == 0 && b == 0
  {
    if bits > 0 { OrZero(a / 2, b / 2, bits - 1); }
  }
}
