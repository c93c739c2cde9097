/** Bitwise operations on unsigned machine words, bit by bit, and the shifts they commute with. */
module Words {

  function Pow2(k: nat): (p: nat)
    ensures p > 0
  {
    if k == 0 then 1 else 2 * Pow2(k - 1)
  }

  /** Bitwise or. */
  function Or(a: nat, b: nat): nat
    decreases a + b
  {
    if a == 0 then b else if b == 0 then a
    else 2 * Or(a / 2, b / 2) + (if a % 2 == 1 || b % 2 == 1 then 1 else 0)
  }

  /** Bitwise exclusive or. */
  function Xor(a: nat, b: nat): nat
    decreases a + b
  {
    if a == 0 then b else if b == 0 then a
    else 2 * Xor(a / 2, b / 2) + (if a % 2 != b % 2 then 1 else 0)
  }

  lemma {:induction false} XorBound(a: nat, b: nat, k: nat)
    requires a < Pow2(k) && b < Pow2(k)
    ensures Xor(a, b) < Pow2(k)
    decreases k
  {
    if k > 0 && a != 0 && b != 0 { XorBound(a / 2, b / 2, k - 1); }
  }

  lemma {:induction false} OrBound(a: nat, b: nat, k: nat)
    requires a < Pow2(k) && b < Pow2(k)
    ensures Or(a, b) < Pow2(k)
    decreases k
  {
    if k > 0 && a != 0 && b != 0 { OrBound(a / 2, b / 2, k - 1); }
  }

  /** Bit k of a word. */
  function Bit(a: nat, k: nat): (b: nat)
    ensures b < 2
  {
    a / Pow2(k) % 2
  }

  lemma BitAbove(a: nat, k: nat)
    ensures Bit(a, 0) == a % 2 && Bit(a, k + 1) == Bit(a / 2, k) && Bit(0, k) == 0
  {
    HalfFirst(a, Pow2(k));
    ZeroOver(Pow2(k));
  }

  lemma ZeroOver(p: nat)
    requires p > 0
    ensures 0 / p == 0
  {}

  lemma HalfFirst(a: nat, p: nat)
    requires p > 0
    ensures a / (2 * p) == a / 2 / p
  {
    var q, r := a / 2 / p, a / 2 % p;
    assert a / 2 == p * q + r;
    assert a == (2 * p) * q + (2 * r + a % 2) by { Twice(q, p); }
    QuotientIs(a, 2 * p, q, 2 * r + a % 2);
  }

  lemma QuotientIs(a: nat, p: nat, q: nat, r: nat)
    requires p > 0 && a == p * q + r && r < p
    ensures a / p == q
  {
    assert p * (a / p) + a % p == a;
    if q < a / p { MultiplesApart(p, q, a / p); }
    if a / p < q { MultiplesApart(p, a / p, q); }
  }

  lemma MultiplesApart(p: int, x: int, y: int)
    requires 0 < p && x < y
    ensures p * x + p <= p * y
  {
    var d := y - x - 1;
    assert p * y == p * x + p + p * d;
    assert p * d >= 0;
  }

  /** Or and exclusive or, bit by bit. */
  lemma {:induction false} OrBits(a: nat, b: nat, k: nat)
    ensures Bit(Or(a, b), k) == if Bit(a, k) == 1 || Bit(b, k) == 1 then 1 else 0
    decreases k
  {
    if k == 0 { BitAbove(a, 0); BitAbove(b, 0); BitAbove(Or(a, b), 0); }
    else {
      BitAbove(a, k - 1);
      BitAbove(b, k - 1);
      BitAbove(Or(a, b), k - 1);
      OrBits(a / 2, b / 2, k - 1);
      hide Bit;
      assert Or(a, b) / 2 == Or(a / 2, b / 2);
    }
  }

  lemma {:induction false} XorBits(a: nat, b: nat, k: nat)
    ensures Bit(Xor(a, b), k) == if Bit(a, k) == Bit(b, k) then 0 else 1
    decreases k
  {
    if k == 0 { BitAbove(a, 0); BitAbove(b, 0); BitAbove(Xor(a, b), 0); }
    else {
      BitAbove(a, k - 1);
      BitAbove(b, k - 1);
      BitAbove(Xor(a, b), k - 1);
      XorBits(a / 2, b / 2, k - 1);
      hide Bit;
      assert Xor(a, b) / 2 == Xor(a / 2, b / 2);
    }
  }

  /** Different words stay different under an exclusive or with the same word. */
  lemma {:induction false} XorTellsApart(a: nat, b: nat, c: nat)
    requires b != c
    ensures Xor(a, b) != Xor(a, c) && Xor(b, a) != Xor(c, a)
    decreases b + c
  {
    XorHalves(a, b);
    XorHalves(a, c);
    XorHalves(b, a);
    XorHalves(c, a);
    if b / 2 != c / 2 { XorTellsApart(a / 2, b / 2, c / 2); }
  }

  lemma XorHalves(a: nat, b: nat)
    ensures Xor(a, b) / 2 == Xor(a / 2, b / 2) && Xor(a, b) % 2 == if a % 2 != b % 2 then 1 else 0
  {}

  lemma OrLowBit(a: nat, b: nat)
    ensures Or(a, b) % 2 == 1 <==> a % 2 == 1 || b % 2 == 1
  {}

  lemma {:induction false} OrCommutes(a: nat, b: nat)
    ensures Or(a, b) == Or(b, a)
    decreases a + b
  {
    if a != 0 && b != 0 { OrCommutes(a / 2, b / 2); }
  }

  /** a shifted left by k. */
  function Shl(a: nat, k: nat): nat
  {
    if k == 0 then a else 2 * Shl(a, k - 1)
  }

  lemma {:induction false} ShlIsProduct(a: nat, k: nat)
    ensures Shl(a, k) == a * Pow2(k)
  {
    if k > 0 {
      ShlIsProduct(a, k - 1);
      Twice(a, Pow2(k - 1));
    }
  }

  lemma Twice(a: nat, p: nat)
    ensures a * (2 * p) == 2 * (a * p)
  {}

  /** Or of numbers that have no low k bits in common: the high parts are combined, the low part is kept. */
  lemma {:induction false} OrHigh(a: nat, c: nat, b: nat, k: nat)
    requires b < Pow2(k)
    ensures Or(Shl(a, k), Shl(c, k) + b) == Shl(Or(a, c), k) + b
    decreases k
  {
    if k > 0 {
      OrHigh(a, c, b / 2, k - 1);
      OrDouble(Shl(a, k - 1), Shl(c, k - 1) + b / 2, b % 2);
    }
  }

  lemma OrDouble(x: nat, y: nat, bit: nat)
    requires bit < 2
    ensures Or(2 * x, 2 * y + bit) == 2 * Or(x, y) + bit
  {}

  /** A page address below 2^52 combined with flag bits 0-11 and 63 is their sum. */
  lemma OrOfFlags(frame: nat, low: nat, top: nat)
    requires frame < 0x100_0000_0000 && low < 4096 && top < 2
    ensures Or(frame * 4096, top * 0x8000_0000_0000_0000 + low) == top * 0x8000_0000_0000_0000 + frame * 4096 + low
  {
    hide Or, Shl, Pow2;
    Powers();
    var t := Shl(top, 51);
    ShlIsProduct(top, 51);
    OrHigh(frame, t, low, 12);
    ShlIsProduct(frame, 12);
    ShlIsProduct(t, 12);
    OrHigh(top, 0, frame, 51);
    OrCommutes(frame, t);
    ShlOfZero(51);
    OrWithZero(top);
    ShlIsProduct(Or(frame, t), 12);
  }

  /** The three lowest bits set one after the other. */
  lemma OrOfLowBits(q: nat)
    ensures Or(Or(Or(8 * q, 1), 2), 4) == 8 * q + 7
  {
    hide Or;
    OrDouble(4 * q, 0, 1);
    OrWithZero(4 * q);
    OrHalves(8 * q + 1, 2);
    OrDouble(2 * q, 0, 1);
    OrWithZero(2 * q);
    OrHalves(8 * q + 3, 4);
    OrHalves(4 * q + 1, 2);
    OrDouble(q, 0, 1);
    OrWithZero(q);
  }

  lemma OrHalves(a: nat, b: nat)
    ensures Or(a, b) == 2 * Or(a / 2, b / 2) + (if a % 2 == 1 || b % 2 == 1 then 1 else 0)
  {}

  lemma {:induction false} ShlOfZero(k: nat)
    ensures Shl(0, k) == 0
  {
    if k > 0 { ShlOfZero(k - 1); }
  }

  lemma OrWithZero(a: nat)
    ensures Or(a, 0) == a && Or(0, a) == a
  {}

  lemma Powers()
    ensures Pow2(12) == 4096 && Pow2(40) == 0x100_0000_0000 && Pow2(51) == 0x8_0000_0000_0000
    ensures Pow2(32) == 0x1_0000_0000 && Pow2(64) == 0x1_0000_0000_0000_0000
  {
    assert Pow2(8) == 256;
    assert Pow2(16) == 65536;
    assert Pow2(24) == 0x100_0000;
    assert Pow2(36) == 0x10_0000_0000;
    assert Pow2(44) == 0x1000_0000_0000;
    assert Pow2(56) == 0x100_0000_0000_0000;
  }
}
