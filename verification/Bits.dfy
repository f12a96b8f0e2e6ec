/** The bitwise operators on bytes, and what each does to every bit. */
module Bits {
  import opened Words

  /** Bit `b` of a number. */
  function Bit(x: nat, b: nat): (r: nat)
    ensures r < 2
  {
    if b == 0 then x % 2 else Bit(x / 2, b - 1)
  }

  function Pow2(w: nat): (r: nat)
    ensures r > 0
  {
    if w == 0 then 1 else 2 * Pow2(w - 1)
  }

  function And(x: nat, y: nat, w: nat): (r: nat)
    ensures r < Pow2(w)
  {
    if w == 0 then 0 else (if x % 2 == y % 2 == 1 then 1 else 0) + 2 * And(x / 2, y / 2, w - 1)
  }

  function Or(x: nat, y: nat, w: nat): (r: nat)
    ensures r < Pow2(w)
  {
    if w == 0 then 0 else (if x % 2 == y % 2 == 0 then 0 else 1) + 2 * Or(x / 2, y / 2, w - 1)
  }

  function Not(x: nat, w: nat): (r: nat)
    ensures r < Pow2(w)
  {
    if w == 0 then 0 else (1 - x % 2) + 2 * Not(x / 2, w - 1)
  }

  function ByteAnd(x: byte, y: byte): byte { FitsByte(); And(x, y, 8) }

  function ByteOr(x: byte, y: byte): byte { FitsByte(); Or(x, y, 8) }

  function ByteNot(x: byte): byte { FitsByte(); Not(x, 8) }

  lemma FitsByte()
    ensures Pow2(8) == 0x100
  {
    assert Pow2(4) == 16;
  }

  lemma {:induction false} BitOfAnd(x: nat, y: nat, w: nat, b: nat)
    requires b < w
    ensures Bit(And(x, y, w), b) == 1 <==> Bit(x, b) == 1 && Bit(y, b) == 1
  {
    if b > 0 {
      BitOfAnd(x / 2, y / 2, w - 1, b - 1);
    }
  }

  lemma {:induction false} BitOfOr(x: nat, y: nat, w: nat, b: nat)
    requires b < w
    ensures Bit(Or(x, y, w), b) == 1 <==> Bit(x, b) == 1 || Bit(y, b) == 1
  {
    if b > 0 {
      BitOfOr(x / 2, y / 2, w - 1, b - 1);
    }
  }

  lemma {:induction false} BitOfNot(x: nat, w: nat, b: nat)
    requires b < w
    ensures Bit(Not(x, w), b) == 1 <==> Bit(x, b) == 0
  {
    if b > 0 {
      BitOfNot(x / 2, w - 1, b - 1);
    }
  }

  /** The low four bits spell the number modulo 16. */
  lemma LowBits(x: nat)
    ensures Bit(x, 0) + 2 * Bit(x, 1) + 4 * Bit(x, 2) + 8 * Bit(x, 3) == x % 16
  {
    hide Bit;
    var a, b, c := x / 2, x / 2 / 2, x / 2 / 2 / 2;
    BitUp(x, 0);
    BitUp(x, 1);
    BitUp(a, 0);
    BitUp(x, 2);
    BitUp(a, 1);
    BitUp(b, 0);
    BitUp(c, 0);
    Sixteens(x, Bit(x, 0) + 2 * Bit(x, 1) + 4 * Bit(x, 2) + 8 * Bit(x, 3), c / 2);
  }

  lemma Sixteens(x: nat, r: nat, q: nat)
    requires x == 16 * q + r && r < 16
    ensures x % 16 == r
  {}

  lemma BitUp(x: nat, b: nat)
    ensures Bit(x, b + 1) == Bit(x / 2, b) && x == 2 * (x / 2) + Bit(x, 0)
  {}

  /** The low four bits by division. */
  lemma BitValues(x: nat)
    ensures Bit(x, 0) == x % 2 && Bit(x, 1) == x / 2 % 2
    ensures Bit(x, 2) == x / 4 % 2 && Bit(x, 3) == x / 8 % 2
  {
    Halves(x);
    assert Bit(x, 2) == Bit(x / 2, 1) == Bit(x / 2 / 2, 0);
    assert Bit(x, 3) == Bit(x / 2, 2) == Bit(x / 2 / 2, 1) == Bit(x / 2 / 2 / 2, 0);
  }

  lemma Halves(x: nat)
    ensures x / 2 / 2 == x / 4 && x / 2 / 2 / 2 == x / 8
  {}

  /** The bytes without and with all bits set. */
  lemma {:induction false} BitOfFull(w: nat, b: nat)
    requires b < w
    ensures Bit(Pow2(w) - 1, b) == 1 && Bit(0, b) == 0
  {
    if b > 0 {
      BitOfFull(w - 1, b - 1);
      assert (Pow2(w) - 1) / 2 == Pow2(w - 1) - 1;
    }
  }
}
