/** Single bits of the numbers that bitwise operators produce. */
module Bits {
  import opened Arith

  /** Bit k of x. */
  predicate Bit(x: nat, k: nat)
    decreases k
  {
    if k == 0 then x % 2 == 1 else Bit(x / 2, k - 1)
  }

  /** Bitwise exclusive or. */
  function Xor(a: nat, b: nat): nat
    decreases a + b
  {
    if a == 0 then b else if b == 0 then a
    else (if a % 2 != b % 2 then 1 else 0) + 2 * Xor(a / 2, b / 2)
  }

  /** Bitwise complement of a number of n bits. */
  function Not(x: nat, n: nat): nat
    requires x < Pow(2, n)
  {
    Pow(2, n) - 1 - x
  }

  lemma {:induction false} BitZero(k: nat)
    ensures !Bit(0, k)
  {
    if k > 0 { BitZero(k - 1); }
  }

  lemma {:induction false} BitAnd(x: nat, y: nat, k: nat)
    ensures Bit(And(x, y), k) == (Bit(x, k) && Bit(y, k))
  {
    if x == 0 || y == 0 {
      BitZero(k);
    } else {
      assert And(x, y) == (if x % 2 == 1 && y % 2 == 1 then 1 else 0) + 2 * And(x / 2, y / 2);
      Halve(if x % 2 == 1 && y % 2 == 1 then 1 else 0, And(x / 2, y / 2));
      hide And;
      if k > 0 { BitAnd(x / 2, y / 2, k - 1); }
    }
  }

  lemma {:induction false} BitOr(x: nat, y: nat, k: nat)
    ensures Bit(Or(x, y), k) == (Bit(x, k) || Bit(y, k))
  {
    if x == 0 || y == 0 {
      BitZero(k);
    } else {
      assert Or(x, y) == (if x % 2 == 1 || y % 2 == 1 then 1 else 0) + 2 * Or(x / 2, y / 2);
      Halve(if x % 2 == 1 || y % 2 == 1 then 1 else 0, Or(x / 2, y / 2));
      hide Or;
      if k > 0 { BitOr(x / 2, y / 2, k - 1); }
    }
  }

  lemma {:induction false} BitXor(x: nat, y: nat, k: nat)
    ensures Bit(Xor(x, y), k) == (Bit(x, k) != Bit(y, k))
  {
    if x == 0 || y == 0 {
      BitZero(k);
    } else {
      assert Xor(x, y) == (if x % 2 != y % 2 then 1 else 0) + 2 * Xor(x / 2, y / 2);
      Halve(if x % 2 != y % 2 then 1 else 0, Xor(x / 2, y / 2));
      hide Xor;
      if k > 0 { BitXor(x / 2, y / 2, k - 1); }
    }
  }

  lemma {:induction false} BitNot(x: nat, n: nat, k: nat)
    requires x < Pow(2, n) && k < n
    ensures Bit(Not(x, n), k) == !Bit(x, k)
  {
    if k > 0 {
      PowNext(2, n - 1);
      BitNot(x / 2, n - 1, k - 1);
      hide Pow;
      HalfComplement(x, Pow(2, n - 1));
    } else {
      PowNext(2, n - 1);
      hide Pow;
      HalfComplement(x, Pow(2, n - 1));
    }
  }

  lemma HalfComplement(x: nat, p: nat)
    requires x < 2 * p
    ensures (2 * p - 1 - x) / 2 == p - 1 - x / 2 && (2 * p - 1 - x) % 2 == 1 - x % 2
  {}

  lemma {:induction false} BitPower(b: nat, k: nat)
    ensures Bit(Pow(2, b), k) == (b == k)
  {
    if b > 0 {
      PowNext(2, b - 1);
      if k > 0 { BitPower(b - 1, k - 1); }
    } else if k > 0 {
      BitZero(k - 1);
    }
  }

  lemma {:induction false} OrRange(x: nat, y: nat, n: nat)
    requires x < Pow(2, n) && y < Pow(2, n)
    ensures Or(x, y) < Pow(2, n)
  {
    if n > 0 && x > 0 && y > 0 {
      OrRange(x / 2, y / 2, n - 1);
    }
  }

  lemma {:induction false} XorRange(x: nat, y: nat, n: nat)
    requires x < Pow(2, n) && y < Pow(2, n)
    ensures Xor(x, y) < Pow(2, n)
  {
    if n > 0 && x > 0 && y > 0 {
      XorRange(x / 2, y / 2, n - 1);
    }
  }
}
