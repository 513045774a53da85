/** Arithmetic facts, powers, and bit operations on natural numbers. */
module Arith {

  lemma MulMono(a: nat, b: nat, c: nat)
    requires a <= b
    ensures a * c <= b * c
  {
    assert b * c == a * c + (b - a) * c;
  }

  lemma QuotientFits(n: nat, d: nat)
    requires d > 0
    ensures 0 <= n / d <= n
  {
    var q := n / d;
    assert n == q * d + n % d;
    MulMono(1, d, q);
  }

  /** Quotient and remainder are what they should be. */
  lemma DivModUnique(n: nat, d: nat, q: nat, r: nat)
    requires n == q * d + r && r < d
    ensures n / d == q && n % d == r
  {
    var q', r' := n / d, n % d;
    assert n == q' * d + r';
    if q' > q {
      MulMono(q + 1, q', d);
    } else if q' < q {
      MulMono(q' + 1, q, d);
    }
  }

  lemma DivBounds(n: nat, d: nat, k: nat)
    requires d > 0
    ensures n < k * d <==> n / d < k
  {
    var q, r := n / d, n % d;
    if q < k { MulMono(q + 1, k, d); assert (q + 1) * d == q * d + d; } else { MulMono(k, q, d); }
  }

  lemma DivMono(n: nat, n': nat, d: nat)
    requires d > 0 && n <= n'
    ensures n / d <= n' / d
  {
    DivBounds(n', d, n / d);
  }

  lemma Halve(b: nat, h: nat)
    requires b <= 1
    ensures (b + 2 * h) / 2 == h && (b + 2 * h) % 2 == b
  {}

  function Pow(b: nat, e: nat): nat {
    if e == 0 then 1 else b * Pow(b, e - 1)
  }

  lemma {:induction false} PowPositive(b: nat, e: nat)
    requires b > 0
    ensures Pow(b, e) > 0
  {
    if e > 0 {
      PowPositive(b, e - 1);
      MulMono(1, b, Pow(b, e - 1));
    }
  }

  lemma {:induction false} PowAdd(b: nat, x: nat, y: nat)
    ensures Pow(b, x + y) == Pow(b, x) * Pow(b, y)
  {
    if x > 0 {
      PowAdd(b, x - 1, y);
      MulAssociates(b, Pow(b, x - 1), Pow(b, y));
    }
  }

  lemma MulAssociates(a: nat, b: nat, c: nat)
    ensures a * (b * c) == (a * b) * c
  {}

  lemma {:induction false} PowMono(b: nat, x: nat, y: nat)
    requires b > 0 && x <= y
    ensures Pow(b, x) <= Pow(b, y)
  {
    hide Pow;
    PowAdd(b, x, y - x);
    PowPositive(b, y - x);
    MulMono(1, Pow(b, y - x), Pow(b, x));
  }

  lemma {:induction false} PowOfPow(b: nat, x: nat, y: nat)
    ensures Pow(Pow(b, x), y) == Pow(b, x * y)
  {
    if y > 0 {
      PowOfPow(b, x, y - 1);
      assert x * y == x + x * (y - 1);
      PowAdd(b, x, x * (y - 1));
    } else {
      assert x * y == 0;
    }
  }

  lemma PowNext(b: nat, k: nat)
    ensures Pow(b, k + 1) == b * Pow(b, k)
  {
  }

  lemma PowOne(b: nat)
    ensures Pow(b, 1) == b
  {
    assert Pow(b, 0) == 1;
  }

  lemma MulBelow(a: nat, b: nat, c: nat)
    requires a < b && c > 0
    ensures a * c < b * c
  {}

  lemma PowZero(b: nat)
    ensures Pow(b, 0) == 1
  {}

  /** The integer logarithm of a positive number. */
  function Log2(n: nat): nat
    requires n > 0
  {
    if n < 2 then 0 else 1 + Log2(n / 2)
  }

  lemma {:induction false} Log2Above(n: nat, k: nat)
    requires n > 0 && Pow(2, k) <= n
    ensures k <= Log2(n)
  {
    if k > 0 {
      PowPositive(2, k - 1);
      Log2Above(n / 2, k - 1);
    }
  }

  /** Bitwise AND. */
  function And(a: nat, b: nat): nat {
    if a == 0 || b == 0 then 0
    else (if a % 2 == 1 && b % 2 == 1 then 1 else 0) + 2 * And(a / 2, b / 2)
  }

  lemma {:induction false} AndBelow(a: nat, b: nat)
    ensures And(a, b) <= a && And(a, b) <= b
  {
    if a != 0 && b != 0 {
      AndBelow(a / 2, b / 2);
    }
  }

  lemma {:induction false} AndSelf(a: nat)
    ensures And(a, a) == a
  {
    if a > 0 { AndSelf(a / 2); }
  }

  /** Bitwise OR. */
  function Or(a: nat, b: nat): nat
    decreases a + b
  {
    if a == 0 then b else if b == 0 then a
    else (if a % 2 == 1 || b % 2 == 1 then 1 else 0) + 2 * Or(a / 2, b / 2)
  }

  /** Numbers without a common bit are or-ed by adding: low bits of one, high bits of the other. */
  lemma {:induction false} OrDisjoint(low: nat, high: nat, k: nat)
    requires low < Pow(2, k)
    ensures Or(low, high * Pow(2, k)) == low + high * Pow(2, k)
    ensures Or(high * Pow(2, k), low) == low + high * Pow(2, k)
    decreases k
  {
    if k > 0 && low > 0 && high > 0 {
      var half := high * Pow(2, k - 1);
      assert high * Pow(2, k) == 2 * half;
      assert half > 0 by { PowPositive(2, k - 1); MulMono(1, high, Pow(2, k - 1)); }
      OrDisjoint(low / 2, high, k - 1);
      hide Pow;
      assert (2 * half) / 2 == half && (2 * half) % 2 == 0;
    } else if high > 0 && k == 0 {
      assert high * Pow(2, k) == high;
    } else if high == 0 {
      assert high * Pow(2, k) == 0;
    }
  }

  /** Testing one bit. */
  lemma {:induction false} AndBit(x: nat, k: nat)
    ensures Pow(2, k) > 0 && (And(x, Pow(2, k)) != 0 <==> x / Pow(2, k) % 2 == 1)
  {
    PowPositive(2, k);
    if k == 0 {
      assert And(x, 1) == if x == 0 then 0 else x % 2;
    } else {
      PowPositive(2, k - 1);
      AndBit(x / 2, k - 1);
      DivTwice(x, 2, Pow(2, k - 1));
    }
  }

  lemma DivTwice(x: nat, a: nat, b: nat)
    requires a > 0 && b > 0
    ensures a * b > 0 && x / a / b == x / (a * b)
  {
    var q, r := x / a, x % a;
    var q', r' := q / b, q % b;
    TwoDivisions(x, a, b, q, r, q', r');
    DivModUnique(x, a * b, q', r' * a + r);
  }

  lemma TwoDivisions(x: nat, a: nat, b: nat, q: nat, r: nat, q': nat, r': nat)
    requires x == q * a + r && r < a && q == q' * b + r' && r' < b
    ensures x == q' * (a * b) + (r' * a + r) && r' * a + r < a * b
  {
    Regroup(q', b, r', a);
    MulMono(r' + 1, b, a);
    assert (r' + 1) * a == r' * a + a;
  }

  lemma Regroup(q: nat, b: nat, r: nat, a: nat)
    ensures (q * b + r) * a == q * (a * b) + r * a
  {
    assert (q * b) * a == q * (b * a);
  }

  lemma ModDouble(x: nat, p: nat)
    requires p > 0
    ensures x % (2 * p) == 2 * (x / 2 % p) + x % 2
  {
    var q, qq, rr := x / 2, x / 2 / p, x / 2 % p;
    assert q == qq * p + rr && x == 2 * q + x % 2;
    assert qq * (2 * p) == 2 * (qq * p);
    DivModUnique(x, 2 * p, qq, 2 * rr + x % 2);
  }

  /** Masking the low bits. */
  lemma {:induction false} AndMask(x: nat, k: nat)
    ensures Pow(2, k) > 0 && And(x, Pow(2, k) - 1) == x % Pow(2, k)
  {
    PowPositive(2, k);
    if k > 0 {
      AndMask(x / 2, k - 1);
      var p := Pow(2, k - 1);
      ModDouble(x, p);
      assert (2 * p - 1) / 2 == p - 1 && (2 * p - 1) % 2 == 1;
    }
  }

  /** A number below 2^k and a multiple of 2^k have no bit in common. */
  lemma {:induction false} AndDisjoint(low: nat, high: nat, k: nat)
    requires low < Pow(2, k)
    ensures And(low, high * Pow(2, k)) == 0
    decreases k
  {
    if k > 0 && low > 0 && high > 0 {
      var half := high * Pow(2, k - 1);
      assert high * Pow(2, k) == 2 * half;
      AndDisjoint(low / 2, high, k - 1);
      hide Pow;
      assert (2 * half) / 2 == half && (2 * half) % 2 == 0;
    } else if high == 0 {
      assert high * Pow(2, k) == 0;
    }
  }

  lemma OrStep(x: nat, y: nat)
    ensures Or(x, y) == (if x % 2 == 1 || y % 2 == 1 then 1 else 0) + 2 * Or(x / 2, y / 2)
  {}

  /** Or-ing low bits leaves the high ones alone. */
  lemma {:induction false} OrLow(high: nat, x: nat, y: nat, k: nat)
    requires x < Pow(2, k) && y < Pow(2, k)
    ensures Or(high * Pow(2, k) + x, y) == high * Pow(2, k) + Or(x, y)
    decreases k
  {
    if k > 0 && y > 0 && high > 0 {
      var half := high * Pow(2, k - 1);
      assert high * Pow(2, k) == 2 * half;
      OrLow(high, x / 2, y / 2, k - 1);
      hide Pow;
      Halve(x % 2, half + x / 2);
      OrStep(2 * half + x, y);
      OrStep(x, y);
    } else if high == 0 {
      assert high * Pow(2, k) == 0;
    }
  }
}
