/**
 * operator*= of src/arith_uint256.cpp: schoolbook multiplication on limbs, cut off at 256 bits.
 * The factor is passed by reference, as in the source, so it can be the number itself.
 */
module Multiplication {
  import opened Arith
  import opened Uint256

  /** One limb of one row: the low half of n is stored, the high half is carried. */
  lemma RowColumn(w: nat, carry: nat, u: nat, v: nat, x: nat, d: nat, e: nat, n: nat, bj: nat, bi: nat, p: nat)
    requires w + carry * p == u + x * bj * v && n == carry + d + x * e && p == bj * bi
    ensures (w + n % BASE * p) + n / BASE * (BASE * p) == (u + d * p) + x * bj * (v + e * bi)
  {
    var lo, hi := n % BASE, n / BASE;
    assert lo * p + hi * (BASE * p) == (lo + hi * BASE) * p;
    assert (carry + d + x * e) * p == carry * p + d * p + x * e * p;
    RowProduct(x, bj, v, e, bi, p);
  }

  lemma RowProduct(x: nat, bj: nat, v: nat, e: nat, bi: nat, p: nat)
    requires p == bj * bi
    ensures x * bj * (v + e * bi) == x * bj * v + x * e * p
  {
    assert x * bj * (e * bi) == x * e * (bj * bi);
  }

  /** The accumulator of a row; 64 bits hold it, and its high half is again a limb. */
  function Accumulate(carry: nat, d: nat, x: nat, e: nat): (n: nat)
    requires carry < BASE && d < BASE && x < BASE && e < BASE
    ensures n < 0x1_0000_0000_0000_0000
    ensures carry == d == e == 0 ==> n == 0
  {
    ProductFits(x, e);
    carry + d + x * e
  }

  lemma ProductFits(x: nat, e: nat)
    requires x < BASE && e < BASE
    ensures x * e <= 0xffff_fffe_0000_0001
  {
    MulMono(x, 0xffff_ffff, e);
    assert 0xffff_ffff * e <= 0xffff_fffe_0000_0001;
  }

  /** The row for limb j of the number: pn += x * BASE^j * b, what does not fit being dropped. */
  method MultiplyRow(pn: array<Limb>, b: array<Limb>, x: Limb, j: nat) returns (ghost carried: nat)
    requires pn.Length == b.Length == WIDTH && j < WIDTH
    modifies pn
    ensures pn != b ==> Val(pn[..]) + carried * Modulus() == Val(old(pn[..])) + x * Pow(BASE, j) * Val(b[..WIDTH - j])
    ensures pn == b && old(pn[..]) == Zeros(WIDTH) ==> pn[..] == Zeros(WIDTH)
  {
    hide Val, Pow, Modulus, Row, Accumulate;
    var carry: nat := 0;
    ghost var u := pn[..];
    var i := 0;
    RowStart(u, pn[..], b[..], x, j);
    while i + j < WIDTH
      invariant i + j <= WIDTH && carry < BASE
      invariant forall k :: i + j <= k < WIDTH ==> pn[k] == u[k]
      invariant pn != b ==> Row(u, pn[..], b[..], x, j, i, carry)
      invariant pn == b && u == Zeros(WIDTH) ==> carry == 0 && forall k :: 0 <= k < WIDTH ==> pn[k] == 0
    {
      ghost var before := pn[..];
      var n := Accumulate(carry, pn[i + j], x, b[i]);
      pn[i + j] := n % 0x1_0000_0000;
      assert pn[..] == before[i + j := pn[i + j]];
      if pn != b {
        RowNext(u, before, b[..], x, j, i, carry);
      }
      carry := n / 0x1_0000_0000;
      i := i + 1;
    }
    carried := carry;
    if pn != b {
      RowEnd(u, pn[..], b[..], x, j, carry);
    }
  }

  /** What i steps of a row have added. */
  ghost predicate Row(u: seq<Limb>, s: seq<Limb>, b: seq<Limb>, x: Limb, j: nat, i: nat, carry: nat)
    requires |u| == |s| == |b| == WIDTH && i + j <= WIDTH
  {
    Val(s[..i + j]) + carry * Pow(BASE, i + j) == Val(u[..i + j]) + x * Pow(BASE, j) * Val(b[..i])
  }

  ghost function Put(s: seq<Limb>, k: nat, x: Limb): seq<Limb>
    requires k < |s|
  {
    s[k := x]
  }

  lemma RowStart(u: seq<Limb>, s: seq<Limb>, b: seq<Limb>, x: Limb, j: nat)
    requires |u| == |s| == |b| == WIDTH && j <= WIDTH && u == s
    ensures Row(u, s, b, x, j, 0, 0)
  {
    hide Pow;
    ValNone(b);
  }

  lemma RowNext(u: seq<Limb>, s: seq<Limb>, b: seq<Limb>, x: Limb, j: nat, i: nat, carry: nat)
    requires |u| == |s| == |b| == WIDTH && i + j < WIDTH && carry < BASE && s[i + j] == u[i + j]
    requires Row(u, s, b, x, j, i, carry)
    ensures var n := Accumulate(carry, s[i + j], x, b[i]); Row(u, Put(s, i + j, n % BASE), b, x, j, i + 1, n / BASE)
  {
    hide Val, Pow;
    var k, n := i + j, Accumulate(carry, s[i + j], x, b[i]);
    var s' := Put(s, k, n % BASE);
    ValStep(s', k);
    assert s'[..k] == s[..k];
    ValStep(u, k);
    ValStep(b, i);
    PowAdd(BASE, j, i);
    PowNext(BASE, k);
    RowColumn(Val(s[..k]), carry, Val(u[..k]), Val(b[..i]), x, u[k], b[i], n, Pow(BASE, j), Pow(BASE, i), Pow(BASE, k));
  }

  lemma RowEnd(u: seq<Limb>, s: seq<Limb>, b: seq<Limb>, x: Limb, j: nat, carry: nat)
    requires |u| == |s| == |b| == WIDTH && j < WIDTH && Row(u, s, b, x, j, WIDTH - j, carry)
    ensures Val(s) + carry * Modulus() == Val(u) + x * Pow(BASE, j) * Val(b[..WIDTH - j])
  {
    assert s[..WIDTH] == s && u[..WIDTH] == u;
  }

  /** What the row leaves out is a multiple of 2 to the 256. */
  lemma RowTotal(a: seq<Limb>, b: seq<Limb>, j: nat, before: nat, after: nat, c: nat, carry: nat) returns (c': nat)
    requires |a| == |b| == WIDTH && j < WIDTH
    requires before + c * Modulus() == Val(a[..j]) * Val(b)
    requires after + carry * Modulus() == before + a[j] * Pow(BASE, j) * Val(b[..WIDTH - j])
    ensures after + c' * Modulus() == Val(a[..j + 1]) * Val(b)
  {
    hide Val, Pow, Modulus;
    var low, high := b[..WIDTH - j], b[WIDTH - j..];
    assert b == low + high;
    ValSplit(low, high);
    ValStep(a, j);
    ModulusSplit(j);
    c' := RowCombine(Val(a[..j]), Val(b), a[j], Pow(BASE, j), Val(low), Val(high), Pow(BASE, WIDTH - j), Modulus(),
                     before, after, c, carry);
  }

  lemma ModulusSplit(j: nat)
    requires j <= WIDTH
    ensures Pow(BASE, j) * Pow(BASE, WIDTH - j) == Modulus()
  {
    PowAdd(BASE, j, WIDTH - j);
  }

  lemma RowCombine(va: nat, vb: nat, x: nat, p: nat, low: nat, high: nat, q: nat, m: nat,
                   before: nat, after: nat, c: nat, carry: nat) returns (c': nat)
    requires vb == low + high * q && p * q == m
    requires before + c * m == va * vb && after + carry * m == before + x * p * low
    ensures after + c' * m == (va + x * p) * vb
  {
    RowSum(va, vb, x, p, low, high, q, m);
    c' := c + carry + x * high;
    Distribute(c, carry, x * high, m);
  }

  lemma Distribute(a: nat, b: nat, c: nat, m: nat)
    ensures (a + b + c) * m == a * m + b * m + c * m
  {}

  lemma RowSum(va: nat, vb: nat, x: nat, p: nat, low: nat, high: nat, q: nat, m: nat)
    requires vb == low + high * q && p * q == m
    ensures (va + x * p) * vb == va * vb + x * p * low + x * high * m
  {
    assert x * p * (high * q) == x * high * (p * q);
    assert (va + x * p) * vb == va * vb + x * p * vb;
  }

  /**
   * operator*=: the product modulo 2 to the 256 when the factor is another object. When the factor is the
   * number itself, clearing the number also clears the factor and the result is zero.
   */
  method Multiply(pn: array<Limb>, b: array<Limb>)
    requires pn.Length == b.Length == WIDTH
    modifies pn
    ensures Val(pn[..]) == if pn == b then 0 else Val(old(pn[..])) * Val(old(b[..])) % Modulus()
  {
    hide Val, Pow, Modulus;
    var a := pn[..];
    ghost var factor := b[..];
    SetZero(pn);
    assert pn[..] == Zeros(WIDTH);
    ZeroVal(WIDTH);
    ValNone(a);
    ghost var c: nat := 0;
    for j := 0 to WIDTH
      invariant pn == b ==> pn[..] == Zeros(WIDTH)
      invariant pn != b ==> b[..] == factor && Val(pn[..]) + c * Modulus() == Val(a[..j]) * Val(factor)
    {
      ghost var before := Val(pn[..]);
      ghost var carried := MultiplyRow(pn, b, a[j], j);
      if pn != b {
        assert b[..WIDTH - j] == factor[..WIDTH - j];
        c := RowTotal(a, factor, j, before, Val(pn[..]), c, carried);
      }
    }
    if pn != b {
      assert a[..WIDTH] == a;
      ValFits(pn[..]);
      DivModUnique(Val(a) * Val(factor), Modulus(), c, Val(pn[..]));
    }
  }

  /** A square is a multiple of 4^n exactly when the number is a multiple of 2^n. */
  lemma {:induction false} SquareVanishes(v: nat, n: nat)
    ensures Pow(4, n) > 0 && Pow(2, n) > 0
    ensures v * v % Pow(4, n) == 0 <==> v % Pow(2, n) == 0
  {
    hide Pow;
    PowPositive(4, n);
    PowPositive(2, n);
    if n == 0 {
      PowZero(2);
      PowZero(4);
      DivModUnique(v, 1, v, 0);
      DivModUnique(v * v, 1, v * v, 0);
    } else {
      SquareVanishes(v / 2, n - 1);
      SquareStep(v, v / 2, Pow(2, n - 1), Pow(4, n - 1));
      PowNext(4, n - 1);
      PowNext(2, n - 1);
    }
  }

  lemma SquareStep(v: nat, w: nat, p: nat, p': nat)
    requires w == v / 2 && p > 0 && p' > 0
    requires w * w % p' == 0 <==> w % p == 0
    ensures v * v % (4 * p') == 0 <==> v % (2 * p) == 0
  {
    if v % 2 == 1 {
      OddSquare(w);
      OddRemainder(v, p);
      OddRemainder(v * v, 2 * p');
    } else {
      EvenSquare(w);
      ScaledRemainder(w, p, 2);
      ScaledRemainder(w * w, p', 4);
    }
  }

  lemma OddSquare(w: nat)
    ensures (2 * w + 1) * (2 * w + 1) == 2 * (2 * (w * w) + 2 * w) + 1
  {}

  lemma EvenSquare(w: nat)
    ensures 2 * w * (2 * w) == 4 * (w * w)
  {}

  lemma OddRemainder(x: nat, p: nat)
    requires x % 2 == 1 && p > 0
    ensures x % (2 * p) != 0
  {
    var q, r := x / (2 * p), x % (2 * p);
    assert x == 2 * (p * q) + r by { assert 2 * p * q == 2 * (p * q); }
  }

  lemma ScaledRemainder(x: nat, p: nat, c: nat)
    requires p > 0 && c > 0
    ensures c * p > 0 && (c * x) % (c * p) == c * (x % p)
  {
    var q, r := x / p, x % p;
    assert c * x == q * (c * p) + c * r by { assert c * (q * p + r) == q * (c * p) + c * r; }
    MulMono(r + 1, p, c);
    DivModUnique(c * x, c * p, q, c * r);
  }

  /** Squaring in place is right exactly when the low half of the number is zero. */
  method SquareInPlace(pn: array<Limb>) returns (ghost right: bool)
    requires pn.Length == WIDTH
    modifies pn
    ensures right == (Val(pn[..]) == Val(old(pn[..])) * Val(old(pn[..])) % Modulus())
    ensures Pow(2, 128) > 0 && (right <==> Val(old(pn[..])) % Pow(2, 128) == 0)
  {
    hide Val, Modulus, Pow;
    ghost var v := Val(pn[..]);
    Multiply(pn, pn);
    right := Val(pn[..]) == v * v % Modulus();
    SquareVanishes(v, 128);
    FourPower();
  }

  lemma FourPower()
    ensures Pow(4, 128) == Modulus()
  {
    LimbPower(WIDTH);
    assert Pow(2, 2) == 4;
    hide Pow;
    PowOfPow(2, 2, 128);
  }
}
