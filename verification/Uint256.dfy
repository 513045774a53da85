/**
 * The 256-bit unsigned integer of src/arith_uint256.cpp and .h: eight 32-bit limbs, least
 * significant first, with the shift, carry and shift-and-subtract loops of the source.
 */
module Uint256 {
  import opened Arith

  const WIDTH: nat := 8
  const BASE: nat := 0x1_0000_0000

  /** A uint32_t. */
  type Limb = x: int | 0 <= x < 0x1_0000_0000

  /** The number a sequence of limbs stands for. */
  ghost function Val(s: seq<Limb>): nat {
    if s == [] then 0 else Val(s[..|s| - 1]) + s[|s| - 1] * Pow(BASE, |s| - 1)
  }

  /** 2 to the 256. */
  ghost function Modulus(): (m: nat)
    ensures m > 0
  {
    PowPositive(BASE, WIDTH);
    Pow(BASE, WIDTH)
  }

  lemma BaseIsPowerOfTwo()
    ensures Pow(2, 32) == BASE
  {
    assert Pow(2, 8) == 256;
    PowAdd(2, 8, 8);
    PowAdd(2, 16, 16);
  }

  lemma LimbPower(k: nat)
    ensures Pow(BASE, k) == Pow(2, 32 * k)
  {
    BaseIsPowerOfTwo();
    PowOfPow(2, 32, k);
  }

  lemma ValStep(s: seq<Limb>, i: nat)
    requires i < |s|
    ensures Val(s[..i + 1]) == Val(s[..i]) + s[i] * Pow(BASE, i)
  {
    assert s[..i + 1][..i] == s[..i];
  }

  lemma {:induction false} ValBound(s: seq<Limb>)
    ensures Val(s) < Pow(BASE, |s|)
  {
    if s != [] {
      var n := |s| - 1;
      ValBound(s[..n]);
      var d: int := s[n];
      MulMono(d + 1, BASE, Pow(BASE, n));
      assert (d + 1) * Pow(BASE, n) == d * Pow(BASE, n) + Pow(BASE, n);
    }
  }

  lemma ValFits(s: seq<Limb>)
    requires |s| == WIDTH
    ensures Val(s) < Modulus()
  {
    ValBound(s);
  }

  /** The value of all limbs is that of the low ones and the high ones shifted. */
  lemma {:induction false} ValSplit(a: seq<Limb>, b: seq<Limb>)
    ensures Val(a + b) == Val(a) + Val(b) * Pow(BASE, |a|)
  {
    if b == [] {
      assert a + b == a;
    } else {
      var n := |b| - 1;
      ValSplit(a, b[..n]);
      assert (a + b)[..|a| + n] == a + b[..n];
      PowAdd(BASE, n, |a|);
      ShiftedDigit(Val(b[..n]), b[n], Pow(BASE, n), Pow(BASE, |a|));
    }
  }

  lemma ShiftedDigit(v: nat, d: nat, p: nat, q: nat)
    ensures (v + d * p) * q == v * q + d * (p * q)
  {
    assert d * p * q == d * (p * q);
  }

  lemma ValUpdate(s: seq<Limb>, i: nat, x: Limb)
    requires i < |s|
    ensures Val(s[i := x]) == Val(s) + (x - s[i]) * Pow(BASE, i)
  {
    var low, high := s[..i], s[i + 1..];
    assert s == low + [s[i]] + high && s[i := x] == low + [x] + high;
    ValSplit(low + [s[i]], high);
    ValSplit(low + [x], high);
    ValAppend(low, s[i]);
    ValAppend(low, x);
    hide Val, Pow;
    var d, y: int := s[i], x;
    assert (y - d) * Pow(BASE, i) == y * Pow(BASE, i) - d * Pow(BASE, i);
  }

  lemma ValAppend(low: seq<Limb>, x: Limb)
    ensures Val(low + [x]) == Val(low) + x * Pow(BASE, |low|)
  {
    assert (low + [x])[..|low|] == low;
  }

  // ------------------------------------------------------------------
  // Addition, complement, negation, subtraction
  // ------------------------------------------------------------------

  /** One column of an addition with carry. */
  lemma ColumnSum(v: int, c: int, p: int, va: int, vb: int, x: int, y: int, r: int, c': int, base: int)
    requires v + c * p == va + vb && c + x + y == r + c' * base
    ensures v + r * p + c' * (base * p) == (va + x * p) + (vb + y * p)
  {
    assert c' * (base * p) == (c' * base) * p;
    assert (r + c' * base) * p == r * p + (c' * base) * p;
    assert (c + x + y) * p == c * p + x * p + y * p;
  }

  /** operator+=: limb by limb with a carry, wrapping around at 2 to the 256. */
  method AddTo(pn: array<Limb>, b: seq<Limb>)
    requires pn.Length == WIDTH == |b|
    modifies pn
    ensures Val(pn[..]) == (Val(old(pn[..])) + Val(b)) % Modulus()
  {
    ghost var a := pn[..];
    var carry := 0;
    for i := 0 to WIDTH
      invariant pn[i..] == a[i..]
      invariant 0 <= carry <= 1
      invariant Val(pn[..i]) + carry * Pow(BASE, i) == Val(a[..i]) + Val(b[..i])
    {
      hide Val, Pow;
      assert pn[i] == pn[i..][0] == a[i];
      var n := carry + pn[i] + b[i];
      ghost var low, c := pn[..i], carry;
      pn[i] := n % 0x1_0000_0000;
      carry := n / 0x1_0000_0000;
      assert pn[..i] == low && pn[i + 1..] == a[i + 1..] && pn[..i + 1][..i] == low;
      SumStep(low, pn[..], a, b, i, c, carry);
    }
    assert pn[..WIDTH] == pn[..] && a[..WIDTH] == a && b[..WIDTH] == b;
    ValBound(pn[..]);
    DivModUnique(Val(a) + Val(b), Modulus(), carry, Val(pn[..]));
  }

  lemma SumStep(low: seq<Limb>, r: seq<Limb>, a: seq<Limb>, b: seq<Limb>, i: nat, c: nat, c': nat)
    requires i < |r| && i < |a| && i < |b| && r[..i] == low
    requires Val(low) + c * Pow(BASE, i) == Val(a[..i]) + Val(b[..i])
    requires c + a[i] + b[i] == r[i] + c' * BASE
    ensures Val(r[..i + 1]) + c' * Pow(BASE, i + 1) == Val(a[..i + 1]) + Val(b[..i + 1])
  {
    ValStep(r, i);
    ValStep(a, i);
    ValStep(b, i);
    ColumnSum(Val(low), c, Pow(BASE, i), Val(a[..i]), Val(b[..i]), a[i], b[i], r[i], c', BASE);
  }

  /** operator~: every limb complemented. */
  method Complement(b: seq<Limb>) returns (r: seq<Limb>)
    requires |b| == WIDTH
    ensures |r| == WIDTH && Val(r) == Modulus() - 1 - Val(b)
  {
    r := [];
    for i := 0 to WIDTH
      invariant |r| == i && Val(r) + Val(b[..i]) == Pow(BASE, i) - 1
    {
      var r' := r + [0xffffffff - b[i]];
      assert r'[..i] == r;
      ValStep(r', i);
      ValStep(b, i);
      assert r'[..i + 1] == r';
      assert (0xffffffff - b[i]) * Pow(BASE, i) + b[i] * Pow(BASE, i) == (BASE - 1) * Pow(BASE, i);
      r := r';
    }
    assert b[..WIDTH] == b;
  }

  /** ++ on a uint32_t. */
  function Next(x: int): Limb {
    (x + 1) % 0x1_0000_0000
  }

  /** operator++: the carry runs on while limbs wrap to zero. */
  method Increment(pn: array<Limb>)
    requires pn.Length == WIDTH
    modifies pn
    ensures Val(pn[..]) == (Val(old(pn[..])) + 1) % Modulus()
  {
    ghost var v := Val(pn[..]);
    var i := 0;
    ghost var s := pn[..];
    pn[0] := Next(pn[0]);
    assert pn[..] == s[0 := pn[0]];
    IncrementLimb(s, 0);
    while pn[i] == 0 && i < WIDTH - 1
      invariant 0 <= i < WIDTH
      invariant Val(pn[..]) + (if pn[i] == 0 then Pow(BASE, i + 1) else 0) == v + 1
    {
      hide Val, Pow;
      i := i + 1;
      s := pn[..];
      pn[i] := Next(pn[i]);
      assert pn[..] == s[i := pn[i]];
      IncrementLimb(s, i);
    }
    ValBound(pn[..]);
    DivModUnique(v + 1, Modulus(), if pn[i] == 0 then 1 else 0, Val(pn[..]));
  }

  lemma IncrementLimb(s: seq<Limb>, i: nat)
    requires i < |s|
    ensures var x := Next(s[i]);
            Val(s[i := x]) + (if x == 0 then Pow(BASE, i + 1) else 0) == Val(s) + Pow(BASE, i)
  {
    var x := Next(s[i]);
    ValUpdate(s, i, x);
    var p := Pow(BASE, i);
    assert Pow(BASE, i + 1) == BASE * p;
    hide Val, Pow;
    var d: int := x;
    if d == 0 {
      assert d - s[i] == 1 - BASE && (1 - BASE) * p == p - BASE * p;
    } else {
      assert d - s[i] == 1 && 1 * p == p;
    }
  }

  /** unary operator-: complement and increment. */
  method Negate(b: seq<Limb>) returns (r: seq<Limb>)
    requires |b| == WIDTH
    ensures |r| == WIDTH && Val(r) == (Modulus() - Val(b)) % Modulus()
  {
    var c := Complement(b);
    var ret := new Limb[WIDTH](i requires 0 <= i < WIDTH => c[i]);
    assert ret[..] == c;
    Increment(ret);
    r := ret[..];
  }

  /** operator-=: add the negation. */
  method SubFrom(pn: array<Limb>, b: seq<Limb>)
    requires pn.Length == WIDTH == |b|
    modifies pn
    ensures Val(pn[..]) == (Val(old(pn[..])) + Modulus() - Val(b)) % Modulus()
    ensures Val(b) <= Val(old(pn[..])) ==> Val(pn[..]) == Val(old(pn[..])) - Val(b)
  {
    ghost var va, vb := Val(pn[..]), Val(b);
    ValBound(pn[..]);
    ValBound(b);
    var minus := Negate(b);
    AddTo(pn, minus);
    hide Val, Modulus;
    NegateAdd(va, vb, Modulus());
  }

  lemma NegateAdd(a: nat, b: nat, m: nat)
    requires a < m && b < m
    ensures (a + (m - b) % m) % m == (a + m - b) % m
    ensures b <= a ==> (a + m - b) % m == a - b
  {
    if b == 0 {
      DivModUnique(m, m, 1, 0);
      DivModUnique(a, m, 0, a);
      DivModUnique(a + m, m, 1, a);
    } else {
      DivModUnique(m - b, m, 0, m - b);
    }
    if b <= a {
      DivModUnique(a + m - b, m, 1, a - b);
    }
  }

  // ------------------------------------------------------------------
  // Comparison and bit length
  // ------------------------------------------------------------------

  lemma FirstDifference(a: seq<Limb>, b: seq<Limb>, i: nat)
    requires |a| == |b| && i < |a| && a[i] < b[i] && a[i + 1..] == b[i + 1..]
    ensures Val(a) < Val(b)
  {
    assert a == a[..i + 1] + a[i + 1..] && b == b[..i + 1] + b[i + 1..];
    ValSplit(a[..i + 1], a[i + 1..]);
    ValSplit(b[..i + 1], b[i + 1..]);
    ValStep(a, i);
    ValStep(b, i);
    ValBound(a[..i]);
    DigitBounds(Val(a[..i]), a[i], Pow(BASE, i), 0, b[i]);
    hide Val, Pow;
  }

  /** A digit on top of a smaller remainder decides between multiples of its unit. */
  lemma DigitBounds(v: nat, x: nat, p: nat, lo: nat, hi: nat)
    requires v < p && lo <= x < hi
    ensures lo * p <= v + x * p < hi * p
  {
    MulMono(lo, x, p);
    MulMono(x + 1, hi, p);
    assert (x + 1) * p == x * p + p;
  }

  /** Compare from the most significant limb down. */
  method CompareTo(a: seq<Limb>, b: seq<Limb>) returns (c: int)
    requires |a| == WIDTH == |b|
    ensures c == if Val(a) < Val(b) then -1 else if Val(a) > Val(b) then 1 else 0
  {
    var i := WIDTH - 1;
    while i >= 0
      invariant -1 <= i < WIDTH && a[i + 1..] == b[i + 1..]
    {
      if a[i] < b[i] {
        FirstDifference(a, b, i);
        return -1;
      }
      if a[i] > b[i] {
        FirstDifference(b, a, i);
        return 1;
      }
      assert a[i..] == [a[i]] + a[i + 1..] && b[i..] == [b[i]] + b[i + 1..];
      i := i - 1;
    }
    assert a == a[0..] && b == b[0..];
    return 0;
  }

  /** n is the bit length of v: the position of its highest bit plus one, or zero. */
  ghost predicate IsBitLength(v: nat, n: nat) {
    v < Pow(2, n) && (n > 0 ==> Pow(2, n - 1) <= v)
  }

  lemma TopLimbLength(a: seq<Limb>, pos: nat, n: nat)
    requires pos < |a| && a[pos + 1..] == Zeros(|a| - pos - 1) && n > 0 && IsBitLength(a[pos], n)
    ensures IsBitLength(Val(a), 32 * pos + n)
  {
    hide Val, Pow;
    assert a == a[..pos + 1] + a[pos + 1..];
    ValSplit(a[..pos + 1], a[pos + 1..]);
    ZeroVal(|a| - pos - 1);
    ValStep(a, pos);
    ValBound(a[..pos]);
    LimbPower(pos);
    PowAdd(2, n, 32 * pos);
    PowAdd(2, n - 1, 32 * pos);
    DigitBounds(Val(a[..pos]), a[pos], Pow(BASE, pos), Pow(2, n - 1), Pow(2, n));
  }

  function Zeros(n: nat): (z: seq<Limb>)
    ensures |z| == n && forall i :: 0 <= i < n ==> z[i] == 0
  {
    seq<Limb>(n, _ => 0)
  }

  lemma {:induction false} ZeroVal(n: nat)
    ensures Val(Zeros(n)) == 0
  {
    if n > 0 {
      ZeroVal(n - 1);
      assert Zeros(n)[..n - 1] == Zeros(n - 1);
    }
  }

  /** The bit length of the whole number. */
  method Bits(a: seq<Limb>) returns (n: nat)
    requires |a| == WIDTH
    ensures IsBitLength(Val(a), n)
  {
    var pos := WIDTH - 1;
    while pos >= 0
      invariant -1 <= pos < WIDTH && a[pos + 1..] == Zeros(WIDTH - pos - 1)
    {
      if a[pos] != 0 {
        var nbits := 31;
        BaseIsPowerOfTwo();
        while nbits > 0
          invariant 0 <= nbits <= 31 && a[pos] < Pow(2, nbits + 1)
        {
          BitTest(a[pos], nbits);
          if And(a[pos], Pow(2, nbits)) != 0 {
            TopLimbLength(a, pos, nbits + 1);
            return 32 * pos + nbits + 1;
          }
          nbits := nbits - 1;
        }
        assert Pow(2, 0) == 1;
        TopLimbLength(a, pos, 1);
        return 32 * pos + 1;
      }
      assert a[pos..] == [a[pos]] + a[pos + 1..];
      assert a[pos..] == Zeros(WIDTH - pos);
      pos := pos - 1;
    }
    assert a == a[0..];
    ZeroVal(WIDTH);
    return 0;
  }

  lemma BitTest(x: nat, n: nat)
    requires x < Pow(2, n + 1)
    ensures And(x, Pow(2, n)) != 0 <==> Pow(2, n) <= x
  {
    AndBit(x, n);
    var p := Pow(2, n);
    if x >= p { DivModUnique(x, p, 1, x - p); } else { DivModUnique(x, p, 0, x); }
  }

  // ------------------------------------------------------------------
  // Shifts
  // ------------------------------------------------------------------

  function At(a: seq<Limb>, j: int): Limb {
    if 0 <= j < |a| then a[j] else 0
  }

  /** The limbs of a, moved up by k places within the same width. */
  ghost function Moved(a: seq<Limb>, k: nat): (r: seq<Limb>)
    ensures |r| == |a| && forall j :: 0 <= j < |a| ==> r[j] == At(a, j - k)
  {
    seq<Limb>(|a|, j => At(a, j - k))
  }

  /** The parts of x << sh that stay in the limb and that move to the next one. */
  function ShlLow(x: nat, sh: nat): nat
    requires x < BASE && sh < 32
  {
    x * Pow(2, sh) % 0x1_0000_0000
  }

  function ShlHigh(x: nat, sh: nat): nat
    requires x < BASE && sh < 32
  {
    PowPositive(2, 32 - sh);
    QuotientFits(x, Pow(2, 32 - sh));
    x / Pow(2, 32 - sh)
  }

  /** What a limb shift does: the high part is small, the low part a multiple of 2^sh, and
      together they are the shifted value. */
  lemma ShlParts(x: nat, sh: nat)
    requires x < BASE && sh < 32
    ensures x * Pow(2, sh) == ShlLow(x, sh) + ShlHigh(x, sh) * BASE
    ensures 0 <= ShlHigh(x, sh) < Pow(2, sh)
    ensures exists m: nat :: m < Pow(2, 32 - sh) && ShlLow(x, sh) == m * Pow(2, sh)
  {
    hide Pow;
    var p, q := Pow(2, sh), Pow(2, 32 - sh);
    PowPositive(2, sh);
    PowPositive(2, 32 - sh);
    PowAdd(2, sh, 32 - sh);
    BaseIsPowerOfTwo();
    QuotientFits(x, q);
    LimbProduct(x, p, q, x / q, x % q);
  }

  lemma LimbProduct(x: nat, p: nat, q: nat, h: nat, m: nat)
    requires p > 0 && q > 0 && p * q == BASE && x < BASE && x == h * q + m && m < q
    ensures x * p == m * p + h * BASE && m * p < BASE && x * p % BASE == m * p && h < p
  {
    assert (h * q + m) * p == h * (p * q) + m * p by { Regroup(h, q, m, p); }
    MulMono(m + 1, q, p);
    assert (m + 1) * p == m * p + p;
    DivModUnique(x * p, BASE, h, m * p);
    if h >= p { MulMono(p, h, q); }
  }

  /** The limb that receives the low part of lo and the high part of hi. */
  function ShlLimb(lo: nat, hi: nat, sh: nat): nat
    requires lo < BASE && hi < BASE && sh < 32
  {
    ShlLow(lo, sh) + ShlHigh(hi, sh)
  }

  lemma ShlOr(lo: nat, hi: nat, sh: nat)
    requires lo < BASE && hi < BASE && sh < 32
    ensures Or(ShlHigh(hi, sh), ShlLow(lo, sh)) == ShlLimb(lo, hi, sh)
    ensures 0 <= ShlLimb(lo, hi, sh) < BASE
  {
    ShlParts(lo, sh);
    ShlParts(hi, sh);
    var m: nat :| m < Pow(2, 32 - sh) && ShlLow(lo, sh) == m * Pow(2, sh);
    OrDisjoint(ShlHigh(hi, sh), m, sh);
    DigitBounds(ShlHigh(hi, sh), m, Pow(2, sh), 0, Pow(2, 32 - sh));
    PowAdd(2, 32 - sh, sh);
    BaseIsPowerOfTwo();
  }

  /** The loop of operator<<=: the high part of each limb goes into the next one. */
  method SpreadUp(pn: array<Limb>, a: seq<Limb>, k: nat, sh: nat)
    requires pn.Length == WIDTH == |a| && sh < 32
    requires forall j :: 0 <= j < WIDTH ==> pn[j] == 0
    modifies pn
    ensures forall j :: 0 <= j < WIDTH ==> pn[j] == ShlLimb(At(a, j - k), At(a, j - k - 1), sh)
  {
    hide Pow, Or, ShlLow, ShlHigh, ShlLimb;
    ShlZero(sh);
    for i := 0 to WIDTH
      invariant forall j :: 0 <= j < WIDTH && j < i + k ==> pn[j] == ShlLimb(At(a, j - k), At(a, j - k - 1), sh)
      invariant i + k < WIDTH ==> pn[i + k] == ShlHigh(At(a, i - 1), sh)
      invariant forall j :: i + k < j < WIDTH ==> pn[j] == 0
    {
      OrHigh(a[i], sh);
      ShlOr(a[i], At(a, i - 1), sh);
      if sh == 0 { ShlNone(a[i]); }
      if i + k + 1 < WIDTH && sh != 0 {
        pn[i + k + 1] := Or(pn[i + k + 1], ShlHigh(a[i], sh));
      }
      if i + k < WIDTH {
        pn[i + k] := Or(pn[i + k], ShlLow(a[i], sh));
      }
    }
  }

  /** Set every limb to zero. */
  method SetZero(pn: array<Limb>)
    requires pn.Length == WIDTH
    modifies pn
    ensures forall j :: 0 <= j < WIDTH ==> pn[j] == 0
  {
    for i := 0 to WIDTH
      invariant forall j :: 0 <= j < i ==> pn[j] == 0
    {
      pn[i] := 0;
    }
  }

  /** operator<<=: multiply by a power of two, wrapping around at 2 to the 256. */
  method ShiftLeft(pn: array<Limb>, shift: nat)
    requires pn.Length == WIDTH
    modifies pn
    ensures Val(pn[..]) == Val(old(pn[..])) * Pow(2, shift) % Modulus()
  {
    hide Val, Pow, Modulus, ShlLimb;
    var a := pn[..];
    SetZero(pn);
    var k, sh := shift / 32, shift % 32;
    SpreadUp(pn, a, k, sh);
    ShlTotal(a, pn[..], shift, k, sh);
  }

  lemma ShlTotal(a: seq<Limb>, r: seq<Limb>, shift: nat, k: nat, sh: nat)
    requires |a| == |r| == WIDTH && shift == 32 * k + sh && sh < 32
    requires forall j :: 0 <= j < WIDTH ==> r[j] == ShlLimb(At(a, j - k), At(a, j - k - 1), sh)
    ensures Val(r) == Val(a) * Pow(2, shift) % Modulus()
  {
    hide Val, Pow, Modulus, ShlLimb;
    ShlValue(a, r, k, sh);
    ShlShift(a, k, sh);
  }

  lemma OrHigh(x: nat, sh: nat)
    requires x < BASE && sh < 32
    ensures Or(0, ShlHigh(x, sh)) == ShlHigh(x, sh) < BASE
  {
    PowPositive(2, 32 - sh);
    QuotientFits(x, Pow(2, 32 - sh));
  }

  lemma ShlNone(x: nat)
    requires x < BASE
    ensures ShlHigh(x, 0) == 0
  {
    BaseIsPowerOfTwo();
    DivModUnique(x, BASE, 0, x);
  }

  lemma ShlZero(sh: nat)
    requires sh < 32
    ensures ShlLow(0, sh) == 0 && ShlHigh(0, sh) == 0 && ShlLimb(0, 0, sh) == 0
  {
    assert 0 * Pow(2, sh) == 0;
    PowPositive(2, 32 - sh);
    DivModUnique(0, Pow(2, 32 - sh), 0, 0);
  }

  lemma ValNone(s: seq<Limb>)
    ensures Val(s[..0]) == 0 && Pow(BASE, 0) == 1
  {
  }

  /** One limb of a left shift. */
  lemma ShlColumn(v: int, h: int, w: int, lo: int, x: int, h': int, p: int, q: int, base: int)
    requires v + h * p == w * q && x * q == lo + h' * base
    ensures v + (lo + h) * p + h' * (base * p) == (w + x * p) * q
  {
    assert (lo + h) * p == lo * p + h * p;
    assert h' * (base * p) == (h' * base) * p;
    assert (x * q) * p == lo * p + (h' * base) * p;
    assert (w + x * p) * q == w * q + (x * q) * p;
  }

  lemma {:induction false} ShlPrefix(m: seq<Limb>, r: seq<Limb>, sh: nat, i: nat)
    requires sh < 32 && |m| == |r| && i <= |m|
    requires forall j :: 0 <= j < |m| ==> r[j] == ShlLimb(m[j], At(m, j - 1), sh)
    ensures Val(r[..i]) + ShlHigh(At(m, i - 1), sh) * Pow(BASE, i) == Val(m[..i]) * Pow(2, sh)
  {
    hide Val, Pow, ShlHigh, ShlLow;
    if i == 0 {
      ShlZero(sh);
      ValNone(m);
      ValNone(r);
    } else {
      ShlPrefix(m, r, sh, i - 1);
      ValStep(m, i - 1);
      ValStep(r, i - 1);
      ShlParts(m[i - 1], sh);
      PowNext(BASE, i - 1);
      ShlColumn(Val(r[..i - 1]), ShlHigh(At(m, i - 2), sh), Val(m[..i - 1]), ShlLow(m[i - 1], sh), m[i - 1],
                ShlHigh(m[i - 1], sh), Pow(BASE, i - 1), Pow(2, sh), BASE);
    }
  }

  lemma ShlValue(a: seq<Limb>, r: seq<Limb>, k: nat, sh: nat)
    requires |a| == |r| == WIDTH && sh < 32
    requires forall j :: 0 <= j < WIDTH ==> r[j] == ShlLimb(At(a, j - k), At(a, j - k - 1), sh)
    ensures Val(r) == Val(Moved(a, k)) * Pow(2, sh) % Modulus()
  {
    hide Val, Pow, ShlHigh, ShlLimb, ShlLow;
    var m := Moved(a, k);
    forall j | 0 <= j < WIDTH ensures r[j] == ShlLimb(m[j], At(m, j - 1), sh) {}
    ShlPrefix(m, r, sh, WIDTH);
    assert m[..WIDTH] == m && r[..WIDTH] == r;
    ValBound(r);
    DivModUnique(Val(m) * Pow(2, sh), Modulus(), ShlHigh(At(m, WIDTH - 1), sh), Val(r));
  }

  lemma MovedUp(a: seq<Limb>, k: nat)
    requires |a| == WIDTH
    ensures Val(Moved(a, k)) == Val(a) * Pow(BASE, k) % Modulus()
  {
    PowPositive(BASE, WIDTH);
    if k >= WIDTH {
      MovedOut(a, k);
    } else {
      MovedWithin(a, k);
    }
  }

  lemma MovedOut(a: seq<Limb>, k: nat)
    requires |a| == WIDTH <= k
    ensures Val(Moved(a, k)) == Val(a) * Pow(BASE, k) % Modulus() == 0
  {
    hide Val, Pow;
    PowPositive(BASE, WIDTH);
    assert Moved(a, k) == Zeros(WIDTH);
    ZeroVal(WIDTH);
    PowAdd(BASE, k - WIDTH, WIDTH);
    var u := Pow(BASE, k - WIDTH);
    assert Val(a) * (u * Modulus()) == (Val(a) * u) * Modulus();
    DivModUnique(Val(a) * Pow(BASE, k), Modulus(), Val(a) * u, 0);
  }

  lemma MovedWithin(a: seq<Limb>, k: nat)
    requires |a| == WIDTH > k
    ensures Val(Moved(a, k)) == Val(a) * Pow(BASE, k) % Modulus()
  {
    hide Val, Pow;
    PowPositive(BASE, WIDTH);
    var m, low, high := Moved(a, k), a[..WIDTH - k], a[WIDTH - k..];
    ValBound(m);
    MovedLimbs(a, k);
    ValSplit(Zeros(k), low);
    ZeroVal(k);
    ValSplit(low, high);
    PowAdd(BASE, WIDTH - k, k);
    ShiftedDigit(Val(low), Val(high), Pow(BASE, WIDTH - k), Pow(BASE, k));
    DivModUnique(Val(a) * Pow(BASE, k), Modulus(), Val(high), Val(m));
  }

  lemma MovedLimbs(a: seq<Limb>, k: nat)
    requires |a| == WIDTH > k
    ensures Moved(a, k) == Zeros(k) + a[..WIDTH - k] && a == a[..WIDTH - k] + a[WIDTH - k..]
  {
    var m, z := Moved(a, k), Zeros(k) + a[..WIDTH - k];
    forall j | 0 <= j < WIDTH ensures m[j] == z[j] {}
  }

  lemma ModMul(x: nat, p: nat, m: nat)
    requires m > 0
    ensures (x % m) * p % m == x * p % m
  {
    QuotientFits(x, m);
    QuotientFits((x % m) * p, m);
    Products(x, p, m, x / m, x % m, (x % m) * p / m, (x % m) * p % m);
    DivModUnique(x * p, m, (x / m) * p + (x % m) * p / m, (x % m) * p % m);
  }

  lemma Products(x: nat, p: nat, m: nat, q: nat, r: nat, q': nat, r': nat)
    requires x == q * m + r && r * p == q' * m + r'
    ensures x * p == (q * p + q') * m + r'
  {
    Regroup(q, m, r, p);
    assert q * (p * m) == (q * p) * m;
    assert (q * p + q') * m == (q * p) * m + q' * m;
  }

  lemma ShlShift(a: seq<Limb>, k: nat, sh: nat)
    requires |a| == WIDTH && sh < 32
    ensures Val(Moved(a, k)) * Pow(2, sh) % Modulus() == Val(a) * Pow(2, 32 * k + sh) % Modulus()
  {
    hide Val, Pow, Moved;
    PowPositive(BASE, WIDTH);
    MovedUp(a, k);
    ModMul(Val(a) * Pow(BASE, k), Pow(2, sh), Modulus());
    LimbPower(k);
    PowAdd(2, 32 * k, sh);
    assert Val(a) * Pow(BASE, k) * Pow(2, sh) == Val(a) * (Pow(BASE, k) * Pow(2, sh));
  }

  /** The limbs of a, moved down by k places within the same width. */
  ghost function Lowered(a: seq<Limb>, k: nat): (r: seq<Limb>)
    ensures |r| == |a| && forall j :: 0 <= j < |a| ==> r[j] == At(a, j + k)
  {
    seq<Limb>(|a|, j requires 0 <= j => At(a, j + k))
  }

  /** The parts of x >> sh that stay in the limb and that move to the previous one. */
  function ShrLow(x: nat, sh: nat): nat
    requires x < BASE && sh < 32
  {
    PowPositive(2, sh);
    QuotientFits(x, Pow(2, sh));
    x / Pow(2, sh)
  }

  function ShrHigh(x: nat, sh: nat): nat
    requires x < BASE && sh < 32
  {
    x * Pow(2, 32 - sh) % 0x1_0000_0000
  }

  /** The limb that keeps x >> sh and receives what the limb above it loses. */
  function ShrLimb(x: nat, up: nat, sh: nat): nat
    requires x < BASE && up < BASE && sh < 32
  {
    ShrLow(x, sh) + ShrHigh(up, sh)
  }

  lemma ShrParts(x: nat, sh: nat) returns (d: nat)
    requires x < BASE && sh < 32
    ensures Pow(2, sh) > 0 && d == x % Pow(2, sh)
    ensures x == ShrLow(x, sh) * Pow(2, sh) + d && ShrLow(x, sh) < Pow(2, 32 - sh)
    ensures ShrHigh(x, sh) == d * Pow(2, 32 - sh) && ShrHigh(x, sh) * Pow(2, sh) == d * BASE && d < Pow(2, sh)
  {
    hide Pow;
    var p, q := Pow(2, sh), Pow(2, 32 - sh);
    PowPositive(2, sh);
    PowPositive(2, 32 - sh);
    PowAdd(2, sh, 32 - sh);
    BaseIsPowerOfTwo();
    QuotientFits(x, p);
    d := x % p;
    LimbProduct(x, q, p, x / p, d);
    assert d * q * p == d * (p * q);
  }

  lemma ShrOr(x: nat, up: nat, sh: nat)
    requires x < BASE && up < BASE && sh < 32
    ensures Or(ShrLow(x, sh), ShrHigh(up, sh)) == ShrLimb(x, up, sh) < BASE
    ensures Or(0, ShrLow(x, sh)) == ShrLow(x, sh) < BASE
    ensures sh == 0 ==> ShrHigh(up, sh) == 0
  {
    var d := ShrParts(x, sh);
    var d' := ShrParts(up, sh);
    OrDisjoint(ShrLow(x, sh), d', 32 - sh);
    DigitBounds(ShrLow(x, sh), d', Pow(2, 32 - sh), 0, Pow(2, sh));
    PowAdd(2, sh, 32 - sh);
    BaseIsPowerOfTwo();
  }

  lemma ShrZero(sh: nat)
    requires sh < 32
    ensures ShrLow(0, sh) == 0 && ShrHigh(0, sh) == 0
  {
    assert 0 * Pow(2, 32 - sh) == 0;
    PowPositive(2, sh);
    DivModUnique(0, Pow(2, sh), 0, 0);
  }

  /** The loop of operator>>=: what each limb loses goes into the previous one. */
  method SpreadDown(pn: array<Limb>, a: seq<Limb>, k: nat, sh: nat)
    requires pn.Length == WIDTH == |a| && sh < 32
    requires forall j :: 0 <= j < WIDTH ==> pn[j] == 0
    modifies pn
    ensures forall j :: 0 <= j < WIDTH ==> pn[j] == ShrLimb(At(a, j + k), At(a, j + k + 1), sh)
  {
    hide Pow, Or, ShrLow, ShrHigh;
    ShrZero(sh);
    for i := 0 to WIDTH
      invariant forall j :: 0 <= j < i - k - 1 ==> pn[j] == ShrLimb(At(a, j + k), At(a, j + k + 1), sh)
      invariant 0 <= i - k - 1 ==> pn[i - k - 1] == ShrLow(At(a, i - 1), sh)
      invariant forall j :: 0 <= j < WIDTH && i - k - 1 < j ==> pn[j] == 0
    {
      ShrOr(At(a, i - 1), a[i], sh);
      ShrOr(a[i], 0, sh);
      if i - k - 1 >= 0 && sh != 0 {
        pn[i - k - 1] := Or(pn[i - k - 1], ShrHigh(a[i], sh));
      }
      if i - k >= 0 {
        pn[i - k] := Or(pn[i - k], ShrLow(a[i], sh));
      }
    }
  }

  /** One limb of a right shift. */
  lemma ShrColumn(w: int, d: int, v: int, c: int, lo: int, hi: int, x: int, d': int, p: int, q: int, base: int)
    requires w + d * p == q * v + c && x == lo * q + d && hi * q == d' * base
    ensures (w + x * p) + d' * (base * p) == q * (v + (lo + hi) * p) + c
  {
    assert q * (v + (lo + hi) * p) == q * v + (lo * q) * p + (hi * q) * p;
    assert (lo * q + d) * p == (lo * q) * p + d * p;
    assert (d' * base) * p == d' * (base * p);
  }

  lemma {:induction false} ShrPrefix(m: seq<Limb>, r: seq<Limb>, sh: nat, i: nat)
    requires sh < 32 && |m| == |r| && i <= |m| && Pow(2, sh) > 0
    requires forall j :: 0 <= j < |m| ==> r[j] == ShrLimb(m[j], At(m, j + 1), sh)
    ensures Val(m[..i]) + At(m, i) % Pow(2, sh) * Pow(BASE, i) == Pow(2, sh) * Val(r[..i]) + At(m, 0) % Pow(2, sh)
  {
    hide Val, Pow, ShrHigh, ShrLow;
    if i == 0 {
      ValNone(m);
      ValNone(r);
    } else {
      ShrPrefix(m, r, sh, i - 1);
      ValStep(m, i - 1);
      ValStep(r, i - 1);
      var d := ShrParts(m[i - 1], sh);
      var d' := ShrParts(At(m, i), sh);
      PowNext(BASE, i - 1);
      ShrColumn(Val(m[..i - 1]), d, Val(r[..i - 1]), At(m, 0) % Pow(2, sh), ShrLow(m[i - 1], sh),
                ShrHigh(At(m, i), sh), m[i - 1], d', Pow(BASE, i - 1), Pow(2, sh), BASE);
    }
  }

  /** r is a, shifted right by k limbs and sh bits. */
  ghost predicate IsShr(a: seq<Limb>, r: seq<Limb>, k: nat, sh: nat)
    requires |a| == |r| == WIDTH && sh < 32
  {
    forall j :: 0 <= j < WIDTH ==> r[j] == ShrLimb(At(a, j + k), At(a, j + k + 1), sh)
  }

  lemma ShrValue(a: seq<Limb>, r: seq<Limb>, k: nat, sh: nat)
    requires |a| == |r| == WIDTH && sh < 32 && IsShr(a, r, k, sh)
    ensures Pow(2, sh) > 0 && Val(r) == Val(Lowered(a, k)) / Pow(2, sh)
  {
    hide Val, Pow, ShrHigh, ShrLow, ShrLimb;
    PowPositive(2, sh);
    var m := Lowered(a, k);
    forall j | 0 <= j < WIDTH ensures r[j] == ShrLimb(m[j], At(m, j + 1), sh) {}
    ShrPrefix(m, r, sh, WIDTH);
    assert m[..WIDTH] == m && r[..WIDTH] == r;
    DivModUnique(0, Pow(2, sh), 0, 0);
    DivModUnique(Val(m), Pow(2, sh), Val(r), At(m, 0) % Pow(2, sh));
  }

  lemma MovedDown(a: seq<Limb>, k: nat)
    requires |a| == WIDTH
    ensures Pow(BASE, k) > 0 && Val(Lowered(a, k)) == Val(a) / Pow(BASE, k)
  {
    hide Val, Pow;
    PowPositive(BASE, k);
    var m := Lowered(a, k);
    ValBound(a);
    if k >= WIDTH {
      assert m == Zeros(WIDTH);
      ZeroVal(WIDTH);
      PowMono(BASE, WIDTH, k);
      DivModUnique(Val(a), Pow(BASE, k), 0, Val(a));
    } else {
      var low, high := a[..k], a[k..];
      assert m == high + Zeros(k) && a == low + high;
      ValSplit(high, Zeros(k));
      ZeroVal(k);
      ValSplit(low, high);
      ValBound(low);
      DivModUnique(Val(a), Pow(BASE, k), Val(high), Val(low));
    }
  }

  lemma ShiftTwice(x: nat, k: nat, sh: nat)
    ensures Pow(BASE, k) > 0 && Pow(2, sh) > 0 && Pow(2, 32 * k + sh) > 0
    ensures x / Pow(BASE, k) / Pow(2, sh) == x / Pow(2, 32 * k + sh)
  {
    hide Pow;
    PowPositive(BASE, k);
    PowPositive(2, sh);
    PowPositive(2, 32 * k + sh);
    DivTwice(x, Pow(BASE, k), Pow(2, sh));
    LimbPower(k);
    PowAdd(2, 32 * k, sh);
  }

  lemma ShrTotal(a: seq<Limb>, r: seq<Limb>, shift: nat, k: nat, sh: nat)
    requires |a| == |r| == WIDTH && shift == 32 * k + sh && sh < 32 && IsShr(a, r, k, sh)
    ensures Pow(2, shift) > 0 && Val(r) == Val(a) / Pow(2, shift)
  {
    hide Val, Pow, IsShr, Lowered;
    ShrValue(a, r, k, sh);
    MovedDown(a, k);
    ShiftTwice(Val(a), k, sh);
  }

  /** operator>>=: divide by a power of two. */
  method ShiftRight(pn: array<Limb>, shift: nat)
    requires pn.Length == WIDTH
    modifies pn
    ensures Pow(2, shift) > 0 && Val(pn[..]) == Val(old(pn[..])) / Pow(2, shift)
  {
    hide Val, Pow, ShrLimb;
    var a := pn[..];
    SetZero(pn);
    var k, sh := shift / 32, shift % 32;
    SpreadDown(pn, a, k, sh);
    ShrTotal(a, pn[..], shift, k, sh);
  }
}
