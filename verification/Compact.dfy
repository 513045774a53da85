/**
 * The compact encoding of targets: SetCompact and GetCompact of src/arith_uint256.cpp on limbs, against a
 * specification on numbers, and the proof of work GetBlockProof of src/chain.cpp derives from it.
 */
module Compact {
  import opened Arith
  import opened Uint256
  import opened Division

  // The specification: one byte of exponent, a sign bit, 23 bits of mantissa.

  ghost function Exponent(c: nat): nat { c / 0x100_0000 }

  ghost function Mantissa(c: nat): nat { c % 0x80_0000 }

  ghost predicate Signed(c: nat) { c / 0x80_0000 % 2 == 1 }

  /** 256 to the e. */
  ghost function Pow256(e: nat): (p: nat)
    ensures p > 0 && p == Pow(256, e)
  {
    PowPositive(256, e);
    Pow(256, e)
  }

  /** mantissa * 256^(exponent - 3), rounded down. */
  ghost function Expand(e: nat, m: nat): nat { m * Pow256(e) / 0x100_0000 }

  ghost function Magnitude(c: nat): nat { Expand(Exponent(c), Mantissa(c)) }

  /** The number of bytes v takes. */
  ghost function Bytes(v: nat): nat { if v == 0 then 0 else 1 + Bytes(v / 256) }

  /** The exponent leaves room for a clear sign bit, the mantissa is rounded down. */
  ghost function CompactOf(v: nat): nat {
    Bytes(2 * v) * 0x100_0000 + v * 0x100_0000 / Pow256(Bytes(2 * v))
  }

  ghost predicate IsByteLength(v: nat, n: nat) {
    v < Pow(256, n) && (n > 0 ==> Pow(256, n - 1) <= v)
  }

  lemma {:induction false} BytesBound(v: nat)
    ensures IsByteLength(v, Bytes(v))
  {
    if v > 0 {
      BytesBound(v / 256);
      var n := Bytes(v / 256);
      if n > 0 {
        assert Pow(256, n) == 256 * Pow(256, n - 1);
      }
    }
  }

  lemma BytesUnique(v: nat, n: nat)
    requires IsByteLength(v, n)
    ensures n == Bytes(v)
  {
    BytesBound(v);
    hide Pow, Bytes;
    var k := Bytes(v);
    if n < k {
      PowMono(256, n, k - 1);
      assert false;
    } else if k < n {
      PowMono(256, k, n - 1);
      assert false;
    }
  }

  lemma BytesMono(v: nat, w: nat)
    requires v <= w
    ensures Bytes(v) <= Bytes(w)
  {
    BytesBound(v);
    BytesBound(w);
    hide Pow, Bytes;
    if Bytes(w) < Bytes(v) {
      PowMono(256, Bytes(w), Bytes(v) - 1);
      assert false;
    }
  }

  lemma Literals()
    ensures Pow(256, 1) == 256 && Pow(256, 2) == 0x1_0000 && Pow(256, 3) == 0x100_0000
    ensures Pow(2, 8) == 256 && Pow(2, 23) == 0x80_0000 && Pow(2, 24) == 0x100_0000
  {
    assert Pow(256, 0) == 1;
    assert Pow(2, 8) == 256 && Pow(2, 7) == 128;
    PowAdd(2, 8, 8);
    PowAdd(2, 16, 7);
    PowAdd(2, 16, 8);
  }

  // Multiplying and dividing by powers of 256.

  lemma CancelDiv(x: nat, p: nat, q: nat)
    requires p > 0 && q > 0
    ensures p * q > 0 && x * p / (p * q) == x / q
  {
    var h, r := x / q, x % q;
    assert x * p == h * (p * q) + r * p by { Regroup(h, q, r, p); }
    MulMono(r + 1, q, p);
    assert (r + 1) * p == r * p + p;
    DivModUnique(x * p, p * q, h, r * p);
  }

  /** x * a / b when a and b are powers of 256: only the difference of the exponents counts. */
  lemma PowDiv(x: nat, a: nat, b: nat)
    ensures a <= b ==> x * Pow256(a) / Pow256(b) == x / Pow256(b - a)
    ensures a >= b ==> x * Pow256(a) / Pow256(b) == x * Pow256(a - b)
  {
    hide Pow;
    if a <= b {
      PowAdd(256, a, b - a);
      CancelDiv(x, Pow256(a), Pow256(b - a));
    }
    if a >= b {
      PowAdd(256, a - b, b);
      ExactDiv(x, Pow256(a - b), Pow256(b));
    }
  }

  lemma ExactDiv(x: nat, p: nat, q: nat)
    requires q > 0
    ensures x * (p * q) / q == x * p
  {
    assert x * (p * q) == (x * p) * q;
    DivModUnique(x * (p * q), q, x * p, 0);
  }

  lemma ExpandCases(e: nat, m: nat)
    ensures e <= 3 ==> Expand(e, m) == m / Pow256(3 - e)
    ensures e >= 3 ==> Expand(e, m) == m * Pow256(e - 3)
  {
    Literals();
    hide Pow;
    PowDiv(m, e, 3);
  }

  /** The mantissa has between 16 and 23 bits. */
  lemma MantissaRange(v: nat, e: nat)
    requires v > 0 && e == Bytes(2 * v)
    ensures e > 0 && 0x8000 <= v * 0x100_0000 / Pow256(e) < 0x80_0000
  {
    BytesBound(2 * v);
    hide Pow, Bytes;
    PowAdd(256, 1, e - 1);
    Literals();
    var p, p' := Pow256(e), Pow256(e - 1);
    assert p == 256 * p';
    DivBounds(v * 0x100_0000, p, 0x80_0000);
    DivBounds(v * 0x100_0000, p, 0x8000);
  }

  lemma Fields(e: nat, m: nat)
    requires m < 0x80_0000
    ensures var c := e * 0x100_0000 + m; Exponent(c) == e && Mantissa(c) == m && !Signed(c)
  {
    var c := e * 0x100_0000 + m;
    DivModUnique(c, 0x80_0000, 2 * e, m);
  }

  lemma CompactFields(v: nat)
    ensures var c := CompactOf(v); !Signed(c) && Exponent(c) == Bytes(2 * v)
    ensures Mantissa(CompactOf(v)) == v * 0x100_0000 / Pow256(Bytes(2 * v))
    ensures v > 0 ==> 0x8000 <= Mantissa(CompactOf(v))
  {
    var e := Bytes(2 * v);
    if v > 0 {
      MantissaRange(v, e);
    } else {
      DivModUnique(0, Pow256(e), 0, 0);
    }
    hide Pow, Bytes;
    Fields(e, v * 0x100_0000 / Pow256(e));
  }

  /** The value that comes back: the exponent's own power of 256 is the rounding step. */
  lemma Rounding(v: nat)
    requires v > 0
    ensures var c := CompactOf(v); var e, m, r := Exponent(c), Mantissa(c), Magnitude(c);
      if e <= 3 then r == v && m == v * Pow256(3 - e)
      else r == m * Pow256(e - 3) && r <= v < r + Pow256(e - 3)
  {
    CompactFields(v);
    hide Bytes;
    Literals();
    var e := Bytes(2 * v);
    var m := v * 0x100_0000 / Pow256(e);
    hide Pow;
    PowDiv(v, 3, e);
    ExpandCases(e, m);
    if e <= 3 {
      DivModUnique(m, Pow256(3 - e), v, 0);
    }
  }

  /** SetCompact(GetCompact(v)) is not above v and within one part in 2^15 of it. */
  lemma RoundTripError(v: nat)
    ensures var r := Magnitude(CompactOf(v)); r <= v && (v > 0 ==> (v - r) * 0x8000 < v)
    ensures !Signed(CompactOf(v))
  {
    CompactFields(v);
    if v > 0 {
      Rounding(v);
      hide Pow, Bytes, CompactOf, Expand, Magnitude;
      var c := CompactOf(v);
      if Exponent(c) > 3 {
        MulMono(0x8000, Mantissa(c), Pow256(Exponent(c) - 3));
      }
    } else {
      hide Pow, Bytes;
      DivModUnique(0, 0x100_0000, 0, 0);
    }
  }

  /** Larger numbers have no smaller encodings. */
  lemma CompactMonotone(v: nat, w: nat)
    requires v <= w
    ensures CompactOf(v) <= CompactOf(w)
  {
    BytesMono(2 * v, 2 * w);
    var e, m := CompactParts(v);
    var e', m' := CompactParts(w);
    hide Bytes, Pow, CompactOf;
    if e == e' {
      DivMono(v * 0x100_0000, w * 0x100_0000, Pow256(e));
    }
  }

  lemma CompactParts(v: nat) returns (e: nat, m: nat)
    ensures CompactOf(v) == e * 0x100_0000 + m && m < 0x80_0000
    ensures e == Bytes(2 * v) && m == v * 0x100_0000 / Pow256(e)
  {
    CompactFields(v);
    e, m := Bytes(2 * v), Mantissa(CompactOf(v));
  }

  /** What GetCompact produces: no sign, the shortest exponent, no bits that decoding would drop. */
  ghost predicate Canonical(c: nat) {
    if Mantissa(c) == 0 then c == 0
    else !Signed(c) && 0x8000 <= Mantissa(c) && (Exponent(c) < 3 ==> Mantissa(c) % Pow256(3 - Exponent(c)) == 0)
  }

  lemma EncodingsAreCanonical(v: nat)
    ensures Canonical(CompactOf(v))
  {
    CompactFields(v);
    if v > 0 {
      Rounding(v);
      hide CompactOf, Magnitude, Pow;
      var c := CompactOf(v);
      if Exponent(c) < 3 {
        DivModUnique(Mantissa(c), Pow256(3 - Exponent(c)), v, 0);
      }
    } else {
      ZeroMagnitude(0);
    }
  }

  lemma CanonicalIsFixed(c: nat)
    requires Canonical(c)
    ensures CompactOf(Magnitude(c)) == c
  {
    hide Expand, CompactOf, Pow;
    var e, m := Exponent(c), Mantissa(c);
    if m == 0 {
      ZeroMagnitude(e);
    } else {
      CanonicalEncodes(e, m);
    }
  }

  /** GetCompact undoes SetCompact exactly on the canonical encodings. */
  lemma CanonicalRoundTrip(c: nat)
    ensures CompactOf(Magnitude(c)) == c <==> Canonical(c)
  {
    EncodingsAreCanonical(Magnitude(c));
    hide CompactOf, Magnitude, Canonical;
    if Canonical(c) {
      CanonicalIsFixed(c);
    }
  }

  /** Encoding, decoding and encoding again changes nothing. */
  lemma CompactIdempotent(v: nat)
    ensures CompactOf(Magnitude(CompactOf(v))) == CompactOf(v)
  {
    EncodingsAreCanonical(v);
    CanonicalIsFixed(CompactOf(v));
  }

  lemma ZeroMagnitude(e: nat)
    ensures Expand(e, 0) == 0 && CompactOf(0) == 0
  {
    assert 0 * Pow256(e) == 0;
    DivModUnique(0, 0x100_0000, 0, 0);
  }

  lemma CanonicalEncodes(e: nat, m: nat)
    requires 0x8000 <= m < 0x80_0000 && (e < 3 ==> m % Pow256(3 - e) == 0)
    ensures CompactOf(Expand(e, m)) == e * 0x100_0000 + m
  {
    var v := Expand(e, m);
    ExpandScaled(e, m);
    Literals();
    hide Pow, Expand;
    CanonicalLength(e, m, v);
    DivModUnique(v * 0x100_0000, Pow256(e), m, 0);
  }

  lemma ExpandScaled(e: nat, m: nat)
    requires e < 3 ==> m % Pow256(3 - e) == 0
    ensures Expand(e, m) * 0x100_0000 == m * Pow256(e)
  {
    ExpandCases(e, m);
    Literals();
    hide Pow;
    var v := Expand(e, m);
    if e <= 3 {
      PowAdd(256, 3 - e, e);
      MulAssociates(v, Pow256(3 - e), Pow256(e));
    } else {
      PowAdd(256, e - 3, 3);
      MulAssociates(m, Pow256(e - 3), 0x100_0000);
    }
  }

  lemma CanonicalLength(e: nat, m: nat, v: nat)
    requires 0x8000 <= m < 0x80_0000 && v * 0x100_0000 == m * Pow256(e)
    ensures Bytes(2 * v) == e
  {
    Literals();
    hide Pow, Bytes;
    MulMono(0x8000, m, Pow256(e));
    MulBelow(m, 0x80_0000, Pow256(e));
    if e > 0 {
      PowAdd(256, 1, e - 1);
    }
    BytesUnique(2 * v, e);
  }

  /** No word stands for a number between v and the one that v is rounded down to. */
  lemma BestBelow(v: nat, c: nat)
    requires Magnitude(c) <= v
    ensures Magnitude(c) <= Magnitude(CompactOf(v)) <= v
  {
    RoundTripError(v);
    if v > 0 {
      CompactFields(v);
      Rounding(v);
      hide Expand, CompactOf, Pow, Bytes;
      var e, m := Exponent(CompactOf(v)), Mantissa(CompactOf(v));
      if e > 3 {
        if Exponent(c) >= e {
          MultipleOf(Exponent(c), Mantissa(c), e, m, v);
        } else {
          ShorterIsLess(Exponent(c), Mantissa(c), e, m);
        }
      }
    }
  }

  /** A multiple of the rounding step is not above the rounded number. */
  lemma MultipleOf(e': nat, m': nat, e: nat, m: nat, v: nat)
    requires 3 < e <= e' && Expand(e', m') <= v < m * Pow256(e - 3) + Pow256(e - 3)
    ensures Expand(e', m') <= m * Pow256(e - 3)
  {
    ExpandCases(e', m');
    hide Expand, Pow;
    PowAdd(256, e' - e, e - 3);
    var k, p := m' * Pow256(e' - e), Pow256(e - 3);
    MulAssociates(m', Pow256(e' - e), p);
    assert (m + 1) * p == m * p + p;
    if k > m {
      MulMono(m + 1, k, p);
      assert false;
    }
    MulMono(k, m, p);
  }

  lemma ShorterIsLess(e': nat, m': nat, e: nat, m: nat)
    requires e > 3 && e' < e && m' < 0x80_0000 && m >= 0x8000
    ensures Expand(e', m') <= m * Pow256(e - 3)
  {
    ExpandCases(e', m');
    Literals();
    hide Expand, Pow;
    PowAdd(256, 1, e - 4);
    var p, q := Pow256(e - 3), Pow256(e - 4);
    assert p == 256 * q;
    MulMono(0x8000, m, p);
    assert 0x8000 * p == 0x80_0000 * q;
    if e' <= 3 {
      QuotientFits(m', Pow256(3 - e'));
      MulMono(1, q, 0x80_0000);
    } else {
      PowMono(256, e' - 3, e - 4);
      MulMono(Pow256(e' - 3), q, m');
      MulMono(m', 0x80_0000, q);
    }
  }

  // 64-bit words in and out of a 256-bit number.

  lemma TwoLimbs(a: seq<Limb>)
    requires |a| == WIDTH
    ensures Val(a) == a[0] + a[1] * BASE + Val(a[2..]) * (BASE * BASE)
  {
    assert a == a[..2] + a[2..];
    ValSplit(a[..2], a[2..]);
    ValNone(a);
    ValStep(a, 0);
    ValStep(a, 1);
    assert Pow(BASE, 0) == 1;
  }

  /** operator=(uint64_t). */
  method Assign(pn: array<Limb>, b: nat)
    requires pn.Length == WIDTH && b < 0x1_0000_0000_0000_0000
    modifies pn
    ensures Val(pn[..]) == b
  {
    pn[0] := b % 0x1_0000_0000;
    pn[1] := b / 0x1_0000_0000;
    for i := 2 to WIDTH
      invariant pn[0] == b % 0x1_0000_0000 && pn[1] == b / 0x1_0000_0000
      invariant forall j :: 2 <= j < i ==> pn[j] == 0
    {
      pn[i] := 0;
    }
    hide Val;
    TwoLimbs(pn[..]);
    assert pn[..][2..] == Zeros(WIDTH - 2);
    ZeroVal(WIDTH - 2);
  }

  /** GetLow64. */
  method GetLow64(a: seq<Limb>) returns (r: nat)
    requires |a| == WIDTH
    ensures r == Val(a) % 0x1_0000_0000_0000_0000
  {
    BaseIsPowerOfTwo();
    hide Or, Val, Pow;
    var high: nat := a[1];
    OrDisjoint(a[0], high, 32);
    r := Or(a[0], high * 0x1_0000_0000);
    TwoLimbs(a);
    DivModUnique(Val(a), 0x1_0000_0000_0000_0000, Val(a[2..]), r);
  }

  /** EqualTo(uint64_t). */
  method EqualTo(a: seq<Limb>, b: nat) returns (r: bool)
    requires |a| == WIDTH && b < 0x1_0000_0000_0000_0000
    ensures r <==> Val(a) == b
  {
    hide Val;
    TwoLimbs(a);
    var i := WIDTH - 1;
    while i >= 2
      invariant 1 <= i < WIDTH && forall j :: i < j < WIDTH ==> a[j] == 0
    {
      if a[i] != 0 {
        HighLimb(a, i);
        return false;
      }
      i := i - 1;
    }
    assert a[2..] == Zeros(WIDTH - 2);
    ZeroVal(WIDTH - 2);
    if a[1] != b / 0x1_0000_0000 {
      return false;
    }
    if a[0] != b % 0x1_0000_0000 {
      return false;
    }
    return true;
  }

  lemma HighLimb(a: seq<Limb>, i: nat)
    requires |a| == WIDTH && 2 <= i < WIDTH && a[i] != 0
    ensures Val(a) >= 0x1_0000_0000_0000_0000
  {
    assert a == a[..i + 1] + a[i + 1..];
    ValSplit(a[..i + 1], a[i + 1..]);
    ValStep(a, i);
    hide Val;
    PowPositive(BASE, i + 1);
    MulMono(1, a[i], Pow(BASE, i));
    PowMono(BASE, 2, i);
    assert Pow(BASE, 2) == BASE * BASE by { PowOne(BASE); PowNext(BASE, 1); }
    MulMono(0, Val(a[i + 1..]), Pow(BASE, i + 1));
  }

  // SetCompact.

  lemma ModulusBytes()
    ensures Modulus() == Pow256(32)
  {
    Literals();
    hide Pow;
    LimbPower(WIDTH);
    PowOfPow(2, 8, 32);
  }

  /** The overflow flag is raised exactly when the decoded magnitude does not fit in 256 bits. */
  lemma OverflowIff(e: nat, m: nat)
    requires m < 0x80_0000
    ensures Expand(e, m) >= Modulus() <==>
      m != 0 && (e > 34 || (m > 0xff && e > 33) || (m > 0xffff && e > 32))
  {
    ExpandCases(e, m);
    ModulusBytes();
    Literals();
    hide Pow, Expand, Modulus;
    var p := Pow256(32);
    if e <= 3 {
      PowMono(256, 3, 32);
      QuotientFits(m, Pow256(3 - e));
    } else {
      var q := Pow256(e - 3);
      if e >= 35 {
        PowMono(256, 32, e - 3);
        if m != 0 { MulMono(1, m, q); }
      } else if e == 34 {
        PowAdd(256, 1, 31);
        if m > 0xff { MulMono(256, m, q); } else { MulBelow(m, 256, q); }
      } else if e == 33 {
        PowAdd(256, 2, 30);
        if m > 0xffff { MulMono(0x1_0000, m, q); } else { MulBelow(m, 0x1_0000, q); }
      } else {
        PowAdd(256, 3, e - 3);
        PowMono(256, e, 32);
        MulBelow(m, 0x100_0000, q);
      }
    }
  }

  /** SetCompact: the magnitude modulo 2 to the 256, with exact sign and overflow flags. */
  method SetCompact(pn: array<Limb>, nCompact: nat) returns (negative: bool, overflow: bool)
    requires pn.Length == WIDTH && nCompact < 0x1_0000_0000
    modifies pn
    ensures Val(pn[..]) == Magnitude(nCompact) % Modulus()
    ensures negative <==> Signed(nCompact) && Magnitude(nCompact) != 0
    ensures overflow <==> Magnitude(nCompact) >= Modulus()
  {
    var nSize := nCompact / 0x100_0000;
    var nWord := And(nCompact, 0x007f_ffff);
    Literals();
    AndMask(nCompact, 23);
    AndBit(nCompact, 23);
    hide Val, And, Pow, Modulus, Expand;
    ghost var m := nWord;
    OverflowIff(nSize, m);
    ExpandCases(nSize, m);
    if nSize <= 3 {
      PowOfPow(2, 8, 3 - nSize);
      QuotientFits(nWord, Pow256(3 - nSize));
      nWord := nWord / Pow2(8 * (3 - nSize));
      Assign(pn, nWord);
      SmallFits(nWord);
    } else {
      Assign(pn, nWord);
      PowOfPow(2, 8, nSize - 3);
      ShiftLeft(pn, 8 * (nSize - 3));
      ProductPositive(m, Pow256(nSize - 3));
    }
    negative := nWord != 0 && And(nCompact, 0x0080_0000) != 0;
    overflow := nWord != 0 && (nSize > 34 || (nWord > 0xff && nSize > 33) || (nWord > 0xffff && nSize > 32));
  }

  /** Every word, by its fields: a byte e, a sign bit and 23 bits m stand for m * 256^(e - 3), rounded down. */
  method DecodeWord(pn: array<Limb>, e: nat, sign: bool, m: nat) returns (negative: bool, overflow: bool)
    requires pn.Length == 8 && e < 256 && m < 0x80_0000
    modifies pn
    ensures var v := if e <= 3 then m / Pow256(3 - e) else m * Pow256(e - 3);
            && Modulus() == Pow(2, 256) && Val(pn[..]) == v % Modulus()
            && (negative <==> sign && v != 0) && (overflow <==> v >= Modulus())
  {
    var nCompact := e * 0x100_0000 + (if sign then 0x80_0000 else 0) + m;
    DivModUnique(nCompact, 0x80_0000, 2 * e + (if sign then 1 else 0), m);
    DivModUnique(nCompact, 0x100_0000, e, (if sign then 0x80_0000 else 0) + m);
    DivModUnique(2 * e + (if sign then 1 else 0), 2, e, if sign then 1 else 0);
    ExpandCases(e, m);
    LimbPower(WIDTH);
    hide Val, Pow, Modulus, Expand;
    negative, overflow := SetCompact(pn, nCompact);
  }

  lemma ProductPositive(m: nat, p: nat)
    requires p > 0
    ensures m * p == 0 <==> m == 0
  {
    if m > 0 { MulMono(1, m, p); }
  }

  lemma SmallFits(n: nat)
    requires n < 0x1_0000_0000
    ensures n < Modulus() && n % Modulus() == n
  {
    ModulusSplitsOff();
    DivModUnique(n, Modulus(), 0, n);
  }

  lemma ModulusSplitsOff()
    ensures Modulus() >= 0x1_0000_0000
  {
    hide Pow;
    PowMono(BASE, 1, WIDTH);
    PowOne(BASE);
  }

  // GetCompact.

  lemma BitsToBytes(v: nat, bits: nat)
    requires IsBitLength(v, bits)
    ensures IsByteLength(v, (bits + 7) / 8)
  {
    Literals();
    hide Pow;
    var n := (bits + 7) / 8;
    PowOfPow(2, 8, n);
    PowMono(2, bits, 8 * n);
    if n > 0 {
      PowOfPow(2, 8, n - 1);
      PowMono(2, 8 * (n - 1), bits - 1);
    }
  }

  /** The three leading bytes of a number of n bytes. */
  ghost function Top(v: nat, n: nat): nat { v * 0x100_0000 / Pow256(n) }

  /** Clearing the sign position: one more byte of exponent, one byte less of mantissa. */
  lemma Normalise(v: nat, n: nat)
    requires IsByteLength(v, n)
    ensures Top(v, n) < 0x100_0000
    ensures CompactOf(v) ==
      if Top(v, n) < 0x80_0000 then n * 0x100_0000 + Top(v, n) else (n + 1) * 0x100_0000 + Top(v, n) / 256
  {
    Literals();
    hide Pow;
    var p, x := Pow256(n), v * 0x100_0000;
    DivBounds(x, p, 0x100_0000);
    DivBounds(x, p, 0x80_0000);
    if x / p < 0x80_0000 {
      BytesUnique(2 * v, n);
    } else {
      PowNext(256, n);
      BytesUnique(2 * v, n + 1);
      DivTwice(x, p, 256);
      assert Pow256(n + 1) == p * 256;
    }
  }

  /** The leading bytes, as the shifts compute them. */
  method TopBytes(a: seq<Limb>, nSize: nat) returns (m: nat)
    requires |a| == WIDTH && IsByteLength(Val(a), nSize)
    ensures m == Top(Val(a), nSize) < 0x100_0000
  {
    hide Val, Pow, Top, IsByteLength;
    ghost var v := Val(a);
    TopBytesOf(v, nSize);
    Words(Top(v, nSize));
    if nSize <= 3 {
      var low := GetLow64(a);
      Words(v);
      var shifted := low * Pow2(8 * (3 - nSize));
      m := shifted % 0x1_0000_0000;
    } else {
      var bn := new Limb[WIDTH](i requires 0 <= i < WIDTH => a[i]);
      assert bn[..] == a;
      ShiftRight(bn, 8 * (nSize - 3));
      var low := GetLow64(bn[..]);
      m := low % 0x1_0000_0000;
    }
  }

  lemma Words(x: nat)
    ensures x < 0x100_0000 ==> x % 0x1_0000_0000 == x && x % 0x1_0000_0000_0000_0000 == x
  {}

  lemma TopBytesOf(v: nat, n: nat)
    requires IsByteLength(v, n)
    ensures Top(v, n) < 0x100_0000
    ensures n <= 3 ==> v < 0x100_0000 && Top(v, n) == v * Pow2(8 * (3 - n))
    ensures n > 3 ==> Top(v, n) == v / Pow2(8 * (n - 3))
  {
    hide Pow, CompactOf;
    Literals();
    Normalise(v, n);
    PowDiv(v, 3, n);
    if n <= 3 {
      PowMono(256, n, 3);
      PowOfPow(2, 8, 3 - n);
    } else {
      PowOfPow(2, 8, n - 3);
    }
  }

  /** The exponent and mantissa fields of a word; the third clause sets the sign bit. */
  lemma Assemble(m: nat, n: nat)
    requires m < 0x80_0000
    ensures And(m, 0xff80_0000) == 0
    ensures Or(m, n * 0x100_0000) == n * 0x100_0000 + m
    ensures Or(n * 0x100_0000 + m, 0x0080_0000) == n * 0x100_0000 + m + 0x80_0000
    ensures And(n * 0x100_0000 + m, 0x007f_ffff) == m
  {
    Literals();
    hide Or, And, Pow;
    AndDisjoint(m, 0x1ff, 23);
    OrDisjoint(m, n, 24);
    OrLow(n, m, 0x80_0000, 24);
    OrDisjoint(m, 1, 23);
    MaskMantissa(m, n);
  }

  lemma MaskMantissa(m: nat, n: nat)
    requires m < 0x80_0000
    ensures And(n * 0x100_0000 + m, 0x007f_ffff) == m
  {
    Literals();
    hide And, Pow;
    var c := n * 0x100_0000 + m;
    AndMask(c, 23);
    DivModUnique(c, 0x80_0000, 2 * n, m);
  }

  lemma OrZero(x: nat)
    ensures Or(x, 0) == x
  {}

  /** The last lines of GetCompact: put exponent, mantissa and sign into one word. */
  method Encode(m: nat, nSize: nat, fNegative: bool) returns (nCompact: nat)
    requires m < 0x80_0000 && nSize < 256
    ensures nCompact == nSize * 0x100_0000 + m + if fNegative && m != 0 then 0x80_0000 else 0
  {
    hide Or, And;
    Assemble(m, nSize);
    assert And(m, 0xff80_0000) == 0;
    nCompact := Or(m, nSize * 0x100_0000);
    OrZero(nCompact);
    nCompact := Or(nCompact, if fNegative && And(nCompact, 0x007f_ffff) != 0 then 0x0080_0000 else 0);
  }

  /** GetCompact: the encoding of the number, with the sign bit on request unless the number is zero. */
  method GetCompact(a: seq<Limb>, fNegative: bool) returns (nCompact: nat)
    requires |a| == WIDTH
    ensures nCompact == CompactOf(Val(a)) + if fNegative && Val(a) != 0 then 0x80_0000 else 0
    ensures nCompact < 0x1_0000_0000
  {
    hide Val, And, Pow, CompactOf, Top, IsByteLength;
    ghost var v := Val(a);
    var bits := Bits(a);
    BitsToBytes(v, bits);
    ValFitsBits(a, bits);
    var nSize := (bits + 7) / 8;
    Normalise(v, nSize);
    var m := TopBytes(a, nSize);
    SignBit(m);
    if And(m, 0x0080_0000) != 0 {
      m := m / 256;
      nSize := nSize + 1;
    }
    MantissaOfNonzero(v, nSize, m);
    nCompact := Encode(m, nSize, fNegative);
  }

  lemma SignBit(m: nat)
    requires m < 0x100_0000
    ensures And(m, 0x0080_0000) != 0 <==> m >= 0x80_0000
  {
    Literals();
    hide And, Pow;
    AndBit(m, 23);
  }

  lemma ValFitsBits(a: seq<Limb>, bits: nat)
    requires |a| == WIDTH && IsBitLength(Val(a), bits)
    ensures bits <= 256
  {
    ValBound(a);
    BitsFit(Val(a), bits);
  }

  lemma MantissaOfNonzero(v: nat, n: nat, m: nat)
    requires m < 0x80_0000 && CompactOf(v) == n * 0x100_0000 + m
    ensures m == 0 <==> v == 0
  {
    CompactFields(v);
    hide CompactOf;
    Fields(n, m);
    if v == 0 {
      ZeroMagnitude(0);
    }
  }

  /**
   * Encoding and decoding a number: no flag is raised, the result is not above the number and within one part
   * in 2^15 of it, and encoding the result again gives the same word.
   */
  method RoundTrip(a: seq<Limb>, b: array<Limb>) returns (nCompact: nat, negative: bool, overflow: bool, again: nat)
    requires |a| == WIDTH == b.Length
    modifies b
    ensures !negative && !overflow && again == nCompact == CompactOf(Val(a))
    ensures Val(b[..]) <= Val(a) && (Val(a) > 0 ==> (Val(a) - Val(b[..])) * 0x8000 < Val(a))
  {
    hide Val, Pow, CompactOf, Magnitude, Modulus;
    nCompact := GetCompact(a, false);
    negative, overflow := SetCompact(b, nCompact);
    RoundTripError(Val(a));
    ValFits(a);
    DivModUnique(Magnitude(nCompact), Modulus(), 0, Magnitude(nCompact));
    CompactIdempotent(Val(a));
    again := GetCompact(b[..], false);
  }

  // GetBlockProof.

  /** The work a target stands for: how many hashes it takes on average to meet it. */
  ghost function WorkOf(t: nat, m: nat): nat { if t >= m || t == 0 then 0 else m / (t + 1) }

  ghost function Work(nBits: nat): nat {
    if Signed(nBits) then 0 else WorkOf(Magnitude(nBits), Modulus())
  }

  /** A target never fills all 256 bits, so adding one to it does not wrap around. */
  lemma TargetBelowTop(e: nat, m: nat)
    requires m < 0x80_0000 && Expand(e, m) < Modulus()
    ensures Expand(e, m) + 1 < Modulus()
  {
    ExpandCases(e, m);
    ModulusSplitsOff();
    ModulusBytes();
    Literals();
    hide Pow, Expand, Modulus;
    if e <= 3 {
      QuotientFits(m, Pow256(3 - e));
    } else {
      PowAdd(256, 1, e - 4);
      PowAdd(256, 1, 31);
      var x, y, t := m * Pow256(e - 4), Pow256(31), Expand(e, m);
      assert t == 256 * x;
    }
  }

  /** (2^256 - 1 - t) / (t + 1) + 1 is 2^256 / (t + 1). */
  lemma ProofFormula(t: nat, m: nat)
    requires t + 1 < m
    ensures (m - 1 - t) / (t + 1) + 1 == m / (t + 1)
  {
    var q, r := m / (t + 1), m % (t + 1);
    assert m - 1 - t == (q - 1) * (t + 1) + r;
    DivBounds(m, t + 1, 1);
    DivModUnique(m - 1 - t, t + 1, q - 1, r);
  }

  /** GetBlockProof: no exception and no wrap-around for any nBits. */
  method GetBlockProof(nBits: nat) returns (proof: seq<Limb>)
    requires nBits < 0x1_0000_0000
    ensures |proof| == WIDTH && Val(proof) == Work(nBits)
    ensures var t := Magnitude(nBits);
            if Signed(nBits) || t == 0 || t >= Modulus() then Val(proof) == 0
            else Val(proof) * (t + 1) <= Modulus() < (Val(proof) + 1) * (t + 1)
  {
    hide Val, Pow, Modulus, Magnitude;
    var bnTarget := new Limb[WIDTH];
    var fNegative, fOverflow := SetCompact(bnTarget, nBits);
    ghost var t := Magnitude(nBits);
    ZeroVal(WIDTH);
    if fNegative || fOverflow {
      return Zeros(WIDTH);
    }
    DivModUnique(t, Modulus(), 0, t);
    var zero := EqualTo(bnTarget[..], 0);
    if zero {
      return Zeros(WIDTH);
    }
    TargetBelowTopOf(nBits);
    var one := new Limb[WIDTH];
    Assign(one, 1);
    var complement := Complement(bnTarget[..]);
    AddTo(bnTarget, one[..]);
    DivModUnique(t + 1, Modulus(), 0, t + 1);
    var quotient := new Limb[WIDTH](i requires 0 <= i < WIDTH => complement[i]);
    assert quotient[..] == complement;
    var thrown := Divide(quotient, bnTarget[..]);
    assert !thrown;
    AddTo(quotient, one[..]);
    ProofFormula(t, Modulus());
    Floor(Modulus(), t + 1);
    QuotientBelow(Modulus(), t + 1);
    proof := quotient[..];
    DivModUnique(Modulus() / (t + 1), Modulus(), 0, Modulus() / (t + 1));
  }

  lemma TargetBelowTopOf(nBits: nat)
    requires Magnitude(nBits) < Modulus()
    ensures Magnitude(nBits) + 1 < Modulus()
  {
    TargetBelowTop(Exponent(nBits), Mantissa(nBits));
  }

  lemma Floor(n: nat, d: nat)
    requires d > 0
    ensures n / d * d <= n < (n / d + 1) * d
  {
    assert (n / d + 1) * d == n / d * d + d;
  }

  lemma QuotientBelow(n: nat, d: nat)
    requires d >= 2 && n > 0
    ensures n / d < n
  {
    MulMono(2, d, n / d);
  }

  /** A harder target never adds less work. */
  lemma WorkOrder(t: nat, t': nat, m: nat)
    requires 0 < t <= t'
    ensures WorkOf(t, m) >= WorkOf(t', m)
  {
    if t' < m {
      var q := m / (t' + 1);
      MulMono(t + 1, t' + 1, q);
      DivBounds(m, t + 1, q);
    }
  }

  /** Exactly the accepted targets add work. */
  lemma AcceptedTargetsAddWork(nBits: nat)
    ensures Work(nBits) > 0 <==> !Signed(nBits) && 0 < Magnitude(nBits) < Modulus()
  {
    if !Signed(nBits) && 0 < Magnitude(nBits) < Modulus() {
      TargetBelowTopOf(nBits);
      hide Magnitude, Modulus, Pow;
      DivBounds(Modulus(), Magnitude(nBits) + 1, 1);
    }
  }
}
