/** operator/= of src/arith_uint256.cpp: shift-and-subtract division on limbs. */
module Division {
  import opened Arith
  import opened Uint256

  /** 2 to the s. */
  function Pow2(s: nat): (p: nat)
    ensures p > 0 && p == Pow(2, s)
  {
    PowPositive(2, s);
    Pow(2, s)
  }

  /** The limbs below i are zero, and so are the low m bits of limb i. */
  ghost predicate ClearAt(s: seq<Limb>, i: nat, m: nat)
    requires i < |s|
  {
    (forall j :: 0 <= j < i ==> s[j] == 0) && Multiple(s[i], Pow2(m))
  }

  ghost predicate Multiple(x: nat, p: nat) {
    exists h: nat :: x == Times(h, p)
  }

  ghost function Times(h: nat, p: nat): nat { h * p }

  /** No bit at or below position n is set. */
  ghost predicate ClearTo(s: seq<Limb>, n: nat)
    requires |s| == WIDTH && n < 256
  {
    ClearAt(s, n / 32, n % 32 + 1)
  }

  lemma ClearZeros(s: seq<Limb>, i: nat, m: nat)
    requires i < |s| && forall j :: 0 <= j <= i ==> s[j] == 0
    ensures ClearAt(s, i, m)
  {
    assert s[i] == Times(0, Pow2(m));
  }

  lemma ClearLower(s: seq<Limb>, n: nat)
    requires |s| == WIDTH && 0 < n < 256 && ClearAt(s, n / 32, n % 32)
    ensures ClearTo(s, n - 1)
  {
    if n % 32 == 0 {
      ClearZeros(s, n / 32 - 1, 32);
    }
  }

  /** Setting a clear bit of a limb. */
  lemma OrBit(x: nat, s: nat)
    requires s < 32 && x < BASE && Multiple(x, Pow2(s + 1))
    ensures Or(x, Pow2(s)) == x + Pow2(s) < BASE
    ensures Multiple(x + Pow2(s), Pow2(s)) && Multiple(x, Pow2(s))
  {
    hide Pow, Or;
    var h: nat :| x == Times(h, Pow2(s + 1));
    var p := Pow2(s);
    PowAdd(2, 1, s);
    PowOne(2);
    OrDisjoint(p, h, s + 1);
    BaseIsPowerOfTwo();
    PowAdd(2, 31 - s, s + 1);
    RoomForBit(h, p, Pow2(31 - s), BASE);
    assert x + p == Times(2 * h + 1, p) && x == Times(2 * h, p) by { assert h * (2 * p) == 2 * h * p; }
  }

  lemma RoomForBit(h: nat, p: nat, q: nat, base: nat)
    requires p > 0 && h * (2 * p) < base == q * (2 * p)
    ensures h * (2 * p) + p < base
  {
    if h >= q {
      MulMono(q, h, 2 * p);
      assert false;
    }
    MulMono(h + 1, q, 2 * p);
    assert (h + 1) * (2 * p) == h * (2 * p) + 2 * p;
  }

  /** pn[shift / 32] |= 1 << (shift & 31). */
  method SetBit(pn: array<Limb>, shift: nat)
    requires pn.Length == WIDTH && shift < 256 && ClearTo(pn[..], shift)
    modifies pn
    ensures Val(pn[..]) == Val(old(pn[..])) + Pow(2, shift)
    ensures ClearAt(pn[..], shift / 32, shift % 32)
  {
    ghost var a := pn[..];
    var i, s := shift / 32, shift % 32;
    OrBit(pn[i], s);
    hide Val, Or, Pow, Multiple;
    pn[i] := Or(pn[i], Pow2(s));
    assert pn[..] == a[i := pn[i]];
    ValUpdate(a, i, pn[i]);
    LimbPower(i);
    PowAdd(2, s, 32 * i);
  }

  lemma BitsFit(v: nat, n: nat)
    requires IsBitLength(v, n) && v < Modulus()
    ensures n <= 256
  {
    hide Pow;
    LimbPower(WIDTH);
    if n > 256 {
      PowMono(2, 256, n - 1);
      assert false;
    }
  }

  /** What holds before the division loop: the aligned divisor does not wrap and is just above half the numerator. */
  lemma Aligned(va: nat, vb: nat, nb: nat, db: nat)
    requires IsBitLength(va, nb) && IsBitLength(vb, db) && 0 < db <= nb <= 256
    ensures va < vb * Pow2(nb - db + 1)
    ensures vb * Pow2(nb - db) < Modulus()
  {
    hide Pow;
    var shift := nb - db;
    PowAdd(2, db, shift);
    MulBelow(vb, Pow2(db), Pow2(shift));
    PowMono(2, nb, 256);
    LimbPower(WIDTH);
    PowAdd(2, db - 1, shift + 1);
    MulMono(Pow2(db - 1), vb, Pow2(shift + 1));
  }

  lemma Shorter(va: nat, vb: nat, nb: nat, db: nat)
    requires IsBitLength(va, nb) && IsBitLength(vb, db) && nb < db
    ensures va < vb
  {
    hide Pow;
    PowMono(2, nb, db - 1);
  }

  /** The state of the division loop with shift + 1 steps to go. */
  ghost predicate Dividing(va: nat, vb: nat, num: nat, div: nat, quot: nat, shift: int)
    requires -1 <= shift
  {
    && va == num + quot * vb
    && num < vb * Pow2(shift + 1)
    && (shift >= 0 ==> div == vb * Pow2(shift))
  }

  /** One step: subtract if possible, halve the divisor. */
  lemma DivideStep(va: nat, vb: nat, num: nat, div: nat, quot: nat, num': nat, quot': nat, shift: nat)
    requires Dividing(va, vb, num, div, quot, shift)
    requires if num >= div then num' == num - div && quot' == quot + Pow2(shift) else num' == num && quot' == quot
    ensures Dividing(va, vb, num', div / 2, quot', shift - 1)
  {
    hide Pow;
    PowAdd(2, 1, shift);
    PowOne(2);
    assert vb * (2 * Pow2(shift)) == 2 * (vb * Pow2(shift));
    assert (quot + Pow2(shift)) * vb == quot * vb + vb * Pow2(shift);
    if shift > 0 {
      PowAdd(2, 1, shift - 1);
      assert vb * (2 * Pow2(shift - 1)) == 2 * (vb * Pow2(shift - 1));
    }
  }

  lemma Divided(va: nat, vb: nat, num: nat, div: nat, quot: nat)
    requires vb > 0 && Dividing(va, vb, num, div, quot, -1)
    ensures quot == va / vb && num == va % vb
  {
    assert Pow2(0) == 1;
    DivModUnique(va, vb, quot, num);
  }

  /** The loop of the division; it leaves the quotient in pn and the remainder in num. */
  method Loop(pn: array<Limb>, num: array<Limb>, div: array<Limb>, start: nat, ghost va: nat, ghost vb: nat)
    requires pn.Length == num.Length == div.Length == WIDTH && pn != num && pn != div && num != div
    requires vb > 0 && start < 256 && ClearTo(pn[..], start)
    requires Dividing(va, vb, Val(num[..]), Val(div[..]), Val(pn[..]), start)
    modifies pn, num, div
    ensures Val(pn[..]) == va / vb && Val(num[..]) == va % vb
  {
    hide Val, Pow, Dividing, ClearTo, Modulus, ClearAt;
    var shift: int := start;
    while shift >= 0
      invariant -1 <= shift < 256
      invariant shift >= 0 ==> ClearTo(pn[..], shift)
      invariant Dividing(va, vb, Val(num[..]), Val(div[..]), Val(pn[..]), shift)
    {
      ghost var n, d, q := Val(num[..]), Val(div[..]), Val(pn[..]);
      var c := CompareTo(num[..], div[..]);
      if c >= 0 {
        SubFrom(num, div[..]);
        SetBit(pn, shift);
      } else {
        KeepClear(pn[..], shift);
      }
      ShiftRight(div, 1);
      PowOne(2);
      DivideStep(va, vb, n, d, q, Val(num[..]), Val(pn[..]), shift);
      if shift > 0 {
        ClearLower(pn[..], shift);
      }
      shift := shift - 1;
    }
    Divided(va, vb, Val(num[..]), Val(div[..]), Val(pn[..]));
  }

  lemma KeepClear(s: seq<Limb>, n: nat)
    requires |s| == WIDTH && n < 256 && ClearTo(s, n)
    ensures ClearAt(s, n / 32, n % 32)
  {
    OrBit(s[n / 32], n % 32);
  }

  /** operator/=: the exact quotient, or an exception on a zero divisor. */
  method Divide(pn: array<Limb>, b: seq<Limb>) returns (thrown: bool)
    requires pn.Length == WIDTH == |b|
    modifies pn
    ensures thrown <==> Val(b) == 0
    ensures Val(pn[..]) == if thrown then 0 else Val(old(pn[..])) / Val(b)
  {
    ghost var va, vb := Val(pn[..]), Val(b);
    ValBound(pn[..]);
    hide Val, ClearAt, Dividing, Modulus;
    var div := new Limb[WIDTH](i requires 0 <= i < WIDTH => b[i]);
    assert div[..] == b;
    var a := pn[..];
    var num := new Limb[WIDTH](i requires 0 <= i < WIDTH => a[i]);
    assert num[..] == a;
    SetZero(pn);
    assert pn[..] == Zeros(WIDTH);
    ZeroVal(WIDTH);
    var numBits := Bits(num[..]);
    var divBits := Bits(div[..]);
    PowPositive(2, divBits);
    if divBits == 0 {
      return true;
    }
    thrown := false;
    PowPositive(2, divBits - 1);
    hide Pow;
    if divBits > numBits {
      Shorter(va, vb, numBits, divBits);
      DivModUnique(va, vb, 0, va);
      return;
    }
    BitsFit(va, numBits);
    Aligned(va, vb, numBits, divBits);
    hide IsBitLength;
    var shift := numBits - divBits;
    ShiftLeft(div, shift);
    ClearZeros(pn[..], shift / 32, shift % 32 + 1);
    StartDividing(va, vb, Val(div[..]), shift);
    Loop(pn, num, div, shift, va, vb);
  }

  lemma StartDividing(va: nat, vb: nat, div: nat, shift: nat)
    requires va < vb * Pow2(shift + 1) && vb * Pow2(shift) < Modulus() && div == vb * Pow2(shift) % Modulus()
    ensures Dividing(va, vb, va, div, 0, shift)
  {
    hide Modulus, Pow;
    DivModUnique(vb * Pow2(shift), Modulus(), 0, vb * Pow2(shift));
  }
}
