/**
 * Base58 text: EncodeBase58 and DecodeBase58 of src/base58.cpp, which multiply-and-add into a digit buffer
 * of fixed size, against a specification by positional numbers.
 */
module Base58 {
  import opened Arith
  import opened Foundations

  /** pszBase58: all alphanumeric characters except 0, I, O and l. */
  function Alphabet(): (s: string)
    ensures |s| == 58
  {
    "123456789" + "ABCDEFGH" + "JKLMN" + "PQRSTUVWXYZ" + "abcdefghijk" + "mnopqrstuvwxyz"
  }

  // Positional numbers, most significant digit first.

  ghost predicate IsNumeral(s: seq<nat>, base: nat) { forall i :: 0 <= i < |s| ==> s[i] < base }

  /** The number a sequence of digits stands for. */
  ghost function Num(s: seq<nat>, base: nat): nat {
    if s == [] then 0 else s[0] * Pow(base, |s| - 1) + Num(s[1..], base)
  }

  /** The digits of n, without leading zeros. */
  ghost function Digits(n: nat, base: nat): (s: seq<nat>)
    requires base >= 2
    ensures IsNumeral(s, base) && (s != [] ==> s[0] != 0)
  {
    if n == 0 then [] else Digits(n / base, base) + [n % base]
  }

  lemma {:induction false} NumAppend(s: seq<nat>, d: nat, base: nat)
    ensures Num(s + [d], base) == Num(s, base) * base + d
  {
    if s == [] {
      assert (s + [d])[1..] == [] && Pow(base, 0) == 1;
      assert s + [d] == [d];
    } else {
      hide Num, Pow;
      NumAppend(s[1..], d, base);
      assert (s + [d])[1..] == s[1..] + [d];
      NumHead(s + [d], base);
      NumHead(s, base);
      PowNext(base, |s| - 1);
      Shift(s[0], Pow(base, |s| - 1), Num(s[1..], base), base, d);
    }
  }

  lemma NumHead(s: seq<nat>, base: nat)
    requires s != []
    ensures Num(s, base) == s[0] * Pow(base, |s| - 1) + Num(s[1..], base)
  {}

  lemma Shift(x: nat, p: nat, n: nat, base: nat, d: nat)
    ensures x * (p * base) + (n * base + d) == (x * p + n) * base + d
  {
    assert x * (p * base) == (x * p) * base;
  }

  lemma {:induction false} NumBound(s: seq<nat>, base: nat)
    requires IsNumeral(s, base)
    ensures Num(s, base) < Pow(base, |s|)
    decreases |s|
  {
    if s != [] {
      NumBound(s[1..], base);
      NumHead(s, base);
      PowNext(base, |s| - 1);
      hide Num, Pow;
      DigitFits(s[0], Pow(base, |s| - 1), Num(s[1..], base), base);
    }
  }

  lemma DigitFits(d: nat, p: nat, n: nat, base: nat)
    requires d < base && n < p
    ensures d * p + n < base * p
  {
    MulMono(d + 1, base, p);
    assert (d + 1) * p == d * p + p;
  }

  lemma {:induction false} NumOfDigits(n: nat, base: nat)
    requires base >= 2
    ensures Num(Digits(n, base), base) == n
  {
    if n > 0 {
      hide Num, Digits;
      var q, r := DigitsStep(n, base);
      NumOfDigits(q, base);
      NumAppend(Digits(q, base), r, base);
    }
  }

  lemma DigitsStep(n: nat, base: nat) returns (q: nat, r: nat)
    requires n > 0 && base >= 2
    ensures q < n && r < base && n == q * base + r && Digits(n, base) == Digits(q, base) + [r]
  {
    q, r := n / base, n % base;
    MulMono(2, base, q);
  }

  /** A numeral without leading zeros is the only one of its kind for its number. */
  lemma {:induction false} DigitsOfNum(s: seq<nat>, base: nat)
    requires base >= 2 && IsNumeral(s, base) && (s != [] ==> s[0] != 0)
    ensures Digits(Num(s, base), base) == s
    decreases |s|
  {
    if s != [] {
      var t, d := s[..|s| - 1], s[|s| - 1];
      assert s == t + [d];
      DigitsOfNum(t, base);
      NumAppend(t, d, base);
      hide Num;
      DivModUnique(Num(s, base), base, Num(t, base), d);
      assert Digits(0, base) == [];
    }
  }

  /** Leading zeros, and what is left without them. */
  function LeadingZeros(s: seq<nat>): (z: nat)
    ensures z <= |s| && (forall i :: 0 <= i < z ==> s[i] == 0) && (z < |s| ==> s[z] != 0)
  {
    if s != [] && s[0] == 0 then 1 + LeadingZeros(s[1..]) else 0
  }

  ghost function Repeat<T>(x: T, n: nat): (s: seq<T>)
    ensures |s| == n && forall i :: 0 <= i < n ==> s[i] == x
  {
    seq(n, _ => x)
  }

  lemma {:induction false} NumStrip(s: seq<nat>, z: nat, base: nat)
    requires z <= |s| && forall i :: 0 <= i < z ==> s[i] == 0
    ensures Num(s[z..], base) == Num(s, base)
    decreases z
  {
    if z > 0 {
      NumStrip(s[1..], z - 1, base);
      assert s[1..][z - 1..] == s[z..];
    } else {
      assert s[0..] == s;
    }
  }

  // The buffer: buffer * mul + digit, in base `base`, from the last digit up.

  /** The digits before position p are zero. */
  ghost predicate ZeroBefore(s: seq<nat>, p: int) { forall i :: 0 <= i < p && i < |s| ==> s[i] == 0 }

  /** The last i digits of the buffer, with the carry, are mul times the old ones plus the digit. */
  ghost predicate Multiplied(was: seq<nat>, now: seq<nat>, i: nat, mul: nat, digit: nat, carry: nat, base: nat)
    requires |was| == |now| && i <= |was|
  {
    Num(now[|now| - i..], base) + carry * Pow(base, i) == Num(was[|was| - i..], base) * mul + digit
  }

  lemma StepColumn(n: nat, w: nat, d: nat, c: nat, p: nat, mul: nat, digit: nat, base: nat, q: nat, r: nat)
    requires n + c * p == w * mul + digit && c + mul * d == q * base + r
    ensures (r * p + n) + q * (base * p) == (d * p + w) * mul + digit
  {
    assert q * (base * p) == (q * base) * p;
    assert (q * base + r) * p == (c + mul * d) * p;
    assert (c + mul * d) * p == c * p + (d * p) * mul;
  }

  /** The digit to store and the carry to pass on, from carry + mul * d. */
  function StoredDigit(carry: nat, mul: nat, d: nat, base: nat): (r: nat)
    requires base > 0
    ensures r < base
  {
    (carry + mul * d) % base
  }

  function NextCarry(carry: nat, mul: nat, d: nat, base: nat): nat
    requires base > 0
  {
    (carry + mul * d) / base
  }

  lemma MultipliedStep(was: seq<nat>, now: seq<nat>, i: nat, mul: nat, digit: nat, c: nat, base: nat)
    requires |was| == |now| && i < |was| && base > 0 && now[|now| - 1 - i] == was[|was| - 1 - i]
    requires Multiplied(was, now, i, mul, digit, c, base)
    ensures var k := |now| - 1 - i;
      Multiplied(was, now[k := StoredDigit(c, mul, was[k], base)], i + 1, mul, digit, NextCarry(c, mul, was[k], base), base)
  {
    hide Num, Pow;
    var k := |now| - 1 - i;
    var d := was[k];
    var n := c + mul * d;
    var now' := now[k := n % base];
    assert now'[k..][1..] == now[k + 1..] && was[k..][1..] == was[k + 1..];
    NumHead(now'[k..], base);
    NumHead(was[k..], base);
    StepColumn(Num(now[k + 1..], base), Num(was[k + 1..], base), d, c, Pow(base, i), mul, digit, base, n / base, n % base);
    assert Pow(base, i + 1) == base * Pow(base, i) by { PowNext(base, i); }
  }

  lemma NoCarry(n: nat, carry: nat, p: nat, total: nat)
    requires n + carry * p == total && (carry == 0 || total < p)
    ensures carry == 0 && n == total
  {
    if carry > 0 {
      MulMono(1, carry, p);
      assert false;
    }
  }

  lemma MultipliedEnd(was: seq<nat>, now: seq<nat>, i: nat, mul: nat, digit: nat, carry: nat, base: nat)
    requires |was| == |now| && i <= |was| && (carry == 0 || i == |was|)
    requires ZeroBefore(was, |was| - i) && ZeroBefore(now, |was| - i)
    ensures Multiplied(was, now, i, mul, digit, carry, base) && Num(was, base) * mul + digit < Pow(base, |was|) ==>
      carry == 0 && Num(now, base) == Num(was, base) * mul + digit
  {
    hide Num, Pow;
    NumStrip(was, |was| - i, base);
    NumStrip(now, |was| - i, base);
    var n, w := Num(now, base), Num(was, base);
    if n + carry * Pow(base, i) == w * mul + digit && w * mul + digit < Pow(base, |was|) {
      NoCarry(n, carry, Pow(base, i), w * mul + digit);
    }
  }

  /** The inner loops of EncodeBase58 and DecodeBase58, which differ in the two bases only. */
  method MulAdd(buf: array<nat>, length: nat, mul: nat, digit: nat, base: nat) returns (length': nat)
    requires length <= buf.Length && base > 0
    requires IsNumeral(buf[..], base) && ZeroBefore(buf[..], buf.Length - length)
    requires Num(buf[..], base) * mul + digit < Pow(base, buf.Length)
    modifies buf
    ensures IsNumeral(buf[..], base) && length' <= buf.Length && ZeroBefore(buf[..], buf.Length - length')
    ensures Num(buf[..], base) == Num(old(buf[..]), base) * mul + digit
  {
    hide Num, Pow, Multiplied, StoredDigit, NextCarry;
    ghost var was := buf[..];
    var carry: nat, i := digit, 0;
    StartMultiplied(was, mul, digit, base);
    while (carry != 0 || i < length) && i < buf.Length
      invariant i <= buf.Length && Multiplied(was, buf[..], i, mul, digit, carry, base)
      invariant forall j :: 0 <= j < buf.Length - i ==> buf[j] == was[j]
      invariant IsNumeral(buf[..], base)
      decreases buf.Length - i
    {
      ghost var before := buf[..];
      var it := buf.Length - 1 - i;
      MultipliedStep(was, before, i, mul, digit, carry, base);
      var d := buf[it];
      buf[it] := StoredDigit(carry, mul, d, base);
      carry := NextCarry(carry, mul, d, base);
      assert buf[..] == before[it := buf[it]];
      i := i + 1;
    }
    MultipliedEnd(was, buf[..], i, mul, digit, carry, base);
    assert carry == 0;
    length' := i;
  }

  lemma StartMultiplied(was: seq<nat>, mul: nat, digit: nat, base: nat)
    ensures Multiplied(was, was, 0, mul, digit, digit, base)
  {
    assert was[|was|..] == [] && Pow(base, 0) == 1;
  }

  // The buffer sizes: 138/100 and 733/1000 are large enough.

  lemma {:induction false} PowBase(a: nat, b: nat, n: nat)
    requires a <= b
    ensures Pow(a, n) <= Pow(b, n)
  {
    if n > 0 {
      PowBase(a, b, n - 1);
      MulMono(a, b, Pow(a, n - 1));
      MulMono(Pow(a, n - 1), Pow(b, n - 1), b);
    }
  }

  /** If a^k <= b^l then a^(k * q + r) <= b^(l * q + t) whenever a^r <= b^t. */
  lemma PowBlocks(a: nat, k: nat, b: nat, l: nat, q: nat, r: nat, t: nat)
    requires Pow(a, k) <= Pow(b, l) && Pow(a, r) <= Pow(b, t)
    ensures Pow(a, k * q + r) <= Pow(b, l * q + t)
  {
    hide Pow;
    PowOfPow(a, k, q);
    PowOfPow(b, l, q);
    PowBase(Pow(a, k), Pow(b, l), q);
    PowAdd(a, k * q, r);
    PowAdd(b, l * q, t);
    MulMono(Pow(a, k * q), Pow(b, l * q), Pow(a, r));
    MulMono(Pow(a, r), Pow(b, t), Pow(b, l * q));
  }

  /** Base-58 digits enough for r bytes, r < 8. */
  ghost function DigitsFor(r: nat): nat {
    if r == 0 then 0 else r * 138 / 100 + 1
  }

  lemma FewBytes(r: nat)
    requires r < 8
    ensures Pow(256, r) <= Pow(58, DigitsFor(r))
  {
    assert Pow(256, 0) == 1 && Pow(58, 0) == 1;
    assert Pow(256, 1) == 256 && Pow(58, 2) == 3364;
    assert Pow(256, 2) == 65536 && Pow(58, 3) == 195112;
    assert Pow(256, 3) == 16777216 && Pow(58, 5) == 656356768;
    assert Pow(256, 4) == 4294967296 && Pow(58, 6) == 38068692544;
    assert Pow(256, 5) == 1099511627776 && Pow(58, 7) == 2207984167552;
    assert Pow(256, 6) == 281474976710656 && Pow(58, 9) == 7427658739644928;
    assert Pow(256, 7) == 72057594037927936 && Pow(58, 10) == 430804206899405824;
  }

  lemma EightBytes()
    ensures Pow(256, 8) <= Pow(58, 11)
  {
    assert Pow(256, 8) == 18446744073709551616 && Pow(58, 11) == 24986644000165537792;
  }

  /** Eight bytes fit in eleven base-58 digits, so n bytes fit in n * 138 / 100 + 1 of them. */
  lemma EncodeFits(n: nat)
    ensures Pow(256, n) <= Pow(58, n * 138 / 100 + 1)
  {
    hide Pow;
    var q, r := n / 8, n % 8;
    EightBytes();
    FewBytes(r);
    PowBlocks(256, 8, 58, 11, q, r, DigitsFor(r));
    PowMono(58, 11 * q + DigitsFor(r), n * 138 / 100 + 1);
  }

  /** Bytes enough for b base-58 digits, b < 15. */
  ghost function BytesFor(b: nat): nat {
    if b <= 3 then b else if b <= 7 then b - 1 else if b <= 11 then b - 2 else b - 3
  }

  lemma FewDigits(b: nat)
    requires b < 15
    ensures Pow(58, b) <= Pow(256, BytesFor(b))
  {
    assert Pow(58, 0) == 1 && Pow(256, 0) == 1;
    assert Pow(58, 1) == 58 && Pow(256, 1) == 256;
    assert Pow(58, 2) == 3364 && Pow(256, 2) == 65536;
    assert Pow(58, 3) == 195112 && Pow(256, 3) == 16777216;
    assert Pow(58, 4) == 11316496 && Pow(256, 3) == 16777216;
    assert Pow(58, 5) == 656356768 && Pow(256, 4) == 4294967296;
    assert Pow(58, 6) == 38068692544 && Pow(256, 5) == 1099511627776;
    assert Pow(58, 7) == 2207984167552 && Pow(256, 6) == 281474976710656;
    assert Pow(58, 8) == 128063081718016 && Pow(256, 6) == 281474976710656;
    assert Pow(58, 9) == 7427658739644928 && Pow(256, 7) == 72057594037927936;
    assert Pow(58, 10) == 430804206899405824 && Pow(256, 8) == 18446744073709551616;
    assert Pow(58, 11) == 24986644000165537792 && Pow(256, 9) == 4722366482869645213696;
    assert Pow(58, 12) == 1449225352009601191936 && Pow(256, 9) == 4722366482869645213696;
    assert Pow(58, 13) == 84055070416556869132288 && Pow(256, 10) == 1208925819614629174706176;
    assert Pow(58, 14) == 4875194084160298409672704 && Pow(256, 11) == 309485009821345068724781056;
  }

  lemma FifteenDigits()
    ensures Pow(58, 15) <= Pow(256, 11)
  {
    assert Pow(58, 8) == 128063081718016 && Pow(58, 7) == 2207984167552;
    assert Pow(256, 6) == 281474976710656 && Pow(256, 5) == 1099511627776;
    hide Pow;
    PowAdd(58, 8, 7);
    PowAdd(256, 6, 5);
  }

  lemma SeventyOneDigits()
    ensures Pow(58, 71) <= Pow(256, 52)
  {
    assert Pow(58, 8) == 128063081718016 && Pow(58, 7) == 2207984167552 && Pow(256, 13) == 20282409603651670423947251286016;
    hide Pow;
    PowAdd(58, 8, 8);
    PowAdd(58, 16, 16);
    PowAdd(58, 32, 32);
    PowAdd(58, 64, 7);
    PowAdd(256, 13, 13);
    PowAdd(256, 26, 26);
  }

  /** 71 base-58 digits fit in 52 bytes, so n digits fit in n * 733 / 1000 + 1 bytes. */
  lemma DecodeFits(n: nat)
    ensures Pow(58, n) <= Pow(256, n * 733 / 1000 + 1)
  {
    hide Pow;
    var q, r := n / 71, n % 71;
    var a, b := r / 15, r % 15;
    SeventyOneDigits();
    FifteenDigits();
    FewDigits(b);
    PowBlocks(58, 15, 256, 11, a, b, BytesFor(b));
    PowBlocks(58, 71, 256, 52, q, r, 11 * a + BytesFor(b));
    PowMono(256, 52 * q + 11 * a + BytesFor(b), n * 733 / 1000 + 1);
  }

  // The specification: change of base, leading zeros kept one for one.

  ghost function Convert(s: seq<nat>, from: nat, to: nat): (r: seq<nat>)
    requires to >= 2
    ensures to > 0 ==> IsNumeral(r, to)
  {
    Repeat(0, LeadingZeros(s)) + Digits(Num(s, from), to)
  }

  lemma LeadingZerosOf(z: nat, s: seq<nat>)
    requires s != [] ==> s[0] != 0
    ensures LeadingZeros(Repeat(0, z) + s) == z
  {
    var t: seq<nat> := Repeat(0, z) + s;
    assert forall i :: 0 <= i < z ==> t[i] == 0;
    assert z < |t| ==> t[z] == s[0];
  }

  /** Changing the base and changing it back gives the same digits, leading zeros included. */
  lemma ConvertBack(s: seq<nat>, from: nat, to: nat)
    requires from >= 2 && to >= 2 && IsNumeral(s, from)
    ensures Convert(Convert(s, from, to), to, from) == s
  {
    var z, ds := LeadingZeros(s), Digits(Num(s, from), to);
    LeadingZerosOf(z, ds);
    NumStrip(Repeat(0, z) + ds, z, to);
    assert (Repeat(0, z) + ds)[z..] == ds;
    NumOfDigits(Num(s, from), to);
    NumStrip(s, z, from);
    DigitsOfNum(s[z..], from);
    hide Num, Digits;
    assert s == Repeat(0, z) + s[z..];
  }

  // Characters.

  /** The code of the d-th character: the alphabet is six runs of consecutive characters. */
  function Code(d: nat): nat {
    if d < 9 then '1' as int + d
    else if d < 17 then 'A' as int + d - 9
    else if d < 22 then 'J' as int + d - 17
    else if d < 33 then 'P' as int + d - 22
    else if d < 44 then 'a' as int + d - 33
    else 'm' as int + d - 44
  }

  lemma Runs(i: nat)
    ensures i < 9 ==> "123456789"[i] as int == Code(i)
    ensures i < 8 ==> "ABCDEFGH"[i] as int == Code(i + 9)
    ensures i < 5 ==> "JKLMN"[i] as int == Code(i + 17)
    ensures i < 11 ==> "PQRSTUVWXYZ"[i] as int == Code(i + 22)
    ensures i < 11 ==> "abcdefghijk"[i] as int == Code(i + 33)
    ensures i < 14 ==> "mnopqrstuvwxyz"[i] as int == Code(i + 44)
  {}

  lemma AlphabetCode(d: nat)
    requires d < 58
    ensures Alphabet()[d] as int == Code(d)
  {
    Runs(if d < 9 then d else if d < 17 then d - 9 else if d < 22 then d - 17
         else if d < 33 then d - 22 else if d < 44 then d - 33 else d - 44);
  }

  /** strchr(pszBase58, c): the place of a character in the alphabet. */
  method IndexOf(c: char) returns (r: Option<nat>)
    ensures r == ValueOf(c)
  {
    hide Alphabet;
    var i := 0;
    while i < |Alphabet()|
      invariant i <= |Alphabet()| && c !in Alphabet()[..i]
    {
      if Alphabet()[i] == c {
        ValueAt(i);
        return Some(i);
      }
      i := i + 1;
    }
    assert Alphabet()[..i] == Alphabet();
    if IsBase58(c) { AlphabetAt(c); }
    return None;
  }

  /** All alphanumeric characters except 0, I, O and l. */
  ghost predicate IsBase58(c: char) {
    '1' <= c <= '9' || ('A' <= c <= 'Z' && c != 'I' && c != 'O') || ('a' <= c <= 'z' && c != 'l')
  }

  /** The digit a character stands for. */
  ghost function ValueOf(c: char): (r: Option<nat>)
    ensures r.Some? <==> IsBase58(c)
    ensures r.Some? ==> r.value < 58 && Code(r.value) == c as nat
  {
    if !IsBase58(c) then None
    else Some(
      if c <= '9' then c as nat - '1' as nat
      else if c <= 'H' then c as nat - 'A' as nat + 9
      else if c <= 'N' then c as nat - 'J' as nat + 17
      else if c <= 'Z' then c as nat - 'P' as nat + 22
      else if c <= 'k' then c as nat - 'a' as nat + 33
      else c as nat - 'm' as nat + 44)
  }

  /** Characters and digits correspond one to one. */
  lemma ValueAt(d: nat)
    requires d < 58
    ensures ValueOf(Alphabet()[d]) == Some(d)
  {
    hide Alphabet;
    AlphabetCode(d);
  }

  lemma AlphabetAt(c: char)
    requires IsBase58(c)
    ensures Alphabet()[ValueOf(c).value] == c
  {
    hide Alphabet;
    AlphabetCode(ValueOf(c).value);
  }

  ghost predicate AllBase58(t: string) { forall i :: 0 <= i < |t| ==> IsBase58(t[i]) }

  ghost function Values(t: string): (s: seq<nat>)
    requires AllBase58(t)
    ensures IsNumeral(s, 58) && |s| == |t|
  {
    seq(|t|, i requires 0 <= i < |t| => assert IsBase58(t[i]); ValueOf(t[i]).value)
  }

  ghost function Chars(s: seq<nat>): (t: string)
    requires IsNumeral(s, 58)
    ensures |t| == |s| && forall i :: 0 <= i < |s| ==> t[i] == Alphabet()[s[i]]
  {
    seq(|s|, i requires 0 <= i < |s| => Alphabet()[s[i]])
  }

  lemma CharsAreBase58(s: seq<nat>)
    requires IsNumeral(s, 58)
    ensures AllBase58(Chars(s))
  {
    hide Alphabet;
    forall i | 0 <= i < |s| ensures IsBase58(Chars(s)[i]) {
      AlphabetCode(s[i]);
    }
  }

  lemma ValuesOfChars(s: seq<nat>)
    requires IsNumeral(s, 58)
    ensures AllBase58(Chars(s)) && Values(Chars(s)) == s
  {
    hide Alphabet;
    CharsAreBase58(s);
    forall i | 0 <= i < |s| ensures Values(Chars(s))[i] == s[i] {
      ValueAt(s[i]);
    }
  }

  lemma CharsOfValues(t: string)
    requires AllBase58(t)
    ensures Chars(Values(t)) == t
  {
    hide Alphabet;
    forall i | 0 <= i < |t| ensures Chars(Values(t))[i] == t[i] {
      assert IsBase58(t[i]);
      AlphabetAt(t[i]);
    }
  }

  ghost function Encoded(bytes: seq<nat>): (t: string)
    ensures AllBase58(t)
  {
    CharsAreBase58(Convert(bytes, 256, 58));
    Chars(Convert(bytes, 256, 58))
  }

  ghost function Decoded(t: string): seq<nat>
    requires AllBase58(t)
  {
    Convert(Values(t), 58, 256)
  }

  // White space.

  predicate IsSpace(c: char) { c == ' ' || '\t' <= c <= '\r' }

  ghost function SkipLeft(t: string): string { if t != [] && IsSpace(t[0]) then SkipLeft(t[1..]) else t }

  ghost function SkipRight(t: string): (r: string)
    ensures r <= t
  {
    if t != [] && IsSpace(t[|t| - 1]) then SkipRight(t[..|t| - 1]) else t
  }

  /** The text without the white space around it. */
  ghost function Strip(t: string): string { SkipRight(SkipLeft(t)) }

  lemma {:induction false} SkipLeftTo(t: string, a: nat)
    requires a <= |t| && (forall i :: 0 <= i < a ==> IsSpace(t[i])) && (a < |t| ==> !IsSpace(t[a]))
    ensures SkipLeft(t) == t[a..]
    decreases a
  {
    if a > 0 {
      SkipLeftTo(t[1..], a - 1);
      assert t[1..][a - 1..] == t[a..];
    } else {
      assert t[0..] == t;
    }
  }

  lemma {:induction false} SkipRightTo(t: string, e: nat)
    requires e <= |t| && (forall i :: e <= i < |t| ==> IsSpace(t[i])) && (e > 0 ==> !IsSpace(t[e - 1]))
    ensures SkipRight(t) == t[..e]
    decreases |t|
  {
    if e < |t| {
      SkipRightTo(t[..|t| - 1], e);
      assert t[..|t| - 1][..e] == t[..e];
    } else {
      assert t[..e] == t;
    }
  }

  lemma {:induction false} SkipRightKeeps(t: string, k: nat)
    requires k < |t| && !IsSpace(t[k])
    ensures k < |SkipRight(t)|
    decreases |t|
  {
    if IsSpace(t[|t| - 1]) {
      SkipRightKeeps(t[..|t| - 1], k);
    }
  }

  lemma SpacesAreNotBase58(c: char)
    requires IsSpace(c)
    ensures !IsBase58(c)
  {}

  // EncodeBase58 and DecodeBase58.

  lemma LeadingZerosIs(s: seq<nat>, z: nat)
    requires z <= |s| && (forall i :: 0 <= i < z ==> s[i] == 0) && (z < |s| ==> s[z] != 0)
    ensures LeadingZeros(s) == z
  {}

  lemma NumZeros(s: seq<nat>, base: nat)
    requires ZeroBefore(s, |s|)
    ensures Num(s, base) == 0
  {
    NumStrip(s, |s|, base);
  }

  /** The next digit still fits: the buffer is large enough for the whole input. */
  lemma NextFits(s: seq<nat>, k: nat, from: nat, room: nat)
    requires k < |s| && from > 0 && IsNumeral(s, from) && Pow(from, |s|) <= room
    ensures Num(s[..k + 1], from) == Num(s[..k], from) * from + s[k] < room
  {
    hide Num, Pow;
    assert s[..k + 1] == s[..k] + [s[k]];
    NumAppend(s[..k], s[k], from);
    NumBound(s[..k + 1], from);
    PowMono(from, k + 1, |s|);
  }

  /** The leading zeros of the buffer are dropped, from the first digit in use. */
  method FirstDigit(buf: array<nat>, length: nat, ghost base: nat) returns (it: nat)
    requires length <= buf.Length && base >= 2
    requires IsNumeral(buf[..], base) && ZeroBefore(buf[..], buf.Length - length)
    ensures it <= buf.Length && buf[it..] == Digits(Num(buf[..], base), base)
  {
    hide Num, Digits;
    it := buf.Length - length;
    while it < buf.Length && buf[it] == 0
      invariant it <= buf.Length && ZeroBefore(buf[..], it)
    {
      it := it + 1;
    }
    assert buf[..][it..] == buf[it..];
    NumStrip(buf[..], it, base);
    DigitsOfNum(buf[it..], base);
  }

  method EncodeBase58(bytes: seq<nat>) returns (str: string)
    requires IsNumeral(bytes, 256)
    ensures str == Encoded(bytes)
  {
    hide Num, Digits, Pow, Alphabet;
    var zeroes := 0;
    while zeroes < |bytes| && bytes[zeroes] == 0
      invariant zeroes <= |bytes| && forall i :: 0 <= i < zeroes ==> bytes[i] == 0
    {
      zeroes := zeroes + 1;
    }
    LeadingZerosIs(bytes, zeroes);
    NumStrip(bytes, zeroes, 256);
    var rest := bytes[zeroes..];
    var size := |rest| * 138 / 100 + 1;
    EncodeFits(|rest|);
    var b58 := new nat[size](_ => 0);
    NumZeros(b58[..], 58);
    NumZeros(rest[..0], 256);
    var length: nat, p := 0, 0;
    while p < |rest|
      invariant p <= |rest| && length <= size
      invariant IsNumeral(b58[..], 58) && ZeroBefore(b58[..], size - length)
      invariant Num(b58[..], 58) == Num(rest[..p], 256)
    {
      NextFits(rest, p, 256, Pow(58, size));
      length := MulAdd(b58, length, 256, rest[p], 58);
      p := p + 1;
    }
    assert rest[..p] == rest;
    var it := FirstDigit(b58, length, 58);
    str := Translate(zeroes, b58[it..]);
    assert Repeat(0, zeroes) + b58[it..] == Convert(bytes, 256, 58);
  }

  /** The output string: a '1' for every leading zero, then a character for every digit. */
  method Translate(zeroes: nat, digits: seq<nat>) returns (str: string)
    requires IsNumeral(digits, 58)
    ensures var s: seq<nat> := Repeat(0, zeroes) + digits; IsNumeral(s, 58) && str == Chars(s)
  {
    hide Alphabet;
    AlphabetCode(0);
    str := seq(zeroes, _ => '1');
    for i := 0 to |digits|
      invariant |str| == zeroes + i
      invariant forall j :: 0 <= j < zeroes ==> str[j] == '1'
      invariant forall j :: 0 <= j < i ==> str[zeroes + j] == Alphabet()[digits[j]]
    {
      str := str + [Alphabet()[digits[i]]];
    }
  }

  /** The text after white space and '1's: a number in base 58, up to white space or the end. */
  method DecodeDigits(text: string, start: nat) returns (p: nat, bytes: Option<seq<nat>>)
    requires start <= |text|
    ensures start <= p <= |text| && forall i :: start <= i < p ==> !IsSpace(text[i])
    ensures bytes.None? ==> p < |text| && !IsSpace(text[p]) && !IsBase58(text[p])
    ensures bytes.Some? && p < |text| ==> IsSpace(text[p])
    ensures bytes.Some? ==> AllBase58(text[start..p]) && bytes.value == Digits(Num(Values(text[start..p]), 58), 256)
  {
    hide Num, Digits, Pow, Alphabet, IsBase58;
    var size := (|text| - start) * 733 / 1000 + 1;
    DecodeFits(|text| - start);
    var b256 := new nat[size](_ => 0);
    NumZeros(b256[..], 256);
    p := start;
    var length: nat := 0;
    assert text[start..p] == [];
    NumZeros(Values(text[start..p]), 58);
    while p < |text| && !IsSpace(text[p])
      invariant start <= p <= |text| && length <= size
      invariant AllBase58(text[start..p])
      invariant forall i :: start <= i < p ==> !IsSpace(text[i])
      invariant IsNumeral(b256[..], 256) && ZeroBefore(b256[..], size - length)
      invariant Num(b256[..], 256) == Num(Values(text[start..p]), 58)
    {
      var ch := IndexOf(text[p]);
      if ch.None? {
        return p, None;
      }
      AppendValue(text, start, p);
      PartFits(text[start..p + 1], |text| - start, Pow(256, size));
      length := MulAdd(b256, length, 58, ch.value, 256);
      p := p + 1;
    }
    var it := FirstDigit(b256, length, 256);
    bytes := Some(b256[it..]);
  }

  lemma AppendValue(text: string, start: nat, p: nat)
    requires start <= p < |text| && AllBase58(text[start..p]) && IsBase58(text[p])
    ensures AllBase58(text[start..p + 1])
    ensures Num(Values(text[start..p + 1]), 58) == Num(Values(text[start..p]), 58) * 58 + ValueOf(text[p]).value
  {
    hide Num, Alphabet, IsBase58;
    var t := text[start..p + 1];
    assert t == text[start..p] + [text[p]];
    var s := Values(t);
    assert s == Values(text[start..p]) + [ValueOf(text[p]).value];
    NumAppend(Values(text[start..p]), ValueOf(text[p]).value, 58);
  }

  /** The number of a part of the text fits into a buffer for the whole text. */
  lemma PartFits(t: string, length: nat, room: nat)
    requires AllBase58(t) && |t| <= length
    ensures Pow(58, length) <= room ==> Num(Values(t), 58) < room
  {
    hide Num, Pow, Alphabet;
    NumBound(Values(t), 58);
    PowMono(58, |t|, length);
  }

  /** DecodeBase58 on a C string: accepts Base58 characters with white space around them and nothing else. */
  method DecodeBase58(text: string) returns (r: Option<seq<nat>>)
    requires '\0' !in text
    ensures r == if AllBase58(Strip(text)) then Some(Decoded(Strip(text))) else None
  {
    hide Num, Digits, Pow, Alphabet, IsBase58, Strip, Decoded;
    var a := 0;
    while a < |text| && IsSpace(text[a])
      invariant a <= |text| && forall i :: 0 <= i < a ==> IsSpace(text[i])
    {
      a := a + 1;
    }
    var zeroes := 0;
    while a + zeroes < |text| && text[a + zeroes] == '1'
      invariant a + zeroes <= |text| && forall i :: a <= i < a + zeroes ==> text[i] == '1'
    {
      zeroes := zeroes + 1;
    }
    var p, digits := DecodeDigits(text, a + zeroes);
    if digits.None? {
      BadCharacter(text, a, p);
      return None;
    }
    var q := p;
    while q < |text| && IsSpace(text[q])
      invariant p <= q <= |text| && forall i :: p <= i < q ==> IsSpace(text[i])
    {
      q := q + 1;
    }
    if q != |text| {
      TrailingText(text, a, p, q);
      return None;
    }
    Stripped(text, a, p);
    assert text[a..p][zeroes..] == text[a + zeroes..p];
    DecodedParts(text[a..p], zeroes);
    var vch: seq<nat> := seq(zeroes, _ => 0);
    assert Decoded(text[a..p]) == vch + digits.value;
    r := Some(vch + digits.value);
  }

  lemma OneIsZero()
    ensures IsBase58('1') && ValueOf('1') == Some(0) && !IsSpace('1')
  {
    hide Alphabet;
    AlphabetCode(0);
    ValueAt(0);
  }

  lemma BadCharacter(text: string, a: nat, p: nat)
    requires a <= p < |text| && (forall i :: 0 <= i < a ==> IsSpace(text[i])) && !IsSpace(text[a])
    requires !IsSpace(text[p]) && !IsBase58(text[p])
    ensures !AllBase58(Strip(text))
  {
    hide Alphabet, IsBase58;
    SkipLeftTo(text, a);
    SkipRightKeeps(text[a..], p - a);
    assert Strip(text)[p - a] == text[p];
  }

  lemma TrailingText(text: string, a: nat, p: nat, q: nat)
    requires a <= p < q < |text| && (forall i :: 0 <= i < a ==> IsSpace(text[i])) && !IsSpace(text[a])
    requires IsSpace(text[p]) && !IsSpace(text[q])
    ensures !AllBase58(Strip(text))
  {
    hide Alphabet, IsBase58;
    SkipLeftTo(text, a);
    SkipRightKeeps(text[a..], q - a);
    assert Strip(text)[p - a] == text[p];
    SpacesAreNotBase58(text[p]);
  }

  lemma Stripped(text: string, a: nat, p: nat)
    requires a <= p <= |text| && (forall i :: 0 <= i < a ==> IsSpace(text[i]))
    requires (forall i :: a <= i < p ==> !IsSpace(text[i])) && (forall i :: p <= i < |text| ==> IsSpace(text[i]))
    requires a < |text| ==> !IsSpace(text[a])
    ensures Strip(text) == text[a..p]
  {
    SkipLeftTo(text, a);
    SkipRightTo(text[a..], p - a);
    assert text[a..][..p - a] == text[a..p];
  }

  /** Leading '1's are leading zeros. */
  lemma DecodedParts(t: string, z: nat)
    requires z <= |t| && (forall i :: 0 <= i < z ==> t[i] == '1') && (z < |t| ==> t[z] != '1')
    requires AllBase58(t[z..])
    ensures AllBase58(t) && Decoded(t) == Repeat(0, z) + Digits(Num(Values(t[z..]), 58), 256)
  {
    hide Alphabet, Num, Digits, IsBase58;
    OneIsZero();
    forall i | 0 <= i < |t| ensures IsBase58(t[i]) {
      if i >= z { assert t[z..][i - z] == t[i]; }
    }
    var s := Values(t);
    LeadingZerosIs(s, z);
    NumStrip(s, z, 58);
    assert s[z..] == Values(t[z..]);
  }

  // The round trips.

  /** Every byte string survives encoding and decoding. */
  lemma DecodeUndoesEncode(bytes: seq<nat>)
    requires IsNumeral(bytes, 256)
    ensures Strip(Encoded(bytes)) == Encoded(bytes) && Decoded(Encoded(bytes)) == bytes
  {
    var s := Convert(bytes, 256, 58);
    ValuesOfChars(s);
    ConvertBack(bytes, 256, 58);
    StripNothing(Chars(s));
  }

  lemma StripNothing(t: string)
    requires AllBase58(t)
    ensures Strip(t) == t
  {
    hide Alphabet;
    forall i | 0 <= i < |t| ensures !IsSpace(t[i]) {
      assert IsBase58(t[i]);
      if IsSpace(t[i]) { SpacesAreNotBase58(t[i]); }
    }
    Stripped(t, 0, |t|);
  }

  /** Every accepted text comes back without the white space around it. */
  lemma EncodeUndoesDecode(text: string)
    requires AllBase58(Strip(text))
    ensures IsNumeral(Decoded(Strip(text)), 256) && Encoded(Decoded(Strip(text))) == Strip(text)
  {
    var t := Strip(text);
    ConvertBack(Values(t), 58, 256);
    CharsOfValues(t);
  }

  /** Through the code itself: decoding what was encoded gives the bytes back. */
  method RoundTrip(bytes: seq<nat>) returns (str: string, back: Option<seq<nat>>)
    requires IsNumeral(bytes, 256)
    ensures back == Some(bytes) && str == Encoded(bytes)
  {
    hide Encoded, Decoded, Strip, Alphabet;
    str := EncodeBase58(bytes);
    DecodeUndoesEncode(bytes);
    NoTerminator(str);
    back := DecodeBase58(str);
  }

  /** And encoding what was decoded gives the text back, less the white space around it. */
  method TextRoundTrip(text: string) returns (bytes: Option<seq<nat>>, again: string)
    requires '\0' !in text
    ensures bytes.Some? <==> AllBase58(Strip(text))
    ensures bytes.Some? ==> again == Strip(text)
  {
    hide Encoded, Decoded, Strip, Alphabet;
    again := "";
    bytes := DecodeBase58(text);
    if bytes.Some? {
      EncodeUndoesDecode(text);
      again := EncodeBase58(bytes.value);
    }
  }

  lemma NoTerminator(t: string)
    requires AllBase58(t)
    ensures '\0' !in t
  {}

  // Characters, in their own terms.

  /** The digits are the letters and digits except 0, O, I and l, in the order of their codes. */
  lemma AlphabetIs(c: char, d: nat, e: nat)
    requires d < e < 58
    ensures Alphabet()[d] < Alphabet()[e]
    ensures c in Alphabet() <==>
      ('0' <= c <= '9' || 'A' <= c <= 'Z' || 'a' <= c <= 'z') && c != '0' && c != 'O' && c != 'I' && c != 'l'
  {
    hide Alphabet;
    AlphabetCode(d);
    AlphabetCode(e);
    if c in Alphabet() {
      var i :| 0 <= i < 58 && Alphabet()[i] == c;
      ValueAt(i);
    }
    if IsBase58(c) {
      AlphabetAt(c);
    }
  }

  /** What is stripped is space, tab, line feed, vertical tab, form feed and carriage return, on both sides as far as they go. */
  lemma StripIs(text: string) returns (a: nat, b: nat)
    ensures a <= b <= |text| && Strip(text) == text[a..b]
    ensures forall i :: 0 <= i < a || b <= i < |text| ==> text[i] as int in {32, 9, 10, 11, 12, 13}
    ensures a < b ==> text[a] as int !in {32, 9, 10, 11, 12, 13} && text[b - 1] as int !in {32, 9, 10, 11, 12, 13}
  {
    a := SkipLeftEnd(text);
    var rest := text[a..];
    var n := SkipRightEnd(rest);
    b := a + n;
    SkipLeftTo(text, a);
    SkipRightTo(rest, n);
    assert rest[..n] == text[a..b];
    forall i | b <= i < |text| ensures IsSpace(text[i]) {
      assert text[i] == rest[i - a];
    }
  }

  lemma {:induction false} SkipLeftEnd(t: string) returns (a: nat)
    ensures a <= |t| && (forall i :: 0 <= i < a ==> IsSpace(t[i])) && (a < |t| ==> !IsSpace(t[a]))
  {
    if t == [] || !IsSpace(t[0]) {
      a := 0;
    } else {
      var n := SkipLeftEnd(t[1..]);
      a := n + 1;
      assert forall i :: 1 <= i < |t| ==> t[i] == t[1..][i - 1];
    }
  }

  lemma {:induction false} SkipRightEnd(t: string) returns (e: nat)
    ensures e <= |t| && (forall i :: e <= i < |t| ==> IsSpace(t[i])) && (e > 0 ==> !IsSpace(t[e - 1]))
  {
    if t == [] || !IsSpace(t[|t| - 1]) {
      e := |t|;
    } else {
      e := SkipRightEnd(t[..|t| - 1]);
    }
  }

  /** Digits that stand for the number of the bytes are its text. */
  lemma EncodedByDigits(bytes: seq<nat>, digits: seq<nat>, t: string)
    requires bytes != [] && bytes[0] != 0 && digits != [] && digits[0] != 0 && IsNumeral(digits, 58)
    requires Num(bytes, 256) == Num(digits, 58)
    requires |t| == |digits| && forall i :: 0 <= i < |t| ==> t[i] as int == Code(digits[i])
    ensures Encoded(bytes) == t
  {
    hide Num, Digits, Alphabet, Code;
    DigitsOfNum(digits, 58);
    LeadingZerosIs(bytes, 0);
    assert Convert(bytes, 256, 58) == digits;
    forall i | 0 <= i < |t| ensures Chars(digits)[i] == t[i] {
      AlphabetCode(digits[i]);
    }
  }

  lemma NumOfThree(a: nat, b: nat, c: nat, base: nat)
    ensures Num([a, b, c], base) == (a * base + b) * base + c
  {
    NumAppend([], a, base);
    NumAppend([a], b, base);
    NumAppend([a, b], c, base);
    hide Num;
    assert [] + [a] == [a] && [a] + [b] == [a, b] && [a, b] + [c] == [a, b, c];
    assert Num([], base) == 0 by { NumZeros([], base); }
  }

  lemma NumOfFour(a: nat, b: nat, c: nat, d: nat, base: nat)
    ensures Num([a, b, c, d], base) == ((a * base + b) * base + c) * base + d
  {
    NumOfThree(a, b, c, base);
    NumAppend([a, b, c], d, base);
    hide Num;
    assert [a, b, c] + [d] == [a, b, c, d];
  }

  lemma KnownDigits()
    ensures Encoded([0x62, 0x62, 0x62]) == "a3gV" && Encoded([0x63, 0x63, 0x63]) == "aPEr"
  {
    KnownCodes();
    hide Num, Encoded, Code;
    FourDigits([0x62, 0x62, 0x62], 33, 2, 39, 28, "a3gV");
    FourDigits([0x63, 0x63, 0x63], 33, 22, 13, 49, "aPEr");
  }

  lemma KnownCodes()
    ensures Code(33) == 'a' as int && Code(2) == '3' as int && Code(39) == 'g' as int && Code(28) == 'V' as int
    ensures Code(22) == 'P' as int && Code(13) == 'E' as int && Code(49) == 'r' as int
  {
  }

  lemma FourDigits(bytes: seq<nat>, a: nat, b: nat, c: nat, d: nat, t: string)
    requires |bytes| == 3 && bytes[0] != 0 && 0 < a < 58 && b < 58 && c < 58 && d < 58 && |t| == 4
    requires (bytes[0] * 256 + bytes[1]) * 256 + bytes[2] == ((a * 58 + b) * 58 + c) * 58 + d
    requires t[0] as int == Code(a) && t[1] as int == Code(b) && t[2] as int == Code(c) && t[3] as int == Code(d)
    ensures Encoded(bytes) == t
  {
    hide Num, Encoded, Code;
    NumOfThree(bytes[0], bytes[1], bytes[2], 256);
    NumOfFour(a, b, c, d, 58);
    assert bytes == [bytes[0], bytes[1], bytes[2]];
    EncodedByDigits(bytes, [a, b, c, d], t);
  }

  /** Two texts of src/test/data/base58_encode_decode.json, the second with white space around it. */
  method KnownTexts() returns (str: string, back: Option<seq<nat>>)
    ensures str == "a3gV" && back == Some([0x63, 0x63, 0x63])
  {
    hide Encoded, Decoded, Strip, Alphabet;
    KnownDigits();
    str := EncodeBase58([0x62, 0x62, 0x62]);
    DecodeUndoesEncode([0x63, 0x63, 0x63]);
    var text := " aPEr\n";
    Stripped(text, 1, 5);
    assert text[1..5] == "aPEr";
    back := DecodeBase58(text);
  }
}
