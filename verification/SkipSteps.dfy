/**
 * How fast the skip list of src/chain.cpp is: a tight bound on the steps from any height to any ancestor.
 */
module SkipSteps {
  import opened Arith
  import opened BlockTree

  // ------------------------------------------------------------------
  // One bits
  // ------------------------------------------------------------------

  function Ones(n: nat): nat {
    if n == 0 then 0 else n % 2 + Ones(n / 2)
  }

  lemma OnesDouble(n: nat)
    ensures Ones(2 * n) == Ones(n) && Ones(2 * n + 1) == Ones(n) + 1
  {
    assert 2 * n / 2 == n && (2 * n + 1) / 2 == n;
  }

  lemma {:induction false} OnesZero(n: nat)
    ensures Ones(n) == 0 <==> n == 0
  {
    if n > 0 {
      OnesZero(n / 2);
    }
  }

  lemma {:induction false} OnesClear(n: nat)
    requires n > 0
    ensures Ones(InvertLowestOne(n)) == Ones(n) - 1
  {
    hide InvertLowestOne;
    var m := n / 2;
    InvertLowestOneClears(m);
    if n % 2 == 1 {
      assert n == 2 * m + 1;
      OnesDouble(m);
    } else {
      assert n == 2 * m;
      OnesClear(m);
      OnesDouble(m);
      OnesDouble(InvertLowestOne(m));
    }
  }

  lemma {:induction false} OnesBelow(n: nat, d: nat)
    requires n < Pow(2, d)
    ensures Ones(n) <= d
  {
    if n > 0 {
      assert d > 0;
      OnesBelow(n / 2, d - 1);
    }
  }

  /** The last bit and the last two bits are those of the last three. */
  lemma LastBits(x: nat)
    ensures x % 2 == x % 8 % 2 && x % 4 == x % 8 % 4
  {
    var k, r := x / 8, x % 8;
    DivModUnique(x, 2, 4 * k + r / 2, r % 2);
    DivModUnique(x, 4, 2 * k + r / 4, r % 4);
  }

  lemma BesideEight(w: nat)
    requires w >= 8 && w % 8 == 0
    ensures (w - 8) % 8 == 0 && (w - 1) % 2 == 1
  {
    var k := w / 8;
    DivModUnique(w - 8, 8, k - 1, 0);
    DivModUnique(w - 1, 2, 4 * k - 1, 1);
  }

  /** Clearing the lowest one bit of a number that ends in 10, 100 or 000. */
  lemma ClearTwo(k: nat)
    ensures InvertLowestOne(4 * k + 2) == 4 * k
  {
    hide InvertLowestOne;
    InvertLowestOneClears(k);
    InvertLowestOneClears(2 * k + 1);
    assert 4 * k + 2 == 2 * (2 * k + 1);
    InvertLowestOneClears(2 * k);
  }

  lemma ClearFour(k: nat)
    ensures InvertLowestOne(8 * k + 4) == 8 * k
  {
    hide InvertLowestOne;
    ClearTwo(k);
    InvertLowestOneClears(4 * k + 2);
    assert 8 * k + 4 == 2 * (4 * k + 2);
  }

  lemma ClearEight(k: nat)
    requires k > 0
    ensures InvertLowestOne(8 * k) == 8 * InvertLowestOne(k) <= 8 * k - 8
  {
    hide InvertLowestOne;
    InvertLowestOneClears(k);
    InvertLowestOneClears(2 * k);
    InvertLowestOneClears(4 * k);
    assert 8 * k == 2 * (4 * k) && 4 * k == 2 * (2 * k);
  }

  lemma ClearLow(n: nat)
    requires n > 0
    ensures n % 2 == 1 ==> InvertLowestOne(n) == n - 1
    ensures n % 4 == 2 ==> InvertLowestOne(n) == n - 2
    ensures n % 8 == 4 ==> InvertLowestOne(n) == n - 4
    ensures n % 8 == 0 ==> InvertLowestOne(n) % 8 == 0 && InvertLowestOne(n) <= n - 8
  {
    hide InvertLowestOne;
    LastBits(n);
    if n % 2 == 1 {
      InvertLowestOneClears(n / 2);
    } else if n % 4 == 2 {
      ClearTwo(n / 4);
    } else if n % 8 == 4 {
      ClearFour(n / 8);
    } else {
      ClearEight(n / 8);
      DivModUnique(InvertLowestOne(n), 8, InvertLowestOne(n / 8), 0);
    }
  }

  // ------------------------------------------------------------------
  // The heights above a height q, up to the next multiple of a power of two w
  // ------------------------------------------------------------------

  /** q is an odd multiple of w, which is a power of two and at least 8: clearing a bit of q + x is clearing one of x. */
  ghost predicate Window(q: nat, w: nat) {
    && w >= 8 && q >= w && q % 8 == 0 && (q - w) % 8 == 0
    && InvertLowestOne(q) == q - w
    && forall x :: 0 < x < w ==> InvertLowestOne(q + x) == q + InvertLowestOne(x)
  }

  lemma {:induction false} ClearBase(b: nat, d: nat)
    ensures InvertLowestOne((2 * b + 1) * Pow(2, d)) == 2 * b * Pow(2, d)
  {
    hide InvertLowestOne;
    if d == 0 {
      InvertLowestOneClears(b);
    } else {
      ClearBase(b, d - 1);
      var p := Pow(2, d - 1);
      InvertLowestOneClears((2 * b + 1) * p);
      Doubled(2 * b + 1, p);
      Doubled(2 * b, p);
    }
  }

  lemma Doubled(a: nat, p: nat)
    ensures a * (2 * p) == 2 * (a * p)
  {}

  lemma {:induction false} ClearAbove(a: nat, d: nat, x: nat)
    requires 0 < x < Pow(2, d)
    ensures InvertLowestOne(a * Pow(2, d) + x) == a * Pow(2, d) + InvertLowestOne(x)
  {
    hide InvertLowestOne;
    var p := Pow(2, d - 1);
    assert Pow(2, d) == 2 * p;
    Doubled(a, p);
    var m := x / 2;
    InvertLowestOneClears(a * p + m);
    InvertLowestOneClears(m);
    if x % 2 == 1 {
      assert x == 2 * m + 1;
    } else {
      assert x == 2 * m;
      ClearAbove(a, d - 1, m);
    }
  }

  lemma PowMultiple(a: nat, d: nat)
    requires d >= 3
    ensures Pow(2, d) >= 8 && (a * Pow(2, d)) % 8 == 0
  {
    EightIs();
    hide Pow;
    PowAdd(2, 3, d - 3);
    PowPositive(2, d - 3);
    var p := Pow(2, d - 3);
    TimesEight(a, p);
    DivModUnique(a * (8 * p), 8, a * p, 0);
  }

  lemma TimesEight(a: nat, p: nat)
    ensures a * (8 * p) == a * p * 8
  {}

  lemma EightIs()
    ensures Pow(2, 3) == 8
  {}

  lemma WindowAt(b: nat, d: nat)
    requires d >= 3
    ensures Window((2 * b + 1) * Pow(2, d), Pow(2, d))
  {
    hide InvertLowestOne, Pow;
    var w := Pow(2, d);
    PowMultiple(2 * b + 1, d);
    PowMultiple(2 * b, d);
    ClearBase(b, d);
    var q := (2 * b + 1) * w;
    assert q == 2 * b * w + w;
    forall x | 0 < x < w ensures InvertLowestOne(q + x) == q + InvertLowestOne(x) {
      ClearAbove(2 * b + 1, d, x);
    }
  }

  lemma WindowShape(q: nat, w: nat)
    requires Window(q, w)
    ensures w >= 8 && q >= w && q % 8 == 0 && (q - w) % 8 == 0
  {}

  /** Clearing a bit above q, and below it. */
  lemma ClearIn(q: nat, w: nat, x: nat)
    requires Window(q, w) && x < w
    ensures InvertLowestOne(q + x) == if x == 0 then q - w else q + InvertLowestOne(x)
    ensures InvertLowestOne(x) < w && (x > 0 ==> InvertLowestOne(x) < x)
    ensures q - w > 0 ==> InvertLowestOne(q - w) <= q - w - 8
  {
    hide InvertLowestOne;
    if q - w > 0 {
      ClearLow(q - w);
    }
  }

  lemma EvenSkip(h: nat)
    requires h % 2 == 0
    ensures h >= 2 ==> GetSkipHeight(h) == InvertLowestOne(h)
  {}

  lemma OddSkip(h: nat)
    requires h % 2 == 1 && h >= 3
    ensures GetSkipHeight(h) == InvertLowestOne(InvertLowestOne(h - 1)) + 1
  {}

  lemma SameParity(q: nat, x: nat)
    requires q % 8 == 0
    ensures (q + x) % 2 == x % 2
  {}

  /** The skip heights above q. */
  lemma SkipEven(q: nat, w: nat, x: nat)
    requires Window(q, w) && x < w && x % 2 == 0
    ensures GetSkipHeight(q + x) == if x == 0 then q - w else q + InvertLowestOne(x)
  {
    hide InvertLowestOne, Window, GetSkipHeight;
    WindowShape(q, w);
    SameParity(q, x);
    EvenSkip(q + x);
    ClearIn(q, w, x);
  }

  lemma SkipOdd(q: nat, w: nat, x: nat)
    requires Window(q, w) && x < w && x % 2 == 1
    ensures Ones(x - 1) >= 2 ==> GetSkipHeight(q + x) == q + InvertLowestOne(InvertLowestOne(x - 1)) + 1
    ensures Ones(x - 1) == 1 ==> GetSkipHeight(q + x) == q - w + 1
    ensures x == 1 ==> 0 < GetSkipHeight(q + x) <= q - w + 1 && (q - w > 0 ==> GetSkipHeight(q + x) <= q - w - 7)
  {
    hide InvertLowestOne, Ones, Window, GetSkipHeight;
    WindowShape(q, w);
    SameParity(q, x);
    OddSkip(q + x);
    assert q + x - 1 == q + (x - 1);
    ClearIn(q, w, x - 1);
    OnesZero(x - 1);
    if x > 1 {
      OnesClear(x - 1);
      OnesZero(InvertLowestOne(x - 1));
      ClearIn(q, w, InvertLowestOne(x - 1));
    }
  }

  /** What is two and four below a multiple of eight. */
  lemma BelowEight(k: nat)
    requires k > 0
    ensures InvertLowestOne(8 * k - 2) == 8 * k - 4 && InvertLowestOne(8 * k - 4) == 8 * k - 8
    ensures Ones(8 * k - 2) >= 2 && (8 * k - 1) % 2 == 1 && (8 * k) % 2 == 0 && InvertLowestOne(8 * k) <= 8 * k - 8
  {
    hide InvertLowestOne, Ones;
    ClearTwo(2 * k - 1);
    ClearFour(k - 1);
    ClearEight(k);
    OnesClear(8 * k - 2);
    OnesZero(8 * k - 4);
    DivModUnique(8 * k - 1, 2, 4 * k - 1, 1);
    DivModUnique(8 * k, 2, 4 * k, 0);
  }

  /** Steps from a height whose last three bits are zero: one bit each. */
  lemma StepFromEight(q: nat, w: nat, t: nat, k: nat)
    requires Window(q, w) && q - w <= t < q && 0 < 8 * k < w
    ensures NextHeight(q + 8 * k, t) == q + InvertLowestOne(8 * k)
  {
    hide InvertLowestOne, Ones, Window, GetSkipHeight;
    WindowShape(q, w);
    BelowEight(k);
    SkipEven(q, w, 8 * k);
    SkipOdd(q, w, 8 * k - 1);
  }

  /** Steps from an odd height: two bits each, while there are two. */
  lemma StepFromOdd(q: nat, w: nat, t: nat, x: nat)
    requires Window(q, w) && q - w <= t < q && x < w && x % 2 == 1
    ensures Ones(x - 1) >= 2 ==> NextHeight(q + x, t) == q + InvertLowestOne(InvertLowestOne(x - 1)) + 1
    ensures Ones(x - 1) == 1 ==> NextHeight(q + x, t) == if t <= q - w + 1 then q - w + 1 else q + x - 1
    ensures x == 1 ==> NextHeight(q + x, t) == if q == w && t <= 1 then 1 else q
  {
    hide InvertLowestOne, Ones, Window, GetSkipHeight;
    WindowShape(q, w);
    SkipOdd(q, w, x);
    SkipEven(q, w, x - 1);
    OnesZero(x - 1);
    if x > 1 {
      OnesZero(InvertLowestOne(x - 1));
      OnesClear(x - 1);
    }
  }

  lemma AboveFour(k: nat)
    ensures InvertLowestOne(4 * k + 2) == 4 * k && (4 * k + 2) % 2 == 0 && (4 * k + 1) % 2 == 1
    ensures k > 0 ==> InvertLowestOne(4 * k) <= 4 * k - 4
  {
    hide InvertLowestOne;
    ClearTwo(k);
    DivModUnique(4 * k + 2, 2, 2 * k + 1, 0);
    DivModUnique(4 * k + 1, 2, 2 * k, 1);
    if k > 0 {
      InvertLowestOneClears(k);
      InvertLowestOneClears(2 * k);
      assert 4 * k == 2 * (2 * k);
    }
  }

  /** Steps from a height that ends in 10: to the odd height below, unless its skip goes too far. */
  lemma StepFromTwo(q: nat, w: nat, t: nat, k: nat)
    requires Window(q, w) && q - w <= t < q && 4 * k + 2 < w
    ensures Ones(4 * k) >= 2 ==> NextHeight(q + (4 * k + 2), t) == q + (4 * k + 1)
    ensures Ones(4 * k) == 1 ==> NextHeight(q + (4 * k + 2), t) == if t <= q - w + 1 then q + (4 * k + 1) else q + 4 * k
    ensures k == 0 ==> NextHeight(q + (4 * k + 2), t) == if q == w && t <= 1 then q + 1 else q
  {
    hide InvertLowestOne, Ones, Window, GetSkipHeight;
    WindowShape(q, w);
    AboveFour(k);
    SkipEven(q, w, 4 * k + 2);
    SkipOdd(q, w, 4 * k + 1);
    OnesZero(4 * k);
    if k > 0 {
      OnesClear(4 * k);
      OnesZero(InvertLowestOne(4 * k));
    }
  }

  lemma AboveEight(k: nat)
    ensures InvertLowestOne(8 * k + 4) == 8 * k && InvertLowestOne(8 * k + 2) == 8 * k
    ensures Ones(8 * k + 2) == Ones(8 * k) + 1 && (8 * k + 4) % 2 == 0 && (8 * k + 3) % 2 == 1
    ensures k > 0 ==> InvertLowestOne(8 * k) <= 8 * k - 8
  {
    hide InvertLowestOne, Ones;
    ClearTwo(2 * k);
    ClearFour(k);
    assert 8 * k + 2 == 4 * (2 * k) + 2;
    DivModUnique(8 * k + 4, 2, 4 * k + 2, 0);
    DivModUnique(8 * k + 3, 2, 4 * k + 1, 1);
    OnesClear(8 * k + 2);
    if k > 0 {
      ClearEight(k);
    }
  }

  /** The same for one that ends in 100. */
  lemma StepFromFour(q: nat, w: nat, t: nat, k: nat)
    requires Window(q, w) && q - w <= t < q && 8 * k + 4 < w
    ensures k > 0 ==> NextHeight(q + (8 * k + 4), t) == q + (8 * k + 3)
    ensures k == 0 ==> NextHeight(q + (8 * k + 4), t) == if t <= q - w + 1 then q + 3 else q
  {
    hide InvertLowestOne, Ones, Window, GetSkipHeight;
    WindowShape(q, w);
    AboveEight(k);
    OnesZero(8 * k);
    SkipEven(q, w, 8 * k + 4);
    SkipOdd(q, w, 8 * k + 3);
  }

  /** The step from q itself. */
  lemma StepFromBase(q: nat, w: nat, t: nat)
    requires Window(q, w) && q - w <= t < q
    ensures NextHeight(q, t) == if t == q - w then t else q - 1
  {
    hide InvertLowestOne, Window, GetSkipHeight;
    WindowShape(q, w);
    SkipEven(q, w, 0);
  }

  // ------------------------------------------------------------------
  // From above q down to q
  // ------------------------------------------------------------------

  lemma {:induction false} StepsAtMost(h: nat, t: nat)
    ensures Steps(h, t) <= if h <= t then 0 else h - t
    decreases h
  {
    hide GetSkipHeight;
    if h > t {
      StepsAtMost(NextHeight(h, t), t);
    }
  }

  /** How many steps it takes from q + x to q: one for each bit of a multiple of eight, one for two bits of an odd number. */
  function Clearing(x: nat): nat {
    if x == 0 then 0
    else if x % 8 == 0 then Ones(x)
    else if x % 2 == 1 then (Ones(x - 1) + 1) / 2 + 1
    else if x == 2 || x == 4 then 1
    else if x % 4 == 2 then (Ones(x - 2) + 1) / 2 + 2
    else (Ones(x - 4) + 2) / 2 + 2
  }

  lemma ClearingEight(k: nat)
    requires k > 0
    ensures InvertLowestOne(8 * k) < 8 * k
    ensures Clearing(8 * k) == Clearing(InvertLowestOne(8 * k)) + 1
  {
    hide InvertLowestOne, Ones;
    ClearEight(k);
    OnesClear(8 * k);
    OnesZero(InvertLowestOne(8 * k));
    DivModUnique(8 * k, 8, k, 0);
    DivModUnique(InvertLowestOne(8 * k), 8, InvertLowestOne(k), 0);
  }

  lemma BeforeOdd(x: nat)
    requires x % 2 == 1
    ensures (x - 1) % 2 == 0
  {
    DivModUnique(x - 1, 2, x / 2, 0);
  }

  lemma ClearingOfOdd(x: nat)
    requires x % 2 == 1
    ensures Clearing(x) == (Ones(x - 1) + 1) / 2 + 1
  {
    hide Ones;
    LastBits(x);
  }

  lemma ClearingOdd(x: nat)
    requires x % 2 == 1 && Ones(x - 1) >= 2
    ensures x > 1 && InvertLowestOne(InvertLowestOne(x - 1)) + 1 < x
    ensures Clearing(x) == Clearing(InvertLowestOne(InvertLowestOne(x - 1)) + 1) + 1
    ensures (InvertLowestOne(InvertLowestOne(x - 1)) + 1) % 2 == 1
  {
    hide InvertLowestOne, Ones;
    OnesZero(x - 1);
    OnesClear(x - 1);
    OnesZero(InvertLowestOne(x - 1));
    OnesClear(InvertLowestOne(x - 1));
    BeforeOdd(x);
    ClearEven(x - 1);
    ClearEven(InvertLowestOne(x - 1));
    var y := InvertLowestOne(InvertLowestOne(x - 1));
    DivModUnique(y + 1, 2, y / 2, 1);
    hide Clearing;
    ClearingOfOdd(x);
    ClearingOfOdd(y + 1);
  }

  lemma ClearEven(n: nat)
    requires n % 2 == 0
    ensures InvertLowestOne(n) % 2 == 0
  {
    hide InvertLowestOne;
    InvertLowestOneClears(n / 2);
    assert n == 2 * (n / 2);
  }

  /** A power of two is cleared by one step. */
  lemma {:induction false} ClearingPower(x: nat)
    requires x % 2 == 0 && Ones(x) == 1
    ensures x > 0 && Clearing(x) == 1
  {
    hide Ones, InvertLowestOne;
    OnesZero(x);
    if x % 8 != 0 {
      OnesClear(x);
      OnesZero(InvertLowestOne(x));
      ClearLow(x);
      LastBits(x);
      assert x == 2 || x == 4;
    }
  }

  lemma StepsNext(h: nat, t: nat)
    requires h > t
    ensures Steps(h, t) == 1 + Steps(NextHeight(h, t), t)
  {}

  /** From an odd height with at most one more bit, the skip to just above q - w ends the search if t is there. */
  lemma ShortCut(q: nat, w: nat, t: nat, x: nat)
    requires Window(q, w) && q - w <= t < q && x < w && x % 2 == 1 && t <= q - w + 1
    requires Ones(x - 1) == 1 || (x == 1 && q == w)
    ensures Steps(q + x, t) <= 2
  {
    hide InvertLowestOne, Ones, Window, GetSkipHeight, Steps, NextHeight;
    WindowShape(q, w);
    StepFromOdd(q, w, t, x);
    StepsNext(q + x, t);
    StepsAtMost(q - w + 1, t);
  }

  /** At most Clearing(x) steps lead down to q, or the search ends before. */
  lemma {:induction false} AboveBound(q: nat, w: nat, t: nat, x: nat, bound: nat)
    requires Window(q, w) && q - w <= t < q && x < w && Steps(q, t) <= bound && 3 <= bound
    ensures Steps(q + x, t) <= Clearing(x) + bound
    decreases x
  {
    hide InvertLowestOne, Ones, Window, GetSkipHeight, Steps, NextHeight, Clearing;
    LastBits(x);
    if x > 0 {
      if x % 8 == 0 {
        assert x == 8 * (x / 8);
        AboveEights(q, w, t, x / 8, bound);
      } else if x % 2 == 1 {
        AboveOdd(q, w, t, x, bound);
      } else if x % 4 == 2 {
        assert x == 4 * (x / 4) + 2;
        AboveTwos(q, w, t, x / 4, bound);
      } else {
        assert x == 8 * (x / 8) + 4;
        AboveFours(q, w, t, x / 8, bound);
      }
    }
  }

  lemma {:induction false} AboveEights(q: nat, w: nat, t: nat, k: nat, bound: nat)
    requires Window(q, w) && q - w <= t < q && 0 < 8 * k < w && Steps(q, t) <= bound && 3 <= bound
    ensures Steps(q + 8 * k, t) <= Clearing(8 * k) + bound
    decreases 8 * k, 0
  {
    hide InvertLowestOne, Ones, Window, GetSkipHeight, Steps, NextHeight, Clearing;
    StepsNext(q + 8 * k, t);
    StepFromEight(q, w, t, k);
    ClearingEight(k);
    AboveBound(q, w, t, InvertLowestOne(8 * k), bound);
  }

  lemma {:induction false} AboveOdd(q: nat, w: nat, t: nat, x: nat, bound: nat)
    requires Window(q, w) && q - w <= t < q && x < w && x % 2 == 1 && Steps(q, t) <= bound && 3 <= bound
    ensures Steps(q + x, t) <= Clearing(x) + bound
    decreases x, 0
  {
    hide InvertLowestOne, Ones, Window, GetSkipHeight, Steps, NextHeight, Clearing;
    WindowShape(q, w);
    StepsNext(q + x, t);
    StepFromOdd(q, w, t, x);
    OnesZero(x - 1);
    ClearingOfOdd(x);
    if Ones(x - 1) >= 2 {
      ClearingOdd(x);
      AboveBound(q, w, t, InvertLowestOne(InvertLowestOne(x - 1)) + 1, bound);
    } else if t <= q - w + 1 && (Ones(x - 1) == 1 || q == w) {
      ShortCut(q, w, t, x);
    } else if Ones(x - 1) == 1 {
      BeforeOdd(x);
      ClearingPower(x - 1);
      AboveBound(q, w, t, x - 1, bound);
    }
  }

  lemma {:induction false} AboveTwos(q: nat, w: nat, t: nat, k: nat, bound: nat)
    requires Window(q, w) && q - w <= t < q && 4 * k + 2 < w && Steps(q, t) <= bound && 3 <= bound
    ensures Steps(q + (4 * k + 2), t) <= Clearing(4 * k + 2) + bound
    decreases 4 * k + 2, 0
  {
    hide InvertLowestOne, Ones, Window, GetSkipHeight, Steps, NextHeight;
    WindowShape(q, w);
    StepsNext(q + (4 * k + 2), t);
    StepFromTwo(q, w, t, k);
    OnesZero(4 * k);
    DivModUnique(4 * k + 1, 2, 2 * k, 1);
    DivModUnique(4 * k, 2, 2 * k, 0);
    DivModUnique(4 * k + 2, 4, k, 2);
    LastBits(4 * k + 1);
    LastBits(4 * k + 2);
    if Ones(4 * k) >= 2 {
      AboveBound(q, w, t, 4 * k + 1, bound);
    } else if t <= q - w + 1 && (Ones(4 * k) == 1 || q == w) {
      ShortCut(q, w, t, 4 * k + 1);
    } else if k > 0 {
      ClearingPower(4 * k);
      AboveBound(q, w, t, 4 * k, bound);
    }
  }

  lemma {:induction false} AboveFours(q: nat, w: nat, t: nat, k: nat, bound: nat)
    requires Window(q, w) && q - w <= t < q && 8 * k + 4 < w && Steps(q, t) <= bound && 3 <= bound
    ensures Steps(q + (8 * k + 4), t) <= Clearing(8 * k + 4) + bound
    decreases 8 * k + 4, 0
  {
    hide InvertLowestOne, Ones, Window, GetSkipHeight, Steps, NextHeight;
    WindowShape(q, w);
    StepsNext(q + (8 * k + 4), t);
    StepFromFour(q, w, t, k);
    AboveEight(k);
    OnesZero(8 * k);
    DivModUnique(8 * k + 4, 8, k, 4);
    DivModUnique(8 * k + 3, 8, k, 3);
    LastBits(8 * k + 4);
    LastBits(8 * k + 3);
    if k > 0 {
      AboveBound(q, w, t, 8 * k + 3, bound);
    } else if t <= q - w + 1 {
      ShortCut(q, w, t, 3);
    }
  }

  lemma {:induction false} OnesScaled(x: nat, k: nat)
    ensures Ones(x * Pow(2, k)) == Ones(x)
  {
    if k > 0 {
      OnesScaled(x, k - 1);
      Doubled(x, Pow(2, k - 1));
      OnesDouble(x * Pow(2, k - 1));
    }
  }

  /** A multiple of 2^k below 2^d has at most d - k one bits. */
  lemma OnesOfMultiple(x: nat, k: nat, d: nat)
    requires k <= d && x * Pow(2, k) < Pow(2, d)
    ensures Ones(x * Pow(2, k)) <= d - k
  {
    hide Ones, Pow;
    OnesScaled(x, k);
    PowAdd(2, d - k, k);
    var p, q := Pow(2, d - k), Pow(2, k);
    if x >= p {
      MulMono(p, x, q);
    }
    OnesBelow(x, d - k);
  }

  function MostClearing(d: nat): nat
    requires d >= 3
  {
    if d - 3 > (d - 1) / 2 + 2 then d - 3 else (d - 1) / 2 + 2
  }

  /** The four forms of a number, and what is known of its one bits. */
  lemma ClearingAtMost(x: nat, d: nat)
    requires d >= 3 && x < Pow(2, d)
    ensures Clearing(x) <= MostClearing(d)
  {
    hide Ones, Pow;
    OnesOfForms(x, d);
    LastBits(x);
  }

  lemma OnesOfForms(x: nat, d: nat)
    requires d >= 3 && x < Pow(2, d)
    ensures x % 8 == 0 ==> Ones(x) <= d - 3
    ensures x % 2 == 1 ==> Ones(x - 1) <= d - 1
    ensures x % 4 == 2 ==> Ones(x - 2) <= d - 2
    ensures x % 8 == 4 ==> Ones(x - 4) <= d - 3
  {
    hide Ones, Pow;
    LastBits(x);
    if x % 2 == 1 {
      OnesOfTwos(x / 2, d);
    } else if x % 4 == 2 {
      OnesOfFours(x / 4, d);
    } else {
      OnesOfEights(x / 8, d);
    }
  }

  lemma OnesOfTwos(k: nat, d: nat)
    requires d >= 1 && 2 * k < Pow(2, d)
    ensures Ones(2 * k) <= d - 1
  {
    OneIs();
    hide Ones, Pow;
    assert k * 2 == 2 * k;
    OnesOfMultiple(k, 1, d);
  }

  lemma OnesOfFours(k: nat, d: nat)
    requires d >= 2 && 4 * k < Pow(2, d)
    ensures Ones(4 * k) <= d - 2
  {
    assert Pow(2, 2) == 4;
    hide Ones, Pow;
    assert k * 4 == 4 * k;
    OnesOfMultiple(k, 2, d);
  }

  lemma OnesOfEights(k: nat, d: nat)
    requires d >= 3 && 8 * k < Pow(2, d)
    ensures Ones(8 * k) <= d - 3
  {
    EightIs();
    hide Ones, Pow;
    assert k * 8 == 8 * k;
    OnesOfMultiple(k, 3, d);
  }

  // ------------------------------------------------------------------
  // Inside a block of 2^d heights
  // ------------------------------------------------------------------

  /** The steps from the last height of a block of 2^d to any other. */
  function FromTop(d: nat): nat
    requires d >= 3
  {
    if d == 3 then 4 else FromTop(d - 1) + (d - 1) / 2 + 2
  }

  /** Blocks of eight, by cases. */
  lemma SmallBlock(b: nat, t: nat)
    requires 8 * b <= t < 8 * b + 8
    ensures Steps(8 * b + 7, t) <= 4
  {
    StepsAtMost(8 * b + 7, t);
    if t < 8 * b + 3 {
      SmallSkips(b);
      hide GetSkipHeight, Steps;
      StepsNext(8 * b + 7, t);
      StepsAtMost(8 * b + 1, t);
      StepsAtMost(8 * b + 4, t);
      if t == 8 * b + 2 {
        StepsNext(8 * b + 6, t);
      }
    }
  }

  lemma SmallSkips(b: nat)
    ensures GetSkipHeight(8 * b + 7) == 8 * b + 1 && GetSkipHeight(8 * b + 6) == 8 * b + 4 && GetSkipHeight(8 * b + 5) <= 8 * b + 1
  {
    hide InvertLowestOne, GetSkipHeight, Ones;
    AboveFour(2 * b + 1);
    AboveEight(b);
    assert 8 * b + 6 == 4 * (2 * b + 1) + 2;
    DivModUnique(8 * b + 7, 2, 4 * b + 3, 1);
    DivModUnique(8 * b + 6, 2, 4 * b + 3, 0);
    DivModUnique(8 * b + 5, 2, 4 * b + 2, 1);
    OddSkip(8 * b + 7);
    EvenSkip(8 * b + 6);
    OddSkip(8 * b + 5);
  }

  /** A block and its halves. */
  lemma Halves(b: nat, d: nat)
    requires d > 0
    ensures Pow(2, d) == Pow(2, d - 1) + Pow(2, d - 1)
    ensures b * Pow(2, d) == 2 * b * Pow(2, d - 1) && b * Pow(2, d) + Pow(2, d - 1) == (2 * b + 1) * Pow(2, d - 1)
  {
    HalvesOf(b, Pow(2, d - 1));
  }

  lemma HalvesOf(b: nat, p: nat)
    ensures b * (2 * p) == 2 * b * p && b * (2 * p) + p == (2 * b + 1) * p
  {}

  lemma {:induction false} OnesAll(d: nat)
    ensures Pow(2, d) >= 1 && Ones(Pow(2, d) - 1) == d
  {
    if d > 0 {
      OnesAll(d - 1);
      OnesDouble(Pow(2, d - 1) - 1);
    }
  }

  lemma OneLess(p: nat, q: nat)
    ensures (p + 1) * q == p * q + q
  {}

  /** All ones from bit k up to bit d. */
  lemma OnesFrom(k: nat, d: nat)
    requires k <= d
    ensures Pow(2, d) >= Pow(2, k) && Ones(Pow(2, d) - Pow(2, k)) == d - k
  {
    hide Ones, Pow;
    OnesAll(d - k);
    PowAdd(2, d - k, k);
    var p, q := Pow(2, d - k), Pow(2, k);
    OneLess(p - 1, q);
    OnesScaled(p - 1, k);
  }

  lemma ClearingTop(d: nat)
    requires d >= 3
    ensures Pow(2, d) > 1 && Clearing(Pow(2, d) - 1) == d / 2 + 1
  {
    OneIs();
    hide Ones, Pow;
    FirstWindow(d);
    OnesFrom(1, d);
    var w := Pow(2, d);
    LastBits(w - 1);
  }

  lemma OneIs()
    ensures Pow(2, 1) == 2
  {}

  lemma FromTopNext(d: nat)
    requires d >= 3
    ensures FromTop(3) == 4 && FromTop(d + 1) == FromTop(d) + d / 2 + 2
  {}

  lemma {:induction false} TopOfBlock(b: nat, d: nat, lo: nat, t: nat)
    requires d >= 3 && lo == b * Pow(2, d) && lo <= t < lo + Pow(2, d)
    ensures Steps(lo + Pow(2, d) - 1, t) <= FromTop(d)
    decreases d
  {
    hide Steps, Clearing, Window, Pow, FromTop;
    if d == 3 {
      EightIs();
      FromTopNext(3);
      SmallBlock(b, t);
    } else {
      FromTopNext(d - 1);
      var w := Pow(2, d - 1);
      var q := lo + w;
      Halves(b, d);
      WindowAt(b, d - 1);
      if t >= q {
        TopOfBlock(2 * b + 1, d - 1, q, t);
      } else {
        TopOfBlock(2 * b, d - 1, lo, t);
        BaseBound(q, w, t, FromTop(d - 1));
        FromTopAtLeast(d - 1);
        ClearingTop(d - 1);
        AboveBound(q, w, t, w - 1, 1 + FromTop(d - 1));
      }
    }
  }

  lemma BaseBound(q: nat, w: nat, t: nat, bound: nat)
    requires Window(q, w) && q - w <= t < q && Steps(q - 1, t) <= bound
    ensures Steps(q, t) <= 1 + bound
  {
    hide Window, GetSkipHeight, NextHeight;
    WindowShape(q, w);
    StepFromBase(q, w, t);
    StepsNext(q, t);
    StepsAtMost(t, t);
  }

  /** The steps between any two heights of a block of 2^k. */
  function Most(k: nat): nat
    requires k >= 3
  {
    if k == 3 then 7
    else
      var across := MostClearing(k - 1) + 1 + FromTop(k - 1);
      if across > Most(k - 1) then across else Most(k - 1)
  }

  lemma {:induction false} InBlock(b: nat, k: nat, lo: nat, h: nat, t: nat)
    requires k >= 3 && lo == b * Pow(2, k) && lo <= t < h < lo + Pow(2, k)
    ensures Steps(h, t) <= Most(k)
    decreases k
  {
    hide Steps, Clearing, Window, Pow;
    if k == 3 {
      EightIs();
      StepsAtMost(h, t);
    } else {
      var w := Pow(2, k - 1);
      var q := lo + w;
      Halves(b, k);
      WindowAt(b, k - 1);
      if t >= q {
        InBlock(2 * b + 1, k - 1, q, h, t);
      } else if h < q {
        InBlock(2 * b, k - 1, lo, h, t);
      } else {
        TopOfBlock(2 * b, k - 1, lo, t);
        BaseBound(q, w, t, FromTop(k - 1));
        FromTopAtLeast(k - 1);
        AboveBound(q, w, t, h - q, 1 + FromTop(k - 1));
        ClearingAtMost(h - q, k - 1);
      }
    }
  }

  lemma {:induction false} FromTopAtLeast(d: nat)
    requires d >= 3
    ensures FromTop(d) >= 4
  {
    if d > 3 {
      FromTopAtLeast(d - 1);
    }
  }

  // ------------------------------------------------------------------
  // The bound, and that it is reached
  // ------------------------------------------------------------------

  /** 110 for k = 18. */
  function MaxSteps(k: nat): int {
    k * k / 4 + 2 * k - 7
  }

  lemma Squares(m: nat)
    ensures (2 * m) * (2 * m) == m * m * 4
    ensures (2 * m + 1) * (2 * m + 1) == (m * m + m) * 4 + 1
    ensures (2 * m + 2) * (2 * m + 2) == (m * m + 2 * m + 1) * 4
  {}

  lemma Quarter(d: nat)
    ensures (d + 1) * (d + 1) / 4 == d * d / 4 + (d + 1) / 2
  {
    var m, r := d / 2, d % 2;
    Squares(m);
    DivModUnique((2 * m + 1) * (2 * m + 1), 4, m * m + m, 1);
    if r == 0 {
      assert d == 2 * m;
      DivModUnique((2 * m) * (2 * m), 4, m * m, 0);
    } else {
      assert d == 2 * m + 1;
      DivModUnique((2 * m + 2) * (2 * m + 2), 4, m * m + 2 * m + 1, 0);
    }
  }

  lemma {:induction false} FromTopIs(d: nat)
    requires d >= 3
    ensures FromTop(d) == (d + 1) * (d + 1) / 4 + d - 3
  {
    if d > 3 {
      FromTopIs(d - 1);
      Quarter(d);
    }
  }

  lemma MostOfNine()
    ensures Most(9) == 31
  {
    assert Most(4) == 8 && FromTop(4) == 7;
    assert Most(5) == 11 && FromTop(5) == 11;
    assert Most(6) == 16 && FromTop(6) == 15;
    assert Most(7) == 20 && FromTop(7) == 20;
    assert Most(8) == 26 && FromTop(8) == 25;
  }

  lemma {:induction false} MostAtMost(k: nat)
    requires k >= 9
    ensures Most(k) <= MaxSteps(k)
  {
    if k == 9 {
      MostOfNine();
    } else {
      MostAtMost(k - 1);
      FromTopIs(k - 1);
      Quarter(k - 1);
    }
  }

  /** From any height below 2^k to any other below it, the search takes at most k * k / 4 + 2 * k - 7 steps. */
  lemma StepsBound(k: nat, h: nat, t: nat)
    requires k >= 9 && h < Pow(2, k)
    ensures Steps(h, t) <= MaxSteps(k)
  {
    hide Pow, Most, Steps;
    StepsAtMost(h, t);
    MostAtMost(k);
    if t < h {
      InBlock(0, k, 0, h, t);
    }
  }

  /** As promised: at most 110 steps below height 2^18. */
  lemma PromisedSteps(h: nat, t: nat)
    requires h < 0x4_0000
    ensures Steps(h, t) <= 110
  {
    assert Pow(2, 9) == 512;
    PowAdd(2, 9, 9);
    hide Pow, Steps;
    StepsBound(18, h, t);
  }

  /** Without a short cut the steps down to q are exact, from an odd height or a multiple of eight. */
  lemma {:induction false} AboveExact(q: nat, w: nat, t: nat, x: nat)
    requires Window(q, w) && q - w + 2 <= t < q && x < w && (x % 2 == 1 || x % 8 == 0)
    ensures Steps(q + x, t) == Clearing(x) + Steps(q, t)
    decreases x
  {
    hide InvertLowestOne, Ones, Window, Steps, NextHeight, Clearing;
    if x == 0 {
      ClearingNone();
    } else if x % 8 == 0 {
      assert x == 8 * (x / 8);
      EightsExact(q, w, t, x / 8);
    } else {
      OddExact(q, w, t, x);
    }
  }

  lemma ClearingNone()
    ensures Clearing(0) == 0
  {}

  lemma {:induction false} EightsExact(q: nat, w: nat, t: nat, k: nat)
    requires Window(q, w) && q - w + 2 <= t < q && 0 < 8 * k < w
    ensures Steps(q + 8 * k, t) == Clearing(8 * k) + Steps(q, t)
    decreases 8 * k, 0
  {
    hide InvertLowestOne, Ones, Window, GetSkipHeight, Steps, NextHeight, Clearing;
    StepsNext(q + 8 * k, t);
    StepFromEight(q, w, t, k);
    ClearingEight(k);
    ClearEight(k);
    DivModUnique(InvertLowestOne(8 * k), 8, InvertLowestOne(k), 0);
    AboveExact(q, w, t, InvertLowestOne(8 * k));
  }

  lemma {:induction false} OddExact(q: nat, w: nat, t: nat, x: nat)
    requires Window(q, w) && q - w + 2 <= t < q && x < w && x % 2 == 1
    ensures Steps(q + x, t) == Clearing(x) + Steps(q, t)
    decreases x, 0
  {
    hide InvertLowestOne, Ones, Window, GetSkipHeight, Steps, NextHeight, Clearing;
    WindowShape(q, w);
    StepsNext(q + x, t);
    StepFromOdd(q, w, t, x);
    OnesZero(x - 1);
    ClearingOfOdd(x);
    if Ones(x - 1) >= 2 {
      ClearingOdd(x);
      AboveExact(q, w, t, InvertLowestOne(InvertLowestOne(x - 1)) + 1);
    } else if Ones(x - 1) == 1 {
      BeforeOdd(x);
      PowerExact(q, w, t, x - 1);
    }
  }

  lemma PowerExact(q: nat, w: nat, t: nat, x: nat)
    requires Window(q, w) && q - w + 2 <= t < q && x < w && x % 2 == 0 && Ones(x) == 1
    ensures Steps(q + x, t) == 1 + Steps(q, t)
  {
    hide InvertLowestOne, Ones, Window, GetSkipHeight, Steps, NextHeight;
    WindowShape(q, w);
    OnesZero(x);
    OnesClear(x);
    OnesZero(InvertLowestOne(x));
    ClearLow(x);
    LastBits(x);
    StepsNext(q + x, t);
    if x % 8 == 0 {
      assert x == 8 * (x / 8);
      StepFromEight(q, w, t, x / 8);
    } else if x == 2 {
      StepFromTwo(q, w, t, 0);
    } else {
      StepFromFour(q, w, t, 0);
    }
  }

  /** From the last height below 2^d to height 2. */
  lemma {:induction false} TopToTwo(d: nat)
    requires d >= 3
    ensures Pow(2, d) >= 8 && Steps(Pow(2, d) - 1, 2) == FromTop(d)
  {
    hide Pow, Window, Steps, Clearing;
    FirstWindow(d);
    if d == 3 {
      SevenToTwo();
    } else {
      TopToTwo(d - 1);
      FirstWindow(d - 1);
      ClearingTop(d - 1);
      PowNext(2, d - 1);
      var w := Pow(2, d - 1);
      AboveExact(w, w, 2, w - 1);
      BaseToTwo(w);
    }
  }

  lemma FirstWindow(d: nat)
    requires d >= 3
    ensures var w := Pow(2, d); w >= 8 && Window(w, w) && w % 8 == 0 && (w - 8) % 8 == 0 && (w - 1) % 2 == 1
  {
    hide Pow, Window;
    WindowAt(0, d);
    var w := Pow(2, d);
    assert (2 * 0 + 1) * w == w;
    WindowShape(w, w);
    BesideEight(w);
  }

  lemma BaseToTwo(w: nat)
    requires Window(w, w)
    ensures Steps(w, 2) == 1 + Steps(w - 1, 2)
  {
    hide Window, GetSkipHeight, NextHeight;
    WindowShape(w, w);
    StepFromBase(w, w, 2);
    StepsNext(w, 2);
  }

  lemma SevenToTwo()
    ensures Pow(2, 3) == 8 && Steps(7, 2) == 4
  {
    SmallSkips(0);
    hide GetSkipHeight;
    StepsNext(7, 2);
    StepsNext(6, 2);
    assert NextHeight(7, 2) == 6 && NextHeight(6, 2) == 4;
    FourToTwo();
  }

  lemma FourToTwo()
    ensures Steps(4, 2) == 2
  {
    hide InvertLowestOne;
    ClearLow(4);
    ClearLow(2);
    StepsNext(4, 2);
    StepsNext(3, 2);
  }

  /** The bound is reached for every k, so the steps are not logarithmic in the height but quadratic in its logarithm. */
  lemma BoundIsReached(k: nat)
    requires k >= 4
    ensures Pow(2, k) >= 16 && Steps(Pow(2, k) - 8, 2) == MaxSteps(k)
  {
    hide Pow, Window, Steps, Clearing, FromTop;
    var d := k - 1;
    FirstWindow(d);
    TopToTwo(d);
    FromTopIs(d);
    ClearingOfEights(d);
    PowNext(2, d);
    var w := Pow(2, d);
    AboveExact(w, w, 2, w - 8);
    BaseToTwo(w);
  }

  lemma ClearingOfEights(d: nat)
    requires d >= 3
    ensures Pow(2, d) >= 8 && Clearing(Pow(2, d) - 8) == d - 3
  {
    EightIs();
    hide Ones, Pow;
    FirstWindow(d);
    OnesFrom(3, d);
    OnesZero(Pow(2, d) - 8);
  }

  /** No multiple of the number of bits bounds the steps. */
  lemma NotLogarithmic(c: nat)
    ensures var k := 4 * c + 4; Pow(2, k) >= 16 && Steps(Pow(2, k) - 8, 2) > c * k
  {
    var k := 4 * c + 4;
    hide Pow, Steps;
    BoundIsReached(k);
    assert k * k == 4 * ((c + 1) * k);
    assert (c + 1) * k == c * k + k;
  }

  /** The search itself, on a chain with all skip pointers. */
  method FindAncestor(b: BlockIndex, height: int, ghost k: nat) returns (r: BlockIndex?, ghost steps: nat)
    requires b.Linked() && b.SkipsOk() && b.SkipsBuilt() && k >= 9 && b.nHeight < Pow(2, k)
    ensures r == if 0 <= height <= b.nHeight then Walk(b, b.nHeight - height) else null
    ensures 0 <= height <= b.nHeight ==> steps <= MaxSteps(k)
  {
    hide Pow, Steps, Walk;
    r, steps := b.GetAncestor(height);
    if 0 <= height <= b.nHeight {
      StepsBound(k, b.nHeight, height);
    }
  }
}
