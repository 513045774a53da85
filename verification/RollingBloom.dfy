/**
 * CRollingBloomFilter of src/bloom.cpp: a Bloom filter over two-bit cells, packed into pairs of 64-bit words,
 * in which each cell holds the number (1, 2 or 3) of the generation that last wrote it and a generation's
 * cells are wiped when its number comes round again.
 */
module RollingBloom {
  import opened Arith
  import opened Bits

  const WORDS: nat := 0x1_0000_0000_0000_0000

  /** A uint32_t and a uint64_t. */
  type Word32 = x: int | 0 <= x < 0x1_0000_0000
  type Word64 = x: int | 0 <= x < 0x1_0000_0000_0000_0000

  lemma WordSize()
    ensures Pow(2, 64) == WORDS
  {
    assert Pow(2, 8) == 256;
    PowAdd(2, 8, 8);
    PowAdd(2, 16, 16);
    PowAdd(2, 32, 32);
  }

  // Two-bit cells in pairs of words.

  /** The cell at bit b of a pair of words. */
  ghost function CellOf(lo: nat, hi: nat, b: nat): nat {
    (if Bit(lo, b) then 1 else 0) + (if Bit(hi, b) then 2 else 0)
  }

  /** 0 - v in 64 bits, for a bit v: all ones or all zeros. */
  function Mask(v: nat): nat { (0x1_0000_0000_0000_0000 - v) % 0x1_0000_0000_0000_0000 }

  lemma BitMask(v: nat, b: nat)
    requires v <= 1 && b < 64
    ensures Bit(Mask(v), b) == (v == 1)
  {
    WordSize();
    BitZero(b);
    BitNot(0, 64, b);
  }

  /** The mask that clears the cells holding generation g. */
  function WipeMask(lo: nat, hi: nat, g: nat): nat { Or(Xor(lo, Mask(g % 2)), Xor(hi, Mask(g / 2))) }

  lemma WipeCell(lo: nat, hi: nat, g: nat, b: nat)
    requires b < 64 && 1 <= g <= 3
    ensures var mask := WipeMask(lo, hi, g);
      CellOf(And(lo, mask), And(hi, mask), b) == if CellOf(lo, hi, b) == g then 0 else CellOf(lo, hi, b)
  {
    hide Bit, And, Or, Xor, Mask;
    BitMask(g % 2, b);
    BitMask(g / 2, b);
    BitXor(lo, Mask(g % 2), b);
    BitXor(hi, Mask(g / 2), b);
    BitOr(Xor(lo, Mask(g % 2)), Xor(hi, Mask(g / 2)), b);
    BitAnd(lo, WipeMask(lo, hi, g), b);
    BitAnd(hi, WipeMask(lo, hi, g), b);
  }

  /** Writing v into bit b of a word. */
  function Stored(x: nat, v: nat, b: nat): nat
    requires b < 64
  {
    BitFits(b);
    Or(And(x, Not(Pow(2, b), 64)), v * Pow(2, b))
  }

  lemma BitFits(b: nat)
    requires b < 64
    ensures Pow(2, b) < Pow(2, 64) == WORDS
  {
    hide Pow;
    WordSize();
    PowMono(2, b + 1, 64);
    PowNext(2, b);
    PowPositive(2, b);
  }

  lemma StoredBit(x: nat, v: nat, b: nat, c: nat)
    requires b < 64 && c < 64 && v <= 1
    ensures Bit(Stored(x, v, b), c) == if b == c then v == 1 else Bit(x, c)
  {
    hide Bit, And, Or, Pow, Not;
    BitFits(b);
    BitPower(b, c);
    BitZero(c);
    BitNot(Pow(2, b), 64, c);
    BitAnd(x, Not(Pow(2, b), 64), c);
    BitOr(And(x, Not(Pow(2, b), 64)), v * Pow(2, b), c);
    if v == 0 {
      assert v * Pow(2, b) == 0;
    }
  }

  lemma StoredRange(x: nat, v: nat, b: nat)
    requires b < 64 && x < WORDS && v <= 1
    ensures Stored(x, v, b) < WORDS
  {
    hide And, Or, Pow, Not;
    BitFits(b);
    AndBelow(x, Not(Pow(2, b), 64));
    MulMono(v, 1, Pow(2, b));
    OrRange(And(x, Not(Pow(2, b), 64)), v * Pow(2, b), 64);
  }

  lemma StoredCell(lo: nat, hi: nat, g: nat, b: nat, c: nat)
    requires b < 64 && c < 64 && 1 <= g <= 3
    ensures CellOf(Stored(lo, g % 2, b), Stored(hi, g / 2, b), c) == if b == c then g else CellOf(lo, hi, c)
  {
    hide Bit, Stored;
    StoredBit(lo, g % 2, b, c);
    StoredBit(hi, g / 2, b, c);
  }

  /** ((lo | hi) >> b) & 1. */
  function Probe(lo: nat, hi: nat, b: nat): nat {
    PowPositive(2, b);
    And(Or(lo, hi) / Pow(2, b), 1)
  }

  lemma {:induction false} BitShifted(x: nat, b: nat)
    ensures Pow(2, b) > 0 && Bit(x, b) == (x / Pow(2, b) % 2 == 1)
    decreases b
  {
    PowPositive(2, b);
    if b > 0 {
      BitShifted(x / 2, b - 1);
      DivTwice(x, 2, Pow(2, b - 1));
    }
  }

  lemma ProbeCell(lo: nat, hi: nat, b: nat)
    ensures Probe(lo, hi, b) != 0 <==> CellOf(lo, hi, b) != 0
  {
    BitOr(lo, hi, b);
    BitShifted(Or(lo, hi), b);
    hide Bit, Or, Pow;
    var x := Or(lo, hi) / Pow(2, b);
    assert And(x, 1) == x % 2;
  }

  /** A position of the filter: a pair of words and a bit. */
  datatype Position = Position(pair: nat, bit: nat)

  ghost predicate InRange(p: Position, words: nat) { 2 * p.pair + 1 < words && p.bit < 64 }

  ghost function Cell(s: seq<Word64>, p: Position): nat
    requires InRange(p, |s|)
  {
    CellOf(s[2 * p.pair], s[2 * p.pair + 1], p.bit)
  }

  /** FastMod: a multiplication and a shift in place of a remainder; the result is in range. */
  function FastMod(x: nat, n: nat): (r: nat)
    requires x < 0x1_0000_0000 && n > 0
    ensures r < n
  {
    ScaledDown(x, n);
    x * n / 0x1_0000_0000
  }

  /** The least x that FastMod sends to r or beyond. */
  function SpreadStart(r: nat, n: nat): nat
    requires n > 0
  {
    (r * 0x1_0000_0000 + n - 1) / n
  }

  /** The 32-bit hashes that FastMod sends to r form an interval, and the intervals for all r have the same length but
      for at most one. */
  lemma FastModSpread(x: nat, n: nat, r: nat)
    requires x < 0x1_0000_0000 && n > 0
    ensures FastMod(x, n) == r <==> SpreadStart(r, n) <= x < SpreadStart(r + 1, n)
    ensures 0x1_0000_0000 / n <= SpreadStart(r + 1, n) - SpreadStart(r, n) <= 0x1_0000_0000 / n + 1
  {
    AtLeastCeiling(x, n, r * 0x1_0000_0000);
    AtLeastCeiling(x, n, (r + 1) * 0x1_0000_0000);
    DivBounds(x * n, 0x1_0000_0000, r);
    DivBounds(x * n, 0x1_0000_0000, r + 1);
    QuotientStep(r * 0x1_0000_0000 + n - 1, 0x1_0000_0000, n);
  }

  lemma AtLeastCeiling(x: nat, n: nat, y: nat)
    requires n > 0
    ensures x * n < y <==> x < (y + n - 1) / n
  {
    DivBounds(y + n - 1, n, x + 1);
    assert (x + 1) * n == x * n + n;
  }

  lemma QuotientStep(a: nat, w: nat, n: nat)
    requires n > 0
    ensures w / n <= (a + w) / n - a / n <= w / n + 1
  {
    var q, r, k, t := a / n, a % n, w / n, w % n;
    SumOfMultiples(q, k, n, r + t);
    if r + t < n {
      DivModUnique(a + w, n, q + k, r + t);
    } else {
      DivModUnique(a + w, n, q + k + 1, r + t - n);
    }
  }

  lemma SumOfMultiples(q: nat, k: nat, n: nat, r: nat)
    ensures q * n + k * n + r == (q + k) * n + r == (q + k + 1) * n + (r - n)
  {
  }

  lemma ScaledDown(x: nat, n: nat)
    requires x < 0x1_0000_0000 && n > 0
    ensures x * n / 0x1_0000_0000 < n
  {
    MulBelow(x, 0x1_0000_0000, n);
  }

  // What the cells show of a history of inserts.

  /** The filter's parameters; hash is RollingBloomHash and words is data.size(). */
  datatype Config<!Key> =
    Config(hash: (nat, nat, Key) -> Word32, funcs: nat, tweak: nat, words: nat, perGeneration: nat)
  {
    ghost predicate Valid() { words > 0 && words % 2 == 0 && perGeneration > 0 }

    /** The position of key k under hash function i. */
    function At(k: Key, i: nat): (p: Position)
      requires words > 0 && words % 2 == 0
      ensures InRange(p, words)
    {
      hide FastMod;
      var h: nat := hash(i, tweak, k);
      Position(FastMod(h, words) / 2, h % 64)
    }

    /** One of the first n hash functions sends k to p. */
    ghost predicate TouchesBy(k: Key, p: Position, n: nat)
      requires words > 0 && words % 2 == 0
    {
      exists i: nat :: i < n && At(k, i) == p
    }

    ghost predicate Touches(k: Key, p: Position)
      requires words > 0 && words % 2 == 0
    {
      TouchesBy(k, p, funcs)
    }

    /** The generation, counted from 1, that last wrote a position; 0 if none did. */
    ghost function LastHit(history: seq<Key>, p: Position): nat
      requires Valid()
    {
      if history == [] then 0
      else if Touches(history[|history| - 1], p) then 1 + (|history| - 1) / perGeneration
      else LastHit(history[..|history| - 1], p)
    }

    /** Some insert of a generation after `cutoff` wrote the position. */
    ghost predicate HitSince(history: seq<Key>, p: Position, cutoff: nat)
      requires Valid()
    {
      exists j :: 0 <= j < |history| && 1 + j / perGeneration > cutoff && Touches(history[j], p)
    }

    lemma {:induction false} LastHitSince(history: seq<Key>, p: Position, cutoff: nat)
      requires Valid()
      ensures LastHit(history, p) > cutoff <==> HitSince(history, p, cutoff)
      ensures LastHit(history, p) <= if history == [] then 0 else 1 + (|history| - 1) / perGeneration
    {
      hide Touches, At;
      if history != [] {
        var n := |history| - 1;
        var rest := history[..n];
        LastHitSince(rest, p, cutoff);
        if n > 0 { DivMono(n - 1, n, perGeneration); }
        if Touches(history[n], p) {
          if HitSince(history, p, cutoff) {
            var j :| 0 <= j < |history| && 1 + j / perGeneration > cutoff && Touches(history[j], p);
            DivMono(j, n, perGeneration);
          }
        } else if HitSince(history, p, cutoff) {
          var j :| 0 <= j < |history| && 1 + j / perGeneration > cutoff && Touches(history[j], p);
          assert rest[j] == history[j];
        }
      }
    }
  }

  /** What a cell holds: the generation number, modulo 3, unless it was wiped since. */
  ghost function Shown(stamp: nat, current: nat): nat {
    if stamp == 0 || stamp + 3 <= current then 0 else (stamp - 1) % 3 + 1
  }

  /** Advancing the generation and wiping the cells with its number keeps what the cells show. */
  lemma WipeShown(stamp: nat, current: nat)
    requires stamp <= current
    ensures Shown(stamp, current + 1) == if Shown(stamp, current) == current % 3 + 1 then 0 else Shown(stamp, current)
  {}

  /** Every generation but the last is full. */
  ghost predicate Counted(inserts: nat, generations: nat, thisGeneration: nat, perGeneration: nat) {
    && generations > 0 && thisGeneration <= perGeneration
    && inserts == (generations - 1) * perGeneration + thisGeneration
  }

  /** Each cell holds the generation that last wrote it, while that is one of the last three. */
  ghost predicate Shows<Key(!new)>(c: Config<Key>, s: seq<Word64>, history: seq<Key>, current: nat)
    requires c.Valid() && |s| == c.words
  {
    forall p :: InRange(p, |s|) ==> Cell(s, p) == Shown(c.LastHit(history, p), current)
  }

  /** The cells that held generation g are empty, the others as they were. */
  ghost predicate IsWiped(was: seq<Word64>, now: seq<Word64>, g: nat) {
    |was| == |now| && forall p :: InRange(p, |was|) ==> Cell(now, p) == if Cell(was, p) == g then 0 else Cell(was, p)
  }

  /** The loop over data that clears generation g, one pair of words at a time. */
  method Wipe(data: array<Word64>, g: nat)
    requires data.Length % 2 == 0 && 1 <= g <= 3
    modifies data
    ensures IsWiped(old(data[..]), data[..], g)
  {
    hide CellOf, WipeMask, And;
    ghost var was := data[..];
    var p := 0;
    while p < data.Length
      invariant 0 <= p <= data.Length && p % 2 == 0
      invariant forall i :: p <= i < data.Length ==> data[i] == was[i]
      invariant forall q :: InRange(q, data.Length) && 2 * q.pair < p ==>
        CellOf(data[2 * q.pair], data[2 * q.pair + 1], q.bit) == if Cell(was, q) == g then 0 else Cell(was, q)
    {
      var p1, p2 := data[p], data[p + 1];
      var mask := WipeMask(p1, p2, g);
      AndBelow(p1, mask);
      AndBelow(p2, mask);
      data[p] := And(p1, mask);
      data[p + 1] := And(p2, mask);
      forall q | InRange(q, data.Length) && 2 * q.pair == p
        ensures CellOf(data[2 * q.pair], data[2 * q.pair + 1], q.bit) == if Cell(was, q) == g then 0 else Cell(was, q)
      {
        WipeCell(p1, p2, g, q.bit);
      }
      p := p + 2;
    }
  }

  ghost predicate IsWritten(was: seq<Word64>, now: seq<Word64>, p: Position, g: nat) {
    |was| == |now| && forall q :: InRange(q, |was|) ==> Cell(now, q) == if q == p then g else Cell(was, q)
  }

  /** The two assignments that set a cell: data[pos & ~1] and data[pos | 1]. */
  method Write(data: array<Word64>, p: Position, g: nat)
    requires InRange(p, data.Length) && 1 <= g <= 3
    modifies data
    ensures IsWritten(old(data[..]), data[..], p, g)
  {
    hide CellOf, Stored;
    ghost var was := data[..];
    var lo, hi := data[2 * p.pair], data[2 * p.pair + 1];
    StoredRange(lo, g % 2, p.bit);
    StoredRange(hi, g / 2, p.bit);
    data[2 * p.pair] := Stored(lo, g % 2, p.bit);
    data[2 * p.pair + 1] := Stored(hi, g / 2, p.bit);
    forall q | InRange(q, data.Length)
      ensures Cell(data[..], q) == if q == p then g else Cell(was, q)
    {
      if q.pair == p.pair {
        StoredCell(lo, hi, g, p.bit, q.bit);
      }
    }
  }

  lemma AfterWipe<Key(!new)>(c: Config<Key>, was: seq<Word64>, now: seq<Word64>, history: seq<Key>, current: nat)
    requires c.Valid() && |was| == c.words && current > 0 && Shows(c, was, history, current)
    requires |history| <= current * c.perGeneration && IsWiped(was, now, current % 3 + 1)
    ensures Shows(c, now, history, current + 1)
  {
    hide Cell, Config.Touches, Config.At;
    forall p | InRange(p, |now|) ensures Cell(now, p) == Shown(c.LastHit(history, p), current + 1) {
      c.LastHitSince(history, p, 0);
      if history != [] {
        DivBounds(|history| - 1, c.perGeneration, current);
      }
      WipeShown(c.LastHit(history, p), current);
    }
  }

  ghost predicate IsInserted<Key(!new)>(c: Config<Key>, was: seq<Word64>, now: seq<Word64>, k: Key, g: nat)
    requires c.Valid() && |was| == c.words
  {
    |now| == |was| && forall p :: InRange(p, |was|) ==> Cell(now, p) == if c.Touches(k, p) then g else Cell(was, p)
  }

  lemma AfterInsert<Key(!new)>(c: Config<Key>, was: seq<Word64>, now: seq<Word64>, history: seq<Key>, k: Key, current: nat)
    requires c.Valid() && |was| == c.words && current > 0 && Shows(c, was, history, current)
    requires (current - 1) * c.perGeneration <= |history| < current * c.perGeneration
    requires IsInserted(c, was, now, k, (current - 1) % 3 + 1)
    ensures Shows(c, now, history + [k], current)
  {
    hide Cell, Config.Touches, Config.At;
    assert (history + [k])[..|history|] == history;
    DivBounds(|history|, c.perGeneration, current);
    DivBounds(|history|, c.perGeneration, current - 1);
    assert |history| / c.perGeneration == current - 1;
  }

  /** How many of the latest inserts are certainly found: two full generations and the current one. */
  ghost function Window(perGeneration: nat, thisGeneration: nat): nat { 2 * perGeneration + thisGeneration }

  /** A position shows up exactly when one of the inserts in the window wrote it. */
  lemma ShownIff<Key(!new)>(c: Config<Key>, history: seq<Key>, p: Position, current: nat, thisGeneration: nat)
    requires c.Valid() && Counted(|history|, current, thisGeneration, c.perGeneration)
    ensures Shown(c.LastHit(history, p), current) != 0 <==>
      exists j :: 0 <= j < |history| && |history| - j <= Window(c.perGeneration, thisGeneration) && c.Touches(history[j], p)
  {
    hide Config.Touches, Config.At;
    var cutoff := if current >= 3 then current - 3 else 0;
    c.LastHitSince(history, p, cutoff);
    forall j: nat | j < |history|
      ensures 1 + j / c.perGeneration > cutoff <==> |history| - j <= Window(c.perGeneration, thisGeneration)
    {
      InWindow(j, |history|, current, thisGeneration, c.perGeneration);
    }
  }

  lemma InWindow(j: nat, inserts: nat, current: nat, thisGeneration: nat, e: nat)
    requires e > 0 && Counted(inserts, current, thisGeneration, e) && j < inserts
    ensures 1 + j / e > (if current >= 3 then current - 3 else 0) <==> inserts - j <= Window(e, thisGeneration)
  {
    if current >= 3 {
      DivBounds(j, e, current - 3);
      assert (current - 1) * e == (current - 3) * e + 2 * e;
    } else {
      MulMono(current - 1, 1, e);
    }
  }

  class Filter<Key(!new)> {
    const rollingBloomHash: (nat, nat, Key) -> Word32
    const nHashFuncs: nat
    const nEntriesPerGeneration: nat
    const data: array<Word64>
    var nEntriesThisGeneration: nat
    var nGeneration: nat
    var nTweak: nat
    /** Every key inserted since the last reset, and the number of generations begun since. */
    ghost var history: seq<Key>
    ghost var generations: nat

    function Cfg(): Config<Key>
      reads this
    {
      Config(rollingBloomHash, nHashFuncs, nTweak, data.Length, nEntriesPerGeneration)
    }

    ghost predicate Valid()
      reads this, data
    {
      && Cfg().Valid()
      && Counted(|history|, generations, nEntriesThisGeneration, nEntriesPerGeneration)
      && nGeneration == (generations - 1) % 3 + 1
      && Shows(Cfg(), data[..], history, generations)
    }

    /** reset, with the new tweak the random generator supplies. */
    method Reset(tweak: nat)
      modifies this, data
      ensures history == [] && nTweak == tweak && Cfg() == old(Cfg()).(tweak := tweak)
      ensures Valid() <==> Cfg().Valid()
    {
      nTweak := tweak;
      nEntriesThisGeneration := 0;
      nGeneration := 1;
      history := [];
      generations := 1;
      for i := 0 to data.Length
        invariant forall j :: 0 <= j < i ==> data[j] == 0
        modifies data
      {
        data[i] := 0;
      }
      forall p | InRange(p, data.Length) ensures Cell(data[..], p) == 0 {
        BitZero(p.bit);
      }
    }

    /** A filter for no elements, which has no cells, is constructed too; no operation may be called on it. */
    constructor (nElements: nat, words: nat, hashFuncs: nat, hash: (nat, nat, Key) -> Word32, tweak: nat)
      requires words % 2 == 0
      ensures Valid() <==> nElements >= 1 && words > 0
      ensures history == [] && fresh(data) && data.Length == words
      ensures nHashFuncs == hashFuncs && rollingBloomHash == hash && nTweak == tweak
      ensures nElements <= 2 * nEntriesPerGeneration <= nElements + 1
    {
      rollingBloomHash := hash;
      nHashFuncs := hashFuncs;
      nEntriesPerGeneration := (nElements + 1) / 2;
      data := new Word64[words];
      new;
      Reset(tweak);
    }

    /** The change of generation at the start of insert. */
    method Advance()
      requires Valid()
      modifies this, data
      ensures Valid() && history == old(history) && nTweak == old(nTweak)
      ensures nEntriesThisGeneration < nEntriesPerGeneration
    {
      hide Shows, IsWiped, Config.Touches, Config.At, Cell, InRange;
      if nEntriesThisGeneration == nEntriesPerGeneration {
        nEntriesThisGeneration := 0;
        nGeneration := nGeneration + 1;
        if nGeneration == 4 {
          nGeneration := 1;
        }
        ghost var was := data[..];
        Wipe(data, nGeneration);
        NextGeneration(generations, nEntriesPerGeneration);
        AfterWipe(Cfg(), was, data[..], history, generations);
        generations := generations + 1;
      }
    }

    /** The loop of insert over the hash functions. */
    method SetCells(key: Key)
      requires Cfg().Valid() && 1 <= nGeneration <= 3
      modifies data
      ensures IsInserted(Cfg(), old(data[..]), data[..], key, nGeneration)
    {
      ghost var was := data[..];
      ghost var c := Cfg();
      hide Cell, InRange, Config.At, IsWritten;
      for n := 0 to nHashFuncs
        invariant IsInsertedBy(c, was, data[..], key, nGeneration, n)
        modifies data
      {
        ghost var before := data[..];
        Write(data, Cfg().At(key, n), nGeneration);
        OneMore(c, was, before, data[..], key, nGeneration, n);
      }
    }

    /** insert: the key joins the history, whatever is wiped to make room for it. */
    method Insert(key: Key)
      requires Valid()
      modifies this, data
      ensures Valid() && history == old(history) + [key] && nTweak == old(nTweak)
    {
      hide Shows, IsInserted, Config.Touches, Config.At, Cell, InRange;
      Advance();
      nEntriesThisGeneration := nEntriesThisGeneration + 1;
      ghost var was := data[..];
      SetCells(key);
      NextGeneration(generations, nEntriesPerGeneration);
      AfterInsert(Cfg(), was, data[..], history, key, generations);
      history := history + [key];
    }

    /**
     * contains: true exactly when every position of the key was written by some insert in the window; so
     * a key inserted within the window is always found.
     */
    method Contains(key: Key) returns (found: bool)
      requires Valid()
      ensures found <==> forall i: nat :: i < nHashFuncs ==> Covered(Cfg().At(key, i))
      ensures key in Recent() ==> found
    {
      hide Cell, InRange, Shown, Probe, Shows, Covered, Recent, Config.At;
      ghost var c := Cfg();
      found := true;
      for n := 0 to nHashFuncs
        invariant forall i: nat :: i < n ==> Covered(c.At(key, i))
      {
        var p := Cfg().At(key, n);
        InRangeIndexes(p, data.Length);
        CellProbe(data[..], p);
        ProbeShows(p);
        if Probe(data[2 * p.pair], data[2 * p.pair + 1], p.bit) == 0 {
          found := false;
          break;
        }
      }
      RecentCovered(key);
    }

    /** The latest inserts, two full generations and the current one. */
    ghost function Recent(): seq<Key>
      reads this
    {
      var w := Window(nEntriesPerGeneration, nEntriesThisGeneration);
      if |history| <= w then history else history[|history| - w..]
    }

    /** One of the latest inserts wrote the position. */
    ghost predicate Covered(p: Position)
      requires Cfg().Valid()
      reads this
    {
      exists j :: 0 <= j < |Recent()| && Cfg().Touches(Recent()[j], p)
    }

    lemma RecentCovered(key: Key)
      requires Cfg().Valid()
      ensures key in Recent() ==> forall i: nat :: i < nHashFuncs ==> Covered(Cfg().At(key, i))
    {
      if key in Recent() {
        var j :| 0 <= j < |Recent()| && Recent()[j] == key;
        forall i: nat | i < nHashFuncs ensures Covered(Cfg().At(key, i)) {
          assert Cfg().Touches(Recent()[j], Cfg().At(key, i));
        }
      }
    }

    lemma ProbeShows(p: Position)
      requires Valid() && InRange(p, data.Length)
      ensures Cell(data[..], p) != 0 <==> Covered(p)
    {
      hide Cell, InRange, Config.LastHit, Config.Touches, Shown;
      var c := Cfg();
      ShownIff(c, history, p, generations, nEntriesThisGeneration);
      var s := |history| - |Recent()|;
      assert forall j :: 0 <= j < |Recent()| ==> Recent()[j] == history[s + j];
      if exists j :: 0 <= j < |history| && |history| - j <= Window(c.perGeneration, nEntriesThisGeneration) && c.Touches(history[j], p) {
        var j :| 0 <= j < |history| && |history| - j <= Window(c.perGeneration, nEntriesThisGeneration) && c.Touches(history[j], p);
        assert Recent()[j - s] == history[j];
      }
    }
  }

  lemma CellProbe(s: seq<Word64>, p: Position)
    requires InRange(p, |s|)
    ensures Probe(s[2 * p.pair], s[2 * p.pair + 1], p.bit) != 0 <==> Cell(s, p) != 0
  {
    ProbeCell(s[2 * p.pair], s[2 * p.pair + 1], p.bit);
  }

  lemma InRangeIndexes(p: Position, words: nat)
    requires InRange(p, words)
    ensures 2 * p.pair + 1 < words && p.bit < 64
  {}

  lemma NextGeneration(g: nat, e: nat)
    requires g > 0
    ensures (g - 1) * e + e == g * e
  {}

  ghost predicate IsInsertedBy<Key(!new)>(c: Config<Key>, was: seq<Word64>, now: seq<Word64>, k: Key, g: nat, n: nat)
    requires c.Valid() && |was| == c.words
  {
    |now| == |was| && forall p :: InRange(p, |was|) ==> Cell(now, p) == if c.TouchesBy(k, p, n) then g else Cell(was, p)
  }

  lemma OneMore<Key(!new)>(c: Config<Key>, was: seq<Word64>, before: seq<Word64>, now: seq<Word64>, k: Key, g: nat, n: nat)
    requires c.Valid() && |was| == c.words && IsInsertedBy(c, was, before, k, g, n)
    requires IsWritten(before, now, c.At(k, n), g)
    ensures IsInsertedBy(c, was, now, k, g, n + 1)
  {
    hide Cell, InRange, Config.At;
    forall p ensures c.TouchesBy(k, p, n + 1) <==> c.TouchesBy(k, p, n) || p == c.At(k, n) {
      if p == c.At(k, n) { assert n < n + 1; }
    }
  }
}
