/**
 * The cache of src/cuckoocache.h: a table with eight candidate slots per element, bit-packed flags that mark
 * slots as discardable, and epochs that age the elements.
 */
module CuckooCache {
  import opened Arith
  import opened Bits
  import opened Foundations

  type Byte = x: int | 0 <= x < 256

  lemma ByteBits(b: nat)
    requires b < 8
    ensures Pow(2, 8) == 256 && 0 < Pow(2, b) < 256
  {
    assert Pow(2, 8) == 256;
    PowPositive(2, b);
    PowMono(2, b + 1, 8);
    PowNext(2, b);
  }

  lemma ByteSet(x: nat, b: nat)
    requires x < 256 && b < 8
    ensures Or(x, Pow(2, b)) < 256
    ensures forall c: nat :: c < 8 ==> Bit(Or(x, Pow(2, b)), c) == (c == b || Bit(x, c))
  {
    hide Bit, Or, Pow;
    ByteBits(b);
    OrRange(x, Pow(2, b), 8);
    forall c: nat | c < 8 ensures Bit(Or(x, Pow(2, b)), c) == (c == b || Bit(x, c)) {
      BitPower(b, c);
      BitOr(x, Pow(2, b), c);
    }
  }

  lemma ByteUnset(x: nat, b: nat)
    requires x < 256 && b < 8
    ensures Pow(2, b) < Pow(2, 8) && And(x, Not(Pow(2, b), 8)) < 256
    ensures forall c: nat :: c < 8 ==> Bit(And(x, Not(Pow(2, b), 8)), c) == (c != b && Bit(x, c))
  {
    hide Bit, And, Pow;
    ByteBits(b);
    AndBelow(x, Not(Pow(2, b), 8));
    forall c: nat | c < 8 ensures Bit(And(x, Not(Pow(2, b), 8)), c) == (c != b && Bit(x, c)) {
      BitPower(b, c);
      BitNot(Pow(2, b), 8, c);
      BitAnd(x, Not(Pow(2, b), 8), c);
    }
  }

  /** bit_packed_atomic_flags: eight flags to a byte. */
  class Flags {
    const mem: array<Byte>

    predicate IsSet(s: nat)
      requires s / 8 < mem.Length
      reads mem
    {
      Bit(mem[s / 8], s % 8)
    }

    /** Enough room for size flags, all set. */
    constructor (size: nat)
      ensures fresh(mem) && size <= 8 * mem.Length
      ensures forall s: nat :: s < size ==> IsSet(s)
    {
      mem := new Byte[(size + 7) / 8];
      new;
      for i := 0 to mem.Length
        invariant forall j :: 0 <= j < i ==> mem[j] == 255
        modifies mem
      {
        mem[i] := 0xFF;
      }
      forall s: nat | s < size ensures IsSet(s) {
        AllOnes(s % 8);
      }
    }

    method BitSet(s: nat)
      requires s / 8 < mem.Length
      modifies mem
      ensures forall t: nat :: t / 8 < mem.Length ==> IsSet(t) == (t == s || old(IsSet(t)))
    {
      hide Bit, Or, Pow;
      ByteSet(mem[s / 8], s % 8);
      mem[s / 8] := Or(mem[s / 8], Pow(2, s % 8));
    }

    method BitUnset(s: nat)
      requires s / 8 < mem.Length
      modifies mem
      ensures forall t: nat :: t / 8 < mem.Length ==> IsSet(t) == (t != s && old(IsSet(t)))
    {
      hide Bit, And, Pow, Not;
      ByteUnset(mem[s / 8], s % 8);
      mem[s / 8] := And(mem[s / 8], Not(Pow(2, s % 8), 8));
    }

    method BitIsSet(s: nat) returns (r: bool)
      requires s / 8 < mem.Length
      ensures r == IsSet(s)
    {
      hide Bit, And, Pow;
      BitAndPower(mem[s / 8], s % 8);
      r := And(Pow(2, s % 8), mem[s / 8]) != 0;
    }
  }

  lemma AllOnes(b: nat)
    requires b < 8
    ensures Bit(255, b)
  {
    ByteBits(b);
    BitZero(b);
    BitNot(0, 8, b);
  }

  lemma {:induction false} BitAndPower(x: nat, b: nat)
    ensures And(Pow(2, b), x) != 0 <==> Bit(x, b)
    decreases b
  {
    PowPositive(2, b);
    if b > 0 {
      PowNext(2, b - 1);
      PowPositive(2, b - 1);
      if x == 0 {
        BitZero(b);
      } else {
        BitAndPower(x / 2, b - 1);
      }
    } else {
      assert And(1, x) == x % 2;
    }
  }

  // The table as a value.

  /** A slot: its element, whether it must be kept (its collection flag is clear), and its epoch flag. */
  datatype Slot<Element> = Slot(element: Element, kept: bool, current: bool)

  ghost function One<Element>(x: Slot<Element>): multiset<Element> {
    if x.kept then multiset{x.element} else multiset{}
  }

  /** The kept elements, with multiplicity. */
  ghost function Kept<Element>(s: seq<Slot<Element>>): multiset<Element> {
    if s == [] then multiset{} else Kept(s[..|s| - 1]) + One(s[|s| - 1])
  }

  ghost function Counts<Element>(x: Slot<Element>): nat { if x.kept && x.current then 1 else 0 }

  /** The number of kept elements of the current epoch. */
  ghost function Live<Element>(s: seq<Slot<Element>>): nat {
    if s == [] then 0 else Live(s[..|s| - 1]) + Counts(s[|s| - 1])
  }

  lemma KeptStep<Element>(s: seq<Slot<Element>>)
    requires s != []
    ensures Kept(s) == Kept(s[..|s| - 1]) + One(s[|s| - 1])
  {}

  lemma {:induction false} KeptUpdate<Element>(s: seq<Slot<Element>>, i: nat, x: Slot<Element>)
    requires i < |s|
    ensures Kept(s[i := x]) + One(s[i]) == Kept(s) + One(x)
  {
    hide Kept, One;
    var n, s' := |s| - 1, s[i := x];
    KeptStep(s);
    KeptStep(s');
    if i < n {
      assert s'[..n] == s[..n][i := x];
      KeptUpdate(s[..n], i, x);
      Exchange(Kept(s[..n][i := x]), Kept(s[..n]), One(s[i]), One(x), One(s[n]));
    } else {
      assert s'[..n] == s[..n];
      assert Kept(s[..n]) + One(x) + One(s[i]) == Kept(s[..n]) + One(s[i]) + One(x);
    }
  }

  lemma Exchange<T>(a: multiset<T>, b: multiset<T>, x: multiset<T>, y: multiset<T>, z: multiset<T>)
    requires a + x == b + y
    ensures (a + z) + x == (b + z) + y
  {
    assert (a + z) + x == (a + x) + z;
    assert (b + z) + y == (b + y) + z;
  }

  lemma {:induction false} LiveUpdate<Element>(s: seq<Slot<Element>>, i: nat, x: Slot<Element>)
    requires i < |s|
    ensures Live(s[i := x]) == Live(s) - Counts(s[i]) + Counts(x)
  {
    var n := |s| - 1;
    assert s[i := x][..n] == if i == n then s[..n] else s[..n][i := x];
    if i < n {
      LiveUpdate(s[..n], i, x);
    }
  }

  lemma LiveStep<Element>(s: seq<Slot<Element>>, i: nat)
    requires i < |s|
    ensures Live(s[..i + 1]) == Live(s[..i]) + Counts(s[i])
  {
    assert s[..i + 1][..i] == s[..i];
  }

  lemma {:induction false} NoneLive<Element>(s: seq<Slot<Element>>)
    requires forall i :: 0 <= i < |s| ==> !s[i].kept || !s[i].current
    ensures Live(s) == 0
  {
    if s != [] {
      NoneLive(s[..|s| - 1]);
    }
  }

  lemma {:induction false} NoneKept<Element>(s: seq<Slot<Element>>)
    requires forall i :: 0 <= i < |s| ==> !s[i].kept
    ensures Kept(s) == multiset{}
  {
    if s != [] {
      NoneKept(s[..|s| - 1]);
    }
  }

  lemma {:induction false} KeptSlot<Element>(s: seq<Slot<Element>>, e: Element) returns (i: nat)
    requires e in Kept(s)
    ensures i < |s| && s[i].kept && s[i].element == e
  {
    var n := |s| - 1;
    if e in One(s[n]) {
      i := n;
    } else {
      i := KeptSlot(s[..n], e);
    }
  }

  /** compute_hashes: the eight slots of an element. */
  function Locs<Element>(hash: (nat, Element) -> nat, mask: nat, e: Element): (locs: seq<nat>)
    ensures |locs| == 8
  {
    seq<nat>(8, i requires 0 <= i < 8 => And(hash(i, e), mask))
  }

  /** The mask is the largest slot. */
  lemma LocsInRange<Element>(hash: (nat, Element) -> nat, mask: nat, e: Element)
    ensures forall i :: 0 <= i < 8 ==> Locs(hash, mask, e)[i] <= mask
  {
    hide And;
    forall i | 0 <= i < 8 ensures Locs(hash, mask, e)[i] <= mask {
      AndBelow(hash(i, e), mask);
    }
  }

  /** The mask takes a hash modulo the number of slots. */
  lemma LocsAre<Element>(hash: (nat, Element) -> nat, depth: nat, e: Element)
    ensures Pow(2, depth) > 0
    ensures forall i :: 0 <= i < 8 ==> Locs(hash, Pow(2, depth) - 1, e)[i] == hash(i, e) % Pow(2, depth)
  {
    hide And, Pow;
    PowPositive(2, depth);
    forall i | 0 <= i < 8 ensures Locs(hash, Pow(2, depth) - 1, e)[i] == hash(i, e) % Pow(2, depth) {
      AndMask(hash(i, e), depth);
    }
  }

  /** The slots of an element are its eight hashes modulo the size. */
  ghost predicate AreLocs<Element>(hash: (nat, Element) -> nat, size: nat, e: Element, locs: seq<nat>)
    requires size > 0
  {
    |locs| == 8 && forall i :: 0 <= i < 8 ==> locs[i] == hash(i, e) % size
  }

  lemma OnlyLocs<Element>(hash: (nat, Element) -> nat, size: nat, e: Element, locs: seq<nat>)
    requires size > 0 && AreLocs(hash, size, e, locs)
    ensures forall ls :: AreLocs(hash, size, e, ls) ==> ls == locs
  {
  }

  /** Every kept element sits in one of its own slots. */
  ghost predicate Homed<Element>(s: seq<Slot<Element>>, hash: (nat, Element) -> nat, mask: nat) {
    forall i :: 0 <= i < |s| && s[i].kept ==> i in Locs(hash, mask, s[i].element)
  }

  lemma KeptAtHome<Element>(s: seq<Slot<Element>>, hash: (nat, Element) -> nat, mask: nat, i: nat)
    requires Homed(s, hash, mask) && i < |s| && s[i].kept
    ensures i in Locs(hash, mask, s[i].element)
  {
  }

  /** The change of epochs: current elements become old ones, old ones may be discarded. */
  ghost function Aged<Element>(x: Slot<Element>): Slot<Element> {
    if x.current then x.(current := false) else x.(kept := false)
  }

  ghost function AgedAll<Element>(s: seq<Slot<Element>>): (r: seq<Slot<Element>>)
    ensures |r| == |s| && forall i :: 0 <= i < |s| ==> r[i] == Aged(s[i])
  {
    seq(|s|, i requires 0 <= i < |s| => Aged(s[i]))
  }

  /** What the epoch scan makes of the slots when the counter reads `counter`. */
  ghost function Scanned<Element>(s: seq<Slot<Element>>, counter: nat, epochSize: nat): (r: seq<Slot<Element>>)
    ensures |r| == |s|
  {
    if counter == 0 && Live(s) >= epochSize then AgedAll(s) else s
  }

  /** When the next scan is due: after as many inserts as could fill the epoch, but not too soon. */
  ghost function NextCounter(counter: nat, live: nat, epochSize: nat): nat {
    if counter != 0 then counter - 1
    else if live >= epochSize then epochSize
    else Max(1, Max(epochSize / 16, epochSize - live))
  }

  /** The number of kept current elements that is never exceeded. */
  function Bound(epochSize: nat): nat { epochSize + if epochSize / 16 > 1 then epochSize / 16 else 1 }

  /** 45 * size / 100 as 32-bit arithmetic computes it, and at least 1. */
  function EpochSize(size: nat): (r: nat)
    ensures r >= 1
  {
    var n := 45 * size % 0x1_0000_0000 / 100;
    if n > 1 then n else 1
  }

  class Cache<Element(==)> {
    const table: array<Element>
    const epochFlags: array<bool>
    const flags: Flags
    const size: nat
    const hashMask: nat
    const depthLimit: nat
    const epochSize: nat
    const hash: (nat, Element) -> nat
    var epochHeuristicCounter: nat

    ghost predicate Shape()
      reads this, flags
    {
      && table.Length == epochFlags.Length == size == Pow(2, depthLimit) && hashMask == size - 1 >= 0
      && size <= 8 * flags.mem.Length && epochSize >= 1 && depthLimit >= 1
      && table as object != epochFlags && table as object != flags.mem && epochFlags as object != flags.mem
    }

    ghost function Slots(): (s: seq<Slot<Element>>)
      requires Shape()
      reads this, table, epochFlags, flags, flags.mem
      ensures |s| == size
    {
      seq(size, i requires 0 <= i < size && Shape() reads this, table, epochFlags, flags, flags.mem =>
        Slot(table[i], !flags.IsSet(i), epochFlags[i]))
    }

    ghost predicate Valid()
      reads this, table, epochFlags, flags, flags.mem
    {
      && Shape()
      && Homed(Slots(), hash, hashMask)
      && Live(Slots()) + epochHeuristicCounter <= Bound(epochSize)
    }

    /** setup for a table of 2^depth slots; the table holds default elements that nothing protects. */
    constructor (depth: nat, blank: Element, hashFunction: (nat, Element) -> nat)
      requires 1 <= depth <= 31
      ensures Valid() && fresh(table) && fresh(epochFlags) && fresh(flags) && fresh(flags.mem)
      ensures size == Pow(2, depth) && epochSize == EpochSize(size) == epochHeuristicCounter
      ensures depthLimit == depth && hash == hashFunction
      ensures Slots() == seq(size, _ => Slot(blank, false, false)) && Kept(Slots()) == multiset{}
    {
      hide Pow, Bit;
      PowPositive(2, depth);
      var n := Pow(2, depth);
      depthLimit := depth;
      size := n;
      hashMask := n - 1;
      table := new Element[n](_ => blank);
      flags := new Flags(n);
      epochFlags := new bool[n](_ => false);
      epochSize := EpochSize(n);
      epochHeuristicCounter := EpochSize(n);
      hash := hashFunction;
      new;
      NoneKept(Slots());
      NoneLive(Slots());
    }

    /** The slots of an element, all within the table. */
    method ComputeHashes(e: Element) returns (locs: seq<nat>)
      requires Shape()
      ensures locs == Locs(hash, hashMask, e) && forall i :: 0 <= i < 8 ==> locs[i] < size
      ensures AreLocs(hash, size, e, locs)
    {
      hide Pow, And;
      LocsAre(hash, depthLimit, e);
      locs := Locs(hash, hashMask, e);
    }

    /** please_keep, and the epoch flag with it. */
    method Keep(loc: nat, epoch: bool)
      requires Shape() && loc < size
      modifies flags.mem, epochFlags
      ensures Shape() && Slots() == old(Slots())[loc := old(Slots())[loc].(kept := true, current := epoch)]
    {
      flags.BitUnset(loc);
      epochFlags[loc] := epoch;
    }

    /** Fill a slot. */
    method Place(loc: nat, e: Element, epoch: bool)
      requires Shape() && loc < size
      modifies table, flags.mem, epochFlags
      ensures Shape() && Slots() == old(Slots())[loc := Slot(e, true, epoch)]
    {
      table[loc] := e;
      flags.BitUnset(loc);
      epochFlags[loc] := epoch;
    }

    /** Exchange an element and its epoch with those in a slot. */
    method Swap(loc: nat, e: Element, epoch: bool) returns (e': Element, epoch': bool)
      requires Shape() && loc < size
      modifies table, epochFlags
      ensures Shape() && e' == old(Slots())[loc].element && epoch' == old(Slots())[loc].current
      ensures Slots() == old(Slots())[loc := Slot(e, old(Slots())[loc].kept, epoch)]
    {
      e', epoch' := table[loc], epochFlags[loc];
      table[loc] := e;
      epochFlags[loc] := epoch;
    }

    /** One step of the aging loop. */
    method AgeSlot(i: nat)
      requires Shape() && i < size
      modifies flags.mem, epochFlags
      ensures Shape() && Slots() == old(Slots())[i := Aged(old(Slots())[i])]
    {
      if epochFlags[i] {
        epochFlags[i] := false;
      } else {
        flags.BitSet(i);
      }
    }

    /** The scan that counts the kept elements of the current epoch. */
    method CountLive() returns (count: nat)
      requires Shape()
      ensures count == Live(Slots())
    {
      hide Live, Pow;
      ghost var s := Slots();
      count := 0;
      LiveNone(s);
      for i := 0 to size
        invariant count == Live(s[..i])
      {
        LiveStep(s, i);
        var discardable := flags.BitIsSet(i);
        if epochFlags[i] && !discardable {
          count := count + 1;
        }
      }
      assert s[..size] == s;
    }

    /** epoch_check: afterwards there is room for one more element in the current epoch. */
    method EpochCheck()
      requires Valid()
      modifies this, flags.mem, epochFlags
      ensures Shape() && Slots() == Scanned(old(Slots()), old(epochHeuristicCounter), epochSize)
      ensures epochHeuristicCounter == NextCounter(old(epochHeuristicCounter), Live(old(Slots())), epochSize)
      ensures old(epochHeuristicCounter) > 0 || Live(old(Slots())) < epochSize ==> Slots() == old(Slots())
      ensures old(epochHeuristicCounter) == 0 && Live(old(Slots())) >= epochSize ==>
        forall i :: 0 <= i < size ==> var was, now := old(Slots())[i], Slots()[i];
          now.element == was.element && !now.current && (now.kept <==> was.kept && was.current)
      ensures Homed(Slots(), hash, hashMask)
      ensures Live(Slots()) + epochHeuristicCounter < Bound(epochSize)
    {
      hide Pow, Kept, Live, Flags.IsSet;
      if epochHeuristicCounter != 0 {
        epochHeuristicCounter := epochHeuristicCounter - 1;
        return;
      }
      ghost var was := Slots();
      var count := CountLive();
      if count >= epochSize {
        for i := 0 to size
          invariant Shape()
          invariant forall j :: 0 <= j < i ==> Slots()[j] == Aged(was[j])
          invariant forall j :: i <= j < size ==> Slots()[j] == was[j]
          modifies flags.mem, epochFlags
        {
          AgeSlot(i);
        }
        assert Slots() == AgedAll(was);
        NoneLive(Slots());
        epochHeuristicCounter := epochSize;
      } else {
        epochHeuristicCounter := Max(1, Max(epochSize / 16, epochSize - count));
      }
    }

    /** Look for an element in its slots; the first match counts. */
    method FindSlot(locs: seq<nat>, e: Element) returns (i: nat)
      requires Shape() && |locs| == 8 && forall j :: 0 <= j < 8 ==> locs[j] < size
      ensures i == MatchIndex(Slots(), locs, e)
    {
      i := 0;
      while i < 8 && table[locs[i]] != e
        invariant i <= 8 && forall j :: 0 <= j < i ==> Slots()[locs[j]].element != e
      {
        i := i + 1;
      }
    }

    /** Look for a slot that may be overwritten. */
    method FindOpen(locs: seq<nat>) returns (i: nat)
      requires Shape() && |locs| == 8 && forall j :: 0 <= j < 8 ==> locs[j] < size
      ensures i == OpenIndex(Slots(), locs)
    {
      i := 0;
      while i < 8
        invariant i <= 8 && forall j :: 0 <= j < i ==> Slots()[locs[j]].kept
      {
        var discardable := flags.BitIsSet(locs[i]);
        if discardable {
          return;
        }
        i := i + 1;
      }
    }

    /**
     * The displacement loop of insert, with an element and its epoch in hand: exactly the walk. Nothing is lost on the
     * way: the kept elements afterwards are those before and the first, without the one in hand when the depth runs out.
     */
    method Displace(first: Element) returns (dropped: Option<Element>)
      requires Shape() && Homed(Slots(), hash, hashMask)
      modifies table, flags.mem, epochFlags
      ensures Shape() && Homed(Slots(), hash, hashMask)
      ensures Walked(Slots(), dropped) == Walk(Start(old(Slots()), first), hash, hashMask, depthLimit)
      ensures Kept(Slots()) + Dropped(dropped) == old(Kept(Slots())) + multiset{first}
      ensures if dropped.None? then Live(Slots()) == old(Live(Slots())) + 1 else Live(Slots()) <= old(Live(Slots())) + 1
    {
      hide Pow, Homed, Locs, Kept, Live, FirstIndex, OpenIndex, Walk, Flags.IsSet, AreLocs;
      ghost var was := Slots();
      WalkKeeps(Start(was, first), hash, hashMask, depthLimit);
      var e, epoch := first, true;
      var lastLoc: Option<nat> := None;
      var locs := ComputeHashes(e);
      for depth := 0 to depthLimit
        invariant Shape() && locs == Locs(hash, hashMask, e) && forall j :: 0 <= j < 8 ==> locs[j] < size
        invariant Walk(Hand(Slots(), e, epoch, lastLoc), hash, hashMask, depthLimit - depth) ==
                  Walk(Start(was, first), hash, hashMask, depthLimit)
        modifies table, flags.mem, epochFlags
      {
        ghost var h := Hand(Slots(), e, epoch, lastLoc);
        WalkStep(h, hash, hashMask, depthLimit - depth);
        var i := FindOpen(locs);
        if i < 8 {
          Place(locs[i], e, epoch);
          return None;
        }
        var k := IndexIn(locs, lastLoc);
        lastLoc := Some(locs[(1 + k) % 8]);
        e, epoch := Swap(lastLoc.value, e, epoch);
        assert Hand(Slots(), e, epoch, lastLoc) == Swapped(h, hash, hashMask);
        locs := ComputeHashes(e);
      }
      WalkStep(Hand(Slots(), e, epoch, lastLoc), hash, hashMask, 0);
      return Some(e);
    }

    /**
     * insert: after the epoch scan the kept elements are the old ones and e, less at most one. The one
     * missing can only be missing if e was in none of its slots and all eight of them were kept, and exactly if the walk
     * meets no slot that is not kept.
     */
    method Insert(e: Element) returns (dropped: Option<Element>)
      requires Valid()
      modifies this, table, flags.mem, epochFlags
      ensures Valid()
      ensures var s := Scanned(old(Slots()), old(epochHeuristicCounter), epochSize);
        if Found(s, hash, hashMask, e)
        then dropped == None && IsRenewed(s, Slots(), hash, hashMask, e) && e in Kept(Slots())
             && (Kept(Slots()) == Kept(s) || Kept(Slots()) == Kept(s) + multiset{e})
        else Walked(Slots(), dropped) == Walk(Start(s, e), hash, hashMask, depthLimit)
             && Kept(Slots()) + Dropped(dropped) == Kept(s) + multiset{e}
             && (dropped == None ==> Live(Slots()) == Live(s) + 1)
             && (dropped != None <==> NeverOpen(Start(s, e), hash, hashMask, depthLimit))
             && (dropped != None ==> AllKept(s, Locs(hash, hashMask, e)))
      ensures epochHeuristicCounter == NextCounter(old(epochHeuristicCounter), old(Live(Slots())), epochSize)
    {
      hide Pow, Kept, Live, Locs, Scanned, Homed, Walk, MatchIndex, NeverOpen, AllKept, AreLocs;
      EpochCheck();
      ghost var s := Slots();
      var locs := ComputeHashes(e);
      var i := FindSlot(locs, e);
      dropped := None;
      MatchIsFound(s, hash, hashMask, e);
      if i < 8 {
        Keep(locs[i], true);
        FlagsChanged(s, locs[i], Slot(e, true, true));
        assert locs[i] in Locs(hash, hashMask, e);
        StaysHomed(s, locs[i], Slot(e, true, true), hash, hashMask);
        KeptHas(Slots(), locs[i]);
      } else {
        dropped := Displace(e);
        LostIff(Start(s, e), hash, hashMask, depthLimit);
      }
    }

    /** contains: a kept element is always found; erasing only sets the collection flag of the match. */
    method Contains(e: Element, erase: bool) returns (found: bool)
      requires Valid()
      modifies flags.mem
      ensures Valid() && found == Found(old(Slots()), hash, hashMask, e) == Found(Slots(), hash, hashMask, e)
      ensures forall locs :: AreLocs(hash, size, e, locs) ==> (found <==> exists i :: 0 <= i < 8 && table[locs[i]] == e)
      ensures e in old(Kept(Slots())) ==> found
      ensures !erase || !found ==> Slots() == old(Slots())
      ensures erase && found ==> IsErased(old(Slots()), Slots(), hash, hashMask, e)
      ensures Kept(Slots()) == old(Kept(Slots())) || (erase && Kept(Slots()) + multiset{e} == old(Kept(Slots())))
    {
      hide Pow, Kept, Live, Locs, Homed, AreLocs, MatchIndex;
      ghost var s := Slots();
      var locs := ComputeHashes(e);
      OnlyLocs(hash, size, e, locs);
      KeptIsFound(s, hash, hashMask, e);
      MatchIsFound(s, hash, hashMask, e);
      var i := FindSlot(locs, e);
      found := i < 8;
      assert found <==> exists j :: 0 <= j < 8 && table[locs[j]] == e;
      if found {
        assert locs[i] in Locs(hash, hashMask, e);
        if erase {
          flags.BitSet(locs[i]);
          assert Slots() == s[locs[i] := s[locs[i]].(kept := false)];
          FlagsChanged(s, locs[i], s[locs[i]].(kept := false));
          StaysHomed(s, locs[i], s[locs[i]].(kept := false), hash, hashMask);
        }
      }
    }
  }

  /** The epoch size is 45% of the table up to 2^26 slots; beyond that the 32-bit product wraps around. */
  lemma EpochSizeExact(d: nat)
    requires 1 <= d <= 31
    ensures EpochSize(Pow(2, d)) == Max(1, 45 * Pow(2, d) / 100) <==> d <= 26
  {
    TwoTo26();
    hide Pow;
    if d <= 26 {
      PowMono(2, d, 26);
    } else {
      PowMono(2, 27, d);
    }
    Wraps(Pow(2, d));
  }

  lemma TwoTo26()
    ensures Pow(2, 26) == 0x400_0000 && Pow(2, 27) == 0x800_0000
  {
    assert Pow(2, 13) == 0x2000;
    PowAdd(2, 13, 13);
    PowNext(2, 26);
  }

  lemma Wraps(n: nat)
    ensures n <= 0x400_0000 ==> EpochSize(n) == Max(1, 45 * n / 100)
    ensures n >= 0x800_0000 ==> EpochSize(n) < 45 * n / 100
  {
    var m := 45 * n;
    if m >= 0x1_0000_0000 {
      var r := m % 0x1_0000_0000;
      assert r <= m - 0x1_0000_0000;
      assert r / 100 < m / 100;
    }
  }

  datatype Op<Element> = Insert(e: Element) | Contains(e: Element, erase: bool)

  /** Any run of operations, in any order. */
  method Run<Element(==)>(cache: Cache<Element>, ops: seq<Op<Element>>)
    requires cache.Valid()
    modifies cache, cache.table, cache.flags.mem, cache.epochFlags
    ensures cache.Valid() && Live(cache.Slots()) <= cache.epochSize + (if cache.epochSize < 32 then 1 else cache.epochSize / 16)
    ensures forall e :: e in Kept(cache.Slots()) ==> Found(cache.Slots(), cache.hash, cache.hashMask, e)
  {
    hide Kept, Live, Found, Homed;
    for i := 0 to |ops|
      invariant cache.Valid()
    {
      match ops[i]
      case Insert(e) => var _ := cache.Insert(e);
      case Contains(e, erase) => var _ := cache.Contains(e, erase);
    }
    forall e | e in Kept(cache.Slots()) ensures Found(cache.Slots(), cache.hash, cache.hashMask, e) {
      KeptIsFound(cache.Slots(), cache.hash, cache.hashMask, e);
    }
  }

  /** The first of its slots to hold e is protected and of the current epoch, and nothing else changed. */
  ghost predicate IsRenewed<Element>(was: seq<Slot<Element>>, now: seq<Slot<Element>>, hash: (nat, Element) -> nat, mask: nat, e: Element)
    requires mask < |was|
  {
    LocsInRange(hash, mask, e);
    var locs := Locs(hash, mask, e);
    var k := MatchIndex(was, locs, e);
    k < 8 && now == was[locs[k] := Slot(e, true, true)]
  }

  /** The first of its slots to hold e lost its protection, and nothing else changed. */
  ghost predicate IsErased<Element>(was: seq<Slot<Element>>, now: seq<Slot<Element>>, hash: (nat, Element) -> nat, mask: nat, e: Element)
    requires mask < |was|
  {
    LocsInRange(hash, mask, e);
    var locs := Locs(hash, mask, e);
    var k := MatchIndex(was, locs, e);
    k < 8 && now == was[locs[k] := was[locs[k]].(kept := false)]
  }

  function Max(a: nat, b: nat): nat { if a < b then b else a }

  /** The first index of a slot, or the length if it is not there. */
  ghost function FirstIndex(locs: seq<nat>, loc: Option<nat>): (k: nat)
    ensures k <= |locs| && (k < |locs| ==> loc == Some(locs[k])) && forall j :: 0 <= j < k ==> loc != Some(locs[j])
  {
    if locs == [] || loc == Some(locs[0]) then 0 else FirstIndex(locs[1..], loc) + 1
  }

  /** The slot that the next swap uses, after one with slot last. */
  ghost function NextLoc(locs: seq<nat>, last: Option<nat>): nat
    requires |locs| == 8
  {
    locs[(1 + FirstIndex(locs, last)) % 8]
  }

  // ------------------------------------------------------------------
  // The walk of an insert through the table
  // ------------------------------------------------------------------

  /** The first of an element's slots that may be overwritten, or 8. */
  ghost function OpenIndex<Element>(s: seq<Slot<Element>>, locs: seq<nat>): (k: nat)
    requires forall j :: 0 <= j < |locs| ==> locs[j] < |s|
    ensures k <= |locs| && (k < |locs| ==> !s[locs[k]].kept) && forall j :: 0 <= j < k ==> s[locs[j]].kept
  {
    if locs == [] || !s[locs[0]].kept then 0 else OpenIndex(s, locs[1..]) + 1
  }

  /** The first of an element's slots that holds it, or 8. */
  ghost function MatchIndex<Element>(s: seq<Slot<Element>>, locs: seq<nat>, e: Element): (k: nat)
    requires forall j :: 0 <= j < |locs| ==> locs[j] < |s|
    ensures k <= |locs| && (k < |locs| ==> s[locs[k]].element == e) && forall j :: 0 <= j < k ==> s[locs[j]].element != e
  {
    if locs == [] || s[locs[0]].element == e then 0 else MatchIndex(s, locs[1..], e) + 1
  }

  /** The table with an element in hand, and the slot last used. */
  datatype Hand<Element> = Hand(slots: seq<Slot<Element>>, element: Element, epoch: bool, last: Option<nat>)

  /** The table after the walk, and the element left in hand. */
  datatype Walked<Element> = Walked(slots: seq<Slot<Element>>, dropped: Option<Element>)

  function Start<Element>(s: seq<Slot<Element>>, e: Element): Hand<Element> {
    Hand(s, e, true, None)
  }

  ghost predicate AllKept<Element>(s: seq<Slot<Element>>, locs: seq<nat>) {
    forall j :: 0 <= j < |locs| ==> locs[j] < |s| && s[locs[j]].kept
  }

  /** None of the slots of the element in hand may be overwritten. */
  ghost predicate IsFull<Element>(h: Hand<Element>, hash: (nat, Element) -> nat, mask: nat) {
    AllKept(h.slots, Locs(hash, mask, h.element))
  }

  /** The slot that a swap uses. */
  ghost function SwapLoc<Element>(h: Hand<Element>, hash: (nat, Element) -> nat, mask: nat): (loc: nat)
    ensures loc <= mask && loc in Locs(hash, mask, h.element)
  {
    LocsInRange(hash, mask, h.element);
    NextLoc(Locs(hash, mask, h.element), h.last)
  }

  ghost function Swapped<Element>(h: Hand<Element>, hash: (nat, Element) -> nat, mask: nat): (h': Hand<Element>)
    requires mask < |h.slots|
    ensures |h'.slots| == |h.slots|
  {
    var loc := SwapLoc(h, hash, mask);
    Hand(h.slots[loc := h.slots[loc].(element := h.element, current := h.epoch)], h.slots[loc].element, h.slots[loc].current, Some(loc))
  }

  /** n swaps, whether or not a slot could have been overwritten before. */
  ghost function After<Element>(h: Hand<Element>, hash: (nat, Element) -> nat, mask: nat, n: nat): (h': Hand<Element>)
    requires mask < |h.slots|
    ensures |h'.slots| == |h.slots|
    decreases n
  {
    if n == 0 then h else Swapped(After(h, hash, mask, n - 1), hash, mask)
  }

  /** What the loop of insert does: at most depth times, put the element in hand into the first slot that may be
      overwritten, or swap it. */
  ghost function Walk<Element>(h: Hand<Element>, hash: (nat, Element) -> nat, mask: nat, depth: nat): (r: Walked<Element>)
    requires mask < |h.slots|
    ensures |r.slots| == |h.slots|
    decreases depth
  {
    LocsInRange(hash, mask, h.element);
    var locs := Locs(hash, mask, h.element);
    var i := OpenIndex(h.slots, locs);
    if depth == 0 then Walked(h.slots, Some(h.element))
    else if i < 8 then Walked(h.slots[locs[i] := Slot(h.element, true, h.epoch)], None)
    else Walk(Swapped(h, hash, mask), hash, mask, depth - 1)
  }

  lemma WalkStep<Element>(h: Hand<Element>, hash: (nat, Element) -> nat, mask: nat, depth: nat)
    requires mask < |h.slots| && forall j :: 0 <= j < 8 ==> Locs(hash, mask, h.element)[j] < |h.slots|
    ensures var locs := Locs(hash, mask, h.element);
            var i := OpenIndex(h.slots, locs);
            Walk(h, hash, mask, depth) ==
              if depth == 0 then Walked(h.slots, Some(h.element))
              else if i < 8 then Walked(h.slots[locs[i] := Slot(h.element, true, h.epoch)], None)
              else Walk(Swapped(h, hash, mask), hash, mask, depth - 1)
  {
  }

  lemma FullIffNoneOpen<Element>(h: Hand<Element>, hash: (nat, Element) -> nat, mask: nat)
    requires mask < |h.slots|
    ensures forall j :: 0 <= j < 8 ==> Locs(hash, mask, h.element)[j] < |h.slots|
    ensures IsFull(h, hash, mask) <==> OpenIndex(h.slots, Locs(hash, mask, h.element)) == 8
  {
    LocsInRange(hash, mask, h.element);
    hide Locs;
  }

  lemma {:induction false} AfterSwap<Element>(h: Hand<Element>, hash: (nat, Element) -> nat, mask: nat, n: nat)
    requires mask < |h.slots|
    ensures After(Swapped(h, hash, mask), hash, mask, n) == After(h, hash, mask, n + 1)
  {
    hide Swapped;
    if n > 0 {
      AfterSwap(h, hash, mask, n - 1);
    }
  }

  /** None of the elements in hand through the first depth swaps has a slot that may be overwritten. */
  ghost predicate NeverOpen<Element>(h: Hand<Element>, hash: (nat, Element) -> nat, mask: nat, depth: nat)
    requires mask < |h.slots|
  {
    forall d: nat :: d < depth ==> IsFull(After(h, hash, mask, d), hash, mask)
  }

  lemma NeverOpenStep<Element>(h: Hand<Element>, hash: (nat, Element) -> nat, mask: nat, depth: nat)
    requires mask < |h.slots| && depth > 0
    ensures NeverOpen(h, hash, mask, depth) <==> IsFull(h, hash, mask) && NeverOpen(Swapped(h, hash, mask), hash, mask, depth - 1)
  {
    hide IsFull, Swapped;
    var next := Swapped(h, hash, mask);
    assert After(h, hash, mask, 0) == h;
    forall d: nat ensures After(next, hash, mask, d) == After(h, hash, mask, d + 1) {
      AfterSwap(h, hash, mask, d);
    }
    hide After;
    if IsFull(h, hash, mask) && NeverOpen(next, hash, mask, depth - 1) {
      forall d: nat | d < depth ensures IsFull(After(h, hash, mask, d), hash, mask) {
        if d > 0 {
          assert After(next, hash, mask, d - 1) == After(h, hash, mask, d - 1 + 1);
        }
      }
    }
  }

  /** An element is left in hand exactly if none of the elements in turn in hand has a slot that may be overwritten; then
      the walk was nothing but swaps. */
  lemma {:induction false} LostIff<Element>(h: Hand<Element>, hash: (nat, Element) -> nat, mask: nat, depth: nat)
    requires mask < |h.slots|
    ensures var r := Walk(h, hash, mask, depth);
            && (r.dropped != None <==> NeverOpen(h, hash, mask, depth))
            && (r.dropped != None ==> r == Walked(After(h, hash, mask, depth).slots, Some(After(h, hash, mask, depth).element)))
            && (r.dropped != None && depth > 0 ==> IsFull(h, hash, mask))
    decreases depth
  {
    FullIffNoneOpen(h, hash, mask);
    WalkStep(h, hash, mask, depth);
    if depth > 0 {
      NeverOpenStep(h, hash, mask, depth);
      hide IsFull, Locs, OpenIndex, Swapped, NeverOpen, Walk;
      if IsFull(h, hash, mask) {
        LostIff(Swapped(h, hash, mask), hash, mask, depth - 1);
        AfterSwap(h, hash, mask, depth - 1);
      }
    }
  }

  ghost function InHand(epoch: bool): nat { if epoch then 1 else 0 }

  /** Whatever was kept or in hand is kept or in hand, and so are the elements of the current epoch. */
  ghost predicate SameStock<Element>(h: Hand<Element>, h': Hand<Element>) {
    && Kept(h'.slots) + multiset{h'.element} == Kept(h.slots) + multiset{h.element}
    && Live(h'.slots) + InHand(h'.epoch) == Live(h.slots) + InHand(h.epoch)
  }

  /** Nothing is lost but the element left in hand. */
  ghost predicate Conserves<Element>(h: Hand<Element>, r: Walked<Element>) {
    && Kept(r.slots) + Dropped(r.dropped) == Kept(h.slots) + multiset{h.element}
    && Live(r.slots) <= Live(h.slots) + InHand(h.epoch)
    && (r.dropped == None ==> Live(r.slots) == Live(h.slots) + InHand(h.epoch))
  }

  lemma PlaceConserves<Element>(h: Hand<Element>, loc: nat)
    requires loc < |h.slots| && !h.slots[loc].kept
    ensures Conserves(h, Walked(h.slots[loc := Slot(h.element, true, h.epoch)], None))
  {
    hide Kept, Live;
    KeptUpdate(h.slots, loc, Slot(h.element, true, h.epoch));
    LiveUpdate(h.slots, loc, Slot(h.element, true, h.epoch));
  }

  lemma SwapConserves<Element>(h: Hand<Element>, loc: nat)
    requires loc < |h.slots| && h.slots[loc].kept
    ensures var x := h.slots[loc];
            SameStock(h, Hand(h.slots[loc := Slot(h.element, true, h.epoch)], x.element, x.current, Some(loc)))
  {
    hide Kept, Live;
    KeptUpdate(h.slots, loc, Slot(h.element, true, h.epoch));
    LiveUpdate(h.slots, loc, Slot(h.element, true, h.epoch));
  }

  lemma StockConserves<Element>(h: Hand<Element>, h': Hand<Element>, r: Walked<Element>)
    requires SameStock(h, h') && Conserves(h', r)
    ensures Conserves(h, r)
  {
    hide Kept, Live;
  }

  lemma DropConserves<Element>(h: Hand<Element>)
    ensures Conserves(h, Walked(h.slots, Some(h.element)))
  {
  }

  /** The walk loses nothing but the element left in hand, and leaves every kept element at home. */
  lemma {:induction false} WalkKeeps<Element>(h: Hand<Element>, hash: (nat, Element) -> nat, mask: nat, depth: nat)
    requires mask < |h.slots| && Homed(h.slots, hash, mask)
    ensures Homed(Walk(h, hash, mask, depth).slots, hash, mask) && Conserves(h, Walk(h, hash, mask, depth))
    decreases depth
  {
    hide *;
    FullIffNoneOpen(h, hash, mask);
    WalkStep(h, hash, mask, depth);
    DropConserves(h);
    var locs := Locs(hash, mask, h.element);
    var i := OpenIndex(h.slots, locs);
    if depth > 0 {
      if i < 8 {
        PlaceConserves(h, locs[i]);
        StaysHomed(h.slots, locs[i], Slot(h.element, true, h.epoch), hash, mask);
      } else {
        var h' := Swapped(h, hash, mask);
        SwapKeeps(h, hash, mask);
        WalkKeeps(h', hash, mask, depth - 1);
        StockConserves(h, h', Walk(h', hash, mask, depth - 1));
      }
    }
  }

  lemma SwapKeeps<Element>(h: Hand<Element>, hash: (nat, Element) -> nat, mask: nat)
    requires mask < |h.slots| && Homed(h.slots, hash, mask) && IsFull(h, hash, mask)
    ensures var h' := Swapped(h, hash, mask);
            Homed(h'.slots, hash, mask) && SameStock(h, h') && h'.last.Some? && h'.last.value in Locs(hash, mask, h'.element)
  {
    hide Homed, Locs, NextLoc, SameStock;
    var loc := SwapLoc(h, hash, mask);
    assert h.slots[loc].kept;
    KeptAtHome(h.slots, hash, mask, loc);
    SwapConserves(h, loc);
    StaysHomed(h.slots, loc, Slot(h.element, true, h.epoch), hash, mask);
  }

  // ------------------------------------------------------------------
  // Moving back what was just put in
  // ------------------------------------------------------------------

  /** The first swap uses the second slot. A later one takes out again what the one before put in exactly if the slot
      after it among those of the element in hand is the same one. */
  lemma MovesBackIff<Element>(h: Hand<Element>, hash: (nat, Element) -> nat, mask: nat)
    requires mask < |h.slots| && Homed(h.slots, hash, mask) && IsFull(h, hash, mask)
    ensures h.last == None ==> SwapLoc(h, hash, mask) == Locs(hash, mask, h.element)[1]
    ensures var next := Swapped(h, hash, mask);
            var locs := Locs(hash, mask, next.element);
            var k := FirstIndex(locs, next.last);
            && k < 8
            && (SwapLoc(next, hash, mask) == SwapLoc(h, hash, mask) <==> locs[k] == locs[(k + 1) % 8])
            && (locs[k] == locs[(k + 1) % 8] ==> Swapped(next, hash, mask).element == h.element)
  {
    SwapKeeps(h, hash, mask);
    var next := Swapped(h, hash, mask);
    var locs := Locs(hash, mask, next.element);
    if h.last == None {
      NextOfNone(Locs(hash, mask, h.element));
    }
    NextOfSome(locs, next.last.value);
    hide Locs, FirstIndex, NextLoc, Homed, IsFull, Kept, Live;
  }

  /** All eight slots of all elements are slot 0. */
  ghost predicate AllZero<Element(!new)>(hash: (nat, Element) -> nat) {
    forall i, e :: hash(i, e) == 0
  }

  lemma ZeroLocs<Element(!new)>(hash: (nat, Element) -> nat, mask: nat, e: Element)
    requires AllZero(hash)
    ensures forall j :: 0 <= j < 8 ==> Locs(hash, mask, e)[j] == 0
  {
  }

  lemma ZeroSwap<Element(!new)>(h: Hand<Element>, hash: (nat, Element) -> nat, mask: nat)
    requires mask < |h.slots| && AllZero(hash)
    ensures var x := h.slots[0];
            Swapped(h, hash, mask) == Hand(h.slots[0 := x.(element := h.element, current := h.epoch)], x.element, x.current, Some(0))
  {
    ZeroLocs(hash, mask, h.element);
    hide Locs, NextLoc, AllZero;
  }

  /** Two swaps undo each other: the second takes out what the first put in. */
  lemma SwapsBack<Element(!new)>(h: Hand<Element>, hash: (nat, Element) -> nat, mask: nat)
    requires mask < |h.slots| && AllZero(hash)
    ensures After(h, hash, mask, 1).slots[0].element == h.element
    ensures After(h, hash, mask, 2) == h.(last := Some(0))
  {
    hide Swapped, AllZero;
    ZeroSwap(h, hash, mask);
    ZeroSwap(Swapped(h, hash, mask), hash, mask);
    assert After(h, hash, mask, 0) == h;
    assert After(h, hash, mask, 1) == Swapped(h, hash, mask);
    assert After(h, hash, mask, 2).slots == h.slots;
  }

  /** An element whose only slot is free goes there. */
  lemma FreeSlotTaken<Element(!new)>(s: seq<Slot<Element>>, hash: (nat, Element) -> nat, mask: nat, e: Element, depth: nat)
    requires mask < |s| && AllZero(hash) && !s[0].kept && depth > 0
    ensures Walk(Start(s, e), hash, mask, depth) == Walked(s[0 := Slot(e, true, true)], None)
    ensures forall now :: IsRenewed(s, now, hash, mask, e) ==> now == s[0 := Slot(e, true, true)]
  {
    ZeroLocs(hash, mask, e);
    FullIffNoneOpen(Start(s, e), hash, mask);
    WalkStep(Start(s, e), hash, mask, depth);
    hide Locs, AllZero, Walk, OpenIndex, MatchIndex;
  }

  /** An element whose only slot is taken is dropped after two swaps, and the table is as it was. */
  lemma TakenSlotKept<Element(!new)>(s: seq<Slot<Element>>, hash: (nat, Element) -> nat, mask: nat, e: Element)
    requires mask < |s| && AllZero(hash) && s[0].kept && s[0].element != e
    ensures !Found(s, hash, mask, e) && Walk(Start(s, e), hash, mask, 2) == Walked(s, Some(e))
  {
    ZeroLocs(hash, mask, e);
    MatchIsFound(s, hash, mask, e);
    var h := Start(s, e);
    SwapsBack(h, hash, mask);
    LostIff(h, hash, mask, 2);
    forall d: nat | d < 2 ensures IsFull(After(h, hash, mask, d), hash, mask) {
      ZeroSwap(h, hash, mask);
      ZeroLocs(hash, mask, After(h, hash, mask, d).element);
      hide Locs, AllZero;
    }
    hide Walk, Locs, AllZero, Swapped, MatchIndex;
  }

  /** A run in which an insert moves back what it just put in. With four slots and a constant hash, the first swap of the
      second insert puts y into the slot of x, the second takes it out again, and y is dropped. */
  method MovesBackRun<Element(==, !new)>(blank: Element, x: Element, y: Element)
    returns (cache: Cache<Element>, dropped: Option<Element>, ghost moving: Hand<Element>)
    requires x != y
    ensures cache.Valid() && dropped == Some(y) && cache.Slots()[0].element == x
    ensures cache.hashMask == 3 && |moving.slots| == 4 && moving.element == y && moving.slots[0].element == x
    ensures Walked(cache.Slots(), dropped) == Walk(moving, cache.hash, cache.hashMask, 2)
    ensures After(moving, cache.hash, cache.hashMask, 1).slots[0].element == y
    ensures After(moving, cache.hash, cache.hashMask, 2).slots[0].element == x
  {
    hide Locs, Walk, Kept, Live, IsRenewed, NeverOpen, Homed;
    cache := new Cache(2, blank, (i: nat, e: Element) => 0);
    assert cache.size == 4 && AllZero(cache.hash);
    FreeSlotTaken(cache.Slots(), cache.hash, cache.hashMask, x, 2);
    var lost := cache.Insert(x);
    ghost var s := Scanned(cache.Slots(), cache.epochHeuristicCounter, cache.epochSize);
    TakenSlotKept(s, cache.hash, cache.hashMask, y);
    moving := Start(s, y);
    SwapsBack(moving, cache.hash, cache.hashMask);
    dropped := cache.Insert(y);
  }

  lemma NextOfNone(locs: seq<nat>)
    requires |locs| == 8
    ensures NextLoc(locs, None) == locs[1]
  {
    hide FirstIndex;
  }

  lemma NextOfSome(locs: seq<nat>, last: nat)
    requires |locs| == 8 && last in locs
    ensures var k := FirstIndex(locs, Some(last)); k < 8 && (NextLoc(locs, Some(last)) == last <==> locs[k] == locs[(k + 1) % 8])
  {
    hide FirstIndex;
    var j :| 0 <= j < |locs| && locs[j] == last;
  }

  /** std::find over the eight slots: the first index of a slot, or 8. */
  method IndexIn(locs: seq<nat>, loc: Option<nat>) returns (k: nat)
    requires |locs| == 8
    ensures k == FirstIndex(locs, loc)
  {
    k := 0;
    while k < 8 && loc != Some(locs[k])
      invariant k <= 8 && forall j :: 0 <= j < k ==> loc != Some(locs[j])
    {
      k := k + 1;
    }
  }

  ghost function Dropped<Element>(d: Option<Element>): multiset<Element> {
    if d.Some? then multiset{d.value} else multiset{}
  }

  /** The element is in one of its slots, protected or not. */
  ghost predicate Found<Element>(s: seq<Slot<Element>>, hash: (nat, Element) -> nat, mask: nat, e: Element) {
    exists i :: 0 <= i < |s| && i in Locs(hash, mask, e) && s[i].element == e
  }

  lemma KeptIsFound<Element>(s: seq<Slot<Element>>, hash: (nat, Element) -> nat, mask: nat, e: Element)
    requires Homed(s, hash, mask)
    ensures e in Kept(s) ==> Found(s, hash, mask, e)
  {
    if e in Kept(s) {
      var i := KeptSlot(s, e);
    }
  }

  lemma LiveNone<Element>(s: seq<Slot<Element>>)
    ensures Live(s[..0]) == 0
  {}

  lemma MatchIsFound<Element>(s: seq<Slot<Element>>, hash: (nat, Element) -> nat, mask: nat, e: Element)
    requires mask < |s|
    ensures forall j :: 0 <= j < 8 ==> Locs(hash, mask, e)[j] < |s|
    ensures Found(s, hash, mask, e) <==> MatchIndex(s, Locs(hash, mask, e), e) < 8
  {
    LocsInRange(hash, mask, e);
    hide Locs;
    var locs := Locs(hash, mask, e);
    var k := MatchIndex(s, locs, e);
    if k < 8 {
      assert locs[k] in locs && s[locs[k]].element == e;
    }
  }

  lemma StaysHomed<Element>(s: seq<Slot<Element>>, i: nat, x: Slot<Element>, hash: (nat, Element) -> nat, mask: nat)
    requires i < |s| && Homed(s, hash, mask) && (x.kept ==> i in Locs(hash, mask, x.element))
    ensures Homed(s[i := x], hash, mask)
  {
    hide Locs;
  }

  /** Changing the flags of one slot changes the kept elements by at most its element. */
  lemma FlagsChanged<Element>(s: seq<Slot<Element>>, i: nat, x: Slot<Element>)
    requires i < |s| && x.element == s[i].element
    ensures var now := Kept(s[i := x]);
      if x.kept == s[i].kept then now == Kept(s)
      else if x.kept then now == Kept(s) + multiset{x.element}
      else now + multiset{x.element} == Kept(s)
    ensures Live(s[i := x]) <= Live(s) + (if x.kept then 1 else 0)
  {
    hide Kept, Live;
    KeptUpdate(s, i, x);
    LiveUpdate(s, i, x);
    if x.kept == s[i].kept {
      Cancel(Kept(s[i := x]), Kept(s), One(x));
    }
  }

  lemma KeptHas<Element>(s: seq<Slot<Element>>, i: nat)
    requires i < |s| && s[i].kept
    ensures s[i].element in Kept(s)
  {
    FlagsChanged(s, i, s[i].(kept := false));
  }

  lemma Cancel<T>(a: multiset<T>, b: multiset<T>, x: multiset<T>)
    requires a + x == b + x
    ensures a == b
  {
    forall t ensures a[t] == b[t] {
      assert (a + x)[t] == (b + x)[t];
    }
  }
}
