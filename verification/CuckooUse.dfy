/**
 * What users of the cache of src/cuckoocache.h can rely on: its counts as numbers of slots, what an insert stores and
 * how long it stays.
 */
module CuckooUse {
  import opened Arith
  import opened Foundations
  import opened CuckooCache

  // ------------------------------------------------------------------
  // Counts
  // ------------------------------------------------------------------

  /** The live count is the number of kept slots of the current epoch. */
  lemma {:induction false} LiveIsNumber<Element>(s: seq<Slot<Element>>)
    ensures Live(s) == |set i | 0 <= i < |s| && s[i].kept && s[i].current|
  {
    var all := set i | 0 <= i < |s| && s[i].kept && s[i].current;
    if s == [] {
      assert all == {};
    } else {
      var n := |s| - 1;
      LiveIsNumber(s[..n]);
      var some := set i | 0 <= i < |s[..n]| && s[..n][i].kept && s[..n][i].current;
      assert all == if s[n].kept && s[n].current then some + {n} else some;
    }
  }

  /** The kept elements count an element once for every kept slot that holds it. */
  lemma {:induction false} KeptIsNumber<Element>(s: seq<Slot<Element>>, e: Element)
    ensures Kept(s)[e] == |Holding(s, e)|
  {
    if s != [] {
      var n := |s| - 1;
      KeptIsNumber(s[..n], e);
      HoldingStep(s, e);
      KeptStep(s);
      hide Kept, Holding;
    }
  }

  /** The kept slots that hold an element. */
  ghost function Holding<Element>(s: seq<Slot<Element>>, e: Element): set<int> {
    set i | 0 <= i < |s| && s[i].kept && s[i].element == e
  }

  lemma HoldingStep<Element>(s: seq<Slot<Element>>, e: Element)
    requires s != []
    ensures |Holding(s, e)| == |Holding(s[..|s| - 1], e)| + One(s[|s| - 1])[e]
  {
    var n := |s| - 1;
    assert Holding(s, e) == if s[n].kept && s[n].element == e then Holding(s[..n], e) + {n} else Holding(s[..n], e);
  }

  // ------------------------------------------------------------------
  // Inserts
  // ------------------------------------------------------------------

  /** An element found before is protected by inserting it again; a new one goes into the first of its slots that is
      not protected, and the other slots stay as they were. */
  method InsertPlaces<Element(==)>(cache: Cache<Element>, e: Element, ghost locs: seq<nat>, ghost k: nat)
    returns (dropped: Option<Element>)
    requires cache.Valid() && cache.epochHeuristicCounter > 0
    requires k < |locs| == 8 && AreLocs(cache.hash, cache.size, e, locs) && Takes(cache.Slots(), locs, e, k)
    modifies cache, cache.table, cache.flags.mem, cache.epochFlags
    ensures cache.Valid() && dropped == None
    ensures cache.Slots() == old(cache.Slots())[locs[k] := Slot(e, true, true)]
  {
    hide Kept, Live, Locs, Homed, Walk, NeverOpen, Pow, Found, IsRenewed, Takes, AllKept;
    SameLocs(cache.hash, cache.depthLimit, e, locs);
    ghost var s := cache.Slots();
    dropped := cache.Insert(e);
    GoesTo(s, cache.Slots(), dropped, cache.hash, cache.hashMask, e, k, cache.depthLimit);
  }

  /** The k-th slot is the first that holds e or, if none does, the first that is not protected. */
  ghost predicate Takes<Element>(s: seq<Slot<Element>>, locs: seq<nat>, e: Element, k: nat) {
    && k < |locs| == 8 && (forall j :: 0 <= j < 8 ==> locs[j] < |s|)
    && if exists j :: 0 <= j < 8 && s[locs[j]].element == e
       then s[locs[k]].element == e && forall j :: 0 <= j < k ==> s[locs[j]].element != e
       else !s[locs[k]].kept && forall j :: 0 <= j < k ==> s[locs[j]].kept
  }

  lemma SameLocs<Element>(hash: (nat, Element) -> nat, depth: nat, e: Element, locs: seq<nat>)
    requires Pow(2, depth) > 0 && AreLocs(hash, Pow(2, depth), e, locs)
    ensures locs == Locs(hash, Pow(2, depth) - 1, e)
  {
    LocsAre(hash, depth, e);
    hide Locs, Pow;
  }

  lemma GoesTo<Element>(s: seq<Slot<Element>>, now: seq<Slot<Element>>, dropped: Option<Element>,
                        hash: (nat, Element) -> nat, mask: nat, e: Element, k: nat, depth: nat)
    requires mask < |s| && depth > 0 && Takes(s, Locs(hash, mask, e), e, k)
    requires if Found(s, hash, mask, e) then IsRenewed(s, now, hash, mask, e) && dropped == None
             else Walked(now, dropped) == Walk(Start(s, e), hash, mask, depth)
    ensures now == s[Locs(hash, mask, e)[k] := Slot(e, true, true)] && dropped == None
  {
    hide Locs, Walk, Found, IsRenewed;
    if exists j :: 0 <= j < 8 && s[Locs(hash, mask, e)[j]].element == e {
      RenewsAt(s, now, hash, mask, e, k);
    } else {
      WalksTo(s, hash, mask, e, k, depth);
    }
  }

  lemma RenewsAt<Element>(s: seq<Slot<Element>>, now: seq<Slot<Element>>, hash: (nat, Element) -> nat, mask: nat, e: Element, k: nat)
    requires k < 8 && mask < |s| && forall j :: 0 <= j < 8 ==> Locs(hash, mask, e)[j] < |s|
    requires var locs := Locs(hash, mask, e); s[locs[k]].element == e && forall j :: 0 <= j < k ==> s[locs[j]].element != e
    ensures Found(s, hash, mask, e)
    ensures IsRenewed(s, now, hash, mask, e) ==> now == s[Locs(hash, mask, e)[k] := Slot(e, true, true)]
  {
    MatchIsFound(s, hash, mask, e);
    hide Locs, MatchIndex;
    assert MatchIndex(s, Locs(hash, mask, e), e) == k;
  }

  lemma WalksTo<Element>(s: seq<Slot<Element>>, hash: (nat, Element) -> nat, mask: nat, e: Element, k: nat, depth: nat)
    requires k < 8 && mask < |s| && depth > 0 && forall j :: 0 <= j < 8 ==> Locs(hash, mask, e)[j] < |s|
    requires var locs := Locs(hash, mask, e); !s[locs[k]].kept && forall j :: 0 <= j < k ==> s[locs[j]].kept
    requires forall j :: 0 <= j < 8 ==> s[Locs(hash, mask, e)[j]].element != e
    ensures !Found(s, hash, mask, e)
    ensures Walk(Start(s, e), hash, mask, depth) == Walked(s[Locs(hash, mask, e)[k] := Slot(e, true, true)], None)
  {
    MatchIsFound(s, hash, mask, e);
    WalkStep(Start(s, e), hash, mask, depth);
    hide Locs, MatchIndex, OpenIndex, Walk, Found;
    assert OpenIndex(s, Locs(hash, mask, e)) == k;
  }

  /** What src/cuckoocache.h promises: after an insert, an element that is found and erased is found again. */
  method InsertEraseFind<Element(==)>(cache: Cache<Element>, x: Element) returns (r: bool)
    requires cache.Valid()
    modifies cache, cache.table, cache.flags.mem, cache.epochFlags
    ensures cache.Valid() && r
  {
    hide Kept, Live, Locs, Homed, Walk, NeverOpen, Pow, Found;
    var _ := cache.Insert(x);
    var found := cache.Contains(x, true);
    if found {
      r := cache.Contains(x, false);
    } else {
      r := true;
    }
  }

  /** An inserted element is found, unless the insert dropped it. */
  method InsertFind<Element(==)>(cache: Cache<Element>, x: Element) returns (dropped: Option<Element>, found: bool)
    requires cache.Valid()
    modifies cache, cache.table, cache.flags.mem, cache.epochFlags
    ensures cache.Valid() && (dropped != Some(x) ==> found)
  {
    hide Kept, Live, Locs, Homed, Walk, NeverOpen, Pow, Found;
    dropped := cache.Insert(x);
    assert x in Kept(cache.Slots()) + Dropped(dropped);
    found := cache.Contains(x, false);
  }

  /** The next scan is due after as many inserts as could fill the epoch, and after at least a sixteenth of it and one. */
  lemma NextScan(counter: nat, live: nat, epochSize: nat)
    ensures counter > 0 ==> NextCounter(counter, live, epochSize) == counter - 1
    ensures counter == 0 && live >= epochSize ==> NextCounter(counter, live, epochSize) == epochSize
    ensures counter == 0 && live < epochSize ==>
      var n := NextCounter(counter, live, epochSize);
      n >= 1 && n >= epochSize / 16 && live + n >= epochSize && (n == 1 || n == epochSize / 16 || live + n == epochSize)
  {
  }

  /** One change of epochs spares the protected elements of the current epoch; a second one gives them up. */
  lemma TwoEpochs<Element>(s: seq<Slot<Element>>, i: nat)
    requires i < |s|
    ensures AgedAll(s)[i].element == s[i].element && (AgedAll(s)[i].kept <==> s[i].kept && s[i].current)
    ensures AgedAll(AgedAll(s))[i].element == s[i].element && !AgedAll(AgedAll(s))[i].kept
    ensures Live(AgedAll(s)) == 0
  {
    NoneLive(AgedAll(s));
  }
}
