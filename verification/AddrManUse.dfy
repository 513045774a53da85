/**
 * What callers of the address manager see, in seconds, slots and entries: which entries are worth keeping, what an
 * announcement stores, and whom it can push out.
 */
module AddrManUse {
  import opened Foundations
  import opened Arith
  import opened AddrMan

  /** Entries tried in the last minute are left alone. Any other is given up if it is undated, a month old or from the
      future, or if it failed three times without ever succeeding, or ten times with no success in a week. */
  lemma TerribleIff(info: AddrInfo, now: int)
    ensures info.nLastTry != 0 && now - info.nLastTry <= 60 ==> !info.IsTerrible(now)
    ensures info.nLastTry == 0 || now - info.nLastTry > 60 ==>
      (info.IsTerrible(now) <==>
       || info.addr.nTime == 0 || info.addr.nTime < now - 2592000 || info.addr.nTime > now + 600
       || (info.nLastSuccess == 0 && info.nAttempts >= 3)
       || (info.nLastSuccess < now - 604800 && info.nAttempts >= 10))
  {
  }

  /** With ports told apart an address finds its own entry, otherwise any entry of the same host. */
  lemma FindIff(man: Manager, s: Service, id: int)
    requires man.Valid()
    ensures man.discriminatePorts ==>
      (man.Find(s) == Some(id) <==> id in man.mapInfo && man.mapInfo[id].addr.service == s)
    ensures !man.discriminatePorts ==>
      (man.Find(s) == Some(id) <==> id in man.mapInfo && man.mapInfo[id].addr.service.ip == s.ip)
  {
    hide NewTableOk, RefsOk, TriedTableOk, RandomOk;
    FindIsInfo(man.mapInfo, man.mapAddr, man.discriminatePorts, id, s);
  }

  /** The holder of the new slot for an address heard of from a source, or -1. */
  ghost function Holder(man: Manager, s: Service, source: nat): int
    requires man.Shaped()
    reads man, man.vvNew
  {
    var b := man.h.announced(s, source) % 1024;
    man.vvNew[b, man.h.pos(true, b, s) % 64]
  }

  // ------------------------------------------------------------------
  // Announcements
  // ------------------------------------------------------------------

  /** The first announcement of an address: it is stored unless its slot is held by a fit entry that has no other
      slot. Its time is cut by the penalty, which a host does not pay for itself. */
  method FirstAnnouncement(man: Manager, addr: Address, source: nat, penalty: int, now: int, dice: nat)
    requires man.Valid() && man.isRoutable(addr.service) && man.Find(addr.service).None?
    modifies man, man.vvNew
    ensures man.Valid()
    ensures var x := old(Holder(man, addr.service, source));
            man.Find(addr.service).None? <==> x != -1 && old(man.mapInfo[x].nRefCount == 1 && !man.mapInfo[x].IsTerrible(now))
    ensures man.Find(addr.service).Some? ==>
      var info := man.mapInfo[man.Find(addr.service).value];
      && info.addr.service == addr.service && info.addr.services == addr.services && info.source == source
      && info.nRefCount == 1 && !info.fInTried
      && info.nLastTry == info.nLastSuccess == info.nAttempts == info.nLastCountAttempt == 0
    ensures man.Find(addr.service).Some? ==>
      var t := man.mapInfo[man.Find(addr.service).value].addr.nTime;
      && (source == addr.service.ip ==> t == (if addr.nTime >= 0 then addr.nTime else 0))
      && (source != addr.service.ip ==> t == (if addr.nTime >= penalty then addr.nTime - penalty else 0))
    ensures man.Find(addr.service).Some? ==> Holder(man, addr.service, source) == man.Find(addr.service).value
    ensures forall id :: id in old(man.mapInfo) && id != old(Holder(man, addr.service, source)) ==>
              Kept(old(man.mapInfo), man.mapInfo, id)
    ensures var x := old(Holder(man, addr.service, source));
            x != -1 ==> if man.Find(addr.service).Some? then LostSlot(old(man.mapInfo), man.mapInfo, x)
                        else Kept(old(man.mapInfo), man.mapInfo, x)
  {
    hide AddrOk, NewTableOk, RefsOk, TriedTableOk, NewIds, TriedIds, IdsOk, RandomOk, Slots;
    ghost var m, r := man.mapInfo, man.Find(addr.service);
    ghost var y := man.OustedBy(addr, source, penalty, now, dice);
    FirstFacts(man, addr, source, penalty, now, dice);
    hide Manager.SlotOpen, Manager.OustedBy, Disturbed, Kept, LostSlot, AddrInfo.IsTerrible, Announced, Penalty;
    var _ := man.Add(addr, source, penalty, now, dice);
    DisturbedParts(m, man.mapInfo, man.Find(addr.service), y);
    AnnouncedIs(addr, source, penalty);
    HolderIs(man, addr.service, source);
  }

  /** When a new address finds its slot open, and whom it ousts. */
  lemma FirstFacts(man: Manager, addr: Address, source: nat, penalty: int, now: int, dice: nat)
    requires man.Valid() && man.isRoutable(addr.service) && man.Find(addr.service).None?
    ensures var x, open := Holder(man, addr.service, source), man.SlotOpen(Announced(addr, source, penalty), source, now);
            && (x != -1 ==> x in man.mapInfo)
            && (!open <==> x != -1 && man.mapInfo[x].nRefCount == 1 && !man.mapInfo[x].IsTerrible(now))
            && man.OustedBy(addr, source, penalty, now, dice) == if open then x else -1
    ensures man.nIdCount !in man.mapInfo && -1 !in man.mapInfo
  {
    assert man.nIdCount !in man.mapInfo;
    hide AddrOk, NewTableOk, RefsOk, TriedTableOk, NewIds, TriedIds, IdsOk, RandomOk, Slots, AddrInfo.IsTerrible;
    HolderIsNew(man, addr.service, source);
    NotMinusOneOf(man);
  }

  lemma NotMinusOneOf(man: Manager)
    requires man.Valid()
    ensures -1 !in man.mapInfo
  {
    hide AddrOk, RefsOk, TriedTableOk, NewIds, TriedIds, IdsOk, RandomOk, Slots;
  }

  lemma DisturbedParts(m: Infos, m': Infos, r: Option<int>, y: int)
    requires Disturbed(m, m', r, y)
    ensures y != -1 ==> LostSlot(m, m', y)
    ensures forall id :: id in m && r != Some(id) && id != y ==> Kept(m, m', id)
  {
  }

  /** What is stored of a new address. */
  lemma AnnouncedIs(addr: Address, source: nat, penalty: int)
    ensures var info := Announced(addr, source, Penalty(addr, source, penalty));
      && info.addr.service == addr.service && info.addr.services == addr.services && info.source == source && !info.fInTried
      && info.nLastTry == info.nLastSuccess == info.nAttempts == info.nLastCountAttempt == 0
      && (source == addr.service.ip ==> info.addr.nTime == (if addr.nTime >= 0 then addr.nTime else 0))
      && (source != addr.service.ip ==> info.addr.nTime == (if addr.nTime >= penalty then addr.nTime - penalty else 0))
  {
  }

  lemma HolderIs(man: Manager, s: Service, source: nat)
    requires man.Shaped()
    ensures Holder(man, s, source) == man.Occupant(s, source)
  {
  }

  lemma HolderIsNew(man: Manager, s: Service, source: nat)
    requires man.Valid()
    ensures var x := Holder(man, s, source);
            x != -1 ==> x in man.mapInfo && !man.mapInfo[x].fInTried && 1 <= man.mapInfo[x].nRefCount <= 8
  {
    var b := man.h.announced(s, source) % 1024;
    hide AddrOk, NewTableOk, RefsOk, TriedTableOk, NewIds, TriedIds, IdsOk, RandomOk, Slots;
    if Holder(man, s, source) != -1 {
      SlotAt(man.mapInfo, Cells(man.vvNew), man.h, {}, b, man.h.pos(true, b, s) % 64);
      RefAt(man.mapInfo, Cells(man.vvNew), man.h, {}, Holder(man, s, source));
    }
  }

  ghost predicate Multiple(x: nat, n: nat) {
    exists k: nat :: x == k * n
  }

  lemma MultipleIff(x: nat, n: nat)
    requires n > 0
    ensures Multiple(x, n) <==> x % n == 0
  {
    if x % n == 0 {
      assert x == x / n * n;
    } else if Multiple(x, n) {
      var k: nat :| x == k * n;
      DivModUnique(x, n, k, 0);
    }
  }

  /** The entry takes a time that is newer by more than an hour, or by more than a day if the announcement is itself a day
      old, less the penalty, and all services; only its slots and its place in vRandom change besides. */
  ghost predicate IsRefreshed(was: AddrInfo, info: AddrInfo, addr: Address, penalty: int, now: int) {
    var step := if now - addr.nTime < 86400 then 3600 else 86400;
    && info.addr.services == was.addr.services + addr.services
    && (if addr.nTime != 0 && (was.addr.nTime == 0 || was.addr.nTime + step + penalty < addr.nTime)
        then info.addr.nTime == (if addr.nTime >= penalty then addr.nTime - penalty else 0)
        else info.addr.nTime == was.addr.nTime)
    && info == was.(addr := was.addr.(services := info.addr.services, nTime := info.addr.nTime),
                    nRefCount := info.nRefCount, nRandomPos := info.nRandomPos)
  }

  /** The entry is untried, the announcement newer, there are fewer than 8 slots, the dice show a multiple of 2^n for n
      slots, and the slot is free or another unfit entry's. */
  ghost predicate GainsSlot(m: Infos, info: AddrInfo, refs: int, addr: Address, dice: nat, id: int, x: int, now: int) {
    && addr.nTime != 0 && (info.addr.nTime == 0 || addr.nTime > info.addr.nTime)
    && !info.fInTried && 1 <= refs < 8 && Multiple(dice, Pow(2, refs))
    && x != id && (x != -1 ==> x in m && m[x].IsTerrible(now))
  }

  /** A repeated announcement refreshes the entry, and gives it a slot exactly if it gains one. */
  method RepeatedAnnouncement(man: Manager, addr: Address, source: nat, penalty: int, now: int, dice: nat)
    requires man.Valid() && man.isRoutable(addr.service) && man.Find(addr.service).Some?
    modifies man, man.vvNew
    ensures man.Valid() && man.Find(addr.service) == old(man.Find(addr.service))
    ensures var id := man.Find(addr.service).value;
            IsRefreshed(old(man.mapInfo)[id], man.mapInfo[id], addr, if source == addr.service.ip then 0 else penalty, now)
    ensures var id, x := man.Find(addr.service).value, old(SlotFor(man, addr.service, source));
            var was, info, m := old(man.mapInfo)[id], man.mapInfo[id], old(man.mapInfo);
            if GainsSlot(m, info, was.nRefCount, addr, dice, id, x, now) then
              && info.nRefCount == was.nRefCount + 1 && SlotFor(man, addr.service, source) == id
              && (x != -1 ==> LostSlot(m, man.mapInfo, x))
              && (forall i :: i in m && i != id && i != x ==> Kept(m, man.mapInfo, i))
            else
              info.nRefCount == was.nRefCount && forall i :: i in m && i != id ==> Kept(m, man.mapInfo, i)
  {
    hide AddrOk, NewTableOk, RefsOk, TriedTableOk, NewIds, TriedIds, IdsOk, RandomOk, Slots;
    ghost var id, m := man.Find(addr.service).value, man.mapInfo;
    ghost var y := man.OustedBy(addr, source, penalty, now, dice);
    ghost var e := man.Readded(id, addr, source, Penalty(addr, source, penalty), now, dice);
    RepeatedFacts(man, addr, source, penalty, now, dice);
    hide Manager.SlotOpen, Manager.OustedBy, Manager.Readded, Disturbed, Kept, LostSlot, AddrInfo.IsTerrible, Penalty, Multiple, Pow;
    var _ := man.Add(addr, source, penalty, now, dice);
    DisturbedParts(m, man.mapInfo, Some(id), y);
    HolderIs(man, man.mapInfo[id].addr.service, source);
  }

  lemma RefreshedIs(was: AddrInfo, addr: Address, p: int, now: int)
    ensures IsRefreshed(was, Refreshed(was, addr, p, now), addr, p, now)
    ensures Refreshed(was, addr, p, now).nRefCount == was.nRefCount && Refreshed(was, addr, p, now).fInTried == was.fInTried
  {
  }

  /** Whether an entry tries for the slot, and whether it may have it. */
  lemma SlotForIs(man: Manager, s: Service, source: nat, info: AddrInfo, nTime: int, now: int, dice: nat)
    requires man.Valid() && man.Find(s).Some?
    requires var was := man.mapInfo[man.Find(s).value];
             info.addr.service == was.addr.service && info.nRefCount == was.nRefCount && info.fInTried == was.fInTried
    ensures var id, x := man.Find(s).value, SlotFor(man, s, source);
            && (man.InSlot(id, info, source) <==> x == id)
            && (info.nRefCount >= 1 && x != id ==> (man.SlotOpen(info, source, now) <==> x == -1 || man.mapInfo[x].IsTerrible(now)))
            && (Wanted(info, nTime, dice) <==>
                && nTime != 0 && (info.addr.nTime == 0 || nTime > info.addr.nTime)
                && !info.fInTried && 1 <= info.nRefCount < 8 && Multiple(dice, Pow(2, info.nRefCount)))
            && man.Occupant(info.addr.service, source) == x
  {
    ghost var id := man.Find(s).value;
    HolderIsNew(man, man.mapInfo[id].addr.service, source);
    hide AddrOk, NewTableOk, RefsOk, TriedTableOk, NewIds, TriedIds, IdsOk, RandomOk, Slots;
    RefAt(man.mapInfo, Cells(man.vvNew), man.h, {}, id);
    TriedHasNoRefs(man.mapInfo, Cells(man.vvNew), man.h, {}, id);
    PowPositive(2, info.nRefCount);
    MultipleIff(dice, Pow(2, info.nRefCount));
    hide AddrInfo.IsTerrible, Multiple, Pow;
  }

  /** What becomes of a known entry, and whom it ousts. */
  lemma RepeatedFacts(man: Manager, addr: Address, source: nat, penalty: int, now: int, dice: nat)
    requires man.Valid() && man.isRoutable(addr.service) && man.Find(addr.service).Some?
    ensures var id, x, p := man.Find(addr.service).value, SlotFor(man, addr.service, source), Penalty(addr, source, penalty);
            var was, e := man.mapInfo[id], man.Readded(id, addr, source, p, now, dice);
            var gains := GainsSlot(man.mapInfo, e, was.nRefCount, addr, dice, id, x, now);
            && p == (if source == addr.service.ip then 0 else penalty)
            && IsRefreshed(was, e, addr, p, now) && e.nRefCount == was.nRefCount + (if gains then 1 else 0)
            && man.OustedBy(addr, source, penalty, now, dice) == if gains then x else -1
    ensures -1 !in man.mapInfo
  {
    NotMinusOneOf(man);
    hide AddrOk, NewTableOk, RefsOk, TriedTableOk, NewIds, TriedIds, IdsOk, RandomOk, Slots;
    ghost var id, p := man.Find(addr.service).value, Penalty(addr, source, penalty);
    ghost var info := Refreshed(man.mapInfo[id], addr, p, now);
    RefreshedIs(man.mapInfo[id], addr, p, now);
    SlotForIs(man, addr.service, source, info, addr.nTime, now, dice);
    hide AddrInfo.IsTerrible, Multiple, Pow, Refreshed, Wanted, Manager.SlotOpen, Manager.InSlot, Manager.Occupant, SlotFor;
  }

  /** The holder of the slot that an entry may get for another announcement by a source. */
  ghost function SlotFor(man: Manager, s: Service, source: nat): (x: int)
    requires man.Valid() && man.Find(s).Some?
    reads man, man.vvNew, man.vvTried
    ensures x != -1 ==> x in man.mapInfo
  {
    HolderIsNew(man, man.mapInfo[man.Find(s).value].addr.service, source);
    Holder(man, man.mapInfo[man.Find(s).value].addr.service, source)
  }

  datatype Announcement = Announcement(addr: Address, source: nat, penalty: int, now: int, dice: nat)

  /** For a minute after an attempt to connect, no number of announcements removes the entry. */
  method AttemptProtects(man: Manager, s: Service, count: bool, t: int, news: seq<Announcement>)
    requires man.Valid() && man.Exact(s) && t > 0
    requires forall i :: 0 <= i < |news| ==> news[i].now <= t + 60
    modifies man, man.vvNew
    ensures man.Valid() && man.Find(s) == old(man.Find(s)) && man.Exact(s)
    ensures man.mapInfo[man.Find(s).value].nLastTry == t
  {
    hide AddrOk, NewTableOk, RefsOk, TriedTableOk, NewIds, TriedIds, IdsOk, RandomOk, Slots;
    var id := man.Find(s).value;
    man.Attempt(s, count, t);
    for i := 0 to |news|
      invariant man.Valid() && id in man.mapInfo && man.mapInfo[id].addr.service == s && man.mapInfo[id].nLastTry == t
    {
      var a := news[i];
      AnnounceNear(man, id, a);
    }
    FindIff(man, s, id);
  }

  /** One announcement within a minute of an attempt keeps the entry. */
  method AnnounceNear(man: Manager, id: int, a: Announcement)
    requires man.Valid() && id in man.mapInfo && man.mapInfo[id].nLastTry != 0 && a.now <= man.mapInfo[id].nLastTry + 60
    modifies man, man.vvNew
    ensures man.Valid() && id in man.mapInfo
    ensures man.mapInfo[id].addr.service == old(man.mapInfo)[id].addr.service
    ensures man.mapInfo[id].nLastTry == old(man.mapInfo)[id].nLastTry
  {
    hide AddrOk, NewTableOk, RefsOk, TriedTableOk, NewIds, TriedIds, IdsOk, RandomOk, Slots;
    NotMinusOneOf(man);
    TerribleIff(man.mapInfo[id], a.now);
    hide AddrInfo.IsTerrible, Multiple;
    if !man.isRoutable(a.addr.service) {
      var _ := man.Add(a.addr, a.source, a.penalty, a.now, a.dice);
    } else if man.Find(a.addr.service).None? {
      FirstAnnouncement(man, a.addr, a.source, a.penalty, a.now, a.dice);
    } else {
      RepeatedAnnouncement(man, a.addr, a.source, a.penalty, a.now, a.dice);
    }
  }

  /** A third counted failure without a success costs the entry its only slot, more than a minute later, as soon as
      another address is announced for that slot. */
  method FailureGivesWay(man: Manager, s: Service, t: int, a: Announcement)
    requires man.Valid() && man.Exact(s) && man.isRoutable(a.addr.service) && man.Find(a.addr.service).None?
    requires var id := man.Find(s).value;
             var info := man.mapInfo[id];
             && info.nLastSuccess == 0 && info.nAttempts == 2 && info.nLastCountAttempt < man.nLastGood && info.nRefCount == 1
             && Holder(man, a.addr.service, a.source) == id
    requires a.now > t + 60
    modifies man, man.vvNew
    ensures man.Valid() && man.Find(a.addr.service).Some? && old(man.Find(s)).value !in man.mapInfo
  {
    hide AddrOk, NewTableOk, RefsOk, TriedTableOk, NewIds, TriedIds, IdsOk, RandomOk, Slots;
    ghost var id := man.Find(s).value;
    HolderIsNew(man, a.addr.service, a.source);
    NotMinusOneOf(man);
    man.Attempt(s, true, t);
    TerribleIff(man.mapInfo[id], a.now);
    hide AddrInfo.IsTerrible, Kept;
    FirstAnnouncement(man, a.addr, a.source, a.penalty, a.now, a.dice);
  }

  /** After a success the entry sits in its tried slot and is fit at any time within 30 days of its time stamp. */
  method GoodIsFit(man: Manager, s: Service, t: int, rnd: nat)
    requires man.Valid() && man.Exact(s) && rnd < 1024
    modifies man, man.vvNew, man.vvTried
    ensures man.Valid() && man.Find(s) == old(man.Find(s)) && man.Exact(s)
    ensures var id := man.Find(s).value;
            var info := man.mapInfo[id];
            && info.fInTried && info.nAttempts == 0 && info.nLastSuccess == info.nLastTry == t && info.nRefCount == 0
            && info.addr == old(man.mapInfo)[id].addr
            && var b := man.h.tried(s) % 256;
               man.vvTried[b, man.h.pos(false, b, s) % 64] == id
    ensures var b := man.h.tried(s) % 256;
            var x := old(man.vvTried[b, man.h.pos(false, b, s) % 64]);
            x != -1 && x != man.Find(s).value ==>
              && x in man.mapInfo && !man.mapInfo[x].fInTried && man.mapInfo[x].nRefCount == 1
              && Holder(man, man.mapInfo[x].addr.service, man.mapInfo[x].source) == x
    ensures var info := man.mapInfo[man.Find(s).value];
            forall now :: info.addr.nTime != 0 && now - 2592000 <= info.addr.nTime <= now + 600 ==> !info.IsTerrible(now)
  {
    hide TimesOk, KeptExcept, LostSlot, AddrOk, NewTableOk, RefsOk, TriedTableOk, NewIds, TriedIds, IdsOk, RandomOk, Slots;
    ghost var id := man.Find(s).value;
    TriedHasNoRefs(man.mapInfo, Cells(man.vvNew), man.h, {}, id);
    man.Good(s, t, rnd);
    GoodIsTried(man, id, s);
  }

  lemma GoodIsTried(man: Manager, id: int, s: Service)
    requires man.Valid() && id in man.mapInfo && man.mapInfo[id].addr.service == s && man.mapInfo[id].fInTried
    ensures man.Find(s) == Some(id)
    ensures var b := man.h.tried(s) % 256;
            man.vvTried[b, man.h.pos(false, b, s) % 64] == id
  {
    FindIff(man, s, id);
    hide AddrOk, NewTableOk, RefsOk, NewIds, TriedIds, IdsOk, RandomOk, Slots;
    assert TriedHome(man.mapInfo[id], Cells(man.vvTried), man.h) == id;
  }

  // ------------------------------------------------------------------
  // Answers to getaddr
  // ------------------------------------------------------------------

  /** The ids of the entries that are worth passing on. */
  ghost function FitIds(m: Infos, now: int): set<int> {
    set id | id in m && !m[id].IsTerrible(now)
  }

  /** The answer to getaddr holds fit entries only, each once: all of them, up to 23% of all entries and 2500. */
  method Sample(man: Manager, now: int, rnd: nat -> nat) returns (vAddr: seq<Address>, ghost ids: seq<int>)
    requires man.Valid()
    modifies man
    ensures man.Valid() && Moved(old(man.mapInfo), man.mapInfo)
    ensures |ids| == |vAddr| && (forall i, j :: 0 <= i < j < |ids| ==> ids[i] != ids[j])
    ensures forall i :: 0 <= i < |ids| ==> ids[i] in FitIds(man.mapInfo, now) && vAddr[i] == man.mapInfo[ids[i]].addr
    ensures var limit := if |man.mapInfo| * 23 / 100 > 2500 then 2500 else |man.mapInfo| * 23 / 100;
            && |vAddr| == (if |FitIds(man.mapInfo, now)| < limit then |FitIds(man.mapInfo, now)| else limit)
            && (|vAddr| < limit ==> forall id :: id in FitIds(man.mapInfo, now) ==> id in ids)
  {
    hide AddrOk, NewTableOk, RefsOk, TriedTableOk, NewIds, TriedIds, IdsOk, RandomOk, Slots;
    vAddr, ids := man.GetAddr(now, rnd);
    SelectionSize(man.mapInfo, ids, vAddr, now);
  }

  lemma SelectionSize(m: Infos, ids: seq<int>, vAddr: seq<Address>, now: int)
    requires Selection(m, ids, vAddr, now)
    ensures |ids| <= |FitIds(m, now)|
    ensures (forall id :: id in m && !m[id].IsTerrible(now) ==> id in ids) ==> |ids| == |FitIds(m, now)|
  {
    var s := set id | id in ids;
    MembersOfDistinct(ids);
    assert FitIds(m, now) == s + (FitIds(m, now) - s);
    if forall id :: id in m && !m[id].IsTerrible(now) ==> id in ids {
      assert s == FitIds(m, now);
    }
  }

  /** An entry tried just now is in the answer to getaddr unless the answer is full, and of five entries one is. */
  method TriedIsSampled(man: Manager, s: Service, count: bool, now: int, rnd: nat -> nat) returns (vAddr: seq<Address>)
    requires man.Valid() && man.Exact(s) && now > 0
    modifies man
    ensures |man.mapInfo| >= 5 ==> vAddr != []
    ensures |vAddr| < 2500 && |vAddr| < |man.mapInfo| * 23 / 100 ==> old(man.mapInfo)[old(man.Find(s)).value].addr in vAddr
  {
    hide AddrOk, NewTableOk, RefsOk, TriedTableOk, NewIds, TriedIds, IdsOk, RandomOk, Slots;
    ghost var id := man.Find(s).value;
    man.Attempt(s, count, now);
    TerribleIff(man.mapInfo[id], now);
    ghost var info := man.mapInfo[id];
    hide AddrInfo.IsTerrible;
    ghost var ids;
    vAddr, ids := Sample(man, now, rnd);
    assert man.mapInfo[id] == info.(nRandomPos := man.mapInfo[id].nRandomPos);
    assert id in FitIds(man.mapInfo, now);
    if id in ids {
      ghost var i :| 0 <= i < |ids| && ids[i] == id;
      assert vAddr[i] == info.addr;
    }
  }

  /** Places once filled are not drawn from again. */
  lemma {:induction false} DrawnPrefix(v: seq<int>, rnd: nat -> nat, k: nat, n: nat)
    requires k <= n <= |v|
    ensures Drawn(v, rnd, n)[..k] == Drawn(v, rnd, k)[..k]
    decreases n
  {
    if k < n {
      DrawnPrefix(v, rnd, k, n - 1);
    }
  }

  /** Draws only change the order. */
  lemma {:induction false} DrawnSame(v: seq<int>, rnd: nat -> nat, n: nat)
    requires n <= |v|
    ensures multiset(Drawn(v, rnd, n)) == multiset(v)
    decreases n
  {
    hide Exchanged, DrawnFrom;
    if n > 0 {
      var i := n - 1;
      DrawnSame(v, rnd, i);
      SwapSame(Drawn(v, rnd, i), i, DrawnFrom(rnd, i, |v|));
    }
  }

  lemma SwapSame(u: seq<int>, i: nat, p: nat)
    requires i < |u| && p < |u|
    ensures multiset(Exchanged(u, i, p)) == multiset(u)
  {
    var w := u[i := u[p]];
    assert multiset(w) == multiset(u)[u[i] := multiset(u)[u[i]] - 1] + multiset{u[p]};
  }

  lemma {:induction false} FitFirst(m: Infos, ids: seq<int>, now: int)
    requires ids != [] && ids[0] in m && !m[ids[0]].IsTerrible(now)
    ensures AddrMan.Fit(m, ids, now) != [] && AddrMan.Fit(m, ids, now)[0] == ids[0]
    decreases |ids|
  {
    if |ids| > 1 {
      FitFirst(m, ids[..|ids| - 1], now);
    } else {
      assert AddrMan.Fit(m, ids[..0], now) == [];
    }
  }

  /** Every fit entry comes first in the answer for some random numbers: those that name its place in vRandom first. */
  method AnyCanBeFirst(man: Manager, now: int, rnd: nat -> nat, id: int) returns (vAddr: seq<Address>)
    requires man.Valid() && id in FitIds(man.mapInfo, now) && |man.mapInfo| >= 5
    requires rnd(0) % |man.mapInfo| == man.mapInfo[id].nRandomPos
    modifies man
    ensures vAddr != [] && vAddr[0] == old(man.mapInfo)[id].addr
  {
    ghost var m, v := man.mapInfo, man.vRandom;
    RandomAt(m, v, id, 0);
    RandomSize(m, v);
    hide AddrOk, NewTableOk, RefsOk, TriedTableOk, NewIds, TriedIds, IdsOk, RandomOk, Slots, AddrInfo.IsTerrible, Drawn, AddrMan.Fit;
    ghost var ids;
    vAddr, ids := man.GetAddr(now, rnd);
    assert id in man.mapInfo.Keys && man.mapInfo[id] == m[id].(nRandomPos := man.mapInfo[id].nRandomPos);
    SelectionSize(man.mapInfo, ids, vAddr, now);
    SameFitness(m, man.mapInfo, id, now);
    ghost var n: nat :| n <= |v| && man.vRandom == Drawn(v, rnd, n) && ids == AddrMan.Fit(m, man.vRandom[..n], now);
    FirstDrawn(m, v, rnd, n, id, now);
  }

  lemma FirstDrawn(m: Infos, v: seq<int>, rnd: nat -> nat, n: nat, id: int, now: int)
    requires n <= |v| && v != [] && v[rnd(0) % |v|] == id && id in m && !m[id].IsTerrible(now)
    ensures var ids := AddrMan.Fit(m, Drawn(v, rnd, n)[..n], now);
            n > 0 ==> ids != [] && ids[0] == id
  {
    if n > 0 {
      DrawnPrefix(v, rnd, 1, n);
      assert Drawn(v, rnd, 0) == v;
      assert Drawn(v, rnd, 1)[0] == id;
      assert Drawn(v, rnd, n)[0] == Drawn(v, rnd, n)[..1][0] == Drawn(v, rnd, 1)[..1][0];
      FitFirst(m, Drawn(v, rnd, n)[..n], now);
    }
  }
}
