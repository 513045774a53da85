/**
 * The consistency check of src/addrman.cpp, as written, and when a consistent manager
 * passes it.
 */
module AddrManCheck {
  import opened Foundations
  import opened AddrMan

  /** Reading a map through operator[]: an absent key reads as 0. */
  function RawRead(a: map<Service, int>, s: Service): int {
    if s in a then a[s] else 0
  }

  // ------------------------------------------------------------------
  // One entry
  // ------------------------------------------------------------------

  /** What the loop over mapInfo returns for one entry, 0 if it goes on. mapAddr is read at the raw address. */
  function EntryCode(id: int, info: AddrInfo, a: map<Service, int>, v: seq<int>): int {
    if info.fInTried && info.nLastSuccess == 0 then -1
    else if info.fInTried && info.nRefCount != 0 then -2
    else if !info.fInTried && (info.nRefCount < 0 || info.nRefCount > NEW_BUCKETS_PER_ADDRESS) then -3
    else if !info.fInTried && info.nRefCount == 0 then -4
    else if RawRead(a, info.addr.service) != id then -5
    else if info.nRandomPos < 0 || info.nRandomPos >= |v| || v[info.nRandomPos] != id then -14
    else if info.nLastTry < 0 then -6
    else if info.nLastSuccess < 0 then -8
    else 0
  }

  lemma SameCode(id: int, info: AddrInfo, a: map<Service, int>, a': map<Service, int>, v: seq<int>)
    requires RawRead(a, info.addr.service) == RawRead(a', info.addr.service)
    ensures EntryCode(id, info, a, v) == EntryCode(id, info, a', v)
  {
  }

  ghost predicate EntriesPass(m: Infos, a: map<Service, int>, v: seq<int>) {
    forall id :: id in m ==> EntryCode(id, m[id], a, v) == 0
  }

  /** The raw address of an entry is its key: ports are discriminated, or its port is 0. */
  predicate RawKey(s: Service, discriminatePorts: bool) {
    discriminatePorts || s.port == 0
  }

  /** What is left of the tests of one entry in a consistent manager: the two time stamps, and that
      its raw address is its key or its id is the value read for an absent key. */
  lemma ValidEntry(man: Manager, id: int)
    requires man.Valid() && id in man.mapInfo
    ensures var info := man.mapInfo[id];
            EntryCode(id, info, man.mapAddr, man.vRandom) ==
              if info.fInTried && info.nLastSuccess == 0 then -1
              else if id != 0 && !RawKey(info.addr.service, man.discriminatePorts) then -5
              else if info.nLastTry < 0 then -6
              else if info.nLastSuccess < 0 then -8
              else 0
  {
    hide Slots, TriedTableOk;
    var m, t := man.mapInfo, Cells(man.vvNew);
    RefAt(m, t, man.h, {}, id);
    TriedHasNoRefs(m, t, man.h, {}, id);
    RawReadOfEntry(m, man.mapAddr, man.discriminatePorts, id);
  }

  lemma RawReadOfEntry(m: Infos, a: map<Service, int>, d: bool, id: int)
    requires AddrOk(m, a, d) && id in m
    ensures RawRead(a, m[id].addr.service) == id <==> id == 0 || RawKey(m[id].addr.service, d)
  {
    var s := m[id].addr.service;
    if s in a {
      assert Norm(d, m[a[s]].addr.service) == s;
    } else {
      assert Norm(d, s) in a;
    }
  }

  /** What the check leaves in mapAddr: each raw address it read and did not find, as 0. */
  ghost predicate OnlyRawKeys(m: Infos, a: map<Service, int>, a': map<Service, int>) {
    && (forall s :: s in a ==> s in a' && a'[s] == a[s])
    && (forall s :: s in a' && s !in a ==> a'[s] == 0 && exists id :: id in m && m[id].addr.service == s)
  }

  /** The keys the check adds are no normalised addresses, so no search meets them. */
  lemma RawKeysAreNotFound(m: Infos, a: map<Service, int>, a': map<Service, int>, d: bool, s: Service)
    requires AddrOk(m, a, d) && OnlyRawKeys(m, a, a')
    ensures Lookup(a', Norm(d, s)) == Lookup(a, Norm(d, s))
  {
  }

  lemma RawKeyAdded(m: Infos, a: map<Service, int>, a': map<Service, int>, id: int)
    requires OnlyRawKeys(m, a, a') && id in m
    ensures RawRead(a', m[id].addr.service) == RawRead(a, m[id].addr.service)
    ensures m[id].addr.service !in a' ==> OnlyRawKeys(m, a, a'[m[id].addr.service := 0])
  {
  }

  /** `order` lists the ids as the iterator of std::map visits them. */
  ghost predicate InKeyOrder(m: Infos, order: seq<int>) {
    && (forall i, j :: 0 <= i < j < |order| ==> order[i] < order[j])
    && (forall id :: id in order <==> id in m)
  }

  /** The ids in `seen` by table: the tried ones, and the others with their slots. */
  ghost predicate Grouped(m: Infos, seen: seq<int>, setTried: set<int>, mapNew: map<int, int>) {
    && (forall id :: id in setTried <==> id in seen && id in m && m[id].fInTried)
    && (forall id :: id in mapNew <==> id in seen && id in m && !m[id].fInTried)
    && (forall id :: id in mapNew && id in m ==> mapNew[id] == m[id].nRefCount)
  }

  lemma GroupedStep(m: Infos, seen: seq<int>, id: int, setTried: set<int>, mapNew: map<int, int>)
    requires Grouped(m, seen, setTried, mapNew) && id in m
    ensures m[id].fInTried ==> Grouped(m, seen + [id], setTried + {id}, mapNew)
    ensures !m[id].fInTried ==> Grouped(m, seen + [id], setTried, mapNew[id := m[id].nRefCount])
  {
  }

  ghost predicate FirstPass(n: int, order: seq<int>, m: Infos, a: map<Service, int>, v: seq<int>) {
    0 <= n <= |order| && forall j :: 0 <= j < n ==> order[j] in m && EntryCode(order[j], m[order[j]], a, v) == 0
  }

  /** code is that of the first entry that does not pass. */
  ghost predicate IsFirstCode(code: int, order: seq<int>, m: Infos, a: map<Service, int>, v: seq<int>) {
    exists k :: 0 <= k < |order| && order[k] in m && code == EntryCode(order[k], m[order[k]], a, v) && FirstPass(k, order, m, a, v)
  }

  lemma NextPasses(code: int, n: int, order: seq<int>, m: Infos, a: map<Service, int>, v: seq<int>)
    requires FirstPass(n, order, m, a, v) && n < |order| && order[n] in m && code == EntryCode(order[n], m[order[n]], a, v)
    ensures code == 0 ==> FirstPass(n + 1, order, m, a, v)
    ensures code != 0 ==> IsFirstCode(code, order, m, a, v) && !EntriesPass(m, a, v)
  {
  }

  lemma ListedAt(m: Infos, order: seq<int>, i: int)
    requires InKeyOrder(m, order) && 0 <= i < |order|
    ensures order[i] in m && order[..i + 1] == order[..i] + [order[i]]
  {
    assert order[i] in order;
  }

  lemma AllPass(order: seq<int>, m: Infos, a: map<Service, int>, v: seq<int>)
    requires InKeyOrder(m, order) && FirstPass(|order|, order, m, a, v)
    ensures EntriesPass(m, a, v)
  {
    forall id | id in m ensures EntryCode(id, m[id], a, v) == 0 {
      assert id in order;
    }
  }

  /** The tests of one entry. Unless one of the first four fails, mapAddr is read and then has the raw address. */
  method TestEntry(man: Manager, id: int, ghost a: map<Service, int>) returns (code: int)
    requires id in man.mapInfo && OnlyRawKeys(man.mapInfo, a, man.mapAddr)
    modifies man`mapAddr
    ensures OnlyRawKeys(man.mapInfo, a, man.mapAddr)
    ensures code == EntryCode(id, man.mapInfo[id], a, man.vRandom)
    ensures code >= -4 && code != 0 ==> man.mapAddr == old(man.mapAddr)
    ensures code <= -5 || code == 0 ==> man.mapInfo[id].addr.service in man.mapAddr
  {
    var info := man.mapInfo[id];
    code := EntryCode(id, info, man.mapAddr, man.vRandom);
    RawKeyAdded(man.mapInfo, a, man.mapAddr, id);
    SameCode(id, info, man.mapAddr, a, man.vRandom);
    hide OnlyRawKeys;
    if code <= -5 || code == 0 {
      if info.addr.service !in man.mapAddr {
        man.mapAddr := man.mapAddr[info.addr.service := 0];
      }
    }
  }

  method CheckEntries(man: Manager, order: seq<int>) returns (code: int, setTried: set<int>, mapNew: map<int, int>)
    requires InKeyOrder(man.mapInfo, order)
    modifies man`mapAddr
    ensures OnlyRawKeys(man.mapInfo, old(man.mapAddr), man.mapAddr)
    ensures code == 0 <==> EntriesPass(man.mapInfo, old(man.mapAddr), man.vRandom)
    ensures code == 0 ==> Grouped(man.mapInfo, order, setTried, mapNew)
    ensures code != 0 ==> IsFirstCode(code, order, man.mapInfo, old(man.mapAddr), man.vRandom)
  {
    hide EntryCode, RawRead;
    setTried, mapNew := {}, map[];
    assert Grouped(man.mapInfo, order[..0], setTried, mapNew) && OnlyRawKeys(man.mapInfo, man.mapAddr, man.mapAddr);
    assert FirstPass(0, order, man.mapInfo, man.mapAddr, man.vRandom);
    hide Grouped, OnlyRawKeys, FirstPass, EntriesPass, IsFirstCode, InKeyOrder;
    for i := 0 to |order|
      invariant OnlyRawKeys(man.mapInfo, old(man.mapAddr), man.mapAddr)
      invariant Grouped(man.mapInfo, order[..i], setTried, mapNew)
      invariant FirstPass(i, order, man.mapInfo, old(man.mapAddr), man.vRandom)
    {
      var n := order[i];
      ListedAt(man.mapInfo, order, i);
      var info := man.mapInfo[n];
      code := TestEntry(man, n, old(man.mapAddr));
      GroupedStep(man.mapInfo, order[..i], n, setTried, mapNew);
      NextPasses(code, i, order, man.mapInfo, old(man.mapAddr), man.vRandom);
      if code != 0 {
        return;
      }
      if info.fInTried {
        setTried := setTried + {n};
      } else {
        mapNew := mapNew[n := info.nRefCount];
      }
    }
    assert order[..|order|] == order;
    AllPass(order, man.mapInfo, old(man.mapAddr), man.vRandom);
    code := 0;
  }

  // ------------------------------------------------------------------
  // The bucket tables
  // ------------------------------------------------------------------

  /** The cells that hold id. */
  ghost function Occurrences(g: Grid, id: int): set<(int, int)> {
    set b, p | 0 <= b < |g| && 0 <= p < |g[b]| && g[b][p] == id :: (b, p)
  }

  /** Cell (b, p) comes before cell (n, i) row by row. */
  predicate Earlier(b: int, p: int, n: int, i: int) {
    b < n || (b == n && p < i)
  }

  /** The cells before (n, i) that hold id. */
  ghost function Before(g: Grid, id: int, n: int, i: int): set<(int, int)> {
    set c | c in Occurrences(g, id) && Earlier(c.0, c.1, n, i)
  }

  ghost predicate TriedCellsOk(m: Infos, g: Grid, h: Hashes, n: int, i: int) {
    forall b, p :: 0 <= b < |g| && 0 <= p < |g[b]| && Earlier(b, p, n, i) && g[b][p] != -1 ==> TriedSlotOk(m, h, b, p, g[b][p])
  }

  ghost predicate NewCellsOk(m: Infos, g: Grid, h: Hashes, n: int, i: int) {
    forall b, p :: 0 <= b < |g| && 0 <= p < |g[b]| && Earlier(b, p, n, i) && g[b][p] != -1 ==> NewSlotOk(m, h, b, p, g[b][p])
  }

  /** setTried holds the tried ids that no cell before (n, i) holds. */
  ghost predicate Unseen(m: Infos, g: Grid, setTried: set<int>, n: int, i: int) {
    forall id :: id in setTried <==> id in m && m[id].fInTried && Before(g, id, n, i) == {}
  }

  /** Of its slots, each untried id has those left in mapNew that no cell before (n, i) accounts for. */
  ghost predicate Uncounted(m: Infos, g: Grid, mapNew: map<int, int>, n: int, i: int) {
    forall id :: if id in m && !m[id].fInTried then Left(m[id].nRefCount - |Before(g, id, n, i)|, mapNew, id) else id !in mapNew
  }

  ghost predicate Left(left: int, mapNew: map<int, int>, id: int) {
    left >= 0 && if left == 0 then id !in mapNew else id in mapNew && mapNew[id] == left
  }

  lemma BeforeNext(g: Grid, rows: nat, id: int, n: int, i: int)
    requires IsGrid(g, rows) && 0 <= n < rows && 0 <= i < BUCKET_SIZE
    ensures Before(g, id, n, i + 1) == if g[n][i] == id then Before(g, id, n, i) + {(n, i)} else Before(g, id, n, i)
    ensures |Before(g, id, n, i + 1)| == if g[n][i] == id then |Before(g, id, n, i)| + 1 else |Before(g, id, n, i)|
  {
    assert (n, i) !in Before(g, id, n, i);
    assert Before(g, id, n, i + 1) == if g[n][i] == id then Before(g, id, n, i) + {(n, i)} else Before(g, id, n, i);
  }

  lemma BeforeRow(g: Grid, rows: nat, id: int, n: int)
    requires IsGrid(g, rows) && 0 <= n < rows
    ensures Before(g, id, n, BUCKET_SIZE) == Before(g, id, n + 1, 0)
    ensures Before(g, id, 0, 0) == {} && Before(g, id, rows, 0) == Occurrences(g, id)
  {
    forall c | c in Occurrences(g, id) ensures c in Before(g, id, n, BUCKET_SIZE) <==> c in Before(g, id, n + 1, 0) {
      assert |g[c.0]| == BUCKET_SIZE;
    }
  }

  /** What the test of one tried cell decides. */
  lemma TriedCell(m: Infos, g: Grid, h: Hashes, setTried: set<int>, n: int, i: int)
    requires IsGrid(g, TRIED_BUCKET_COUNT) && 0 <= n < TRIED_BUCKET_COUNT && 0 <= i < BUCKET_SIZE && -1 !in m
    requires TriedCellsOk(m, g, h, n, i) && Unseen(m, g, setTried, n, i)
    ensures var id := g[n][i];
            if id == -1 then TriedCellsOk(m, g, h, n, i + 1) && Unseen(m, g, setTried, n, i + 1)
            else if id in setTried && TriedSlotOk(m, h, n, i, id) then TriedCellsOk(m, g, h, n, i + 1) && Unseen(m, g, setTried - {id}, n, i + 1)
            else !TriedSlotOk(m, h, n, i, id)
  {
    var id := g[n][i];
    forall x ensures Before(g, x, n, i + 1) == if id == x then Before(g, x, n, i) + {(n, i)} else Before(g, x, n, i) {
      BeforeNext(g, TRIED_BUCKET_COUNT, x, n, i);
    }
    if id != -1 && Before(g, id, n, i) != {} {
      OneHome(m, g, h, n, i);
    }
    hide Before;
  }

  /** An id that an earlier cell held rightly is not at home in another. */
  lemma OneHome(m: Infos, g: Grid, h: Hashes, n: int, i: int)
    requires IsGrid(g, TRIED_BUCKET_COUNT) && 0 <= n < TRIED_BUCKET_COUNT && 0 <= i < BUCKET_SIZE && g[n][i] != -1
    requires TriedCellsOk(m, g, h, n, i) && Before(g, g[n][i], n, i) != {}
    ensures !TriedSlotOk(m, h, n, i, g[n][i])
  {
    var c :| c in Before(g, g[n][i], n, i);
    assert TriedSlotOk(m, h, c.0, c.1, g[c.0][c.1]);
  }

  /** What the test of one new cell decides. */
  lemma NewCell(m: Infos, g: Grid, h: Hashes, mapNew: map<int, int>, n: int, i: int)
    requires IsGrid(g, NEW_BUCKET_COUNT) && 0 <= n < NEW_BUCKET_COUNT && 0 <= i < BUCKET_SIZE && -1 !in m
    requires NewCellsOk(m, g, h, n, i) && Uncounted(m, g, mapNew, n, i)
    ensures var id := g[n][i];
            if id == -1 then NewCellsOk(m, g, h, n, i + 1) && Uncounted(m, g, mapNew, n, i + 1)
            else if id in mapNew && NewSlotOk(m, h, n, i, id) then NewCellsOk(m, g, h, n, i + 1) && Uncounted(m, g, OneLess(mapNew, id), n, i + 1)
            else !NewSlotOk(m, h, n, i, id) || |Occurrences(g, id)| > m[id].nRefCount
  {
    var id := g[n][i];
    BeforeNext(g, NEW_BUCKET_COUNT, id, n, i);
    CountedIsNew(m, g, mapNew, n, i, -1);
    hide Before;
    if id != -1 && id !in mapNew && NewSlotOk(m, h, n, i, id) {
      assert Left(m[id].nRefCount - |Before(g, id, n, i)|, mapNew, id);
      BeforeIsPart(g, id, n, i + 1);
    } else if id == -1 {
      CountOne(m, g, mapNew, mapNew, n, i);
    } else if id in mapNew && NewSlotOk(m, h, n, i, id) {
      CountOne(m, g, mapNew, OneLess(mapNew, id), n, i);
    }
  }

  lemma CountOne(m: Infos, g: Grid, mapNew: map<int, int>, next: map<int, int>, n: int, i: int)
    requires IsGrid(g, NEW_BUCKET_COUNT) && 0 <= n < NEW_BUCKET_COUNT && 0 <= i < BUCKET_SIZE
    requires Uncounted(m, g, mapNew, n, i)
    requires var id := g[n][i]; if id in mapNew then next == OneLess(mapNew, id) else next == mapNew && id !in m
    ensures Uncounted(m, g, next, n, i + 1)
  {
    forall x
      ensures if x in m && !m[x].fInTried then Left(m[x].nRefCount - |Before(g, x, n, i + 1)|, next, x) else x !in next
    {
      BeforeNext(g, NEW_BUCKET_COUNT, x, n, i);
      hide Before;
      assert if x in m && !m[x].fInTried then Left(m[x].nRefCount - |Before(g, x, n, i)|, mapNew, x) else x !in mapNew;
    }
  }

  function OneLess(mapNew: map<int, int>, id: int): map<int, int>
    requires id in mapNew
  {
    if mapNew[id] == 1 then mapNew - {id} else mapNew[id := mapNew[id] - 1]
  }

  lemma BeforeIsPart(g: Grid, id: int, n: int, i: int)
    ensures |Before(g, id, n, i)| <= |Occurrences(g, id)|
  {
    assert Occurrences(g, id) == Before(g, id, n, i) + (Occurrences(g, id) - Before(g, id, n, i));
  }

  method CheckTried(man: Manager, tried: set<int>) returns (code: int, setTried: set<int>)
    requires man.Shaped() && -1 !in man.mapInfo && tried == TriedIds(man.mapInfo)
    ensures code == 0 <==> TriedCellsOk(man.mapInfo, Cells(man.vvTried), man.h, TRIED_BUCKET_COUNT, 0)
    ensures code == 0 ==> Unseen(man.mapInfo, Cells(man.vvTried), setTried, TRIED_BUCKET_COUNT, 0)
  {
    ghost var m, g := man.mapInfo, Cells(man.vvTried);
    setTried := tried;
    forall id ensures Before(g, id, 0, 0) == {} {
      BeforeRow(g, TRIED_BUCKET_COUNT, id, 0);
    }
    for n := 0 to TRIED_BUCKET_COUNT
      invariant TriedCellsOk(m, g, man.h, n, 0) && Unseen(m, g, setTried, n, 0)
    {
      for i := 0 to BUCKET_SIZE
        invariant TriedCellsOk(m, g, man.h, n, i) && Unseen(m, g, setTried, n, i)
      {
        var id := man.vvTried[n, i];
        TriedCell(m, g, man.h, setTried, n, i);
        if id != -1 {
          if id !in setTried {
            return -11, setTried;
          }
          var s := man.mapInfo[id].addr.service;
          if man.h.TriedBucket(s) != n {
            return -17, setTried;
          }
          if man.h.Position(false, n, s) != i {
            return -18, setTried;
          }
          setTried := setTried - {id};
        }
      }
      TriedRow(m, g, man.h, setTried, n);
    }
    code := 0;
  }

  lemma TriedRow(m: Infos, g: Grid, h: Hashes, setTried: set<int>, n: int)
    requires IsGrid(g, TRIED_BUCKET_COUNT) && 0 <= n < TRIED_BUCKET_COUNT
    requires TriedCellsOk(m, g, h, n, BUCKET_SIZE) && Unseen(m, g, setTried, n, BUCKET_SIZE)
    ensures TriedCellsOk(m, g, h, n + 1, 0) && Unseen(m, g, setTried, n + 1, 0)
  {
    forall id ensures Before(g, id, n, BUCKET_SIZE) == Before(g, id, n + 1, 0) {
      BeforeRow(g, TRIED_BUCKET_COUNT, id, n);
    }
  }

  method CheckNew(man: Manager, counts: map<int, int>) returns (code: int, mapNew: map<int, int>)
    requires man.Shaped() && -1 !in man.mapInfo && Uncounted(man.mapInfo, Cells(man.vvNew), counts, 0, 0)
    ensures code == 0 <==> NewCellsOk(man.mapInfo, Cells(man.vvNew), man.h, NEW_BUCKET_COUNT, 0) && NotTooMany(man.mapInfo, Cells(man.vvNew))
    ensures code == 0 ==> Uncounted(man.mapInfo, Cells(man.vvNew), mapNew, NEW_BUCKET_COUNT, 0)
  {
    ghost var m, g := man.mapInfo, Cells(man.vvNew);
    mapNew := counts;
    hide Uncounted, Before, Occurrences;
    for n := 0 to NEW_BUCKET_COUNT
      invariant NewCellsOk(m, g, man.h, n, 0) && Uncounted(m, g, mapNew, n, 0)
    {
      for i := 0 to BUCKET_SIZE
        invariant NewCellsOk(m, g, man.h, n, i) && Uncounted(m, g, mapNew, n, i)
      {
        var id := man.vvNew[n, i];
        NewCell(m, g, man.h, mapNew, n, i);
        CountedIsNew(m, g, mapNew, n, i, id);
        if id != -1 {
          if id !in mapNew {
            return -12, mapNew;
          }
          if man.h.Position(true, n, man.mapInfo[id].addr.service) != i {
            return -19, mapNew;
          }
          mapNew := OneLess(mapNew, id);
        }
      }
      NewRow(m, g, man.h, mapNew, n);
    }
    NoneTooMany(m, g, mapNew);
    code := 0;
  }

  ghost predicate NotTooMany(m: Infos, g: Grid) {
    forall id :: id in m && !m[id].fInTried ==> |Occurrences(g, id)| <= m[id].nRefCount
  }

  lemma CountedIsNew(m: Infos, g: Grid, mapNew: map<int, int>, n: int, i: int, id: int)
    requires Uncounted(m, g, mapNew, n, i)
    ensures id in mapNew ==> id in m && !m[id].fInTried
  {
  }

  lemma NewRow(m: Infos, g: Grid, h: Hashes, mapNew: map<int, int>, n: int)
    requires IsGrid(g, NEW_BUCKET_COUNT) && 0 <= n < NEW_BUCKET_COUNT
    requires NewCellsOk(m, g, h, n, BUCKET_SIZE) && Uncounted(m, g, mapNew, n, BUCKET_SIZE)
    ensures NewCellsOk(m, g, h, n + 1, 0) && Uncounted(m, g, mapNew, n + 1, 0)
  {
    forall id ensures Before(g, id, n, BUCKET_SIZE) == Before(g, id, n + 1, 0) {
      BeforeRow(g, NEW_BUCKET_COUNT, id, n);
    }
    hide Before;
    forall id
      ensures if id in m && !m[id].fInTried then Left(m[id].nRefCount - |Before(g, id, n + 1, 0)|, mapNew, id) else id !in mapNew
    {
      assert if id in m && !m[id].fInTried then Left(m[id].nRefCount - |Before(g, id, n, BUCKET_SIZE)|, mapNew, id) else id !in mapNew;
    }
  }

  lemma NoneTooMany(m: Infos, g: Grid, mapNew: map<int, int>)
    requires IsGrid(g, NEW_BUCKET_COUNT) && Uncounted(m, g, mapNew, NEW_BUCKET_COUNT, 0)
    ensures NotTooMany(m, g)
    ensures |mapNew| == 0 <==> forall id :: id in m && !m[id].fInTried ==> |Occurrences(g, id)| == m[id].nRefCount
  {
    forall id
      ensures if id in m && !m[id].fInTried then Left(m[id].nRefCount - |Occurrences(g, id)|, mapNew, id) else id !in mapNew
    {
      assert if id in m && !m[id].fInTried then Left(m[id].nRefCount - |Before(g, id, NEW_BUCKET_COUNT, 0)|, mapNew, id) else id !in mapNew;
      BeforeRow(g, NEW_BUCKET_COUNT, id, 0);
    }
    if mapNew.Keys != {} {
      var id := AnyOf(mapNew.Keys);
      assert Left(m[id].nRefCount - |Occurrences(g, id)|, mapNew, id);
    }
  }

  /** With every cell right, a tried id is unseen or in exactly one cell. */
  lemma UnseenOrOnce(m: Infos, g: Grid, h: Hashes, setTried: set<int>)
    requires IsGrid(g, TRIED_BUCKET_COUNT) && -1 !in m
    requires TriedCellsOk(m, g, h, TRIED_BUCKET_COUNT, 0) && Unseen(m, g, setTried, TRIED_BUCKET_COUNT, 0)
    ensures setTried == {} <==> forall id :: id in m && m[id].fInTried ==> |Occurrences(g, id)| == 1
  {
    forall id | id in m && m[id].fInTried ensures id in setTried <==> |Occurrences(g, id)| != 1 {
      BeforeRow(g, TRIED_BUCKET_COUNT, id, 0);
      AtMostOnce(m, g, h, id);
    }
    if setTried != {} {
      var id := AnyOf(setTried);
      assert |Occurrences(g, id)| != 1;
    }
  }

  lemma AtMostOnce(m: Infos, g: Grid, h: Hashes, id: int)
    requires IsGrid(g, TRIED_BUCKET_COUNT) && TriedCellsOk(m, g, h, TRIED_BUCKET_COUNT, 0) && id != -1
    ensures Occurrences(g, id) != {} ==> |Occurrences(g, id)| == 1
  {
    if Occurrences(g, id) != {} {
      var c :| c in Occurrences(g, id);
      forall d | d in Occurrences(g, id) ensures d == c {
        assert TriedSlotOk(m, h, c.0, c.1, g[c.0][c.1]) && TriedSlotOk(m, h, d.0, d.1, g[d.0][d.1]);
      }
      assert Occurrences(g, id) == {c};
    }
  }

  lemma TriedOccursOnce(m: Infos, u: Grid, t: Grid, h: Hashes, id: int)
    requires TriedTableOk(m, u, h) && NewTableOk(m, t, h) && id in m && m[id].fInTried
    ensures |Occurrences(u, id)| == 1
  {
    var b := h.TriedBucket(m[id].addr.service);
    var p := h.Position(false, b, m[id].addr.service);
    assert TriedHome(m[id], u, h) == id;
    forall c | c in Occurrences(u, id) ensures c == (b, p) {
      assert TriedSlotOk(m, h, c.0, c.1, u[c.0][c.1]);
    }
    assert Occurrences(u, id) == {(b, p)};
  }

  lemma NewOccursPerSlot(m: Infos, t: Grid, h: Hashes, id: int)
    requires NewTableOk(m, t, h) && id in m
    ensures |Occurrences(t, id)| == |Slots(t, h, m[id].addr.service, id)|
  {
    var s := m[id].addr.service;
    var slots := Slots(t, h, s, id);
    var cell := (b: int) => (b, h.Position(true, b, s) as int);
    forall c ensures c in Occurrences(t, id) <==> c in Image(slots, cell) {
      if c in Occurrences(t, id) {
        assert NewSlotOk(m, h, c.0, c.1, t[c.0][c.1]);
        assert c.0 in slots && c == cell(c.0);
      }
    }
    assert Occurrences(t, id) == Image(slots, cell);
    ImageSize(slots, cell);
  }

  // ------------------------------------------------------------------
  // The whole check
  // ------------------------------------------------------------------

  /** What the check asks of the counters and tables: in particular every id is in exactly as many
      cells as it has references, wherever they are. */
  ghost predicate TablesPass(man: Manager)
    requires man.Shaped()
    reads man, man.vvNew, man.vvTried
  {
    var m := man.mapInfo;
    && |man.vRandom| == man.nTried + man.nNew
    && |TriedIds(m)| == man.nTried && |NewIds(m)| == man.nNew
    && TriedCellsOk(m, Cells(man.vvTried), man.h, TRIED_BUCKET_COUNT, 0)
    && NewCellsOk(m, Cells(man.vvNew), man.h, NEW_BUCKET_COUNT, 0)
    && (forall id :: id in m && m[id].fInTried ==> |Occurrences(Cells(man.vvTried), id)| == 1)
    && (forall id :: id in m && !m[id].fInTried ==> |Occurrences(Cells(man.vvNew), id)| == m[id].nRefCount)
  }

  ghost predicate CheckPasses(man: Manager)
    requires man.Shaped()
    reads man, man.vvNew, man.vvTried
  {
    EntriesPass(man.mapInfo, man.mapAddr, man.vRandom) && TablesPass(man)
  }

  lemma TablesAreRight(m: Infos, t: Grid, u: Grid, h: Hashes)
    requires NewTableOk(m, t, h) && TriedTableOk(m, u, h)
    ensures NewCellsOk(m, t, h, NEW_BUCKET_COUNT, 0) && TriedCellsOk(m, u, h, TRIED_BUCKET_COUNT, 0) && -1 !in m
  {
  }

  /** vRandom, both tables and both counters agree with mapInfo. */
  ghost predicate Indexed(man: Manager)
    requires man.Shaped()
    reads man, man.vvNew, man.vvTried
  {
    var m := man.mapInfo;
    && RandomOk(m, man.vRandom) && NewTableOk(m, Cells(man.vvNew), man.h) && RefsOk(m, Cells(man.vvNew), man.h, {})
    && TriedTableOk(m, Cells(man.vvTried), man.h)
    && man.nNew == |NewIds(m)| && man.nTried == |TriedIds(m)|
  }

  lemma ValidTables(man: Manager)
    requires man.Shaped() && Indexed(man)
    ensures TablesPass(man) && -1 !in man.mapInfo
  {
    hide AddrOk, NewTableOk, RefsOk, TriedTableOk, NewIds, TriedIds, IdsOk, RandomOk, Slots, Occurrences, NewCellsOk, TriedCellsOk;
    var m, t, u := man.mapInfo, Cells(man.vvNew), Cells(man.vvTried);
    CardinalityOfPartition(m);
    RandomSize(m, man.vRandom);
    TablesAreRight(m, t, u, man.h);
    forall id | id in m && m[id].fInTried ensures |Occurrences(u, id)| == 1 {
      TriedOccursOnce(m, u, t, man.h, id);
    }
    forall id | id in m && !m[id].fInTried ensures |Occurrences(t, id)| == m[id].nRefCount {
      RefAt(m, t, man.h, {}, id);
      NewOccursPerSlot(m, t, man.h, id);
    }
  }

  /** The position of an id leads back to it. */
  ghost predicate LeadsBack(m: Infos, v: seq<int>, id: int) {
    id in m && 0 <= m[id].nRandomPos < |v| && v[m[id].nRandomPos] == id
  }

  lemma AllAreIds(m: Infos, v: seq<int>)
    requires |v| == |m| && forall id :: id in m ==> LeadsBack(m, v, id)
    ensures Members(v) == m.Keys && |Members(v)| == |v|
  {
    forall id | id in m.Keys ensures id in Members(v) {
      assert LeadsBack(m, v, id);
    }
    AtMostMembers(v);
    assert Members(v) == m.Keys + (Members(v) - m.Keys);
    assert |m.Keys| == |m|;
  }

  lemma PositionAt(m: Infos, v: seq<int>, i: nat)
    requires Members(v) == m.Keys && |Members(v)| == |v| && i < |v| && LeadsBack(m, v, v[i])
    ensures m[v[i]].nRandomPos == i
  {
    if m[v[i]].nRandomPos != i {
      TwiceIsFewer(v, i, m[v[i]].nRandomPos);
    }
  }

  /** Positions that lead back to their ids are all positions, if there are as many ids. */
  lemma PositionsFill(m: Infos, v: seq<int>)
    requires |v| == |m| && forall id :: id in m ==> LeadsBack(m, v, id)
    ensures RandomOk(m, v)
  {
    AllAreIds(m, v);
    forall i | 0 <= i < |v| ensures v[i] in m && m[v[i]].nRandomPos == i {
      assert v[i] in Members(v);
      assert v[i] in m.Keys;
      PositionAt(m, v, i);
    }
    forall id | id in m ensures 0 <= m[id].nRandomPos < |v| && v[m[id].nRandomPos] == id {
      assert LeadsBack(m, v, id);
    }
    hide Members;
  }

  ghost function Members(v: seq<int>): set<int> { set x | x in v }

  lemma {:induction false} AtMostMembers(v: seq<int>)
    ensures |Members(v)| <= |v|
  {
    if v != [] {
      var n := |v| - 1;
      AtMostMembers(v[..n]);
      assert v == v[..n] + [v[n]];
      assert Members(v) == Members(v[..n]) + {v[n]};
    }
  }

  lemma TwiceIsFewer(v: seq<int>, i: nat, j: nat)
    requires i < |v| && j < |v| && i != j && v[i] == v[j]
    ensures |Members(v)| < |v|
  {
    var w := v[..i] + v[i + 1..];
    forall x ensures x in v <==> x in w {
      if x in v {
        var k :| 0 <= k < |v| && v[k] == x;
        var l := if k == i then j else k;
        assert w[if l < i then l else l - 1] == x;
      }
    }
    assert Members(v) == Members(w);
    AtMostMembers(w);
  }

  lemma PassedNew(m: Infos, t: Grid, h: Hashes, a: map<Service, int>, v: seq<int>)
    requires IsGrid(t, NEW_BUCKET_COUNT) && -1 !in m && EntriesPass(m, a, v) && NewCellsOk(m, t, h, NEW_BUCKET_COUNT, 0)
    requires forall id :: id in m && !m[id].fInTried ==> |Occurrences(t, id)| == m[id].nRefCount
    ensures NewTableOk(m, t, h) && RefsOk(m, t, h, {})
  {
    assert NewTableOk(m, t, h);
    forall id | id in m ensures RefOk(m[id], |Slots(t, h, m[id].addr.service, id)|, false) {
      assert EntryCode(id, m[id], a, v) == 0;
      if m[id].fInTried {
        assert Slots(t, h, m[id].addr.service, id) == {};
      } else {
        NewOccursPerSlot(m, t, h, id);
      }
    }
  }

  lemma PassedTried(m: Infos, u: Grid, h: Hashes)
    requires IsGrid(u, TRIED_BUCKET_COUNT) && -1 !in m && TriedCellsOk(m, u, h, TRIED_BUCKET_COUNT, 0)
    requires forall id :: id in m && m[id].fInTried ==> |Occurrences(u, id)| == 1
    ensures TriedTableOk(m, u, h)
  {
    forall id | id in m && m[id].fInTried ensures TriedHome(m[id], u, h) == id {
      assert Occurrences(u, id) != {};
      var c := AnyOf(Occurrences(u, id));
      assert TriedSlotOk(m, h, c.0, c.1, u[c.0][c.1]);
    }
  }

  /** Exactly what the check establishes: all indexes but mapAddr agree, the time stamps are in order, and reading mapAddr
      at the address of an entry gives its id. */
  lemma CheckIff(man: Manager)
    requires man.Shaped() && -1 !in man.mapInfo
    ensures CheckPasses(man) <==>
      && Indexed(man) && TimesOk(man.mapInfo)
      && forall id :: id in man.mapInfo ==> RawRead(man.mapAddr, man.mapInfo[id].addr.service) == id
  {
    var m, t, u := man.mapInfo, Cells(man.vvNew), Cells(man.vvTried);
    if CheckPasses(man) {
      PassedTimes(m, man.mapAddr, man.vRandom);
      hide AddrOk, NewTableOk, RefsOk, TriedTableOk, NewIds, TriedIds, RandomOk, Slots, Occurrences, NewCellsOk, TriedCellsOk, EntriesPass;
      CardinalityOfPartition(m);
      PositionsFill(m, man.vRandom);
      PassedNew(m, t, man.h, man.mapAddr, man.vRandom);
      PassedTried(m, u, man.h);
    } else if Indexed(man) && TimesOk(m) && forall id :: id in m ==> RawRead(man.mapAddr, m[id].addr.service) == id {
      ValidTables(man);
      IndexedPass(m, man.mapAddr, man.vRandom, t, man.h);
      assert false;
    }
  }

  lemma PassedTimes(m: Infos, a: map<Service, int>, v: seq<int>)
    requires EntriesPass(m, a, v)
    ensures TimesOk(m)
    ensures forall id :: id in m ==> LeadsBack(m, v, id) && RawRead(a, m[id].addr.service) == id
  {
    forall id | id in m ensures TimeOk(m[id]) && LeadsBack(m, v, id) && RawRead(a, m[id].addr.service) == id {
      assert EntryCode(id, m[id], a, v) == 0;
    }
  }

  lemma IndexedPass(m: Infos, a: map<Service, int>, v: seq<int>, t: Grid, h: Hashes)
    requires RandomOk(m, v) && NewTableOk(m, t, h) && RefsOk(m, t, h, {}) && TimesOk(m)
    requires forall id :: id in m ==> RawRead(a, m[id].addr.service) == id
    ensures EntriesPass(m, a, v)
  {
    forall id | id in m ensures EntryCode(id, m[id], a, v) == 0 {
      hide NewTableOk, RefsOk;
      RefAt(m, t, h, {}, id);
      TriedHasNoRefs(m, t, h, {}, id);
      assert TimeOk(m[id]);
    }
  }

  /** Every id but 0 has its raw address as its key. */
  ghost predicate RawKeys(m: Infos, discriminatePorts: bool) {
    forall id :: id in m && id != 0 ==> RawKey(m[id].addr.service, discriminatePorts)
  }

  /** A consistent manager passes the check exactly when the time stamps are in order and every id but 0 has its
      raw address as its key: no other test can fail. */
  lemma ValidPassesCheck(man: Manager)
    requires man.Valid()
    ensures CheckPasses(man) <==> RawKeys(man.mapInfo, man.discriminatePorts) && TimesOk(man.mapInfo)
  {
    ValidTables(man);
    forall id | id in man.mapInfo
      ensures EntryCode(id, man.mapInfo[id], man.mapAddr, man.vRandom) == 0 <==>
              (id == 0 || RawKey(man.mapInfo[id].addr.service, man.discriminatePorts)) && TimeOk(man.mapInfo[id])
    {
      hide AddrOk, RandomOk, NewTableOk, RefsOk, TriedTableOk, EntryCode;
      ValidEntry(man, id);
    }
  }

  lemma GroupedAll(m: Infos, g: Grid, order: seq<int>, setTried: set<int>, mapNew: map<int, int>, a: map<Service, int>, v: seq<int>)
    requires InKeyOrder(m, order) && Grouped(m, order, setTried, mapNew) && EntriesPass(m, a, v)
    requires IsGrid(g, NEW_BUCKET_COUNT)
    ensures setTried == TriedIds(m) && mapNew.Keys == NewIds(m) && |mapNew| == |NewIds(m)|
    ensures Uncounted(m, g, mapNew, 0, 0)
  {
    forall id
      ensures id in setTried <==> id in TriedIds(m)
      ensures id in mapNew.Keys <==> id in NewIds(m)
    {
      assert id in m <==> id in order;
    }
    assert mapNew.Keys == NewIds(m);
    forall id ensures if id in m && !m[id].fInTried then Left(m[id].nRefCount - |Before(g, id, 0, 0)|, mapNew, id) else id !in mapNew {
      BeforeRow(g, NEW_BUCKET_COUNT, id, 0);
      if id in m {
        assert EntryCode(id, m[id], a, v) == 0;
      }
    }
  }

  /** The check as the program does it: 0, or the code of the first test that fails. On the way it leaves raw
      addresses in mapAddr. In a consistent manager with a key only tests of single entries can fail, and no search
      notices the keys that are left. */
  method Check(man: Manager, nKey: nat, order: seq<int>) returns (code: int)
    requires man.Shaped() && -1 !in man.mapInfo && InKeyOrder(man.mapInfo, order)
    modifies man`mapAddr
    ensures code == 0 <==> old(CheckPasses(man)) && nKey != 0
    ensures old(CheckPasses(man)) && nKey == 0 ==> code == -16
    ensures OnlyRawKeys(man.mapInfo, old(man.mapAddr), man.mapAddr)
    ensures old(man.Valid()) ==> forall s :: man.Find(s) == old(man.Find(s))
    ensures old(man.Valid()) && !old(CheckPasses(man)) ==> IsFirstCode(code, order, man.mapInfo, old(man.mapAddr), man.vRandom)
  {
    hide EntryCode, IsFirstCode, EntriesPass, TriedCellsOk, NewCellsOk, Occurrences;
    ghost var m, t, u := man.mapInfo, Cells(man.vvNew), Cells(man.vvTried);
    if man.Valid() {
      ValidTables(man);
    }
    ghost var a := man.mapAddr;
    if |man.vRandom| != man.nTried + man.nNew {
      return -7;
    }
    var setTried, mapNew;
    code, setTried, mapNew := CheckEntries(man, order);
    if old(man.Valid()) {
      forall s ensures man.Find(s) == old(man.Find(s)) {
        RawKeysAreNotFound(m, a, man.mapAddr, man.discriminatePorts, s);
      }
    }
    if code != 0 {
      return;
    }
    GroupedAll(m, t, order, setTried, mapNew, a, man.vRandom);
    if |setTried| != man.nTried {
      return -9;
    }
    if |mapNew| != man.nNew {
      return -10;
    }
    code, setTried := CheckTried(man, setTried);
    if code != 0 {
      return;
    }
    UnseenOrOnce(m, u, man.h, setTried);
    code, mapNew := CheckNew(man, mapNew);
    if code != 0 {
      return;
    }
    NoneTooMany(m, t, mapNew);
    if |setTried| != 0 {
      return -13;
    }
    if |mapNew| != 0 {
      return -15;
    }
    if nKey == 0 {
      return -16;
    }
  }

  // ------------------------------------------------------------------
  // Runs that the check and Clear fail on
  // ------------------------------------------------------------------

  /** Nobody holds a slot in which the one entry there is could not be. */
  lemma SlotIsFree(man: Manager, s: Service, source: nat)
    requires man.Valid()
    requires forall id :: id in man.mapInfo ==>
               var b := man.h.NewBucket(s, source);
               man.h.Position(true, b, man.mapInfo[id].addr.service) != man.h.Position(true, b, s)
    ensures man.Occupant(s, source) == -1
  {
    var b := man.h.NewBucket(s, source);
    var p := man.h.Position(true, b, s);
    assert man.vvNew[b, p] == Cells(man.vvNew)[b][p];
  }

  /** Announce an unknown address whose slot is free. */
  method Announce(man: Manager, s: Service) returns (id: int)
    requires man.Valid() && man.isRoutable(s) && man.Find(s).None? && man.Occupant(s, 7) == -1
    modifies man, man.vvNew
    ensures man.Valid() && (old(TimesOk(man.mapInfo)) ==> TimesOk(man.mapInfo))
    ensures id !in old(man.mapInfo) && man.mapInfo.Keys == old(man.mapInfo).Keys + {id}
    ensures man.mapInfo[id].addr.service == s
    ensures forall x :: x in old(man.mapInfo) ==> man.mapInfo[x].addr == old(man.mapInfo)[x].addr
  {
    ghost var m := man.mapInfo;
    assert man.nIdCount !in m && -1 !in m;
    hide AddrOk, NewTableOk, RefsOk, TriedTableOk, NewIds, TriedIds, IdsOk, RandomOk, Slots, TimesOk, Disturbed;
    var _ := man.Add(Address(s, 0, {}), 7, 0, 0, 0);
    id := man.Find(s).value;
    OneCame(m, man.mapInfo, id);
  }

  lemma OneCame(m: Infos, m': Infos, id: int)
    requires Disturbed(m, m', Some(id), -1) && -1 !in m && id !in m && id in m'
    ensures m'.Keys == m.Keys + {id} && forall x :: x in m ==> m'[x].addr == m[x].addr
  {
    forall x ensures x in m' <==> x in m || x == id {
      assert x in m ==> Kept(m, m', x);
    }
    assert m'.Keys == m.Keys + {id};
  }

  /** A manager that knows two addresses. */
  method TwoKnown(s1: Service, s2: Service) returns (man: Manager, id1: int, id2: int)
    requires s1.ip % BUCKET_SIZE != s2.ip % BUCKET_SIZE
    ensures fresh(man) && man.Valid() && !man.discriminatePorts && TimesOk(man.mapInfo)
    ensures id1 != id2 && man.mapInfo.Keys == {id1, id2}
    ensures man.mapInfo[id1].addr.service == s1 && man.mapInfo[id2].addr.service == s2
  {
    hide NewTableOk, RefsOk, TriedTableOk, NewIds, TriedIds, IdsOk, RandomOk, Slots;
    var hashes := Hashes(s => 0, (s, source) => 0, (isNew, b, s: Service) => s.ip);
    man := new Manager(hashes, false, s => true);
    SlotIsFree(man, s1, 7);
    id1 := Announce(man, s1);
    SlotIsFree(man, s2, 7);
    id2 := Announce(man, s2);
  }

  /** Two addresses with a port are enough for the check to fail when ports are not
      discriminated, although the manager is consistent. */
  method TwoPorts() returns (code: int)
    ensures code == -5
  {
    hide AddrOk, NewTableOk, RefsOk, TriedTableOk, NewIds, TriedIds, IdsOk, RandomOk, Slots, CheckPasses, EntryCode;
    var man, id1, id2 := TwoKnown(Service(1, 8333), Service(2, 8333));
    ValidTables(man);
    ValidPassesCheck(man);
    assert TimeOk(man.mapInfo[id1]) && TimeOk(man.mapInfo[id2]);
    ValidEntry(man, id1);
    ValidEntry(man, id2);
    code := Check(man, 1, if id1 < id2 then [id1, id2] else [id2, id1]);
  }

  /** Clear does not empty the maps: whatever was added, what it leaves is not consistent. */
  method AddThenClear(hashes: Hashes, ports: bool, routable: Service -> bool, addr: Address, source: nat, nNow: int)
    returns (man: Manager)
    requires routable(addr.service)
    ensures !man.Valid()
  {
    man := new Manager(hashes, ports, routable);
    SlotIsFree(man, addr.service, source);
    var _ := man.Add(addr, source, 0, nNow, 0);
    man.Clear();
  }
}
