/**
 * The address manager of src/addrman.cpp: an id map, an address map, a random vector and
 * two hashed bucket tables that must agree through every add, promotion and eviction.
 */
module AddrMan {
  import opened Foundations
  import opened Arith

  const NEW_BUCKET_COUNT := 1024
  const TRIED_BUCKET_COUNT := 256
  const BUCKET_SIZE := 64
  const NEW_BUCKETS_PER_ADDRESS := 8
  const HORIZON_DAYS := 30
  const RETRIES := 3
  const MAX_FAILURES := 10
  const MIN_FAIL_DAYS := 7
  const GETADDR_MAX_PCT := 23
  const GETADDR_MAX := 2500
  const DAY := 24 * 60 * 60

  /** An address and port. */
  datatype Service = Service(ip: nat, port: nat)

  /** A service as announced: with its time stamp and its service bits. */
  datatype Address = Address(service: Service, nTime: int, services: set<nat>)

  datatype AddrInfo = AddrInfo(
    addr: Address, source: nat,
    nLastTry: int, nLastCountAttempt: int, nLastSuccess: int, nAttempts: int,
    nRefCount: int, fInTried: bool, nRandomPos: int)
  {
    predicate IsTerrible(nNow: int) {
      if nLastTry != 0 && nLastTry >= nNow - 60 then false
      else
        || addr.nTime > nNow + 10 * 60
        || addr.nTime == 0 || nNow - addr.nTime > HORIZON_DAYS * DAY
        || (nLastSuccess == 0 && nAttempts >= RETRIES)
        || (nNow - nLastSuccess > MIN_FAIL_DAYS * DAY && nAttempts >= MAX_FAILURES)
    }
  }

  /** The keyed bucket hashes: any functions of what the source feeds to its hasher. */
  datatype Hashes = Hashes(tried: Service -> nat, announced: (Service, nat) -> nat, pos: (bool, int, Service) -> nat) {
    function TriedBucket(s: Service): (b: nat)
      ensures b < TRIED_BUCKET_COUNT
    {
      tried(s) % TRIED_BUCKET_COUNT
    }

    function NewBucket(s: Service, source: nat): (b: nat)
      ensures b < NEW_BUCKET_COUNT
    {
      announced(s, source) % NEW_BUCKET_COUNT
    }

    function Position(isNew: bool, bucket: int, s: Service): (p: nat)
      ensures p < BUCKET_SIZE
    {
      pos(isNew, bucket, s) % BUCKET_SIZE
    }
  }

  /** The n-th bucket of a search that starts at nRnd. */
  function Turn(n: nat, nRnd: nat): (b: nat)
    ensures b < NEW_BUCKET_COUNT
  {
    (n + nRnd) % NEW_BUCKET_COUNT
  }

  type Infos = map<int, AddrInfo>

  /** The key mapAddr uses: the port counts only when ports are discriminated. */
  function Norm(discriminatePorts: bool, s: Service): Service {
    if discriminatePorts then s else s.(port := 0)
  }

  // ------------------------------------------------------------------
  // The index invariant, part by part
  // ------------------------------------------------------------------

  /** Ids and normalised addresses are in bijection. */
  ghost predicate AddrOk(m: Infos, a: map<Service, int>, d: bool) {
    && (forall id :: id in m ==> Norm(d, m[id].addr.service) in a && a[Norm(d, m[id].addr.service)] == id)
    && (forall s :: s in a ==> a[s] in m && Norm(d, m[a[s]].addr.service) == s)
  }

  /** vRandom lists every id once, at the position the id records. */
  ghost predicate RandomOk(m: Infos, v: seq<int>) {
    && |v| == |m|
    && (forall id :: id in m ==> 0 <= m[id].nRandomPos < |v| && v[m[id].nRandomPos] == id)
    && (forall i :: 0 <= i < |v| ==> v[i] in m && m[v[i]].nRandomPos == i)
  }

  /** The contents of a bucket table. */
  type Grid = seq<seq<int>>

  ghost predicate IsGrid(g: Grid, rows: nat) {
    |g| == rows && forall b :: 0 <= b < rows ==> |g[b]| == BUCKET_SIZE
  }

  ghost function Cells(t: array2<int>): (g: Grid)
    reads t
    ensures |g| == t.Length0
    ensures forall b :: 0 <= b < |g| ==> |g[b]| == t.Length1
    ensures forall b, p :: 0 <= b < t.Length0 && 0 <= p < t.Length1 ==> g[b][p] == t[b, p]
  {
    seq(t.Length0, b requires 0 <= b < t.Length0 reads t =>
      seq(t.Length1, p requires 0 <= p < t.Length1 reads t => t[b, p]))
  }

  ghost function Put(g: Grid, b: int, p: int, id: int): Grid
    requires 0 <= b < |g| && 0 <= p < |g[b]|
  {
    g[b := g[b][p := id]]
  }

  /** Writing one cell of the table puts one entry of its contents. */
  lemma CellsAfterWrite(t: array2<int>, g: Grid, b: int, p: int, id: int)
    requires |g| == t.Length0 && 0 <= b < |g| && 0 <= p < t.Length1
    requires forall i :: 0 <= i < |g| ==> |g[i]| == t.Length1
    requires t[b, p] == id
    requires forall i, j :: 0 <= i < |g| && 0 <= j < t.Length1 && (i, j) != (b, p) ==> t[i, j] == g[i][j]
    ensures Cells(t) == Put(g, b, p, id)
  {
    var c, q := Cells(t), Put(g, b, p, id);
    forall i | 0 <= i < |c| ensures c[i] == q[i] {
      assert |c[i]| == |q[i]|;
      assert forall j :: 0 <= j < |c[i]| ==> c[i][j] == q[i][j];
    }
  }

  /** Every occupied new slot holds an untried id, at the position its hash gives. */
  ghost predicate NewTableOk(m: Infos, g: Grid, h: Hashes) {
    && IsGrid(g, NEW_BUCKET_COUNT)
    && -1 !in m
    && forall b, p :: 0 <= b < NEW_BUCKET_COUNT && 0 <= p < BUCKET_SIZE && g[b][p] != -1 ==>
         NewSlotOk(m, h, b, p, g[b][p])
  }

  ghost predicate NewSlotOk(m: Infos, h: Hashes, b: int, p: int, id: int) {
    id in m && !m[id].fInTried && p == h.Position(true, b, m[id].addr.service)
  }

  /** The new buckets that hold id. */
  ghost function Slots(g: Grid, h: Hashes, s: Service, id: int): set<int>
    requires IsGrid(g, NEW_BUCKET_COUNT)
  {
    set b | 0 <= b < NEW_BUCKET_COUNT && g[b][h.Position(true, b, s)] == id
  }

  /** Reference counts are exact. Ids in `zero` have none; other untried ids have 1 to 8. */
  ghost predicate RefsOk(m: Infos, g: Grid, h: Hashes, zero: set<int>)
    requires IsGrid(g, NEW_BUCKET_COUNT)
  {
    forall id :: id in m ==> RefOk(m[id], |Slots(g, h, m[id].addr.service, id)|, id in zero)
  }

  ghost predicate RefOk(info: AddrInfo, slots: int, isZero: bool) {
    && info.nRefCount == slots
    && (isZero ==> !info.fInTried && slots == 0)
    && (!isZero && !info.fInTried ==> 1 <= slots <= NEW_BUCKETS_PER_ADDRESS)
  }

  ghost predicate TriedSlotOk(m: Infos, h: Hashes, b: int, p: int, id: int) {
    && id in m && m[id].fInTried
    && b == h.TriedBucket(m[id].addr.service)
    && p == h.Position(false, b, m[id].addr.service)
  }

  /** Tried ids sit exactly in their own slots. */
  ghost predicate TriedTableOk(m: Infos, g: Grid, h: Hashes) {
    && IsGrid(g, TRIED_BUCKET_COUNT)
    && (forall b, p :: 0 <= b < TRIED_BUCKET_COUNT && 0 <= p < BUCKET_SIZE && g[b][p] != -1 ==>
          TriedSlotOk(m, h, b, p, g[b][p]))
    && (forall id :: id in m && m[id].fInTried ==> TriedHome(m[id], g, h) == id)
  }

  ghost function TriedHome(info: AddrInfo, g: Grid, h: Hashes): int
    requires IsGrid(g, TRIED_BUCKET_COUNT)
  {
    var b := h.TriedBucket(info.addr.service);
    g[b][h.Position(false, b, info.addr.service)]
  }

  ghost function NewIds(m: Infos): set<int> {
    set id | id in m && !m[id].fInTried
  }

  ghost function TriedIds(m: Infos): set<int> {
    set id | id in m && m[id].fInTried
  }

  ghost predicate IdsOk(m: Infos, nIdCount: int) {
    0 <= nIdCount && forall id :: id in m ==> 0 <= id < nIdCount
  }

  // ------------------------------------------------------------------
  // Changes that keep parts of the invariant
  // ------------------------------------------------------------------

  /** Only positions in vRandom and statistics may differ. */
  ghost predicate SameKey(a: AddrInfo, b: AddrInfo) {
    a.addr.service == b.addr.service && a.nRefCount == b.nRefCount && a.fInTried == b.fInTried
  }

  ghost predicate SameKeys(m: Infos, m': Infos) {
    m'.Keys == m.Keys && forall id :: id in m ==> SameKey(m[id], m'[id])
  }

  /** Everything but the position in vRandom is the same. */
  ghost predicate Moved(m: Infos, m': Infos) {
    m'.Keys == m.Keys && forall id :: id in m ==> m'[id] == m[id].(nRandomPos := m'[id].nRandomPos)
  }

  /** Everything about one entry but its position in vRandom is the same. */
  ghost predicate Kept(m: Infos, m': Infos, id: int) {
    id in m && id in m' && m'[id] == m[id].(nRandomPos := m'[id].nRandomPos)
  }

  ghost predicate KeptExcept(m: Infos, m': Infos, ids: set<int>) {
    forall id :: id in m && id !in ids ==> Kept(m, m', id)
  }

  /** Entries may have gone or lost slots, but none came or changed in any other way. */
  ghost predicate OnlySlots(m: Infos, m': Infos) {
    forall id :: id in m' ==> id in m && SameButSlots(m[id], m'[id])
  }

  ghost predicate SameButSlots(a: AddrInfo, b: AddrInfo) {
    b == a.(nRefCount := b.nRefCount, nRandomPos := b.nRandomPos)
  }

  lemma SameKeysIds(m: Infos, m': Infos)
    requires SameKeys(m, m')
    ensures NewIds(m') == NewIds(m) && TriedIds(m') == TriedIds(m)
  {
    forall id
      ensures id in NewIds(m') <==> id in NewIds(m)
      ensures id in TriedIds(m') <==> id in TriedIds(m)
    {
      assert id in m'.Keys <==> id in m.Keys;
      if id in m { assert SameKey(m[id], m'[id]); }
    }
  }

  lemma SameServices(m: Infos, m': Infos, a: map<Service, int>, d: bool)
    requires AddrOk(m, a, d) && m'.Keys == m.Keys
    requires forall id :: id in m ==> m'[id].addr.service == m[id].addr.service
    ensures AddrOk(m', a, d)
  {
  }

  lemma SameKeysTables(m: Infos, m': Infos, t: Grid, u: Grid, h: Hashes, zero: set<int>)
    requires SameKeys(m, m')
    requires NewTableOk(m, t, h) && RefsOk(m, t, h, zero) && TriedTableOk(m, u, h)
    ensures NewTableOk(m', t, h) && RefsOk(m', t, h, zero) && TriedTableOk(m', u, h)
  {
  }

  lemma AddrAdd(m: Infos, a: map<Service, int>, d: bool, id: int, info: AddrInfo)
    requires AddrOk(m, a, d) && id !in m && Norm(d, info.addr.service) !in a
    ensures AddrOk(m[id := info], a[Norm(d, info.addr.service) := id], d)
  {
  }

  lemma AddrRemove(m: Infos, a: map<Service, int>, d: bool, id: int)
    requires AddrOk(m, a, d) && id in m
    ensures AddrOk(m - {id}, a - {Norm(d, m[id].addr.service)}, d)
  {
  }

  lemma RandomPush(m: Infos, v: seq<int>, id: int, info: AddrInfo)
    requires RandomOk(m, v) && id !in m && info.nRandomPos == |v|
    ensures RandomOk(m[id := info], v + [id])
  {
  }

  lemma RandomPop(m: Infos, v: seq<int>, id: int)
    requires RandomOk(m, v) && id in m && m[id].nRandomPos == |v| - 1
    ensures RandomOk(m - {id}, v[..|v| - 1])
  {
    assert m.Keys == (m - {id}).Keys + {id};
  }

  lemma RandomSwap(m: Infos, v: seq<int>, i: int, j: int)
    requires RandomOk(m, v) && 0 <= i < |v| && 0 <= j < |v| && i != j
    ensures v[i] != v[j]
    ensures var m' := m[v[i] := m[v[i]].(nRandomPos := j)][v[j] := m[v[j]].(nRandomPos := i)];
            RandomOk(m', v[i := v[j]][j := v[i]]) && Moved(m, m')
  {
    var m' := m[v[i] := m[v[i]].(nRandomPos := j)][v[j] := m[v[j]].(nRandomPos := i)];
    assert m'.Keys == m.Keys;
  }

  /** Empty tables go with empty maps and with no others. */
  lemma ClearedTables(m: Infos, a: map<Service, int>, d: bool, t: Grid, u: Grid, h: Hashes)
    requires IsGrid(t, NEW_BUCKET_COUNT) && IsGrid(u, TRIED_BUCKET_COUNT)
    requires forall b, p :: 0 <= b < NEW_BUCKET_COUNT && 0 <= p < BUCKET_SIZE ==> t[b][p] == -1
    requires forall b, p :: 0 <= b < TRIED_BUCKET_COUNT && 0 <= p < BUCKET_SIZE ==> u[b][p] == -1
    ensures m == map[] && a == map[] ==>
              && IdsOk(m, 0) && AddrOk(m, a, d) && RandomOk(m, []) && NewTableOk(m, t, h) && RefsOk(m, t, h, {})
              && TriedTableOk(m, u, h) && NewIds(m) == {} && TriedIds(m) == {}
    ensures RandomOk(m, []) && AddrOk(m, a, d) ==> m == map[] && a == map[]
  {
    if m == map[] && a != map[] {
      var s :| s in a;
      assert !AddrOk(m, a, d);
    }
  }

  /** A new id starts in no slot. */
  lemma TablesAdd(m: Infos, t: Grid, u: Grid, h: Hashes, zero: set<int>, id: int, info: AddrInfo)
    requires NewTableOk(m, t, h) && RefsOk(m, t, h, zero) && TriedTableOk(m, u, h)
    requires id !in m && id != -1 && info.nRefCount == 0 && !info.fInTried
    ensures NewTableOk(m[id := info], t, h) && RefsOk(m[id := info], t, h, zero + {id})
    ensures TriedTableOk(m[id := info], u, h)
  {
    assert Slots(t, h, info.addr.service, id) == {};
  }

  lemma IdsAdd(m: Infos, id: int, info: AddrInfo)
    requires id !in m && !info.fInTried
    ensures |NewIds(m[id := info])| == |NewIds(m)| + 1 && TriedIds(m[id := info]) == TriedIds(m)
  {
    assert NewIds(m[id := info]) == NewIds(m) + {id};
  }

  lemma TablesRemove(m: Infos, t: Grid, u: Grid, h: Hashes, zero: set<int>, id: int)
    requires NewTableOk(m, t, h) && RefsOk(m, t, h, zero) && TriedTableOk(m, u, h)
    requires id in m && id in zero
    ensures NewTableOk(m - {id}, t, h) && RefsOk(m - {id}, t, h, zero - {id}) && TriedTableOk(m - {id}, u, h)
  {
    assert RefOk(m[id], |Slots(t, h, m[id].addr.service, id)|, true);
    assert Slots(t, h, m[id].addr.service, id) == {};
    forall b, p | 0 <= b < NEW_BUCKET_COUNT && 0 <= p < BUCKET_SIZE && t[b][p] != -1 ensures t[b][p] != id {
      assert NewSlotOk(m, h, b, p, t[b][p]);
      assert b !in Slots(t, h, m[id].addr.service, id);
    }
  }

  lemma IdsRemove(m: Infos, id: int)
    requires id in m && !m[id].fInTried
    ensures |NewIds(m - {id})| == |NewIds(m)| - 1 && TriedIds(m - {id}) == TriedIds(m)
  {
    assert NewIds(m - {id}) == NewIds(m) - {id};
  }

  lemma MovedIsSameKeys(m: Infos, m': Infos)
    requires Moved(m, m')
    ensures SameKeys(m, m')
  {
  }

  /** Reordering vRandom concerns no other part of the invariant. */
  lemma MovedKeeps(m: Infos, m': Infos, a: map<Service, int>, d: bool, n: int, t: Grid, u: Grid, h: Hashes, zero: set<int>)
    requires Moved(m, m')
    requires IdsOk(m, n) && AddrOk(m, a, d) && NewTableOk(m, t, h) && RefsOk(m, t, h, zero) && TriedTableOk(m, u, h)
    ensures IdsOk(m', n) && AddrOk(m', a, d) && NewTableOk(m', t, h) && RefsOk(m', t, h, zero) && TriedTableOk(m', u, h)
    ensures m'.Keys == m.Keys && NewIds(m') == NewIds(m) && TriedIds(m') == TriedIds(m)
  {
    MovedIsSameKeys(m, m');
    hide AddrOk, NewTableOk, RefsOk, TriedTableOk, NewIds, TriedIds, IdsOk;
    SameServices(m, m', a, d);
    SameKeysTables(m, m', t, u, h, zero);
    SameKeysIds(m, m');
    IdsShrink(m, m', n);
  }

  /** Removing an entry without slots that is last in vRandom keeps every part of the invariant. */
  lemma RemovedKeeps(m: Infos, a: map<Service, int>, d: bool, v: seq<int>, n: int, t: Grid, u: Grid, h: Hashes,
                     zero: set<int>, id: int)
    requires IdsOk(m, n) && AddrOk(m, a, d) && RandomOk(m, v)
    requires NewTableOk(m, t, h) && RefsOk(m, t, h, zero) && TriedTableOk(m, u, h)
    requires id in m && id in zero && m[id].nRandomPos == |v| - 1
    ensures var m' := m - {id};
            && IdsOk(m', n) && AddrOk(m', a - {Norm(d, m[id].addr.service)}, d)
            && RandomOk(m', v[..|v| - 1])
            && NewTableOk(m', t, h) && RefsOk(m', t, h, zero - {id}) && TriedTableOk(m', u, h)
            && |NewIds(m')| == |NewIds(m)| - 1 && TriedIds(m') == TriedIds(m)
  {
    hide AddrOk, NewTableOk, RefsOk, TriedTableOk, NewIds, TriedIds, IdsOk, RandomOk;
    RefAt(m, t, h, zero, id);
    AddrRemove(m, a, d, id);
    RandomPop(m, v, id);
    TablesRemove(m, t, u, h, zero, id);
    IdsRemove(m, id);
    IdsShrink(m, m - {id}, n);
  }

  lemma RandomAt(m: Infos, v: seq<int>, id: int, i: int)
    requires RandomOk(m, v)
    ensures id in m ==> 0 <= m[id].nRandomPos < |v| && v[m[id].nRandomPos] == id
    ensures 0 <= i < |v| ==> v[i] in m && m[v[i]].nRandomPos == i
  {
  }

  lemma RefAt(m: Infos, t: Grid, h: Hashes, zero: set<int>, id: int)
    requires NewTableOk(m, t, h) && RefsOk(m, t, h, zero) && id in m
    ensures RefOk(m[id], |Slots(t, h, m[id].addr.service, id)|, id in zero)
  {
  }

  lemma CardinalityOfPartition(m: Infos)
    ensures |m| == |NewIds(m)| + |TriedIds(m)|
  {
    assert m.Keys == NewIds(m) + TriedIds(m);
  }

  // ------------------------------------------------------------------
  // The manager
  // ------------------------------------------------------------------

  class Manager {
    const h: Hashes
    const discriminatePorts: bool
    const isRoutable: Service -> bool
    const vvTried: array2<int>
    const vvNew: array2<int>
    var nIdCount: int
    var mapInfo: Infos
    var mapAddr: map<Service, int>
    var vRandom: seq<int>
    var nTried: int
    var nNew: int
    var nLastGood: int

    predicate Shaped() {
      && vvNew.Length0 == NEW_BUCKET_COUNT && vvNew.Length1 == BUCKET_SIZE
      && vvTried.Length0 == TRIED_BUCKET_COUNT && vvTried.Length1 == BUCKET_SIZE
    }

    /** The index invariant while the ids in `zero` await a slot and k untried ids are
        not counted in nNew. */
    ghost predicate Inv(zero: set<int>, k: int)
      reads this, vvNew, vvTried
    {
      && vvNew != vvTried && Shaped()
      && IdsOk(mapInfo, nIdCount)
      && AddrOk(mapInfo, mapAddr, discriminatePorts)
      && RandomOk(mapInfo, vRandom)
      && NewTableOk(mapInfo, Cells(vvNew), h)
      && RefsOk(mapInfo, Cells(vvNew), h, zero)
      && TriedTableOk(mapInfo, Cells(vvTried), h)
      && zero <= mapInfo.Keys
      && nNew == |NewIds(mapInfo)| - k
      && nTried == |TriedIds(mapInfo)|
    }

    ghost predicate Valid()
      reads this, vvNew, vvTried
    {
      Inv({}, 0)
    }

    constructor (hashes: Hashes, ports: bool, routable: Service -> bool)
      ensures Valid() && fresh(vvNew) && fresh(vvTried)
      ensures mapInfo == map[] && discriminatePorts == ports && h == hashes && isRoutable == routable
    {
      h, discriminatePorts, isRoutable := hashes, ports, routable;
      mapInfo, mapAddr := map[], map[];
      vvTried := new int[TRIED_BUCKET_COUNT, BUCKET_SIZE];
      vvNew := new int[NEW_BUCKET_COUNT, BUCKET_SIZE];
      new;
      Clear();
    }

    /** Reset the tables and counters. The two maps are left as they are, so this yields a
        consistent manager exactly when they were already empty. */
    method Clear()
      requires vvNew != vvTried
      requires Shaped()
      modifies this, vvNew, vvTried
      ensures vRandom == [] && nIdCount == 0 && nTried == 0 && nNew == 0 && nLastGood == 1
      ensures mapInfo == old(mapInfo) && mapAddr == old(mapAddr)
      ensures Valid() <==> old(mapInfo) == map[] && old(mapAddr) == map[]
    {
      vRandom := [];
      for b := 0 to NEW_BUCKET_COUNT
        invariant forall i, p :: 0 <= i < b && 0 <= p < BUCKET_SIZE ==> vvNew[i, p] == -1
        invariant mapInfo == old(mapInfo) && mapAddr == old(mapAddr) && vRandom == []
      {
        for e := 0 to BUCKET_SIZE
          invariant forall i, p :: 0 <= i < b && 0 <= p < BUCKET_SIZE ==> vvNew[i, p] == -1
          invariant forall p :: 0 <= p < e ==> vvNew[b, p] == -1
          invariant mapInfo == old(mapInfo) && mapAddr == old(mapAddr) && vRandom == []
        {
          vvNew[b, e] := -1;
        }
      }
      for b := 0 to TRIED_BUCKET_COUNT
        invariant forall i, p :: 0 <= i < b && 0 <= p < BUCKET_SIZE ==> vvTried[i, p] == -1
        invariant forall i, p :: 0 <= i < NEW_BUCKET_COUNT && 0 <= p < BUCKET_SIZE ==> vvNew[i, p] == -1
        invariant mapInfo == old(mapInfo) && mapAddr == old(mapAddr) && vRandom == []
      {
        for e := 0 to BUCKET_SIZE
          invariant forall i, p :: 0 <= i < b && 0 <= p < BUCKET_SIZE ==> vvTried[i, p] == -1
          invariant forall p :: 0 <= p < e ==> vvTried[b, p] == -1
          invariant forall i, p :: 0 <= i < NEW_BUCKET_COUNT && 0 <= p < BUCKET_SIZE ==> vvNew[i, p] == -1
          invariant mapInfo == old(mapInfo) && mapAddr == old(mapAddr) && vRandom == []
        {
          vvTried[b, e] := -1;
        }
      }
      nIdCount, nTried, nNew, nLastGood := 0, 0, 0, 1;
      hide AddrOk, NewTableOk, RefsOk, TriedTableOk, NewIds, TriedIds, IdsOk, RandomOk;
      ClearedTables(mapInfo, mapAddr, discriminatePorts, Cells(vvNew), Cells(vvTried), h);
    }

    /** The id of an address, port-normalised. */
    function Find(s: Service): (r: Option<int>)
      reads this
    {
      var s2 := Norm(discriminatePorts, s);
      if s2 in mapAddr && mapAddr[s2] in mapInfo then Some(mapAddr[s2]) else None
    }

    /** The address is known exactly as given, port included. */
    predicate Exact(s: Service)
      reads this
    {
      var r := Find(s);
      r.Some? && mapInfo[r.value].addr.service == s
    }

    method Create(addr: Address, source: nat, ghost zero: set<int>, ghost k: int) returns (nId: int)
      requires Inv(zero, k) && Find(addr.service) == None
      modifies this`nIdCount, this`mapInfo, this`mapAddr, this`vRandom
      ensures Inv(zero + {nId}, k + 1)
      ensures nId == old(nIdCount) && nId !in old(mapInfo)
      ensures mapInfo == old(mapInfo)[nId := AddrInfo(addr, source, 0, 0, 0, 0, 0, false, |old(vRandom)|)]
    {
      hide RandomOk, NewTableOk, RefsOk, TriedTableOk, NewIds, TriedIds;
      nId := nIdCount;
      nIdCount := nIdCount + 1;
      var info := AddrInfo(addr, source, 0, 0, 0, 0, 0, false, |vRandom|);
      var key := Norm(discriminatePorts, addr.service);
      AddrAdd(mapInfo, mapAddr, discriminatePorts, nId, info);
      RandomPush(mapInfo, vRandom, nId, info);
      TablesAdd(mapInfo, Cells(vvNew), Cells(vvTried), h, zero, nId, info);
      IdsAdd(mapInfo, nId, info);
      mapInfo := mapInfo[nId := info];
      mapAddr := mapAddr[key := nId];
      vRandom := vRandom + [nId];
    }

    method SwapRandom(i: int, j: int)
      requires RandomOk(mapInfo, vRandom)
      requires i != j ==> 0 <= i < |vRandom| && 0 <= j < |vRandom|
      modifies this`mapInfo, this`vRandom
      ensures RandomOk(mapInfo, vRandom) && Moved(old(mapInfo), mapInfo)
      ensures i == j ==> vRandom == old(vRandom)
      ensures i != j ==> vRandom == old(vRandom)[i := old(vRandom)[j]][j := old(vRandom)[i]]
    {
      if i == j {
        return;
      }
      RandomAt(mapInfo, vRandom, 0, i);
      RandomAt(mapInfo, vRandom, 0, j);
      RandomSwap(mapInfo, vRandom, i, j);
      hide RandomOk, Moved;
      var id1, id2 := vRandom[i], vRandom[j];
      mapInfo := mapInfo[id1 := mapInfo[id1].(nRandomPos := j)];
      mapInfo := mapInfo[id2 := mapInfo[id2].(nRandomPos := i)];
      vRandom := vRandom[i := id2];
      vRandom := vRandom[j := id1];
    }

    /** First part of Delete: move the entry to the end of vRandom. */
    method MoveLast(nId: int, ghost zero: set<int>, ghost k: int)
      requires Inv(zero, k) && nId in mapInfo
      modifies this`mapInfo, this`vRandom
      ensures Inv(zero, k) && Moved(old(mapInfo), mapInfo) && mapInfo[nId].nRandomPos == |vRandom| - 1 >= 0
    {
      hide AddrOk, NewTableOk, RefsOk, TriedTableOk, NewIds, TriedIds, IdsOk, RandomOk, Slots;
      RandomAt(mapInfo, vRandom, nId, 0);
      ghost var m := mapInfo;
      SwapRandom(mapInfo[nId].nRandomPos, |vRandom| - 1);
      RandomAt(mapInfo, vRandom, nId, |vRandom| - 1);
      MovedKeeps(m, mapInfo, mapAddr, discriminatePorts, nIdCount, Cells(vvNew), Cells(vvTried), h, zero);
    }

    /** Remove an untried entry that no slot refers to. */
    method Delete(nId: int, ghost zero: set<int>, ghost k: int)
      requires Inv(zero, k) && nId in zero
      modifies this`mapInfo, this`mapAddr, this`vRandom, this`nNew
      ensures Inv(zero - {nId}, k)
      ensures Moved(old(mapInfo) - {nId}, mapInfo)
    {
      hide AddrOk, NewTableOk, RefsOk, TriedTableOk, NewIds, TriedIds, IdsOk, RandomOk, Slots;
      var info := mapInfo[nId];
      var key := Norm(discriminatePorts, info.addr.service);
      MoveLast(nId, zero, k);
      RemovedKeeps(mapInfo, mapAddr, discriminatePorts, vRandom, nIdCount, Cells(vvNew), Cells(vvTried), h, zero, nId);
      vRandom := vRandom[..|vRandom| - 1];
      mapAddr := mapAddr - {key};
      mapInfo := mapInfo - {nId};
      nNew := nNew - 1;
    }

    /** Empty one new slot; an entry that loses its last slot goes with it. */
    method ClearNew(b: int, p: int, ghost zero: set<int>, ghost k: int)
      requires Inv(zero, k) && 0 <= b < NEW_BUCKET_COUNT && 0 <= p < BUCKET_SIZE
      modifies this`mapInfo, this`mapAddr, this`vRandom, this`nNew, vvNew
      ensures Inv(zero, k)
      ensures vvNew[b, p] == -1
      ensures forall i, j :: 0 <= i < NEW_BUCKET_COUNT && 0 <= j < BUCKET_SIZE && (i, j) != (b, p) ==>
                vvNew[i, j] == old(vvNew[i, j])
      ensures OnlySlots(old(mapInfo), mapInfo) && KeptExcept(old(mapInfo), mapInfo, {old(vvNew[b, p])})
      ensures var x := old(vvNew[b, p]); x != -1 ==> LostSlot(old(mapInfo), mapInfo, x)
    {
      hide AddrOk, NewTableOk, RefsOk, TriedTableOk, NewIds, TriedIds, IdsOk, RandomOk;
      if vvNew[b, p] != -1 {
        var nIdDelete := vvNew[b, p];
        SlotAt(mapInfo, Cells(vvNew), h, zero, b, p);
        ghost var m, g := mapInfo, Cells(vvNew);
        var infoDelete := mapInfo[nIdDelete];
        infoDelete := infoDelete.(nRefCount := infoDelete.nRefCount - 1);
        mapInfo := mapInfo[nIdDelete := infoDelete];
        vvNew[b, p] := -1;
        CellsAfterWrite(vvNew, g, b, p, -1);
        SlotCleared(m, mapInfo, g, h, zero, b, p, nIdDelete);
        CountChanged(m, mapInfo, mapAddr, discriminatePorts, vRandom, nIdCount, Cells(vvTried), h, nIdDelete, infoDelete.nRefCount);
        if infoDelete.nRefCount == 0 {
          Delete(nIdDelete, zero + {nIdDelete}, k);
          assert zero + {nIdDelete} - {nIdDelete} == zero;
        }
      }
    }

    /** First part of MakeTried: take the entry out of every new bucket that holds it. */
    method LeaveNew(nId: int)
      requires Valid() && nId in mapInfo && !mapInfo[nId].fInTried
      modifies this`mapInfo, vvNew
      ensures Inv({nId}, 0)
      ensures mapInfo == old(mapInfo)[nId := old(mapInfo)[nId].(nRefCount := 0)]
      ensures forall b, p :: 0 <= b < NEW_BUCKET_COUNT && 0 <= p < BUCKET_SIZE ==>
                vvNew[b, p] == if old(vvNew[b, p]) == nId then -1 else old(vvNew[b, p])
    {
      hide AddrOk, NewTableOk, RefsOk, TriedTableOk, NewIds, TriedIds, IdsOk, RandomOk, Slots;
      var s := mapInfo[nId].addr.service;
      RefAt(mapInfo, Cells(vvNew), h, {}, nId);
      for bucket := 0 to NEW_BUCKET_COUNT
        invariant nId in mapInfo
        invariant mapInfo == old(mapInfo)[nId := old(mapInfo)[nId].(nRefCount := mapInfo[nId].nRefCount)]
        invariant Inv(if mapInfo[nId].nRefCount == 0 then {nId} else {}, 0)
        invariant forall b :: 0 <= b < bucket ==> vvNew[b, h.Position(true, b, s)] != nId
        invariant forall b, p :: 0 <= b < NEW_BUCKET_COUNT && 0 <= p < BUCKET_SIZE ==>
                    vvNew[b, p] == old(vvNew[b, p]) || (old(vvNew[b, p]) == nId && vvNew[b, p] == -1)
      {
        var pos := h.Position(true, bucket, s);
        if vvNew[bucket, pos] == nId {
          ghost var m, g, zero := mapInfo, Cells(vvNew), if mapInfo[nId].nRefCount == 0 then {nId} else {};
          NotMinusOne(m, g, h, nId);
          SlotAt(m, g, h, zero, bucket, pos);
          assert zero == {} && zero + {nId} == {nId};
          vvNew[bucket, pos] := -1;
          mapInfo := mapInfo[nId := mapInfo[nId].(nRefCount := mapInfo[nId].nRefCount - 1)];
          CellsAfterWrite(vvNew, g, bucket, pos, -1);
          SlotCleared(m, mapInfo, g, h, zero, bucket, pos, nId);
          CountChanged(m, mapInfo, mapAddr, discriminatePorts, vRandom, nIdCount, Cells(vvTried), h, nId,
                       mapInfo[nId].nRefCount);
        }
      }
      NoSlots(Cells(vvNew), h, s, nId);
      RefAt(mapInfo, Cells(vvNew), h, if mapInfo[nId].nRefCount == 0 then {nId} else {}, nId);
      forall b, p | 0 <= b < NEW_BUCKET_COUNT && 0 <= p < BUCKET_SIZE ensures vvNew[b, p] != nId {
        ZeroNotInTable(mapInfo, Cells(vvNew), h, {nId}, b, p);
      }
    }

    /** Take the entry out of an occupied tried slot. */
    method DropTried(b: int, p: int, ghost zero: set<int>, ghost k: int) returns (nIdEvict: int)
      requires Inv(zero, k) && 0 <= b < TRIED_BUCKET_COUNT && 0 <= p < BUCKET_SIZE && vvTried[b, p] != -1
      modifies this`mapInfo, this`nTried, vvTried
      ensures nIdEvict == old(vvTried[b, p]) && nIdEvict !in zero && nIdEvict in old(mapInfo)
      ensures mapInfo == old(mapInfo)[nIdEvict := old(mapInfo)[nIdEvict].(fInTried := false)]
      ensures vvTried[b, p] == -1
      ensures Inv(zero + {nIdEvict}, k + 1)
    {
      hide AddrOk, NewTableOk, RefsOk, TriedTableOk, NewIds, TriedIds, IdsOk, RandomOk;
      nIdEvict := vvTried[b, p];
      ghost var m, g, u := mapInfo, Cells(vvNew), Cells(vvTried);
      TriedSlotAt(m, u, h, b, p);
      RefAt(m, g, h, zero, nIdEvict);
      mapInfo := mapInfo[nIdEvict := mapInfo[nIdEvict].(fInTried := false)];
      vvTried[b, p] := -1;
      nTried := nTried - 1;
      CellsAfterWrite(vvTried, u, b, p, -1);
      TriedCleared(m, mapInfo, g, u, h, zero, b, p, nIdEvict);
      TriedFlipped(m, mapInfo, mapAddr, discriminatePorts, vRandom, nIdCount, nIdEvict);
    }

    /** Second part of MakeTried: a tried entry in the way goes back to its new bucket,
        displacing whatever is there. */
    method EvictTried(b: int, p: int, nId: int)
      requires Inv({nId}, 1) && 0 <= b < TRIED_BUCKET_COUNT && 0 <= p < BUCKET_SIZE
      modifies this`mapInfo, this`mapAddr, this`vRandom, this`nNew, this`nTried, vvNew, vvTried
      ensures Inv({nId}, 1)
      ensures vvTried[b, p] == -1
      ensures nId in mapInfo && mapInfo[nId] == old(mapInfo)[nId].(nRandomPos := mapInfo[nId].nRandomPos)
      ensures var x := old(vvTried[b, p]);
              MadeRoom(old(mapInfo), mapInfo, x, old(ReturnOccupant(x))) && ReturnOccupant(x) == x
    {
      hide AddrOk, NewTableOk, RefsOk, TriedTableOk, NewIds, TriedIds, IdsOk, RandomOk, Slots, OnlySlots;
      if vvTried[b, p] != -1 {
        ghost var x := vvTried[b, p];
        ghost var y := ReturnOccupant(x);
        TriedSlotAt(mapInfo, Cells(vvTried), h, b, p);
        TriedHasNoRefs(mapInfo, Cells(vvNew), h, {nId}, x);
        RefAt(mapInfo, Cells(vvNew), h, {nId}, x);
        var nIdEvict := DropTried(b, p, {nId}, 1);
        ghost var m1 := mapInfo;
        ghost var zero := {nId} + {nIdEvict};
        assert nIdEvict in zero && nId in zero && zero - {nIdEvict} == {nId};
        var infoOld := mapInfo[nIdEvict];
        var nUBucket := h.NewBucket(infoOld.addr.service, infoOld.source);
        var nUBucketPos := h.Position(true, nUBucket, infoOld.addr.service);
        ZeroNotInTable(mapInfo, Cells(vvNew), h, zero, nUBucket, nUBucketPos);
        ClearNew(nUBucket, nUBucketPos, zero, 2);
        RefAt(mapInfo, Cells(vvNew), h, zero, nIdEvict);
        ghost var m2 := mapInfo;
        TakeSlot(nIdEvict, nUBucket, nUBucketPos, zero, 2);
        nNew := nNew + 1;
        RoomMade(old(mapInfo), m1, m2, mapInfo, x, y);
      }
    }

    /** Enter an untried entry into an empty new slot. */
    method TakeSlot(nId: int, b: int, p: int, ghost zero: set<int>, ghost k: int)
      requires Inv(zero, k) && nId in mapInfo && !mapInfo[nId].fInTried
      requires mapInfo[nId].nRefCount < NEW_BUCKETS_PER_ADDRESS
      requires 0 <= b < NEW_BUCKET_COUNT && p == h.Position(true, b, mapInfo[nId].addr.service)
      requires vvNew[b, p] == -1
      modifies this`mapInfo, vvNew
      ensures Inv(zero - {nId}, k)
      ensures mapInfo == old(mapInfo)[nId := old(mapInfo)[nId].(nRefCount := old(mapInfo)[nId].nRefCount + 1)]
      ensures vvNew[b, p] == nId
    {
      hide AddrOk, NewTableOk, RefsOk, TriedTableOk, NewIds, TriedIds, IdsOk, RandomOk;
      ghost var m, g := mapInfo, Cells(vvNew);
      mapInfo := mapInfo[nId := mapInfo[nId].(nRefCount := mapInfo[nId].nRefCount + 1)];
      vvNew[b, p] := nId;
      CellsAfterWrite(vvNew, g, b, p, nId);
      SlotFilled(m, mapInfo, g, h, zero, b, p, nId);
      CountChanged(m, mapInfo, mapAddr, discriminatePorts, vRandom, nIdCount, Cells(vvTried), h, nId,
                   mapInfo[nId].nRefCount);
    }

    /** The occupant of the new slot that a tried entry returns to when it is evicted, or -1. */
    function ReturnOccupant(x: int): int
      requires Shaped()
      reads this, vvNew
    {
      if x != -1 && x in mapInfo then Occupant(mapInfo[x].addr.service, mapInfo[x].source) else -1
    }

    /** The entry that loses a new slot when nId moves to its tried slot, or -1. */
    function Displaced(nId: int): int
      requires Shaped() && nId in mapInfo
      reads this, vvNew, vvTried
    {
      var y := ReturnOccupant(TriedOccupant(mapInfo[nId].addr.service));
      if y == nId then -1 else y
    }

    /** The occupant of an address's tried slot, or -1. */
    function TriedOccupant(s: Service): int
      requires Shaped()
      reads this, vvTried
    {
      var b := h.TriedBucket(s);
      vvTried[b, h.Position(false, b, s)]
    }

    /** Move an entry from the new buckets to its tried slot. The one that was there becomes a new one again. */
    method MakeTried(nId: int)
      requires Valid() && nId in mapInfo && !mapInfo[nId].fInTried
      modifies this`mapInfo, this`mapAddr, this`vRandom, this`nNew, this`nTried, vvNew, vvTried
      ensures Valid()
      ensures var x := old(TriedOccupant(mapInfo[nId].addr.service));
              Promoted(old(mapInfo), mapInfo, nId, x, old(Displaced(nId))) && ReturnOccupant(x) == x
    {
      hide AddrOk, NewTableOk, RefsOk, TriedTableOk, NewIds, TriedIds, IdsOk, RandomOk, MadeRoom, Promoted;
      ghost var x, y := TriedOccupant(mapInfo[nId].addr.service), Displaced(nId);
      NotMinusOne(mapInfo, Cells(vvNew), h, nId);
      UntriedIsElsewhere(mapInfo, Cells(vvTried), h, nId);
      assert nId != x && nId != y;
      LeaveNew(nId);
      ghost var m1 := mapInfo;
      assert ReturnOccupant(x) == y;
      hide Displaced, ReturnOccupant;
      nNew := nNew - 1;
      assert mapInfo[nId].nRefCount == 0;
      var nKBucket := h.TriedBucket(mapInfo[nId].addr.service);
      var nKBucketPos := h.Position(false, nKBucket, mapInfo[nId].addr.service);
      EvictTried(nKBucket, nKBucketPos, nId);
      assert vvTried[nKBucket, nKBucketPos] == -1;
      ghost var m, u := mapInfo, Cells(vvTried);
      vvTried[nKBucket, nKBucketPos] := nId;
      nTried := nTried + 1;
      mapInfo := mapInfo[nId := mapInfo[nId].(fInTried := true)];
      CellsAfterWrite(vvTried, u, nKBucket, nKBucketPos, nId);
      TriedFilled(m, mapInfo, Cells(vvNew), u, h, {nId}, nKBucket, nKBucketPos, nId);
      TriedFlipped(m, mapInfo, mapAddr, discriminatePorts, vRandom, nIdCount, nId);
      assert {nId} - {nId} == {};
      RoomPromotes(old(mapInfo), m1, m, mapInfo, nId, x, y);
    }

    /** Overwrite an entry's statistics, time stamp or service bits. */
    method Touch(nId: int, info: AddrInfo, ghost zero: set<int>)
      requires Inv(zero, 0) && nId in mapInfo
      requires SameKey(mapInfo[nId], info) && info.nRandomPos == mapInfo[nId].nRandomPos
      modifies this`mapInfo
      ensures Inv(zero, 0) && mapInfo == old(mapInfo)[nId := info]
    {
      hide AddrOk, NewTableOk, RefsOk, TriedTableOk, NewIds, TriedIds, IdsOk, RandomOk;
      ghost var m := mapInfo;
      mapInfo := mapInfo[nId := info];
      assert SameKeys(m, mapInfo);
      SameServices(m, mapInfo, mapAddr, discriminatePorts);
      SameKeysTables(m, mapInfo, Cells(vvNew), Cells(vvTried), h, zero);
      SameKeysIds(m, mapInfo);
      IdsShrink(m, mapInfo, nIdCount);
      SamePositions(m, mapInfo, vRandom);
    }

    /** Mark an entry good, moving it to the tried table. `nRnd` is RandomInt's answer. */
    method Good(addr: Service, nTime: int, nRnd: nat)
      requires Valid() && nRnd < NEW_BUCKET_COUNT
      modifies this`mapInfo, this`mapAddr, this`vRandom, this`nNew, this`nTried, this`nLastGood, vvNew, vvTried
      ensures Valid() && nLastGood == nTime
      ensures var r := old(Find(addr));
              if old(Exact(addr)) then
                var id := r.value;
                var m := old(mapInfo)[id := Succeeded(old(mapInfo)[id], nTime)];
                if m[id].fInTried then mapInfo == m && unchanged(`mapAddr, `vRandom, `nNew, `nTried, vvNew, vvTried)
                else Promoted(m, mapInfo, id, old(TriedOccupant(addr)), old(Displaced(id)))
                     && ReturnOccupant(old(TriedOccupant(addr))) == old(TriedOccupant(addr))
              else
                unchanged(`mapInfo, `mapAddr, `vRandom, `nNew, `nTried, vvNew, vvTried)
      ensures old(TimesOk(mapInfo)) ==> (TimesOk(mapInfo) <==> nTime > 0 || !old(Exact(addr)))
    {
      hide AddrOk, NewTableOk, RefsOk, TriedTableOk, NewIds, TriedIds, IdsOk, RandomOk, Promoted, KeptExcept, TimesOk;
      nLastGood := nTime;
      var r := Find(addr);
      if r.None? {
        return;
      }
      var nId := r.value;
      var info := mapInfo[nId];
      if info.addr.service != addr {
        return;
      }
      RefAt(mapInfo, Cells(vvNew), h, {}, nId);
      TriedHasNoRefs(mapInfo, Cells(vvNew), h, {}, nId);
      ghost var x, y := TriedOccupant(addr), Displaced(nId);
      Touch(nId, info.(nLastSuccess := nTime, nLastTry := nTime, nAttempts := 0), {});
      assert TriedOccupant(addr) == x && Displaced(nId) == y;
      UpdatedTimes(old(mapInfo), nId, mapInfo[nId]);
      ZeroNotInTable(mapInfo, Cells(vvNew), h, {}, 0, 0);
      if !info.fInTried {
        ghost var m := mapInfo;
        Promote(nId, nRnd);
        PromotedTimes(old(mapInfo), m, mapInfo, nId, nTime, x, y);
      }
    }

    /** Last part of Good: find the entry in a new bucket and move it. */
    method Promote(nId: int, nRnd: nat)
      requires Valid() && nRnd < NEW_BUCKET_COUNT && nId in mapInfo && !mapInfo[nId].fInTried
      modifies this`mapInfo, this`mapAddr, this`vRandom, this`nNew, this`nTried, vvNew, vvTried
      ensures Valid()
      ensures var x := old(TriedOccupant(mapInfo[nId].addr.service));
              Promoted(old(mapInfo), mapInfo, nId, x, old(Displaced(nId))) && ReturnOccupant(x) == x
    {
      hide AddrOk, NewTableOk, RefsOk, TriedTableOk, NewIds, TriedIds, IdsOk, RandomOk, Promoted;
      var nUBucket := FindBucket(nId, nRnd);
      if nUBucket == -1 {
        assert false; // "something bad happened"
      }
      MakeTried(nId);
    }

    /** A bucket that holds an untried entry, searched from a random start. */
    method FindBucket(nId: int, nRnd: nat) returns (nUBucket: int)
      requires Valid() && nRnd < NEW_BUCKET_COUNT && nId in mapInfo && !mapInfo[nId].fInTried
      ensures 0 <= nUBucket < NEW_BUCKET_COUNT
      ensures vvNew[nUBucket, h.Position(true, nUBucket, mapInfo[nId].addr.service)] == nId
    {
      hide AddrOk, NewTableOk, RefsOk, TriedTableOk, NewIds, TriedIds, IdsOk, RandomOk;
      var s := mapInfo[nId].addr.service;
      RefAt(mapInfo, Cells(vvNew), h, {}, nId);
      ghost var b :| b in Slots(Cells(vvNew), h, s, nId);
      ghost var at := if b >= nRnd then b - nRnd else b - nRnd + NEW_BUCKET_COUNT;
      assert Turn(at, nRnd) == b;
      for n := 0 to NEW_BUCKET_COUNT
        invariant n <= at
      {
        var nB := Turn(n, nRnd);
        if vvNew[nB, h.Position(true, nB, s)] == nId {
          return nB;
        }
      }
      assert false;
    }

    /** Last part of Add: give an untried entry one more new slot, if it may have it. */
    method Place(nId: int, source: nat, nNow: int)
      requires nId in mapInfo && Inv(if mapInfo[nId].nRefCount == 0 then {nId} else {}, 0)
      requires !mapInfo[nId].fInTried && mapInfo[nId].nRefCount < NEW_BUCKETS_PER_ADDRESS
      modifies this`mapInfo, this`mapAddr, this`vRandom, this`nNew, vvNew
      ensures Valid()
      ensures nId in mapInfo <==> old(mapInfo)[nId].nRefCount > 0 || old(SlotOpen(mapInfo[nId], source, nNow))
      ensures nId in mapInfo ==> mapInfo[nId] == old(mapInfo)[nId].(nRandomPos := mapInfo[nId].nRandomPos, nRefCount :=
        old(mapInfo)[nId].nRefCount + if old(InSlot(nId, mapInfo[nId], source) || !SlotOpen(mapInfo[nId], source, nNow)) then 0 else 1)
      ensures nId in mapInfo && old(SlotOpen(mapInfo[nId], source, nNow)) ==> Occupant(mapInfo[nId].addr.service, source) == nId
      ensures OnlySlots(old(mapInfo), mapInfo)
      ensures var y := old(Ousted(nId, mapInfo[nId], source, nNow));
              KeptExcept(old(mapInfo), mapInfo, {nId, y}) && y != nId && (y != -1 ==> LostSlot(old(mapInfo), mapInfo, y))
    {
      hide AddrOk, NewTableOk, RefsOk, TriedTableOk, NewIds, TriedIds, IdsOk, RandomOk, AddrInfo.IsTerrible, Slots;
      var info := mapInfo[nId];
      ghost var zero := if info.nRefCount == 0 then {nId} else {};
      RefAt(mapInfo, Cells(vvNew), h, zero, nId);
      var nUBucket := h.NewBucket(info.addr.service, source);
      var nUBucketPos := h.Position(true, nUBucket, info.addr.service);
      ZeroNotInTable(mapInfo, Cells(vvNew), h, zero, nUBucket, nUBucketPos);
      if vvNew[nUBucket, nUBucketPos] != nId {
        var fInsert := vvNew[nUBucket, nUBucketPos] == -1;
        if !fInsert {
          var infoExisting := mapInfo[vvNew[nUBucket, nUBucketPos]];
          if infoExisting.IsTerrible(nNow) || (infoExisting.nRefCount > 1 && info.nRefCount == 0) {
            fInsert := true;
          }
        }
        if fInsert {
          ClearNew(nUBucket, nUBucketPos, zero, 0);
          TakeSlot(nId, nUBucket, nUBucketPos, zero, 0);
          assert zero - {nId} == {};
        } else if info.nRefCount == 0 {
          Delete(nId, zero, 0);
          assert zero - {nId} == {};
        }
      }
    }

    /** The occupant of the new slot that the entry's hash gives, or -1. */
    function Occupant(s: Service, source: nat): int
      requires Shaped()
      reads this, vvNew
    {
      var b := h.NewBucket(s, source);
      vvNew[b, h.Position(true, b, s)]
    }

    /** The entry whose slot the entry takes if it tries for one, or -1. */
    function Ousted(nId: int, info: AddrInfo, source: nat, nNow: int): int
      requires Shaped()
      reads this, vvNew
    {
      if !InSlot(nId, info, source) && SlotOpen(info, source, nNow) then Occupant(info.addr.service, source) else -1
    }

    /** The entry whose slot goes to the announced address, or -1. */
    ghost function OustedBy(addr: Address, source: nat, timePenalty: int, nNow: int, dice: nat): int
      requires Shaped()
      reads this, vvNew
    {
      var nTimePenalty := Penalty(addr, source, timePenalty);
      if !isRoutable(addr.service) then -1
      else
        match Find(addr.service)
        case Some(nId) => OustedByKnown(nId, addr, source, nTimePenalty, nNow, dice)
        case None => Ousted(-1, Announced(addr, source, nTimePenalty), source, nNow)
    }

    ghost function OustedByKnown(nId: int, addr: Address, source: nat, nTimePenalty: int, nNow: int, dice: nat): int
      requires Shaped() && nId in mapInfo
      reads this, vvNew
    {
      var info := Refreshed(mapInfo[nId], addr, nTimePenalty, nNow);
      if Wanted(info, addr.nTime, dice) then Ousted(nId, info, source, nNow) else -1
    }

    predicate InSlot(nId: int, info: AddrInfo, source: nat)
      requires Shaped()
      reads this, vvNew
    {
      Occupant(info.addr.service, source) == nId
    }

    /** Whether the entry may take the slot its hash gives: it is free, or held by an entry that is terrible
        or, for an entry without slots, by one that has others. */
    predicate SlotOpen(info: AddrInfo, source: nat, nNow: int)
      requires Shaped()
      reads this, vvNew
    {
      var x := Occupant(info.addr.service, source);
      x == -1 || (x in mapInfo && (mapInfo[x].IsTerrible(nNow) || (mapInfo[x].nRefCount > 1 && info.nRefCount == 0)))
    }

    /** First part of Add for a known address: refresh its time and services, and decide
        whether it may try for one more slot. */
    method Refresh(nId: int, addr: Address, nTimePenalty: int, nNow: int, dice: nat) returns (more: bool)
      requires Valid() && nId in mapInfo
      modifies this`mapInfo
      ensures Valid() && mapInfo == old(mapInfo)[nId := Refreshed(old(mapInfo)[nId], addr, nTimePenalty, nNow)]
      ensures more <==> Wanted(mapInfo[nId], addr.nTime, dice)
    {
      hide AddrOk, NewTableOk, RefsOk, TriedTableOk, NewIds, TriedIds, IdsOk, RandomOk, Slots;
      var info := mapInfo[nId];
      RefAt(mapInfo, Cells(vvNew), h, {}, nId);
      var fCurrentlyOnline := nNow - addr.nTime < 24 * 60 * 60;
      var nUpdateInterval := if fCurrentlyOnline then 60 * 60 else 24 * 60 * 60;
      if addr.nTime != 0 && (info.addr.nTime == 0 || info.addr.nTime < addr.nTime - nUpdateInterval - nTimePenalty) {
        info := info.(addr := info.addr.(nTime := NotNegative(addr.nTime - nTimePenalty)));
      }
      info := info.(addr := info.addr.(services := info.addr.services + addr.services));
      Touch(nId, info, {});
      assert info == Refreshed(old(mapInfo)[nId], addr, nTimePenalty, nNow);
      if addr.nTime == 0 || (info.addr.nTime != 0 && addr.nTime <= info.addr.nTime) {
        return false;
      }
      if info.fInTried || info.nRefCount == NEW_BUCKETS_PER_ADDRESS {
        return false;
      }
      var nFactor := 1;
      for n := 0 to info.nRefCount
        invariant nFactor == Pow(2, n) >= 1
      {
        nFactor := nFactor * 2;
      }
      return !(nFactor > 1 && dice % nFactor != 0);
    }

    /** Add an announced address. `nNow` is the adjusted time and `dice` RandomInt's answer. */
    method Add(addr: Address, source: nat, timePenalty: int, nNow: int, dice: nat) returns (fNew: bool)
      requires Valid()
      modifies this`nIdCount, this`mapInfo, this`mapAddr, this`vRandom, this`nNew, vvNew
      ensures Valid()
      ensures fNew <==> isRoutable(addr.service) && old(Find(addr.service)).None?
      ensures !isRoutable(addr.service) ==> mapInfo == old(mapInfo)
      ensures !fNew ==> Find(addr.service) == old(Find(addr.service))
      ensures isRoutable(addr.service) && !fNew ==>
        var id := Find(addr.service).value;
        mapInfo[id] == old(Readded(id, addr, source, Penalty(addr, source, timePenalty), nNow, dice)).(nRandomPos := mapInfo[id].nRandomPos)
      ensures isRoutable(addr.service) && !fNew ==>
        var id := Find(addr.service).value;
        mapInfo[id].nRefCount > old(mapInfo)[id].nRefCount ==> Occupant(mapInfo[id].addr.service, source) == id
      ensures fNew && Find(addr.service).Some? ==> Find(addr.service).value == old(nIdCount)
      ensures fNew ==> (Find(addr.service).Some? <==> old(SlotOpen(Announced(addr, source, timePenalty), source, nNow)))
      ensures fNew && Find(addr.service).Some? ==>
        var info := mapInfo[Find(addr.service).value];
        info == Announced(addr, source, Penalty(addr, source, timePenalty)).(nRefCount := 1, nRandomPos := info.nRandomPos)
      ensures fNew && Find(addr.service).Some? ==> Occupant(addr.service, source) == Find(addr.service).value
      ensures Disturbed(old(mapInfo), mapInfo, Find(addr.service), old(OustedBy(addr, source, timePenalty, nNow, dice)))
      ensures old(TimesOk(mapInfo)) ==> TimesOk(mapInfo)
    {
      hide AddrOk, NewTableOk, RefsOk, TriedTableOk, NewIds, TriedIds, IdsOk, RandomOk, Slots, Disturbed, TimesOk;
      ghost var y := OustedBy(addr, source, timePenalty, nNow, dice);
      if !isRoutable(addr.service) {
        Undisturbed(mapInfo, Find(addr.service));
        return false;
      }
      var nTimePenalty := Penalty(addr, source, timePenalty);
      var r := Find(addr.service);
      if r.Some? {
        AddKnown(r.value, addr, source, nTimePenalty, nNow, dice);
        DisturbedTimes(old(mapInfo), mapInfo, r, y);
        return false;
      }
      AddUnknown(addr, source, nTimePenalty, nNow);
      DisturbedTimes(old(mapInfo), mapInfo, Find(addr.service), y);
      return true;
    }

    /** What Add makes of a known entry: refreshed, with one more slot if it wants it and may have it. */
    ghost function Readded(nId: int, addr: Address, source: nat, nTimePenalty: int, nNow: int, dice: nat): AddrInfo
      requires Shaped() && nId in mapInfo
      reads this, vvNew
    {
      var info := Refreshed(mapInfo[nId], addr, nTimePenalty, nNow);
      if Wanted(info, addr.nTime, dice) && !InSlot(nId, info, source) && SlotOpen(info, source, nNow)
      then info.(nRefCount := info.nRefCount + 1) else info
    }

    method AddKnown(nId: int, addr: Address, source: nat, nTimePenalty: int, nNow: int, dice: nat)
      requires Valid() && Find(addr.service) == Some(nId)
      modifies this`mapInfo, this`mapAddr, this`vRandom, this`nNew, vvNew
      ensures Valid() && Find(addr.service) == Some(nId)
      ensures mapInfo[nId] == old(Readded(nId, addr, source, nTimePenalty, nNow, dice)).(nRandomPos := mapInfo[nId].nRandomPos)
      ensures mapInfo[nId].nRefCount > old(mapInfo)[nId].nRefCount ==> Occupant(mapInfo[nId].addr.service, source) == nId
      ensures Disturbed(old(mapInfo), mapInfo, Some(nId), old(OustedByKnown(nId, addr, source, nTimePenalty, nNow, dice)))
    {
      hide AddrOk, NewTableOk, RefsOk, TriedTableOk, NewIds, TriedIds, IdsOk, RandomOk, Slots, Refreshed, Wanted;
      FindIsInfo(mapInfo, mapAddr, discriminatePorts, nId, addr.service);
      RefreshedKey(mapInfo[nId], addr, nTimePenalty, nNow);
      var more := Refresh(nId, addr, nTimePenalty, nNow, dice);
      ghost var info := mapInfo[nId];
      assert InSlot(nId, info, source) == old(InSlot(nId, Refreshed(mapInfo[nId], addr, nTimePenalty, nNow), source));
      if !InSlot(nId, info, source) {
        assert SlotOpen(info, source, nNow) == old(SlotOpen(Refreshed(mapInfo[nId], addr, nTimePenalty, nNow), source, nNow));
      }
      if more {
        RefAt(mapInfo, Cells(vvNew), h, {}, nId);
        WantedHasRoom(info, addr.nTime, dice);
        ghost var m1, y := mapInfo, Ousted(nId, info, source, nNow);
        Place(nId, source, nNow);
        PlacedDisturbs(old(mapInfo), m1, mapInfo, nId, y, Some(nId));
      }
      FindIsInfo(mapInfo, mapAddr, discriminatePorts, nId, addr.service);
    }

    /** First part of Add for an unknown address: an entry with the announced time, less the penalty. */
    method CreateDated(addr: Address, source: nat, nTimePenalty: int) returns (nId: int)
      requires Valid() && Find(addr.service).None?
      modifies this`nIdCount, this`mapInfo, this`mapAddr, this`vRandom, this`nNew
      ensures Inv({nId}, 0) && nId == old(nIdCount) && nId !in old(mapInfo)
      ensures mapInfo == old(mapInfo)[nId := Announced(addr, source, nTimePenalty).(nRandomPos := |old(vRandom)|)]
    {
      hide AddrOk, NewTableOk, RefsOk, TriedTableOk, NewIds, TriedIds, IdsOk, RandomOk, Slots;
      nId := Create(addr, source, {}, 0);
      assert {} + {nId} == {nId};
      var info := mapInfo[nId];
      nNew := nNew + 1;
      Touch(nId, info.(addr := info.addr.(nTime := NotNegative(info.addr.nTime - nTimePenalty))), {nId});
    }

    method AddUnknown(addr: Address, source: nat, nTimePenalty: int, nNow: int)
      requires Valid() && Find(addr.service).None?
      modifies this`nIdCount, this`mapInfo, this`mapAddr, this`vRandom, this`nNew, vvNew
      ensures Valid()
      ensures Find(addr.service).Some? <==> old(SlotOpen(Announced(addr, source, nTimePenalty), source, nNow))
      ensures Find(addr.service).Some? ==> Find(addr.service).value == old(nIdCount)
      ensures Find(addr.service).Some? ==>
        var info := mapInfo[Find(addr.service).value];
        info == Announced(addr, source, nTimePenalty).(nRefCount := 1, nRandomPos := info.nRandomPos)
      ensures Find(addr.service).Some? ==> Occupant(addr.service, source) == Find(addr.service).value
      ensures Disturbed(old(mapInfo), mapInfo, Find(addr.service), old(Ousted(-1, Announced(addr, source, nTimePenalty), source, nNow)))
    {
      hide AddrOk, NewTableOk, RefsOk, TriedTableOk, NewIds, TriedIds, IdsOk, RandomOk, Slots, OnlySlots, KeptExcept, Disturbed,
           LostSlot, AddrInfo.IsTerrible;
      ghost var b := h.NewBucket(addr.service, source);
      ZeroNotInTable(mapInfo, Cells(vvNew), h, {}, b, h.Position(true, b, addr.service));
      FindIsInfo(mapInfo, mapAddr, discriminatePorts, 0, addr.service);
      var nId := CreateDated(addr, source, nTimePenalty);
      assert SlotOpen(mapInfo[nId], source, nNow) == old(SlotOpen(Announced(addr, source, nTimePenalty), source, nNow));
      ZeroNotInTable(mapInfo, Cells(vvNew), h, {nId}, b, h.Position(true, b, addr.service));
      assert !InSlot(nId, mapInfo[nId], source);
      ghost var m1, y := mapInfo, Ousted(nId, mapInfo[nId], source, nNow);
      Place(nId, source, nNow);
      FindIsInfo(mapInfo, mapAddr, discriminatePorts, nId, addr.service);
      StillUnknown(old(mapInfo), m1, mapInfo, mapAddr, discriminatePorts, nId, addr.service);
      PlacedDisturbs(old(mapInfo), m1, mapInfo, nId, y, Find(addr.service));
    }

    method Attempt(addr: Service, fCountFailure: bool, nTime: int)
      requires Valid()
      modifies this`mapInfo
      ensures Valid()
      ensures !old(Exact(addr)) ==> mapInfo == old(mapInfo)
      ensures old(Exact(addr)) ==>
        var id := old(Find(addr)).value;
        var info := old(mapInfo)[id].(nLastTry := nTime);
        var counts := fCountFailure && info.nLastCountAttempt < nLastGood;
        mapInfo == old(mapInfo)[id := if counts then info.(nLastCountAttempt := nTime, nAttempts := info.nAttempts + 1) else info]
      ensures old(TimesOk(mapInfo)) ==> (TimesOk(mapInfo) <==> nTime >= 0 || !old(Exact(addr)))
    {
      hide AddrOk, NewTableOk, RefsOk, TriedTableOk, NewIds, TriedIds, IdsOk, RandomOk, Slots;
      var r := Find(addr);
      if r.None? || mapInfo[r.value].addr.service != addr {
        return;
      }
      var info := mapInfo[r.value].(nLastTry := nTime);
      if fCountFailure && info.nLastCountAttempt < nLastGood {
        info := info.(nLastCountAttempt := nTime, nAttempts := info.nAttempts + 1);
      }
      UpdatedTimes(mapInfo, r.value, info);
      assert TimesOk(mapInfo) ==> TimeOk(mapInfo[r.value]);
      Touch(r.value, info, {});
    }

    method Connected(addr: Service, nTime: int)
      requires Valid()
      modifies this`mapInfo
      ensures Valid()
      ensures !old(Exact(addr)) ==> mapInfo == old(mapInfo)
      ensures old(Exact(addr)) ==>
        var id := old(Find(addr)).value;
        var info := old(mapInfo)[id];
        mapInfo == if nTime - info.addr.nTime > 1200 then old(mapInfo)[id := info.(addr := info.addr.(nTime := nTime))] else old(mapInfo)
      ensures old(TimesOk(mapInfo)) ==> TimesOk(mapInfo)
    {
      hide AddrOk, NewTableOk, RefsOk, TriedTableOk, NewIds, TriedIds, IdsOk, RandomOk, Slots;
      var r := Find(addr);
      if r.None? || mapInfo[r.value].addr.service != addr {
        return;
      }
      var info := mapInfo[r.value];
      if nTime - info.addr.nTime > 20 * 60 {
        Touch(r.value, info.(addr := info.addr.(nTime := nTime)), {});
      }
    }

    method SetServices(addr: Service, services: set<nat>)
      requires Valid()
      modifies this`mapInfo
      ensures Valid()
      ensures !old(Exact(addr)) ==> mapInfo == old(mapInfo)
      ensures old(Exact(addr)) ==>
        var id := old(Find(addr)).value;
        var info := old(mapInfo)[id];
        mapInfo == old(mapInfo)[id := info.(addr := info.addr.(services := services))]
      ensures old(TimesOk(mapInfo)) ==> TimesOk(mapInfo)
    {
      hide AddrOk, NewTableOk, RefsOk, TriedTableOk, NewIds, TriedIds, IdsOk, RandomOk, Slots;
      var r := Find(addr);
      if r.None? || mapInfo[r.value].addr.service != addr {
        return;
      }
      var info := mapInfo[r.value];
      Touch(r.value, info.(addr := info.addr.(services := services)), {});
    }

    /** A random selection of distinct good entries. `rnd(n)` is RandomInt's n-th answer. */
    method GetAddr(nNow: int, rnd: nat -> nat) returns (vAddr: seq<Address>, ghost ids: seq<int>)
      requires Valid()
      modifies this`mapInfo, this`vRandom
      ensures Valid() && Moved(old(mapInfo), mapInfo)
      ensures |vAddr| <= GetAddrMax(|mapInfo|)
      ensures Selection(mapInfo, ids, vAddr, nNow)
      ensures |vAddr| < GetAddrMax(|mapInfo|) ==>
                forall id :: id in mapInfo && !mapInfo[id].IsTerrible(nNow) ==> id in ids
      ensures IsDraw(old(mapInfo), old(vRandom), rnd, vRandom, ids, nNow)
    {
      hide AddrOk, NewTableOk, RefsOk, TriedTableOk, NewIds, TriedIds, IdsOk, RandomOk, Slots, Selection, Moved, IsDraw;
      var nNodes := GETADDR_MAX_PCT * |vRandom| / 100;
      if nNodes > GETADDR_MAX {
        nNodes := GETADDR_MAX;
      }
      ghost var m := mapInfo;
      RandomSize(mapInfo, vRandom);
      vAddr, ids := Pick(nNodes, nNow, rnd);
      MovedKeeps(m, mapInfo, mapAddr, discriminatePorts, nIdCount, Cells(vvNew), Cells(vvTried), h, {});
    }

    /** The loop of GetAddr: at most nNodes entries, fewer only if all were looked at. */
    method Pick(nNodes: nat, nNow: int, rnd: nat -> nat) returns (vAddr: seq<Address>, ghost ids: seq<int>)
      requires RandomOk(mapInfo, vRandom)
      modifies this`mapInfo, this`vRandom
      ensures RandomOk(mapInfo, vRandom) && Moved(old(mapInfo), mapInfo) && |mapInfo| == |old(mapInfo)|
      ensures |vAddr| <= nNodes && Selection(mapInfo, ids, vAddr, nNow)
      ensures |vAddr| < nNodes ==> forall id :: id in mapInfo && !mapInfo[id].IsTerrible(nNow) ==> id in ids
      ensures IsDraw(old(mapInfo), old(vRandom), rnd, vRandom, ids, nNow)
    {
      hide RandomOk, Selection, Covers, Drawn, Fit, AddrInfo.IsTerrible;
      ghost var m, size := mapInfo, |vRandom|;
      vAddr, ids := [], [];
      PickNone(m, vRandom, nNow);
      DrawNone(m, vRandom, rnd, nNow);
      var n := 0;
      while n < |vRandom| && |vAddr| < nNodes
        invariant 0 <= n <= |vRandom| == size
        invariant Moved(m, mapInfo) && RandomOk(mapInfo, vRandom)
        invariant |vAddr| <= nNodes
        invariant Selection(m, ids, vAddr, nNow) && Covers(m, vRandom, n, ids, nNow)
        invariant vRandom == Drawn(old(vRandom), rnd, n) && ids == Fit(m, vRandom[..n], nNow)
      {
        var nRndPos := rnd(n) % (|vRandom| - n) + n;
        ghost var before := vRandom;
        SwapRandom(n, nRndPos);
        RandomAt(mapInfo, vRandom, 0, n);
        var ai := mapInfo[vRandom[n]];
        PickOne(m, mapInfo, before, vRandom, n, ids, vAddr, nNow);
        DrawOne(m, mapInfo, old(vRandom), rnd, before, vRandom, n, nNow);
        if !ai.IsTerrible(nNow) {
          vAddr, ids := vAddr + [ai.addr], ids + [vRandom[n]];
        }
        n := n + 1;
      }
      PickedAll(m, mapInfo, vRandom, n, ids, vAddr, nNow);
    }

    /** Every run from a consistent manager, in particular from an empty one, ends in a
        consistent manager. If every success is given a time after 0 and no attempt a negative
        one, the time stamps stay in order. */
    method Run(ops: seq<Op>)
      requires Valid()
      modifies this, vvNew, vvTried
      ensures Valid()
      ensures old(TimesOk(mapInfo)) && (forall i :: 0 <= i < |ops| ==> ops[i].Timed()) ==> TimesOk(mapInfo)
    {
      hide TimesOk, IdsOk, AddrOk, RandomOk, NewTableOk, RefsOk, TriedTableOk, NewIds, TriedIds;
      for i := 0 to |ops|
        invariant Valid()
        invariant old(TimesOk(mapInfo)) && (forall j :: 0 <= j < i ==> ops[j].Timed()) ==> TimesOk(mapInfo)
      {
        match ops[i] {
          case Add(addr, source, penalty, nNow, dice) => var _ := Add(addr, source, penalty, nNow, dice);
          case Good(addr, nTime, nRnd) => Good(addr, nTime, nRnd % NEW_BUCKET_COUNT);
          case Attempt(addr, count, nTime) => Attempt(addr, count, nTime);
          case Connected(addr, nTime) => Connected(addr, nTime);
          case SetServices(addr, services) => SetServices(addr, services);
          case GetAddr(nNow, rnd) =>
            ghost var m := mapInfo;
            var _, _ := GetAddr(nNow, rnd);
            MovedTimes(m, mapInfo);
        }
      }
    }
  }

  datatype Op =
    | Add(address: Address, source: nat, timePenalty: int, nNow: int, dice: nat)
    | Good(addr: Service, nTime: int, nRnd: nat)
    | Attempt(addr: Service, fCountFailure: bool, nTime: int)
    | Connected(addr: Service, nTime: int)
    | SetServices(addr: Service, services: set<nat>)
    | GetAddr(nNow: int, rnd: nat -> nat)
  {
    predicate Timed() {
      match this
      case Good(_, nTime, _) => nTime > 0
      case Attempt(_, _, nTime) => nTime >= 0
      case _ => true
    }
  }

  /** The addresses of distinct entries, none of them terrible. */
  ghost predicate Selection(m: Infos, ids: seq<int>, vAddr: seq<Address>, nNow: int) {
    && |vAddr| == |ids|
    && (forall i :: 0 <= i < |ids| ==>
          ids[i] in m && !m[ids[i]].IsTerrible(nNow) && vAddr[i] == m[ids[i]].addr)
    && (forall i, j :: 0 <= i < j < |ids| ==> ids[i] != ids[j])
  }

  /** The selection is drawn from the first n entries of v, and misses no good one of them. */
  ghost predicate Covers(m: Infos, v: seq<int>, n: nat, ids: seq<int>, nNow: int) {
    && n <= |v|
    && (forall i :: 0 <= i < |ids| ==> ids[i] in v[..n])
    && (forall i :: 0 <= i < n && v[i] in m && !m[v[i]].IsTerrible(nNow) ==> v[i] in ids)
  }

  /** The first n places filled by draws: place i by one of the places from i on, as rnd(i) says. */
  ghost function Drawn(v: seq<int>, rnd: nat -> nat, n: nat): (w: seq<int>)
    requires n <= |v|
    ensures |w| == |v|
  {
    if n == 0 then v
    else
      var i := n - 1;
      Exchanged(Drawn(v, rnd, i), i, DrawnFrom(rnd, i, |v|))
  }

  /** The place that is drawn for place i: itself or one after it. */
  ghost function DrawnFrom(rnd: nat -> nat, i: nat, size: nat): (p: nat)
    requires i < size
    ensures i <= p < size
  {
    rnd(i) % (size - i) + i
  }

  ghost function Exchanged(v: seq<int>, i: nat, j: nat): (w: seq<int>)
    requires i < |v| && j < |v|
    ensures |w| == |v|
  {
    v[i := v[j]][j := v[i]]
  }

  /** Those of some ids whose entries are not terrible, in order. */
  ghost function Fit(m: Infos, ids: seq<int>, nNow: int): seq<int> {
    if ids == [] then []
    else
      var n := |ids| - 1;
      Fit(m, ids[..n], nNow) + if ids[n] in m && !m[ids[n]].IsTerrible(nNow) then [ids[n]] else []
  }

  /** The ids are the fit ones among those drawn so far. */
  ghost predicate IsDraw(m: Infos, v: seq<int>, rnd: nat -> nat, v': seq<int>, ids: seq<int>, nNow: int) {
    exists n: nat :: n <= |v| && v' == Drawn(v, rnd, n) && ids == Fit(m, v'[..n], nNow)
  }

  lemma DrawNone(m: Infos, v: seq<int>, rnd: nat -> nat, nNow: int)
    ensures Drawn(v, rnd, 0) == v && Fit(m, v[..0], nNow) == []
  {
  }

  lemma DrawOne(m: Infos, m': Infos, v0: seq<int>, rnd: nat -> nat, v: seq<int>, v': seq<int>, n: nat, nNow: int)
    requires n < |v0| && v == Drawn(v0, rnd, n) && Moved(m, m')
    requires var p := rnd(n) % (|v| - n) + n; v' == v[n := v[p]][p := v[n]] && v'[n] in m'
    ensures v' == Drawn(v0, rnd, n + 1)
    ensures Fit(m, v'[..n + 1], nNow) == Fit(m, v[..n], nNow) + if m'[v'[n]].IsTerrible(nNow) then [] else [v'[n]]
  {
    assert v'[..n + 1][..n] == v[..n];
    SameFitness(m, m', v'[n], nNow);
    hide Moved, AddrInfo.IsTerrible;
  }

  lemma SameFitness(m: Infos, m': Infos, id: int, now: int)
    requires Moved(m, m') && id in m'
    ensures id in m && m'[id].addr == m[id].addr && m'[id].IsTerrible(now) == m[id].IsTerrible(now)
  {
    assert id in m'.Keys && id in m.Keys;
    assert m'[id] == m[id].(nRandomPos := m'[id].nRandomPos);
  }

  lemma RandomSize(m: Infos, v: seq<int>)
    requires RandomOk(m, v)
    ensures |v| == |m|
  {
  }

  lemma PickNone(m: Infos, v: seq<int>, nNow: int)
    ensures Selection(m, [], [], nNow) && Covers(m, v, 0, [], nNow)
  {
  }

  lemma PickOne(m: Infos, m': Infos, v: seq<int>, v': seq<int>, n: nat, ids: seq<int>, vAddr: seq<Address>, nNow: int)
    requires Moved(m, m') && RandomOk(m', v') && Selection(m, ids, vAddr, nNow) && Covers(m, v, n, ids, nNow)
    requires n < |v'| == |v| && v'[..n] == v[..n] && v'[n] in m'
    ensures m'[v'[n]].IsTerrible(nNow) ==> Selection(m, ids, vAddr, nNow) && Covers(m, v', n + 1, ids, nNow)
    ensures !m'[v'[n]].IsTerrible(nNow) ==>
              Selection(m, ids + [v'[n]], vAddr + [m'[v'[n]].addr], nNow) && Covers(m, v', n + 1, ids + [v'[n]], nNow)
  {
    var id := v'[n];
    assert m'[id] == m[id].(nRandomPos := m'[id].nRandomPos);
    forall i | 0 <= i < n ensures v'[i] == v[i] && v'[i] != id {
      assert v'[i] == v'[..n][i] == v[..n][i];
      assert m'[v'[i]].nRandomPos == i && m'[id].nRandomPos == n;
    }
    assert v'[..n + 1] == v[..n] + [id];
  }

  lemma PickedAll(m: Infos, m': Infos, v: seq<int>, n: nat, ids: seq<int>, vAddr: seq<Address>, nNow: int)
    requires Moved(m, m') && RandomOk(m', v) && Selection(m, ids, vAddr, nNow) && Covers(m, v, n, ids, nNow)
    ensures Selection(m', ids, vAddr, nNow) && |m'| == |m|
    ensures n == |v| ==> forall id :: id in m' && !m'[id].IsTerrible(nNow) ==> id in ids
  {
    assert |m'| == |m'.Keys| == |m.Keys| == |m|;
    forall id | id in m ensures m'[id].IsTerrible(nNow) == m[id].IsTerrible(nNow) && m'[id].addr == m[id].addr {
      assert m'[id] == m[id].(nRandomPos := m'[id].nRandomPos);
    }
  }

  function GetAddrMax(size: nat): nat {
    var n := GETADDR_MAX_PCT * size / 100;
    if n > GETADDR_MAX then GETADDR_MAX else n
  }

  /** A known entry after another announcement: a newer time, less the penalty, and all services. */
  ghost function Refreshed(info: AddrInfo, addr: Address, nTimePenalty: int, nNow: int): AddrInfo {
    var nUpdateInterval := if nNow - addr.nTime < DAY then 60 * 60 else DAY;
    var newer := addr.nTime != 0 && (info.addr.nTime == 0 || info.addr.nTime < addr.nTime - nUpdateInterval - nTimePenalty);
    info.(addr := info.addr.(nTime := if newer then NotNegative(addr.nTime - nTimePenalty) else info.addr.nTime,
                             services := info.addr.services + addr.services))
  }

  lemma RefreshedKey(info: AddrInfo, addr: Address, nTimePenalty: int, nNow: int)
    ensures SameKey(info, Refreshed(info, addr, nTimePenalty, nNow))
    ensures Refreshed(info, addr, nTimePenalty, nNow).nRandomPos == info.nRandomPos
  {}

  lemma WantedHasRoom(info: AddrInfo, nTime: int, dice: nat)
    requires Wanted(info, nTime, dice) && (info.fInTried || info.nRefCount <= NEW_BUCKETS_PER_ADDRESS)
    ensures !info.fInTried && info.nRefCount < NEW_BUCKETS_PER_ADDRESS
  {}

  /** An entry after a successful connection. */
  function Succeeded(info: AddrInfo, nTime: int): AddrInfo {
    info.(nLastSuccess := nTime, nLastTry := nTime, nAttempts := 0)
  }

  /** The time stamps of an entry are none from before 1970, and a tried entry has succeeded once. */
  predicate TimeOk(info: AddrInfo) {
    info.nLastTry >= 0 && info.nLastSuccess >= 0 && (info.fInTried ==> info.nLastSuccess != 0)
  }

  ghost predicate TimesOk(m: Infos) {
    forall id :: id in m ==> TimeOk(m[id])
  }

  lemma UpdatedTimes(m: Infos, id: int, info: AddrInfo)
    ensures TimesOk(m) ==> (TimesOk(m[id := info]) <==> TimeOk(info))
  {
    if TimesOk(m[id := info]) {
      assert TimeOk(m[id := info][id]);
    }
  }

  /** A promotion keeps the time stamps in order exactly when it has a time after 0. */
  lemma PromotedTimes(m: Infos, m1: Infos, m2: Infos, id: int, nTime: int, x: int, y: int)
    requires id in m && -1 !in m && m1 == m[id := Succeeded(m[id], nTime)] && Promoted(m1, m2, id, x, y)
    ensures TimesOk(m) ==> (TimesOk(m2) <==> nTime > 0)
  {
    assert TimesOk(m2) ==> TimeOk(m2[id]);
    if TimesOk(m) && nTime > 0 {
      forall i | i in m2 ensures TimeOk(m2[i]) {
        assert i in m2.Keys && i in m1.Keys;
        if i !in {id, x, y} {
          assert Kept(m1, m2, i);
        }
        if i != id {
          assert TimeOk(m[i]);
        }
      }
    }
  }

  lemma DisturbedTimes(m: Infos, m': Infos, r: Option<int>, y: int)
    requires r.Some? && r.value in m' ==> TimeOk(m'[r.value]) || (r.value in m && SameTimes(m[r.value], m'[r.value]))
    requires Disturbed(m, m', r, y)
    ensures TimesOk(m) ==> TimesOk(m')
  {
  }

  predicate SameTimes(a: AddrInfo, b: AddrInfo) {
    a.nLastTry == b.nLastTry && a.nLastSuccess == b.nLastSuccess && a.fInTried == b.fInTried
  }

  lemma Undisturbed(m: Infos, r: Option<int>)
    ensures Disturbed(m, m, r, -1)
  {
  }

  lemma MovedTimes(m: Infos, m': Infos)
    requires Moved(m, m')
    ensures TimesOk(m') <==> TimesOk(m)
  {
    forall id | id in m ensures TimeOk(m'[id]) == TimeOk(m[id]) {
      assert m'[id] == m[id].(nRandomPos := m'[id].nRandomPos);
    }
  }

  /** A source that announces itself gets no penalty. */
  function Penalty(addr: Address, source: nat, timePenalty: int): int {
    if addr.service.ip == source then 0 else timePenalty
  }

  /** The entry for an address heard of for the first time. */
  function Announced(addr: Address, source: nat, nTimePenalty: int): AddrInfo {
    AddrInfo(addr.(nTime := NotNegative(addr.nTime - nTimePenalty)), source, 0, 0, 0, 0, 0, false, 0)
  }

  /** Whether a known entry may try for another slot: with n slots, once in 2^n times. */
  ghost predicate Wanted(info: AddrInfo, nTime: int, dice: nat) {
    && nTime != 0 && (info.addr.nTime == 0 || nTime > info.addr.nTime)
    && !info.fInTried && info.nRefCount != NEW_BUCKETS_PER_ADDRESS
    && info.nRefCount >= 0 && Pow(2, info.nRefCount) > 0 && dice % Pow(2, info.nRefCount) == 0
  }

  /** The entry has one slot less, or is gone if it was its last. */
  ghost predicate LostSlot(m: Infos, m': Infos, id: int) {
    && id in m
    && if m[id].nRefCount == 1 then id !in m' else id in m' && m'[id] == m[id].(nRefCount := m[id].nRefCount - 1)
  }

  /** A tried entry was turned back into a new one with a single slot. */
  ghost predicate IsEvicted(m: Infos, m': Infos, id: int) {
    && id in m && id in m'
    && m'[id] == m[id].(fInTried := false, nRefCount := 1, nRandomPos := m'[id].nRandomPos)
  }

  /** Of the entries other than the one r that was announced, exactly y, if any, lost a slot or went, and none came. */
  ghost predicate Disturbed(m: Infos, m': Infos, r: Option<int>, y: int) {
    && (y != -1 ==> LostSlot(m, m', y))
    && (forall id :: id in m' && r != Some(id) ==> id in m && SameButSlots(m[id], m'[id]))
    && (forall id :: id in m && r != Some(id) && id != y ==> Kept(m, m', id))
  }

  /** Room was made in the tried table: entry x, if any, went back to the new table, where y, if any, lost a slot. */
  ghost predicate MadeRoom(m: Infos, m': Infos, x: int, y: int) {
    && m'.Keys <= m.Keys && KeptExcept(m, m', {x, y})
    && (x != -1 ==> IsEvicted(m, m', x))
    && (y != -1 ==> LostSlot(m, m', y))
  }

  /** Entry id became a tried one and room was made for it. */
  ghost predicate Promoted(m: Infos, m': Infos, id: int, x: int, y: int) {
    && id in m && id in m'
    && m'[id] == m[id].(nRefCount := 0, fInTried := true, nRandomPos := m'[id].nRandomPos)
    && m'.Keys <= m.Keys && KeptExcept(m, m', {id, x, y})
    && (x != -1 ==> IsEvicted(m, m', x))
    && (y != -1 ==> LostSlot(m, m', y))
  }

  /** Leaving the tried slot, clearing the new slot and taking it make room. */
  lemma RoomMade(m: Infos, m1: Infos, m2: Infos, m3: Infos, x: int, y: int)
    requires x in m && x != -1 && x != y && m[x].nRefCount == 0
    requires m1 == m[x := m[x].(fInTried := false)]
    requires OnlySlots(m1, m2) && KeptExcept(m1, m2, {y}) && (y != -1 ==> LostSlot(m1, m2, y))
    requires x in m2 && m3 == m2[x := m2[x].(nRefCount := 1)]
    ensures MadeRoom(m, m3, x, y)
  {
    assert Kept(m1, m2, x);
    forall id | id in m3 ensures id in m {
      assert id in m2;
    }
    forall id | id in m && id !in {x, y} ensures Kept(m, m3, id) {
      assert Kept(m1, m2, id);
    }
  }

  /** Leaving the new slots, making room and taking the tried slot promote an entry. */
  lemma RoomPromotes(m: Infos, m1: Infos, m2: Infos, m3: Infos, id: int, x: int, y: int)
    requires id in m && id != x && id != y
    requires m1 == m[id := m[id].(nRefCount := 0)] && MadeRoom(m1, m2, x, y)
    requires Kept(m1, m2, id) && m3 == m2[id := m2[id].(fInTried := true)]
    ensures Promoted(m, m3, id, x, y)
  {
    forall i | i in m && i !in {id, x, y} ensures Kept(m, m3, i) {
      assert Kept(m1, m2, i);
    }
  }

  /** What Place leaves alone, an announcement leaves alone. */
  lemma PlacedDisturbs(m: Infos, m1: Infos, m2: Infos, id: int, y: int, r: Option<int>)
    requires id in m1 && m1 == m[id := m1[id]] && OnlySlots(m1, m2) && KeptExcept(m1, m2, {id, y})
    requires y != id && (y != -1 ==> LostSlot(m1, m2, y))
    requires r == Some(id) || (id !in m && id !in m2)
    ensures Disturbed(m, m2, r, y)
  {
    forall i | i in m && r != Some(i) && i != y ensures Kept(m, m2, i) {
      assert Kept(m1, m2, i);
    }
  }

  /** No other entry answers to an address that was unknown. */
  lemma StillUnknown(m: Infos, m1: Infos, m': Infos, a: map<Service, int>, d: bool, id: int, s: Service)
    requires AddrOk(m', a, d)
    requires id in m1 && m1 == m[id := m1[id]] && OnlySlots(m1, m')
    requires forall x :: x in m ==> Norm(d, m[x].addr.service) != Norm(d, s)
    ensures id !in m' ==> Norm(d, s) !in a
  {
    forall x | x in m' && x != id ensures Norm(d, m'[x].addr.service) != Norm(d, s) {
      assert SameButSlots(m1[x], m'[x]);
    }
  }

  function NotNegative(t: int): int {
    if t < 0 then 0 else t
  }

  /** Find is decided by the entries alone: an id is found by exactly the addresses that
      normalise to its own. */
  lemma FindIsInfo(m: Infos, a: map<Service, int>, d: bool, id: int, s: Service)
    requires AddrOk(m, a, d)
    ensures id in m && Norm(d, m[id].addr.service) == Norm(d, s) ==> Lookup(a, Norm(d, s)) == Some(id)
    ensures Norm(d, s) in a ==> a[Norm(d, s)] in m && Norm(d, m[a[Norm(d, s)]].addr.service) == Norm(d, s)
    ensures Norm(d, s) !in a ==> forall x :: x in m ==> Norm(d, m[x].addr.service) != Norm(d, s)
  {
  }

  /** What an occupied new slot says about its id. */
  lemma SlotAt(m: Infos, t: Grid, h: Hashes, zero: set<int>, b: int, p: int)
    requires NewTableOk(m, t, h) && RefsOk(m, t, h, zero)
    requires 0 <= b < NEW_BUCKET_COUNT && 0 <= p < BUCKET_SIZE && t[b][p] != -1
    ensures NewSlotOk(m, h, b, p, t[b][p])
    ensures t[b][p] !in zero && 1 <= m[t[b][p]].nRefCount
  {
    var id := t[b][p];
    assert NewSlotOk(m, h, b, p, id);
    assert RefOk(m[id], |Slots(t, h, m[id].addr.service, id)|, id in zero);
    assert b in Slots(t, h, m[id].addr.service, id);
  }

  /** Changing one slot changes the bucket sets of the old and the new occupant only. */
  lemma SlotsAfterPut(t: Grid, h: Hashes, s: Service, id: int, b: int, p: int, x: int)
    requires IsGrid(t, NEW_BUCKET_COUNT) && 0 <= b < NEW_BUCKET_COUNT && 0 <= p < BUCKET_SIZE
    ensures IsGrid(Put(t, b, p, x), NEW_BUCKET_COUNT)
    ensures id != x && id != t[b][p] ==> Slots(Put(t, b, p, x), h, s, id) == Slots(t, h, s, id)
    ensures p == h.Position(true, b, s) && id == t[b][p] && id != x ==>
              |Slots(Put(t, b, p, x), h, s, id)| == |Slots(t, h, s, id)| - 1
    ensures p == h.Position(true, b, s) && id != t[b][p] && id == x ==>
              |Slots(Put(t, b, p, x), h, s, id)| == |Slots(t, h, s, id)| + 1
  {
    var slots, slots' := Slots(t, h, s, id), Slots(Put(t, b, p, x), h, s, id);
    forall c | 0 <= c < NEW_BUCKET_COUNT
      ensures c in slots' <==> if (c, h.Position(true, c, s)) == (b, p) then x == id else c in slots
    {
      hide Hashes.Position;
      PutAt(t, b, p, x, c, h.Position(true, c, s));
    }
    SlotsDiffer(slots, slots', b);
  }

  lemma PutAt(t: Grid, b: int, p: int, x: int, c: int, q: int)
    requires 0 <= b < |t| && 0 <= p < |t[b]| && 0 <= c < |t| && 0 <= q < |t[c]|
    ensures Put(t, b, p, x)[c][q] == if (c, q) == (b, p) then x else t[c][q]
  {
  }

  lemma SlotsDiffer<T>(slots: set<T>, slots': set<T>, b: T)
    requires forall c :: c != b ==> (c in slots' <==> c in slots)
    ensures if (b in slots) == (b in slots') then slots' == slots else |slots'| == |slots| + if b in slots then -1 else 1
  {
    if (b in slots) == (b in slots') {
      assert slots' == slots;
    } else if b in slots {
      assert slots' == slots - {b};
    } else {
      assert slots' == slots + {b};
    }
  }

  /** Emptying a slot takes one reference from its id and from no other. */
  lemma SlotCleared(m: Infos, m': Infos, t: Grid, h: Hashes, zero: set<int>, b: int, p: int, id: int)
    requires NewTableOk(m, t, h) && RefsOk(m, t, h, zero)
    requires 0 <= b < NEW_BUCKET_COUNT && 0 <= p < BUCKET_SIZE && id == t[b][p] && id in m
    requires m' == m[id := m[id].(nRefCount := m[id].nRefCount - 1)]
    ensures var t' := Put(t, b, p, -1);
            NewTableOk(m', t', h) && RefsOk(m', t', h, if m'[id].nRefCount == 0 then zero + {id} else zero)
  {
    var t' := Put(t, b, p, -1);
    assert NewSlotOk(m, h, b, p, id);
    forall i, j | 0 <= i < NEW_BUCKET_COUNT && 0 <= j < BUCKET_SIZE && t'[i][j] != -1
      ensures NewSlotOk(m', h, i, j, t'[i][j])
    {
      assert NewSlotOk(m, h, i, j, t[i][j]);
    }
    forall x | x in m'
      ensures RefOk(m'[x], |Slots(t', h, m'[x].addr.service, x)|, x in (if m'[id].nRefCount == 0 then zero + {id} else zero))
    {
      hide Slots;
      assert RefOk(m[x], |Slots(t, h, m[x].addr.service, x)|, x in zero);
      SlotsAfterPut(t, h, m[x].addr.service, x, b, p, -1);
    }
  }

  /** Filling an empty slot gives its id one reference more and takes it out of `zero`. */
  lemma SlotFilled(m: Infos, m': Infos, t: Grid, h: Hashes, zero: set<int>, b: int, p: int, id: int)
    requires NewTableOk(m, t, h) && RefsOk(m, t, h, zero)
    requires 0 <= b < NEW_BUCKET_COUNT && 0 <= p < BUCKET_SIZE && t[b][p] == -1
    requires id in m && !m[id].fInTried && p == h.Position(true, b, m[id].addr.service)
    requires m[id].nRefCount < NEW_BUCKETS_PER_ADDRESS
    requires m' == m[id := m[id].(nRefCount := m[id].nRefCount + 1)]
    ensures var t' := Put(t, b, p, id);
            NewTableOk(m', t', h) && RefsOk(m', t', h, zero - {id})
  {
    var t' := Put(t, b, p, id);
    forall i, j | 0 <= i < NEW_BUCKET_COUNT && 0 <= j < BUCKET_SIZE && t'[i][j] != -1
      ensures NewSlotOk(m', h, i, j, t'[i][j])
    {
      if (i, j) != (b, p) { assert NewSlotOk(m, h, i, j, t[i][j]); }
    }
    forall x | x in m'
      ensures RefOk(m'[x], |Slots(t', h, m'[x].addr.service, x)|, x in zero - {id})
    {
      hide Slots;
      assert RefOk(m[x], |Slots(t, h, m[x].addr.service, x)|, x in zero);
      SlotsAfterPut(t, h, m[x].addr.service, x, b, p, id);
    }
  }

  /** A changed reference count concerns neither the other indexes nor the tried table. */
  lemma CountChanged(m: Infos, m': Infos, a: map<Service, int>, d: bool, v: seq<int>, n: int,
                     u: Grid, h: Hashes, id: int, c: int)
    requires AddrOk(m, a, d) && RandomOk(m, v) && IdsOk(m, n) && TriedTableOk(m, u, h)
    requires id in m && m' == m[id := m[id].(nRefCount := c)]
    ensures AddrOk(m', a, d) && RandomOk(m', v) && IdsOk(m', n) && TriedTableOk(m', u, h)
    ensures NewIds(m') == NewIds(m) && TriedIds(m') == TriedIds(m)
  {
    assert m'.Keys == m.Keys;
    assert AddrOk(m', a, d) && RandomOk(m', v) && IdsOk(m', n) by {
      hide AddrOk, RandomOk, IdsOk;
      SameServices(m, m', a, d);
      SamePositions(m, m', v);
      IdsShrink(m, m', n);
    }
    hide AddrOk, RandomOk, IdsOk;
  }

  lemma IdsShrink(m: Infos, m': Infos, n: int)
    requires IdsOk(m, n) && m'.Keys <= m.Keys
    ensures IdsOk(m', n)
  {
    assert forall id :: id in m' ==> id in m'.Keys;
  }

  lemma NoSlots(t: Grid, h: Hashes, s: Service, id: int)
    requires IsGrid(t, NEW_BUCKET_COUNT)
    requires forall b :: 0 <= b < NEW_BUCKET_COUNT ==> t[b][h.Position(true, b, s)] != id
    ensures Slots(t, h, s, id) == {}
  {
  }

  lemma NotMinusOne(m: Infos, t: Grid, h: Hashes, id: int)
    requires NewTableOk(m, t, h) && id in m
    ensures id != -1
  {
  }

  /** An id without references is in no new slot. */
  lemma ZeroNotInTable(m: Infos, t: Grid, h: Hashes, zero: set<int>, b: int, p: int)
    requires NewTableOk(m, t, h) && RefsOk(m, t, h, zero)
    requires 0 <= b < NEW_BUCKET_COUNT && 0 <= p < BUCKET_SIZE
    ensures -1 !in m && (t[b][p] != -1 ==> t[b][p] in m && t[b][p] !in zero)
  {
    if t[b][p] != -1 { SlotAt(m, t, h, zero, b, p); }
  }

  lemma UntriedIsElsewhere(m: Infos, u: Grid, h: Hashes, id: int)
    requires TriedTableOk(m, u, h) && id in m && !m[id].fInTried && id != -1
    ensures TriedHome(m[id], u, h) != id
  {
    if TriedHome(m[id], u, h) == id {
      TriedSlotAt(m, u, h, h.TriedBucket(m[id].addr.service),
                  h.Position(false, h.TriedBucket(m[id].addr.service), m[id].addr.service));
    }
  }

  lemma TriedSlotAt(m: Infos, u: Grid, h: Hashes, b: int, p: int)
    requires TriedTableOk(m, u, h)
    requires 0 <= b < TRIED_BUCKET_COUNT && 0 <= p < BUCKET_SIZE && u[b][p] != -1
    ensures TriedSlotOk(m, h, b, p, u[b][p])
  {
  }

  /** The entry that leaves a tried slot becomes an untried entry without references. */
  lemma TriedCleared(m: Infos, m': Infos, t: Grid, u: Grid, h: Hashes, zero: set<int>, b: int, p: int, id: int)
    requires NewTableOk(m, t, h) && RefsOk(m, t, h, zero) && TriedTableOk(m, u, h)
    requires 0 <= b < TRIED_BUCKET_COUNT && 0 <= p < BUCKET_SIZE && id == u[b][p] && id != -1
    requires id in m && m' == m[id := m[id].(fInTried := false)]
    ensures NewTableOk(m', t, h) && RefsOk(m', t, h, zero + {id}) && TriedTableOk(m', Put(u, b, p, -1), h)
  {
    assert TriedSlotOk(m, h, b, p, id);
    assert forall i, j :: 0 <= i < NEW_BUCKET_COUNT && 0 <= j < BUCKET_SIZE && t[i][j] != -1 ==>
      NewSlotOk(m, h, i, j, t[i][j]);
    assert Slots(t, h, m[id].addr.service, id) == {};
    var u' := Put(u, b, p, -1);
    forall i, j | 0 <= i < TRIED_BUCKET_COUNT && 0 <= j < BUCKET_SIZE && u'[i][j] != -1
      ensures TriedSlotOk(m', h, i, j, u'[i][j])
    {
      assert TriedSlotOk(m, h, i, j, u[i][j]);
    }
  }

  /** An entry without references takes its own empty tried slot. */
  lemma TriedFilled(m: Infos, m': Infos, t: Grid, u: Grid, h: Hashes, zero: set<int>, b: int, p: int, id: int)
    requires NewTableOk(m, t, h) && RefsOk(m, t, h, zero) && TriedTableOk(m, u, h)
    requires id in m && id in zero && m' == m[id := m[id].(fInTried := true)]
    requires b == h.TriedBucket(m[id].addr.service) && p == h.Position(false, b, m[id].addr.service)
    requires u[b][p] == -1
    ensures NewTableOk(m', t, h) && RefsOk(m', t, h, zero - {id}) && TriedTableOk(m', Put(u, b, p, id), h)
  {
    assert RefOk(m[id], |Slots(t, h, m[id].addr.service, id)|, true);
    forall i, j | 0 <= i < NEW_BUCKET_COUNT && 0 <= j < BUCKET_SIZE && t[i][j] != -1
      ensures NewSlotOk(m', h, i, j, t[i][j])
    {
      ZeroNotInTable(m, t, h, zero, i, j);
      assert NewSlotOk(m, h, i, j, t[i][j]);
    }
    var u' := Put(u, b, p, id);
    forall i, j | 0 <= i < TRIED_BUCKET_COUNT && 0 <= j < BUCKET_SIZE && u'[i][j] != -1
      ensures TriedSlotOk(m', h, i, j, u'[i][j])
    {
      if (i, j) != (b, p) { assert TriedSlotOk(m, h, i, j, u[i][j]); }
    }
  }

  /** Moving between new and tried concerns the counters, not the other indexes. */
  lemma TriedFlipped(m: Infos, m': Infos, a: map<Service, int>, d: bool, v: seq<int>, n: int, id: int)
    requires AddrOk(m, a, d) && RandomOk(m, v) && IdsOk(m, n)
    requires id in m && m' == m[id := m[id].(fInTried := !m[id].fInTried)]
    ensures AddrOk(m', a, d) && RandomOk(m', v) && IdsOk(m', n)
    ensures |NewIds(m')| == |NewIds(m)| + (if m[id].fInTried then 1 else -1)
    ensures |TriedIds(m')| == |TriedIds(m)| + (if m[id].fInTried then -1 else 1)
  {
    hide AddrOk, RandomOk, IdsOk, NewIds, TriedIds;
    if m[id].fInTried {
      CountsFlipped(m, m', id);
    } else {
      assert m == m'[id := m'[id].(fInTried := false)];
      CountsFlipped(m', m, id);
    }
    assert m'.Keys == m.Keys;
    SameServices(m, m', a, d);
    SamePositions(m, m', v);
    IdsShrink(m, m', n);
  }

  lemma CountsFlipped(m: Infos, m': Infos, id: int)
    requires id in m && m[id].fInTried && m' == m[id := m[id].(fInTried := false)]
    ensures |NewIds(m')| == |NewIds(m)| + 1
    ensures |TriedIds(m)| == |TriedIds(m')| + 1
  {
    assert NewIds(m') == NewIds(m) + {id} by { hide TriedIds; }
    assert TriedIds(m) == TriedIds(m') + {id} by { hide NewIds; }
  }

  lemma SamePositions(m: Infos, m': Infos, v: seq<int>)
    requires RandomOk(m, v) && m'.Keys == m.Keys
    requires forall id :: id in m ==> m'[id].nRandomPos == m[id].nRandomPos
    ensures RandomOk(m', v)
  {
    assert |m'| == |m'.Keys| == |m.Keys| == |m|;
  }

  lemma TriedHasNoRefs(m: Infos, t: Grid, h: Hashes, zero: set<int>, id: int)
    requires NewTableOk(m, t, h) && RefsOk(m, t, h, zero) && id in m
    ensures m[id].fInTried ==> m[id].nRefCount == 0
  {
    if m[id].fInTried {
      assert Slots(t, h, m[id].addr.service, id) == {};
    }
  }
}
