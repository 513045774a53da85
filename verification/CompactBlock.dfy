/**
 * Compact block relay (BIP 152): CBlockHeaderAndShortTxIDs and PartiallyDownloadedBlock of
 * src/blockencodings.cpp. A sender gives some transactions in full and short ids for the rest; a receiver
 * fills the block from its pool and asks for what is missing.
 */
module CompactBlock {
  import opened Foundations

  /** MaxBlockSize(true) / MIN_TRANSACTION_SIZE. */
  const MAX_TXN: nat := 2000000 / 10

  /** Indexes and offsets are uint16_t. */
  const LIMIT16: nat := 0x1_0000

  /** NeverReturns stands for a loop that does not end. */
  datatype Status = Ok | Invalid | Failed | NeverReturns

  /** A transaction sent in full, with its distance from the previous one. */
  datatype Prefilled<Tx> = Prefilled(index: nat, tx: Tx)

  datatype Message<Tx> = Message(headerNull: bool, shorttxids: seq<nat>, prefilled: seq<Prefilled<Tx>>)

  type Slots<Tx> = seq<Option<Tx>>

  // Empty slots.

  /** The empty slots, in order. */
  ghost function Gaps<Tx>(a: Slots<Tx>): (g: seq<nat>)
    ensures forall k :: 0 <= k < |g| ==> g[k] < |a| && a[g[k]].None?
    ensures forall j, k :: 0 <= j < k < |g| ==> g[j] < g[k]
    ensures |g| <= |a|
  {
    if a == [] then []
    else
      var n := |a| - 1;
      if a[n].None? then Gaps(a[..n]) + [n] else Gaps(a[..n])
  }

  lemma GapsStep<Tx>(a: Slots<Tx>, p: nat)
    requires p < |a|
    ensures Gaps(a[..p + 1]) == if a[p].None? then Gaps(a[..p]) + [p] else Gaps(a[..p])
  {
    assert a[..p + 1][..p] == a[..p];
  }

  lemma {:induction false} GapsPrefix<Tx>(a: Slots<Tx>, p: nat)
    requires p <= |a|
    ensures Gaps(a[..p]) <= Gaps(a)
    decreases |a| - p
  {
    if p == |a| {
      assert a[..p] == a;
    } else {
      GapsStep(a, p);
      GapsPrefix(a, p + 1);
    }
  }

  lemma {:induction false} GapsComplete<Tx>(a: Slots<Tx>, p: nat)
    requires p < |a| && a[p].None?
    ensures p in Gaps(a)
  {
    GapsStep(a, p);
    GapsPrefix(a, p + 1);
    var g := Gaps(a[..p]);
    assert Gaps(a)[|g|] == p;
  }

  lemma {:induction false} GapsFill<Tx>(a: Slots<Tx>, p: nat, t: Tx)
    requires p < |a| && a[p].None?
    ensures |Gaps(a[p := Some(t)])| == |Gaps(a)| - 1
    decreases |a|
  {
    var n := |a| - 1;
    var b := a[p := Some(t)];
    if p == n {
      assert b[..n] == a[..n];
    } else {
      assert b[..n] == a[..n][p := Some(t)];
      GapsFill(a[..n], p, t);
    }
  }

  lemma {:induction false} AllGaps<Tx>(a: Slots<Tx>)
    requires forall p :: 0 <= p < |a| ==> a[p].None?
    ensures |Gaps(a)| == |a|
  {
    if a != [] {
      AllGaps(a[..|a| - 1]);
    }
  }

  // Transactions sent in full.

  /** The place in the block of the i-th prefilled transaction. */
  ghost function IndexAt<Tx>(pre: seq<Prefilled<Tx>>, i: nat): nat
    requires i < |pre|
  {
    if i == 0 then pre[0].index else IndexAt(pre, i - 1) + pre[i].index + 1
  }

  lemma {:induction false} IndexBound<Tx>(pre: seq<Prefilled<Tx>>, i: nat)
    requires i < |pre|
    ensures i <= IndexAt(pre, i)
  {
    if i > 0 { IndexBound(pre, i - 1); }
  }

  /** What InitData demands of the prefilled transactions, given the number of short ids. */
  ghost predicate WellPlaced<Tx(!new)>(pre: seq<Prefilled<Tx>>, shortids: nat, isNull: Tx -> bool, n: nat)
    requires n <= |pre|
  {
    forall i :: 0 <= i < n ==> !isNull(pre[i].tx) && IndexAt(pre, i) < LIMIT16 && IndexAt(pre, i) <= shortids + i
  }

  /** The slots with the first n prefilled transactions in place. */
  ghost function Placed<Tx>(pre: seq<Prefilled<Tx>>, n: nat, total: nat): (a: Slots<Tx>)
    requires n <= |pre| && forall i :: 0 <= i < n ==> IndexAt(pre, i) < total
    ensures |a| == total
  {
    if n == 0 then seq(total, _ => None) else Placed(pre, n - 1, total)[IndexAt(pre, n - 1) := Some(pre[n - 1].tx)]
  }

  /** All transactions placed so far are at or before the last index, and none lies on another. */
  lemma {:induction false} PlacedGaps<Tx>(pre: seq<Prefilled<Tx>>, n: nat, total: nat)
    requires n <= |pre| && forall i :: 0 <= i < n ==> IndexAt(pre, i) < total
    ensures |Gaps(Placed(pre, n, total))| == total - n
    ensures forall p :: 0 <= p < total && (n == 0 || p > IndexAt(pre, n - 1)) ==> Placed(pre, n, total)[p].None?
  {
    if n == 0 {
      AllGaps(Placed(pre, n, total));
    } else {
      PlacedGaps(pre, n - 1, total);
      hide Gaps;
      GapsFill(Placed(pre, n - 1, total), IndexAt(pre, n - 1), pre[n - 1].tx);
    }
  }

  /** At most 65536 transactions can be prefilled. */
  lemma PrefilledLimit<Tx(!new)>(pre: seq<Prefilled<Tx>>, shortids: nat, isNull: Tx -> bool)
    requires WellPlaced(pre, shortids, isNull, |pre|)
    ensures |pre| <= LIMIT16
  {
    if pre != [] { IndexBound(pre, |pre| - 1); }
  }

  /** The loop over prefilledtxn; every index it writes to is inside the slots. */
  method Prefill<Tx(!new)>(pre: seq<Prefilled<Tx>>, shortids: nat, isNull: Tx -> bool) returns (ok: bool, a: Slots<Tx>)
    ensures ok <==> WellPlaced(pre, shortids, isNull, |pre|)
    ensures ok ==> |a| == shortids + |pre| && a == Placed(pre, |pre|, shortids + |pre|)
  {
    a := seq(shortids + |pre|, _ => None);
    var last := -1;
    for i := 0 to |pre|
      invariant WellPlaced(pre, shortids, isNull, i)
      invariant last == if i == 0 then -1 else IndexAt(pre, i - 1)
      invariant a == Placed(pre, i, shortids + |pre|)
    {
      if isNull(pre[i].tx) {
        return false, a;
      }
      last := last + pre[i].index + 1;
      if last > 0xffff {
        return false, a;
      }
      if last > shortids + i {
        return false, a;
      }
      a := a[last := Some(pre[i].tx)];
    }
    ok := true;
  }

  // Short ids.

  ghost predicate Distinct<T>(s: seq<T>) { forall i, j :: 0 <= i < j < |s| ==> s[i] != s[j] }

  /** The empty slots as uint16_t numbers. */
  ghost function SlotNumbers<Tx>(a: Slots<Tx>): (g: seq<nat>)
    ensures |g| == |Gaps(a)|
    ensures forall k :: 0 <= k < |g| ==> g[k] == Gaps(a)[k] % LIMIT16 && g[k] < |a|
  {
    seq<nat>(|Gaps(a)|, k requires 0 <= k < |Gaps(a)| => Gaps(a)[k] % LIMIT16)
  }

  /** Each short id leads to its slot, and there are no other short ids. */
  ghost predicate IsSlotMap(m: map<nat, nat>, ids: seq<nat>, slots: seq<nat>)
    requires |ids| == |slots|
  {
    && |m| == |ids| && Distinct(ids)
    && (forall s :: s in m <==> s in ids)
    && (forall k :: 0 <= k < |ids| ==> ids[k] in m && m[ids[k]] == slots[k])
  }

  lemma MapSize<V>(m: map<nat, V>, k: nat, v: V)
    ensures |m[k := v]| == if k in m then |m| else |m| + 1
  {
    if k in m {
      assert m[k := v].Keys == m.Keys;
    } else {
      assert m[k := v].Keys == m.Keys + {k};
    }
    assert |m[k := v]| == |m[k := v].Keys| && |m| == |m.Keys|;
  }

  /** The first 65536 slots are all taken. */
  ghost predicate Walled<Tx>(a: Slots<Tx>) { LIMIT16 <= |a| && forall p :: 0 <= p < LIMIT16 ==> a[p].Some? }

  /** The map while the first n short ids are in it: as large as that only if none occurred twice. */
  ghost predicate Mapped(m: map<nat, nat>, ids: seq<nat>, n: nat, slots: seq<nat>)
    requires n <= |ids| == |slots|
  {
    && |m| <= n
    && (forall s :: s in m <==> s in ids[..n])
    && (|m| == n <==> Distinct(ids[..n]))
    && (|m| == n ==> forall k :: 0 <= k < n ==> ids[k] in m && m[ids[k]] == slots[k])
  }

  lemma MappedNext(m: map<nat, nat>, ids: seq<nat>, n: nat, slots: seq<nat>)
    requires n < |ids| == |slots| && Mapped(m, ids, n, slots)
    ensures Mapped(m[ids[n] := slots[n]], ids, n + 1, slots)
  {
    hide Distinct;
    MapSize(m, ids[n], slots[n]);
    DistinctNext(ids, n);
    var m' := m[ids[n] := slots[n]];
    assert forall s :: s in m' <==> s in ids[..n + 1];
    if |m'| == n + 1 {
      forall k | 0 <= k < n + 1 ensures ids[k] in m' && m'[ids[k]] == slots[k] {
        if k < n { assert ids[..n][k] == ids[k]; }
      }
    }
  }

  lemma DistinctNext(ids: seq<nat>, n: nat)
    requires n < |ids|
    ensures Distinct(ids[..n + 1]) <==> Distinct(ids[..n]) && ids[n] !in ids[..n]
    ensures forall s :: s in ids[..n + 1] <==> s in ids[..n] || s == ids[n]
  {
    var t := ids[..n + 1];
    assert t == ids[..n] + [ids[n]];
    assert forall i :: 0 <= i < n ==> t[i] == ids[..n][i];
  }

  lemma MappedAll(m: map<nat, nat>, ids: seq<nat>, slots: seq<nat>)
    requires |ids| == |slots| && Mapped(m, ids, |ids|, slots)
    ensures |m| == |ids| <==> Distinct(ids)
    ensures |m| == |ids| ==> IsSlotMap(m, ids, slots)
  {
    assert ids[..|ids|] == ids;
  }

  /** With fewer gaps before p than short ids, p is inside the slots. */
  lemma MoreSlots<Tx>(a: Slots<Tx>, p: nat, i: nat)
    requires p <= |a| && |Gaps(a[..p])| == i < |Gaps(a)|
    ensures p < |a|
  {
    assert a[..|a|] == a;
  }

  lemma GapAt<Tx>(a: Slots<Tx>, p: nat, i: nat)
    requires p < |a| && |Gaps(a[..p])| == i && a[p].None?
    ensures i < |Gaps(a)| && Gaps(a)[i] == p && |Gaps(a[..p + 1])| == i + 1
  {
    GapsStep(a, p);
    GapsPrefix(a, p + 1);
  }

  lemma NoGapsBefore<Tx>(a: Slots<Tx>, p: nat)
    requires p <= |a| && |Gaps(a[..p])| == 0
    ensures forall q :: 0 <= q < p ==> a[q].Some?
  {
    forall q | 0 <= q < p ensures a[q].Some? {
      if a[q].None? {
        assert a[..p][q].None?;
        GapsComplete(a[..p], q);
        assert false;
      }
    }
  }

  /**
   * The loop that assigns slots to short ids, with its 16-bit index_offset. It stays inside the slots. It runs
   * forever exactly when there are short ids and the first 65536 slots are taken: then every value the
   * offset can take leads to a taken slot.
   */
  method MapSlots<Tx>(ids: seq<nat>, a: Slots<Tx>, crowded: nat -> bool) returns (status: Status, m: map<nat, nat>)
    requires |Gaps(a)| == |ids| && forall p :: LIMIT16 <= p < |a| ==> a[p].None?
    ensures status != Invalid
    ensures status == NeverReturns <==> ids != [] && Walled(a)
    ensures status == Ok <==> (ids == [] || !Walled(a)) && Accepted(ids, crowded)
    ensures status == Ok ==> IsSlotMap(m, ids, SlotNumbers(a))
  {
    hide Gaps, Distinct, Mapped, IsSlotMap, SlotNumbers;
    m := map[];
    var offset := 0;
    ghost var slots := SlotNumbers(a);
    StartMapped(ids, a);
    for i := 0 to |ids|
      invariant 0 <= offset < LIMIT16 && i + offset <= |a| && |Gaps(a[..i + offset])| == i
      invariant Mapped(m, ids, i, slots)
      invariant forall j :: 0 <= j < i ==> !crowded(j)
      invariant i > 0 ==> !Walled(a)
    {
      MoreSlots(a, i + offset, i);
      while a[i + offset].Some?
        invariant 0 <= offset < LIMIT16 && i + offset < |a| && |Gaps(a[..i + offset])| == i
        decreases |a| - offset
      {
        GapsStep(a, i + offset);
        if offset == 0xffff {
          NoGapsBefore(a, LIMIT16);
          return NeverReturns, m;
        }
        offset := offset + 1;
        MoreSlots(a, i + offset, i);
      }
      GapAt(a, i + offset, i);
      MappedNext(m, ids, i, slots);
      m := m[ids[i] := (i + offset) % 0x1_0000];
      if crowded(i) {
        return Failed, m;
      }
    }
    MappedAll(m, ids, slots);
    status := if |m| != |ids| then Failed else Ok;
  }

  lemma StartMapped<Tx>(ids: seq<nat>, a: Slots<Tx>)
    requires |ids| == |Gaps(a)|
    ensures Mapped(map[], ids, 0, SlotNumbers(a)) && |Gaps(a[..0])| == 0
  {}

  // Looking through the pool and the extra transactions.

  /** txn_available, have_txn and mempool_count while a list of transactions is searched. */
  datatype Scan<Tx> = Scan(avail: Slots<Tx>, have: seq<bool>, found: int)

  ghost predicate Fits<Tx>(m: map<nat, nat>, st: Scan<Tx>) {
    |st.have| == |st.avail| && forall s :: s in m ==> m[s] < |st.avail|
  }

  /** One transaction: the first match fills a slot, a different second one empties it for good. */
  ghost function Step<Tx>(m: map<nat, nat>, id: Tx -> nat, fromExtra: bool, st: Scan<Tx>, t: Tx): (r: Scan<Tx>)
    requires Fits(m, st)
    ensures Fits(m, r) && |r.avail| == |st.avail|
  {
    if id(t) !in m then st
    else
      var p := m[id(t)];
      if !st.have[p] then Scan(st.avail[p := Some(t)], st.have[p := true], st.found + 1)
      else if st.avail[p].Some? && !(fromExtra && st.avail[p].value == t) then st.(avail := st.avail[p := None], found := st.found - 1)
      else st
  }

  /** A whole list, up to the point where every short id is accounted for. */
  ghost function ScanAll<Tx>(m: map<nat, nat>, id: Tx -> nat, fromExtra: bool, st: Scan<Tx>, ts: seq<Tx>): (r: Scan<Tx>)
    requires Fits(m, st)
    ensures Fits(m, r) && |r.avail| == |st.avail|
    decreases |ts|
  {
    if ts == [] then st
    else
      var next := Step(m, id, fromExtra, st, ts[0]);
      if next.found == |m| then next else ScanAll(m, id, fromExtra, next, ts[1..])
  }

  /** The two search loops of InitData; in the second one a transaction found twice is not a conflict. */
  method Search<Tx(==)>(m: map<nat, nat>, id: Tx -> nat, fromExtra: bool, st: Scan<Tx>, ts: seq<Tx>) returns (r: Scan<Tx>)
    requires Fits(m, st)
    ensures r == ScanAll(m, id, fromExtra, st, ts)
  {
    var avail, have, found := st.avail, st.have, st.found;
    var i := 0;
    assert ts[0..] == ts;
    while i < |ts|
      invariant i <= |ts| && Fits(m, Scan(avail, have, found))
      invariant ScanAll(m, id, fromExtra, st, ts) == ScanAll(m, id, fromExtra, Scan(avail, have, found), ts[i..])
    {
      ghost var before := Scan(avail, have, found);
      var t := ts[i];
      if id(t) in m {
        var p := m[id(t)];
        if !have[p] {
          avail, have, found := avail[p := Some(t)], have[p := true], found + 1;
        } else if avail[p].Some? && (!fromExtra || avail[p].value != t) {
          avail, found := avail[p := None], found - 1;
        }
      }
      assert Scan(avail, have, found) == Step(m, id, fromExtra, before, t);
      assert ts[i..][0] == t && ts[i..][1..] == ts[i + 1..];
      if found == |m| {
        return Scan(avail, have, found);
      }
      i := i + 1;
    }
    assert ts[i..] == [];
    r := Scan(avail, have, found);
  }

  // What the receiver knows about a block.

  /** Every transaction in place is the block's own. */
  ghost predicate Agrees<Tx>(a: Slots<Tx>, vtx: seq<Tx>) {
    |a| == |vtx| && forall i :: 0 <= i < |a| && a[i].Some? ==> a[i].value == vtx[i]
  }

  /** The short ids are those of the block's transactions in the given slots. */
  ghost predicate Names<Tx>(ids: seq<nat>, slots: seq<nat>, vtx: seq<Tx>, id: Tx -> nat) {
    |ids| == |slots| && forall k :: 0 <= k < |ids| ==> slots[k] < |vtx| && ids[k] == id(vtx[slots[k]])
  }

  /** A transaction with the short id of one in the block is that one. */
  ghost predicate NoClash<Tx>(t: Tx, vtx: seq<Tx>, id: Tx -> nat) {
    forall i :: 0 <= i < |vtx| && id(t) == id(vtx[i]) ==> t == vtx[i]
  }

  ghost predicate NoClashes<Tx>(ts: seq<Tx>, vtx: seq<Tx>, id: Tx -> nat) {
    forall j :: 0 <= j < |ts| ==> NoClash(ts[j], vtx, id)
  }

  lemma StepAgrees<Tx>(m: map<nat, nat>, ids: seq<nat>, slots: seq<nat>, vtx: seq<Tx>, id: Tx -> nat,
                       fromExtra: bool, st: Scan<Tx>, t: Tx)
    requires Names(ids, slots, vtx, id) && IsSlotMap(m, ids, slots) && Fits(m, st)
    requires Agrees(st.avail, vtx) && NoClash(t, vtx, id)
    ensures Agrees(Step(m, id, fromExtra, st, t).avail, vtx)
  {
    hide Distinct;
    if id(t) in m {
      var k :| 0 <= k < |ids| && ids[k] == id(t);
      assert t == vtx[slots[k]];
    }
  }

  lemma {:induction false} ScanAgrees<Tx>(m: map<nat, nat>, ids: seq<nat>, slots: seq<nat>, vtx: seq<Tx>, id: Tx -> nat,
                                          fromExtra: bool, st: Scan<Tx>, ts: seq<Tx>)
    requires Names(ids, slots, vtx, id) && IsSlotMap(m, ids, slots) && Fits(m, st)
    requires Agrees(st.avail, vtx) && NoClashes(ts, vtx, id)
    ensures Agrees(ScanAll(m, id, fromExtra, st, ts).avail, vtx)
    decreases |ts|
  {
    hide Agrees, NoClash, Step, IsSlotMap, Names;
    if ts != [] {
      StepAgrees(m, ids, slots, vtx, id, fromExtra, st, ts[0]);
      ScanAgrees(m, ids, slots, vtx, id, fromExtra, Step(m, id, fromExtra, st, ts[0]), ts[1..]);
    }
  }

  // The never-ending loop happens with exactly 65536 prefilled transactions.

  lemma {:induction false} PlacedAt<Tx>(pre: seq<Prefilled<Tx>>, n: nat, total: nat, i: nat)
    requires i < n <= |pre| && forall j :: 0 <= j < n ==> IndexAt(pre, j) < total
    ensures Placed(pre, n, total)[IndexAt(pre, i)] == Some(pre[i].tx)
  {
    if i < n - 1 {
      PlacedAt(pre, n - 1, total, i);
      IndexGap(pre, i, n - 1);
    }
  }

  lemma {:induction false} IndexGap<Tx>(pre: seq<Prefilled<Tx>>, i: nat, j: nat)
    requires i <= j < |pre|
    ensures IndexAt(pre, i) + (j - i) <= IndexAt(pre, j)
    decreases j
  {
    if i < j { IndexGap(pre, i, j - 1); }
  }

  lemma {:induction false} GapsSpread<Tx>(a: Slots<Tx>, k: nat)
    requires k < |Gaps(a)|
    ensures Gaps(a)[0] + k <= Gaps(a)[k]
  {
    if k > 0 { GapsSpread(a, k - 1); }
  }

  lemma WalledIff<Tx(!new)>(pre: seq<Prefilled<Tx>>, shortids: nat, isNull: Tx -> bool, a: Slots<Tx>)
    requires WellPlaced(pre, shortids, isNull, |pre|) && shortids > 0
    requires a == Placed(pre, |pre|, shortids + |pre|)
    ensures Walled(a) <==> |pre| == LIMIT16
  {
    PlacedGaps(pre, |pre|, shortids + |pre|);
    PrefilledLimit(pre, shortids, isNull);
    hide Placed, Gaps;
    if |pre| == LIMIT16 {
      forall p: nat | p < LIMIT16 ensures a[p].Some? {
        IndexBound(pre, p);
        IndexGap(pre, p, LIMIT16 - 1);
        PlacedAt(pre, |pre|, |a|, p);
      }
    }
    if Walled(a) {
      GapsSpread(a, shortids - 1);
      assert Gaps(a)[0] >= LIMIT16;
    }
  }

  lemma {:induction false} IndexOfZeros<Tx>(pre: seq<Prefilled<Tx>>, i: nat)
    requires i < |pre| && forall j :: 0 <= j < |pre| ==> pre[j].index == 0
    ensures IndexAt(pre, i) == i
  {
    if i > 0 { IndexOfZeros(pre, i - 1); }
  }

  /** The prefilled transactions all lie below the 16-bit limit. */
  lemma {:induction false} PlacedLow<Tx(!new)>(pre: seq<Prefilled<Tx>>, shortids: nat, isNull: Tx -> bool, n: nat, total: nat)
    requires n <= |pre| && WellPlaced(pre, shortids, isNull, n) && forall i :: 0 <= i < n ==> IndexAt(pre, i) < total
    ensures forall p :: LIMIT16 <= p < total ==> Placed(pre, n, total)[p].None?
  {
    if n > 0 { PlacedLow(pre, shortids, isNull, n - 1, total); }
  }

  // The receiver.

  ghost predicate Malformed<Tx(!new)>(msg: Message<Tx>, isNull: Tx -> bool) {
    || msg.headerNull
    || (msg.shorttxids == [] && msg.prefilled == [])
    || |msg.shorttxids| + |msg.prefilled| > MAX_TXN
    || !WellPlaced(msg.prefilled, |msg.shorttxids|, isNull, |msg.prefilled|)
  }

  /** No short id occurs twice and no bucket of the hash table is crowded. */
  ghost predicate Accepted(ids: seq<nat>, crowded: nat -> bool) {
    Distinct(ids) && forall i :: 0 <= i < |ids| ==> !crowded(i)
  }

  /** The slots after the prefilled transactions are in place. */
  ghost function Base<Tx(!new)>(msg: Message<Tx>, isNull: Tx -> bool): (a: Slots<Tx>)
    requires WellPlaced(msg.prefilled, |msg.shorttxids|, isNull, |msg.prefilled|)
    ensures |a| == |msg.shorttxids| + |msg.prefilled| && |Gaps(a)| == |msg.shorttxids|
  {
    PlacedGaps(msg.prefilled, |msg.prefilled|, |msg.shorttxids| + |msg.prefilled|);
    Placed(msg.prefilled, |msg.prefilled|, |msg.shorttxids| + |msg.prefilled|)
  }

  /** The slots and the count after both searches. */
  ghost function Searched<Tx>(a: Slots<Tx>, m: map<nat, nat>, id: Tx -> nat, pool: seq<Tx>, extra: seq<Tx>): Scan<Tx>
    requires forall s :: s in m ==> m[s] < |a|
  {
    var st := ScanAll(m, id, false, Scan(a, seq(|a|, _ => false), 0), pool);
    ScanAll(m, id, true, st, extra)
  }

  ghost function Received<Tx>(a: Slots<Tx>, m: map<nat, nat>, id: Tx -> nat, pool: seq<Tx>, extra: seq<Tx>): (r: Slots<Tx>)
    requires forall s :: s in m ==> m[s] < |a|
    ensures |r| == |a|
  {
    Searched(a, m, id, pool, extra).avail
  }

  class PartiallyDownloadedBlock<Tx(==, !new)> {
    var headerNull: bool
    var txnAvailable: Slots<Tx>
    var prefilledCount: nat
    var mempoolCount: int

    constructor ()
      ensures headerNull && txnAvailable == []
    {
      headerNull, txnAvailable, prefilledCount, mempoolCount := true, [], 0, 0;
    }

    /**
     * InitData. The status is exactly determined; when it is Ok the short ids were distinct and the slots are
     * those of the prefilled transactions after the searches through the pool and the extra transactions.
     */
    method InitData(msg: Message<Tx>, id: Tx -> nat, isNull: Tx -> bool, crowded: nat -> bool, pool: seq<Tx>, extra: seq<Tx>)
      returns (status: Status, ghost m: map<nat, nat>)
      requires headerNull && txnAvailable == []
      modifies this
      ensures status == Invalid <==> Malformed(msg, isNull)
      ensures status == NeverReturns <==> !Malformed(msg, isNull) && msg.shorttxids != [] && |msg.prefilled| == LIMIT16
      ensures status == Ok <==> status != Invalid && status != NeverReturns && Accepted(msg.shorttxids, crowded)
      ensures status == Ok ==> !headerNull && IsSlotMap(m, msg.shorttxids, SlotNumbers(Base(msg, isNull)))
      ensures status == Ok ==> forall s :: s in m ==> m[s] < |Base(msg, isNull)|
      ensures status == Ok ==> txnAvailable == Received(Base(msg, isNull), m, id, pool, extra)
      ensures status == Ok ==> mempoolCount == Searched(Base(msg, isNull), m, id, pool, extra).found
      ensures status == Ok ==> prefilledCount == |msg.prefilled|
    {
      hide Gaps, Placed, WellPlaced, Distinct, ScanAll, IsSlotMap, SlotNumbers, Walled;
      m := map[];
      if msg.headerNull || (msg.shorttxids == [] && msg.prefilled == []) {
        return Invalid, m;
      }
      if |msg.shorttxids| + |msg.prefilled| > MAX_TXN {
        return Invalid, m;
      }
      headerNull := false;
      var ok, a := Prefill(msg.prefilled, |msg.shorttxids|, isNull);
      if !ok {
        return Invalid, m;
      }
      prefilledCount := |msg.prefilled|;
      assert a == Base(msg, isNull);
      AboutBase(msg, isNull);
      var slotMap;
      status, slotMap := MapSlots(msg.shorttxids, a, crowded);
      m := slotMap;
      if status != Ok {
        return;
      }
      SlotsInside(slotMap, msg.shorttxids, a);
      var st := Scan(a, seq(|a|, _ => false), 0);
      assert st.have == seq(|a|, _ => false);
      st := Search(slotMap, id, false, st, pool);
      st := Search(slotMap, id, true, st, extra);
      txnAvailable, mempoolCount := st.avail, st.found;
    }

    /**
     * FillBlock up to CheckBlock: the missing transactions go into the empty slots in order. It can be called
     * again only after too few were given, and the transactions already moved out are then gone.
     */
    method FillBlock(missing: seq<Tx>) returns (status: Status, vtx: seq<Tx>)
      requires !headerNull
      modifies this
      ensures status == if |missing| == |Gaps(old(txnAvailable))| then Ok else Invalid
      ensures status == Ok ==> IsFilled(vtx, old(txnAvailable), missing)
      ensures headerNull <==> |missing| >= |Gaps(old(txnAvailable))|
      ensures headerNull ==> txnAvailable == []
      ensures !headerNull ==> |txnAvailable| == |old(txnAvailable)| && forall i :: 0 <= i < |txnAvailable| ==>
        txnAvailable[i] == if i < Gaps(old(txnAvailable))[|missing|] then None else old(txnAvailable)[i]
    {
      hide Gaps;
      ghost var a := txnAvailable;
      vtx := [];
      var offset := 0;
      NoGaps(a);
      var n := |txnAvailable|;
      for i := 0 to n
        invariant |vtx| == i && offset == |Gaps(a[..i])| <= |missing| && |txnAvailable| == |a| && !headerNull
        invariant forall j :: 0 <= j < i ==> txnAvailable[j].None?
        invariant forall j :: i <= j < |a| ==> txnAvailable[j] == a[j]
        invariant forall j :: 0 <= j < i && a[j].Some? ==> vtx[j] == a[j].value
        invariant GapsFilled(vtx, Gaps(a[..i]), missing)
      {
        GapsStep(a, i);
        if txnAvailable[i].None? {
          if |missing| <= offset {
            GapAt(a, i, offset);
            return Invalid, vtx;
          }
          vtx := vtx + [missing[offset]];
          offset := offset + 1;
        } else {
          vtx := vtx + [txnAvailable[i].value];
          txnAvailable := txnAvailable[i := None];
        }
      }
      assert a[..|a|] == a;
      headerNull := true;
      txnAvailable := [];
      status := if |missing| != offset then Invalid else Ok;
    }
  }

  /** The never-ending loop has a message: 65536 transactions in full, one after the other, and one short id. */
  method EndlessExample<Tx(==, !new)>(t: Tx, id: Tx -> nat, isNull: Tx -> bool, crowded: nat -> bool) returns (status: Status)
    requires !isNull(t)
    ensures status == NeverReturns
  {
    var pre := seq(LIMIT16, _ => Prefilled(0, t));
    var msg := Message(false, [id(t)], pre);
    forall i: nat | i < LIMIT16 ensures IndexAt(pre, i) == i {
      IndexOfZeros(pre, i);
    }
    assert WellPlaced(pre, 1, isNull, LIMIT16);
    hide IndexAt, Base;
    var receiver := new PartiallyDownloadedBlock<Tx>();
    ghost var m;
    status, m := receiver.InitData(msg, id, isNull, crowded, [], []);
  }

  ghost predicate GapsFilled<Tx>(vtx: seq<Tx>, gaps: seq<nat>, missing: seq<Tx>) {
    |gaps| <= |missing| && forall k :: 0 <= k < |gaps| ==> gaps[k] < |vtx| && vtx[gaps[k]] == missing[k]
  }

  /** Available transactions in their slots, missing ones in the gaps. */
  ghost predicate IsFilled<Tx>(vtx: seq<Tx>, a: Slots<Tx>, missing: seq<Tx>) {
    && |vtx| == |a| && GapsFilled(vtx, Gaps(a), missing)
    && forall j :: 0 <= j < |a| && a[j].Some? ==> vtx[j] == a[j].value
  }

  lemma NoGaps<Tx>(a: Slots<Tx>)
    ensures Gaps(a[..0]) == []
  {}

  lemma AboutBase<Tx(!new)>(msg: Message<Tx>, isNull: Tx -> bool)
    requires WellPlaced(msg.prefilled, |msg.shorttxids|, isNull, |msg.prefilled|)
    ensures var a := Base(msg, isNull); forall p :: LIMIT16 <= p < |a| ==> a[p].None?
    ensures msg.shorttxids != [] ==> (Walled(Base(msg, isNull)) <==> |msg.prefilled| == LIMIT16)
  {
    var n, total := |msg.prefilled|, |msg.shorttxids| + |msg.prefilled|;
    PlacedLow(msg.prefilled, |msg.shorttxids|, isNull, n, total);
    if msg.shorttxids != [] {
      WalledIff(msg.prefilled, |msg.shorttxids|, isNull, Base(msg, isNull));
    }
  }

  lemma SlotsInside<Tx>(m: map<nat, nat>, ids: seq<nat>, a: Slots<Tx>)
    requires |ids| == |Gaps(a)| && IsSlotMap(m, ids, SlotNumbers(a))
    ensures forall s :: s in m ==> m[s] < |a|
  {
    hide Gaps, Distinct;
    forall s | s in m ensures m[s] < |a| {
      var k :| 0 <= k < |ids| && ids[k] == s;
    }
  }

  // From the sender's block to the receiver's.

  /** The message describes the block: full transactions in their places, short ids for the others in order. */
  ghost predicate Encodes<Tx(!new)>(msg: Message<Tx>, vtx: seq<Tx>, id: Tx -> nat, isNull: Tx -> bool) {
    && WellPlaced(msg.prefilled, |msg.shorttxids|, isNull, |msg.prefilled|)
    && Agrees(Base(msg, isNull), vtx)
    && Names(msg.shorttxids, Gaps(Base(msg, isNull)), vtx, id)
  }

  /** The constructor of CBlockHeaderAndShortTxIDs: the coinbase in full, short ids for the rest. */
  method EncodeBlock<Tx(!new)>(vtx: seq<Tx>, id: Tx -> nat, isNull: Tx -> bool) returns (msg: Message<Tx>)
    requires vtx != []
    ensures !msg.headerNull && msg.prefilled == [Prefilled(0, vtx[0])]
    ensures |msg.shorttxids| == |vtx| - 1 && forall j :: 0 <= j < |vtx| - 1 ==> msg.shorttxids[j] == id(vtx[j + 1])
    ensures !isNull(vtx[0]) ==> Encodes(msg, vtx, id, isNull)
  {
    var ids: seq<nat> := [];
    for i := 1 to |vtx|
      invariant |ids| == i - 1 && forall j :: 0 <= j < i - 1 ==> ids[j] == id(vtx[j + 1])
    {
      ids := ids + [id(vtx[i])];
    }
    msg := Message(false, ids, [Prefilled(0, vtx[0])]);
    if !isNull(vtx[0]) {
      CoinbaseOnly(msg, isNull);
    }
  }

  lemma CoinbaseOnly<Tx(!new)>(msg: Message<Tx>, isNull: Tx -> bool)
    requires |msg.prefilled| == 1 && msg.prefilled[0].index == 0 && !isNull(msg.prefilled[0].tx)
    ensures WellPlaced(msg.prefilled, |msg.shorttxids|, isNull, 1)
    ensures var a := Base(msg, isNull); a[0] == Some(msg.prefilled[0].tx) && forall k :: 0 <= k < |Gaps(a)| ==> Gaps(a)[k] == k + 1
    ensures var a := Base(msg, isNull); forall p :: 0 < p < |a| ==> a[p].None?
  {
    var a := Base(msg, isNull);
    assert Placed(msg.prefilled, 0, |a|) == seq(|a|, _ => None);
    assert a == Placed(msg.prefilled, 0, |a|)[0 := Some(msg.prefilled[0].tx)];
    forall k | 0 <= k < |Gaps(a)| ensures Gaps(a)[k] == k + 1 {
      GapsSpread(a, k);
      GapsRoom(a, k);
    }
  }

  /** After the k-th gap there is room for the others. */
  lemma {:induction false} GapsRoom<Tx>(a: Slots<Tx>, k: nat)
    requires k < |Gaps(a)|
    ensures Gaps(a)[k] + (|Gaps(a)| - k) <= |a|
    decreases |Gaps(a)| - k
  {
    if k + 1 < |Gaps(a)| { GapsRoom(a, k + 1); }
  }

  /** Up to 65536 transactions, the 16-bit slot numbers are the slots. */
  lemma SlotsAreGaps<Tx>(a: Slots<Tx>)
    requires |a| <= LIMIT16
    ensures SlotNumbers(a) == Gaps(a) && Distinct(Gaps(a))
  {
    hide Gaps;
    forall k | 0 <= k < |Gaps(a)| ensures SlotNumbers(a)[k] == Gaps(a)[k] {
      assert Gaps(a)[k] < LIMIT16;
    }
  }

  /** Whatever the searches put in place is the block's own. */
  lemma ReceivedAgrees<Tx(!new)>(msg: Message<Tx>, vtx: seq<Tx>, id: Tx -> nat, isNull: Tx -> bool, m: map<nat, nat>,
                                 pool: seq<Tx>, extra: seq<Tx>)
    requires Encodes(msg, vtx, id, isNull) && |vtx| <= LIMIT16
    requires var a := Base(msg, isNull); IsSlotMap(m, msg.shorttxids, SlotNumbers(a)) && forall s :: s in m ==> m[s] < |a|
    requires NoClashes(pool, vtx, id) && NoClashes(extra, vtx, id)
    ensures Agrees(Received(Base(msg, isNull), m, id, pool, extra), vtx)
  {
    hide Base, IsSlotMap, NoClashes, WellPlaced, ScanAll, Gaps, SlotNumbers, Names;
    var a := Base(msg, isNull);
    SlotsAreGaps(a);
    var st := Scan(a, seq(|a|, _ => false), 0);
    ScanAgrees(m, msg.shorttxids, Gaps(a), vtx, id, false, st, pool);
    ScanAgrees(m, msg.shorttxids, Gaps(a), vtx, id, true, ScanAll(m, id, false, st, pool), extra);
  }

  /** The block's transactions for the empty slots complete the block. */
  lemma FilledIsBlock<Tx>(out: seq<Tx>, a: Slots<Tx>, missing: seq<Tx>, vtx: seq<Tx>)
    requires IsFilled(out, a, missing) && Agrees(a, vtx) && |missing| == |Gaps(a)|
    requires forall k :: 0 <= k < |missing| ==> missing[k] == vtx[Gaps(a)[k]]
    ensures out == vtx
  {
    hide Gaps;
    forall i | 0 <= i < |vtx| ensures out[i] == vtx[i] {
      if a[i].None? {
        GapsComplete(a, i);
        var k :| 0 <= k < |Gaps(a)| && Gaps(a)[k] == i;
      }
    }
  }

  /** The transactions a sender returns for the slots the receiver asks for. */
  method Requested<Tx>(a: Slots<Tx>, vtx: seq<Tx>) returns (missing: seq<Tx>)
    requires |a| == |vtx|
    ensures |missing| == |Gaps(a)| && forall k :: 0 <= k < |missing| ==> missing[k] == vtx[Gaps(a)[k]]
  {
    hide Gaps;
    missing := [];
    NoGaps(a);
    for i := 0 to |a|
      invariant |missing| == |Gaps(a[..i])| && forall k :: 0 <= k < |missing| ==> missing[k] == vtx[Gaps(a[..i])[k]]
    {
      GapsStep(a, i);
      if a[i].None? {
        missing := missing + [vtx[i]];
      }
    }
    assert a[..|a|] == a;
  }
}
