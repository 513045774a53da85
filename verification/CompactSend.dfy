/**
 * Compact blocks as a sender makes them (src/blockencodings.cpp): any choice of transactions in full, coded by their
 * distances, and short ids for the rest. Says of every block, and of every message, what the receiver answers.
 */
module CompactSend {
  import opened Foundations
  import opened CompactBlock
  import opened CompactRelay

  /** The places that the distances of the prefilled transactions stand for. */
  ghost predicate AreAt<Tx>(pre: seq<Prefilled<Tx>>, places: seq<nat>) {
    |pre| == |places| && forall i {:trigger pre[i]} :: 0 <= i < |pre| ==> places[i] == pre[i].index + Next(places, i)
  }

  /** The place after the one before. */
  ghost function Next(places: seq<nat>, i: nat): nat
    requires i < |places|
  {
    if i == 0 then 0 else places[i - 1] + 1
  }

  lemma {:induction false} PlacesAre<Tx>(pre: seq<Prefilled<Tx>>, places: seq<nat>, i: nat)
    requires AreAt(pre, places) && i < |pre|
    ensures IndexAt(pre, i) == places[i]
  {
    if i > 0 {
      PlacesAre(pre, places, i - 1);
    }
  }

  /** Every message: the six reasons to call it invalid, and what becomes of the others. */
  method Receive<Tx(==, !new)>(msg: Message<Tx>, ghost places: seq<nat>, id: Tx -> nat, isNull: Tx -> bool,
                               crowded: nat -> bool, pool: seq<Tx>, extra: seq<Tx>) returns (status: Status)
    requires AreAt(msg.prefilled, places)
    ensures msg.headerNull ==> status == Invalid
    ensures |msg.shorttxids| == 0 && |msg.prefilled| == 0 ==> status == Invalid
    ensures |msg.shorttxids| + |msg.prefilled| > 200000 ==> status == Invalid
    ensures (exists i :: 0 <= i < |places| && isNull(msg.prefilled[i].tx)) ==> status == Invalid
    ensures (exists i :: 0 <= i < |places| && places[i] > 65535) ==> status == Invalid
    ensures (exists i :: 0 <= i < |places| && places[i] > |msg.shorttxids| + i) ==> status == Invalid
    ensures status == Invalid ==>
      || msg.headerNull || |msg.shorttxids| + |msg.prefilled| == 0 || |msg.shorttxids| + |msg.prefilled| > 200000
      || exists i :: 0 <= i < |places| && (isNull(msg.prefilled[i].tx) || places[i] > 65535 || places[i] > |msg.shorttxids| + i)
    ensures status == NeverReturns <==> status != Invalid && msg.shorttxids != [] && |msg.prefilled| == 65536
    ensures status != Invalid && status != NeverReturns ==>
      (status == Ok <==>
       && (forall i, j :: 0 <= i < j < |msg.shorttxids| ==> msg.shorttxids[i] != msg.shorttxids[j])
       && forall i :: 0 <= i < |msg.shorttxids| ==> !crowded(i))
  {
    hide Gaps, IsSlotMap, SlotNumbers, Base, Searched, Received, IndexAt;
    forall i | 0 <= i < |places| ensures IndexAt(msg.prefilled, i) == places[i] {
      PlacesAre(msg.prefilled, places, i);
    }
    var receiver := new PartiallyDownloadedBlock<Tx>();
    ghost var m;
    status, m := receiver.InitData(msg, id, isNull, crowded, pool, extra);
  }

  // ------------------------------------------------------------------
  // The sender's choice of transactions in full
  // ------------------------------------------------------------------

  /** The places below n that were not chosen, in order. */
  ghost function Others(places: seq<nat>, n: nat): seq<nat> {
    if n == 0 then [] else if n - 1 in places then Others(places, n - 1) else Others(places, n - 1) + [n - 1]
  }

  /** Places in increasing order, all in the block and below the 16-bit limit. */
  ghost predicate Chosen(places: seq<nat>, n: nat) {
    && (forall i, j :: 0 <= i < j < |places| ==> places[i] < places[j])
    && forall i :: 0 <= i < |places| ==> places[i] < n && places[i] <= 65535
  }

  /** The message with the chosen transactions in full and short ids for the others. */
  ghost predicate IsMessage<Tx>(msg: Message<Tx>, vtx: seq<Tx>, places: seq<nat>, id: Tx -> nat) {
    && !msg.headerNull && Chosen(places, |vtx|) && AreAt(msg.prefilled, places)
    && (forall i :: 0 <= i < |places| ==> msg.prefilled[i].tx == vtx[places[i]])
    && Names(msg.shorttxids, Others(places, |vtx|), vtx, id)
  }

  /** What is in a slot after the prefilled transactions are in place. */
  lemma {:induction false} PlacedElse<Tx>(pre: seq<Prefilled<Tx>>, places: seq<nat>, n: nat, total: nat, p: nat)
    requires AreAt(pre, places) && n <= |pre| && p < total && p !in places
    requires forall i :: 0 <= i < n ==> IndexAt(pre, i) < total
    ensures Placed(pre, n, total)[p].None?
  {
    if n > 0 {
      PlacedElse(pre, places, n - 1, total, p);
      PlacesAre(pre, places, n - 1);
    }
  }

  lemma {:induction false} GapsAreOthers<Tx>(a: Slots<Tx>, places: seq<nat>, n: nat)
    requires n <= |a| && forall p: nat {:trigger a[p]} :: p < |a| ==> (a[p].None? <==> p !in places)
    ensures Gaps(a[..n]) == Others(places, n)
  {
    if n > 0 {
      GapsAreOthers(a, places, n - 1);
      GapsStep(a, n - 1);
    }
  }

  /** The slots that the prefilled transactions fill are the chosen places. */
  lemma PlacedChosen<Tx>(msg: Message<Tx>, vtx: seq<Tx>, places: seq<nat>, id: Tx -> nat) returns (a: Slots<Tx>)
    requires IsMessage(msg, vtx, places, id)
    ensures forall i :: 0 <= i < |places| ==> IndexAt(msg.prefilled, i) == places[i]
    ensures a == Placed(msg.prefilled, |msg.prefilled|, |vtx|) && |Gaps(a)| == |vtx| - |msg.prefilled|
    ensures forall p: nat {:trigger a[p]} :: p < |vtx| ==> (a[p].None? <==> p !in places)
    ensures Agrees(a, vtx)
  {
    var pre := msg.prefilled;
    forall i | 0 <= i < |places| ensures IndexAt(pre, i) == places[i] < |vtx| {
      PlacesAre(pre, places, i);
    }
    a := Placed(pre, |pre|, |vtx|);
    PlacedGaps(pre, |pre|, |vtx|);
    hide Placed, Gaps, IndexAt, Others;
    forall p: nat | p < |vtx|
      ensures a[p].None? <==> p !in places
      ensures a[p].Some? ==> a[p].value == vtx[p]
    {
      if p in places {
        var i :| 0 <= i < |places| && places[i] == p;
        PlacedAt(pre, |pre|, |vtx|, i);
      } else {
        PlacedElse(pre, places, |pre|, |vtx|, p);
      }
    }
  }

  /** No place is too far out for the short ids that come before it. */
  lemma ChosenFit(places: seq<nat>, n: nat, i: nat)
    requires Chosen(places, n) && i < |places|
    ensures places[i] + |places| <= n + i
    decreases |places| - i
  {
    if i + 1 < |places| {
      ChosenFit(places, n, i + 1);
    }
  }

  lemma MessageFits<Tx(!new)>(msg: Message<Tx>, vtx: seq<Tx>, places: seq<nat>, id: Tx -> nat, isNull: Tx -> bool)
    requires IsMessage(msg, vtx, places, id) && |msg.shorttxids| + |msg.prefilled| == |vtx|
    requires forall i :: 0 <= i < |places| ==> !isNull(vtx[places[i]])
    ensures WellPlaced(msg.prefilled, |msg.shorttxids|, isNull, |msg.prefilled|)
  {
    forall i | 0 <= i < |places| ensures IndexAt(msg.prefilled, i) == places[i] <= |msg.shorttxids| + i {
      PlacesAre(msg.prefilled, places, i);
      ChosenFit(places, |vtx|, i);
    }
    hide IndexAt, Others, AreAt;
  }

  /** Such a message describes the block, and the receiver's empty slots are the places not chosen. */
  lemma MessageEncodes<Tx(!new)>(msg: Message<Tx>, vtx: seq<Tx>, places: seq<nat>, id: Tx -> nat, isNull: Tx -> bool)
    requires IsMessage(msg, vtx, places, id) && forall i :: 0 <= i < |places| ==> !isNull(vtx[places[i]])
    ensures |msg.shorttxids| + |msg.prefilled| == |vtx|
    ensures Encodes(msg, vtx, id, isNull) && Gaps(Base(msg, isNull)) == Others(places, |vtx|)
    ensures forall p: nat {:trigger Base(msg, isNull)[p]} :: p < |vtx| ==> (Base(msg, isNull)[p].None? <==> p !in places)
  {
    hide Placed, Gaps, IndexAt, Others, WellPlaced, Chosen, AreAt, Agrees, Names;
    var a := PlacedChosen(msg, vtx, places, id);
    GapsAreOthers(a, places, |vtx|);
    assert a[..|vtx|] == a;
    assert |msg.shorttxids| == |Others(places, |vtx|)| by { NamesLength(msg.shorttxids, Others(places, |vtx|), vtx, id); }
    MessageFits(msg, vtx, places, id, isNull);
    assert Base(msg, isNull) == a;
  }

  lemma NamesLength<Tx>(ids: seq<nat>, slots: seq<nat>, vtx: seq<Tx>, id: Tx -> nat)
    requires Names(ids, slots, vtx, id)
    ensures |ids| == |slots|
  {
  }

  /** The short ids are distinct exactly if those of the transactions not chosen are. */
  lemma DistinctOthers<Tx>(ids: seq<nat>, a: Slots<Tx>, vtx: seq<Tx>, places: seq<nat>, id: Tx -> nat)
    requires Names(ids, Gaps(a), vtx, id) && |a| == |vtx|
    requires forall p: nat {:trigger a[p]} :: p < |vtx| ==> (a[p].None? <==> p !in places)
    ensures Distinct(ids) <==> IdsDiffer(vtx, places, id)
  {
    hide Gaps;
    var g := Gaps(a);
    if Distinct(ids) {
      forall p, q | 0 <= p < q < |vtx| && p !in places && q !in places ensures id(vtx[p]) != id(vtx[q]) {
        assert a[p].None? && a[q].None?;
        TwoGaps(ids, a, vtx, id, p, q);
      }
    } else {
      var j, k :| 0 <= j < k < |ids| && ids[j] == ids[k];
      assert a[g[j]].None? && a[g[k]].None?;
    }
  }

  lemma TwoGaps<Tx>(ids: seq<nat>, a: Slots<Tx>, vtx: seq<Tx>, id: Tx -> nat, p: nat, q: nat)
    requires Names(ids, Gaps(a), vtx, id) && |a| == |vtx| && Distinct(ids)
    requires p < q < |a| && a[p].None? && a[q].None?
    ensures id(vtx[p]) != id(vtx[q])
  {
    hide Gaps;
    var g := Gaps(a);
    GapsComplete(a, p);
    GapsComplete(a, q);
    var j :| 0 <= j < |g| && g[j] == p;
    var k :| 0 <= k < |g| && g[k] == q;
    assert ids[j] == id(vtx[p]) && ids[k] == id(vtx[q]);
  }

  ghost predicate IdsDiffer<Tx>(vtx: seq<Tx>, places: seq<nat>, id: Tx -> nat) {
    forall p, q :: 0 <= p < q < |vtx| && p !in places && q !in places ==> id(vtx[p]) != id(vtx[q])
  }

  /**
   * The exchange of any block of 1 to 200000 transactions, whichever are sent in full. It is accepted exactly if no
   * transaction in full is null, the short ids of the others differ, no bucket is crowded and there are not 65536
   * transactions in full with others beside them. A block of at most 65536 transactions then comes through, and the
   * receiver asks for exactly those it had only a short id for and did not know.
   */
  method Send<Tx(==, !new)>(msg: Message<Tx>, ghost places: seq<nat>, vtx: seq<Tx>, id: Tx -> nat, isNull: Tx -> bool,
                            crowded: nat -> bool, pool: seq<Tx>, extra: seq<Tx>)
    returns (status: Status, missing: seq<Tx>, out: seq<Tx>)
    requires IsMessage(msg, vtx, places, id) && 1 <= |vtx| <= 200000
    requires forall i :: 0 <= i < |places| ==> !isNull(vtx[places[i]])
    requires NoClashes(pool, vtx, id) && NoClashes(extra, vtx, id)
    ensures |places| + |msg.shorttxids| == |vtx| && status != Invalid
    ensures status == Ok <==>
      && IdsDiffer(vtx, places, id) && (forall k :: 0 <= k < |vtx| - |places| ==> !crowded(k))
      && (|vtx| > |places| ==> |places| != 65536)
    ensures status == Ok && |vtx| <= 65536 ==> out == vtx
    ensures status == Ok && |vtx| <= 65536 && Distinct(pool) ==> forall t :: t in missing <==>
      t !in pool && t !in extra && exists p: nat :: p < |vtx| && p !in places && vtx[p] == t
  {
    MessageEncodes(msg, vtx, places, id, isNull);
    DistinctOthers(msg.shorttxids, Base(msg, isNull), vtx, places, id);
    hide Gaps, Base, Others, NoClashes, Distinct, IdsDiffer, WellPlaced, Agrees, Names, Chosen, Misplaced;
    status, missing, out := Relay(msg, vtx, id, isNull, crowded, pool, extra);
    forall t ensures IsUnknown(Base(msg, isNull), vtx, pool, extra, t) <==>
      t !in pool && t !in extra && exists p: nat :: p < |vtx| && p !in places && vtx[p] == t
    {
      UnknownIs(Base(msg, isNull), vtx, pool, extra, places, t);
    }
  }

  lemma UnknownIs<Tx>(a: Slots<Tx>, vtx: seq<Tx>, pool: seq<Tx>, extra: seq<Tx>, places: seq<nat>, t: Tx)
    requires |a| == |vtx| && forall p: nat {:trigger a[p]} :: p < |vtx| ==> (a[p].None? <==> p !in places)
    ensures IsUnknown(a, vtx, pool, extra, t) <==>
      (t !in pool && t !in extra && exists p: nat :: p < |vtx| && p !in places && vtx[p] == t)
  {
    if exists p: nat :: p < |vtx| && p !in places && vtx[p] == t {
      var p: nat :| p < |vtx| && p !in places && vtx[p] == t;
      assert a[p].None?;
    }
  }

  lemma {:induction false} OthersOfCoinbase(n: nat)
    requires n >= 1
    ensures |Others([0], n)| == n - 1 && forall k :: 0 <= k < n - 1 ==> Others([0], n)[k] == k + 1
  {
    if n == 1 {
      assert Others([0], 0) == [];
    } else {
      OthersOfCoinbase(n - 1);
    }
  }

  lemma CoinbaseMessage<Tx>(msg: Message<Tx>, vtx: seq<Tx>, id: Tx -> nat)
    requires vtx != [] && !msg.headerNull && msg.prefilled == [Prefilled(0, vtx[0])]
    requires |msg.shorttxids| == |vtx| - 1 && forall j :: 0 <= j < |vtx| - 1 ==> msg.shorttxids[j] == id(vtx[j + 1])
    ensures IsMessage(msg, vtx, [0], id) && AreAt(msg.prefilled, [0])
    ensures IdsDiffer(vtx, [0], id) <==> forall p, q :: 1 <= p < q < |vtx| ==> id(vtx[p]) != id(vtx[q])
  {
    OthersOfCoinbase(|vtx|);
    hide Others;
  }

  /**
   * The sender of src/blockencodings.cpp: the coinbase in full. Any block of 1 to 200000 transactions is accepted
   * exactly if its coinbase is not null, the short ids of the other transactions differ and no bucket is crowded.
   */
  method SendBlock<Tx(==, !new)>(vtx: seq<Tx>, id: Tx -> nat, isNull: Tx -> bool, crowded: nat -> bool, pool: seq<Tx>, extra: seq<Tx>)
    returns (status: Status, missing: seq<Tx>, out: seq<Tx>)
    requires vtx != [] && NoClashes(pool, vtx, id) && NoClashes(extra, vtx, id)
    ensures status == Invalid <==> |vtx| > 200000 || isNull(vtx[0])
    ensures status == Ok <==>
      && |vtx| <= 200000 && !isNull(vtx[0])
      && (forall p, q :: 1 <= p < q < |vtx| ==> id(vtx[p]) != id(vtx[q])) && (forall k :: 0 <= k < |vtx| - 1 ==> !crowded(k))
    ensures status == Ok && |vtx| <= 65536 ==> out == vtx
    ensures status == Ok && |vtx| <= 65536 && Distinct(pool) ==>
      forall t :: t in missing <==> t in vtx[1..] && t !in pool && t !in extra
  {
    var msg := EncodeBlock(vtx, id, isNull);
    CoinbaseMessage(msg, vtx, id);
    hide NoClashes, Distinct, Others, Names, IsMessage;
    missing, out := [], [];
    if |vtx| > 200000 || isNull(vtx[0]) {
      status := Receive(msg, [0], id, isNull, crowded, pool, extra);
    } else {
      status, missing, out := Send(msg, [0], vtx, id, isNull, crowded, pool, extra);
    }
  }
}
