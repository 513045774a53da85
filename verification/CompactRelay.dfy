/**
 * The exchange of a compact block (src/blockencodings.cpp) from end to end: what the searches
 * leave in every slot, and when the receiver ends up with the sender's block. Slot numbers are
 * kept in 16 bits, so a block of more than 65536 transactions may be mixed up.
 */
module CompactRelay {
  import opened Foundations
  import opened CompactBlock

  // ------------------------------------------------------------------
  // The searches, slot by slot
  // ------------------------------------------------------------------

  /** The transactions seen whose short id leads to slot p. */
  ghost function Hits<Tx>(m: map<nat, nat>, id: Tx -> nat, seen: set<Tx>, p: int): set<Tx> {
    set t | t in seen && id(t) in m && m[id(t)] == p
  }

  ghost function SingleHits<Tx>(m: map<nat, nat>, id: Tx -> nat, seen: set<Tx>, n: nat): set<nat> {
    set p: nat | p < n && |Hits(m, id, seen, p)| == 1
  }

  /** A slot keeps what it had, takes its only hit, or is emptied by a second one. */
  ghost predicate SlotOutcome<Tx>(was: Option<Tx>, hits: set<Tx>, slot: Option<Tx>, have: bool) {
    && (have <==> hits != {})
    && if hits == {} then slot == was else if |hits| == 1 then slot.Some? && hits == {slot.value} else slot == None
  }

  ghost predicate Outcome<Tx>(st: Scan<Tx>, a: Slots<Tx>, m: map<nat, nat>, id: Tx -> nat, seen: set<Tx>) {
    && |st.have| == |st.avail| == |a|
    && (forall p :: 0 <= p < |a| ==> SlotOutcome(a[p], Hits(m, id, seen, p), st.avail[p], st.have[p]))
    && st.found == |SingleHits(m, id, seen, |a|)|
  }

  lemma OneMore<T>(s: set<T>, t: T)
    ensures |s + {t}| == if t in s then |s| else |s| + 1
    ensures |s| == 1 && t in s ==> s == {t}
    ensures |s| == 0 <==> s == {}
  {
    if t in s {
      assert s + {t} == s;
      assert s == (s - {t}) + {t};
    }
  }

  lemma HitsNext<Tx>(m: map<nat, nat>, id: Tx -> nat, seen: set<Tx>, t: Tx, p: int)
    ensures var h := Hits(m, id, seen, p);
            Hits(m, id, seen + {t}, p) == if id(t) in m && m[id(t)] == p then h + {t} else h
  {
    var h := Hits(m, id, seen, p);
    assert Hits(m, id, seen + {t}, p) == if id(t) in m && m[id(t)] == p then h + {t} else h;
  }

  /** One slot through one transaction that leads to it. */
  lemma SlotStep<Tx>(was: Option<Tx>, hits: set<Tx>, slot: Option<Tx>, have: bool, t: Tx, fromExtra: bool)
    requires SlotOutcome(was, hits, slot, have) && (fromExtra || t !in hits)
    ensures !have ==> SlotOutcome(was, hits + {t}, Some(t), true) && |hits| == 0 && |hits + {t}| == 1
    ensures have && slot.Some? && !(fromExtra && slot.value == t) ==>
              SlotOutcome(was, hits + {t}, None, true) && |hits| == 1 && |hits + {t}| == 2
    ensures have && !(slot.Some? && !(fromExtra && slot.value == t)) ==>
              SlotOutcome(was, hits + {t}, slot, have) && (|hits| == 1 <==> |hits + {t}| == 1)
  {
    OneMore(hits, t);
  }

  lemma SingleNext<Tx>(m: map<nat, nat>, id: Tx -> nat, seen: set<Tx>, t: Tx, n: nat)
    requires id(t) in m && m[id(t)] < n
    ensures var p := m[id(t)];
            var h, s, s' := Hits(m, id, seen, p), SingleHits(m, id, seen, n), SingleHits(m, id, seen + {t}, n);
            && (|h| == 0 && |h + {t}| == 1 ==> |s'| == |s| + 1)
            && (|h| == 1 && |h + {t}| == 2 ==> |s'| == |s| - 1)
            && ((|h| == 1 <==> |h + {t}| == 1) ==> s' == s)
  {
    hide Hits;
    var p := m[id(t)];
    var h, s, s' := Hits(m, id, seen, p), SingleHits(m, id, seen, n), SingleHits(m, id, seen + {t}, n);
    forall q: nat | q < n ensures q in s' <==> if q == p then |h + {t}| == 1 else q in s {
      HitsNext(m, id, seen, t, q);
    }
    if |h| == 0 && |h + {t}| == 1 {
      assert s' == s + {p};
    } else if |h| == 1 && |h + {t}| == 2 {
      assert s' == s - {p};
    } else if |h| == 1 <==> |h + {t}| == 1 {
      assert s' == s;
    }
  }

  lemma StepOutcome<Tx>(st: Scan<Tx>, a: Slots<Tx>, m: map<nat, nat>, id: Tx -> nat, seen: set<Tx>, fromExtra: bool, t: Tx)
    requires Fits(m, st) && Outcome(st, a, m, id, seen) && (fromExtra || t !in seen)
    ensures Outcome(Step(m, id, fromExtra, st, t), a, m, id, seen + {t})
  {
    var r := Step(m, id, fromExtra, st, t);
    if id(t) in m {
      var p := m[id(t)];
      SlotStep(a[p], Hits(m, id, seen, p), st.avail[p], st.have[p], t, fromExtra);
      SingleNext(m, id, seen, t, |a|);
    } else {
      forall p: nat ensures Hits(m, id, seen + {t}, p) == Hits(m, id, seen, p) {
        HitsNext(m, id, seen, t, p);
      }
      assert SingleHits(m, id, seen + {t}, |a|) == SingleHits(m, id, seen, |a|);
    }
    hide SlotOutcome, SingleHits;
    forall p | 0 <= p < |a| ensures SlotOutcome(a[p], Hits(m, id, seen + {t}, p), r.avail[p], r.have[p]) {
      HitsNext(m, id, seen, t, p);
      hide Hits;
    }
  }

  // ------------------------------------------------------------------
  // The early end of a search
  // ------------------------------------------------------------------

  /** Transactions with the same known short id are the same. */
  ghost predicate OnePerId<Tx(!new)>(m: map<nat, nat>, id: Tx -> nat, all: set<Tx>) {
    forall t, u :: t in all && u in all && id(t) in m && id(t) == id(u) ==> t == u
  }

  ghost function TheHit<Tx>(m: map<nat, nat>, id: Tx -> nat, seen: set<Tx>, p: int): (t: Tx)
    requires Hits(m, id, seen, p) != {}
    ensures t in Hits(m, id, seen, p)
  {
    var t :| t in Hits(m, id, seen, p); t
  }

  lemma {:induction false} SameSize<T>(s: set<T>, u: set<T>)
    requires s <= u && |s| == |u|
    ensures s == u
    decreases |s|
  {
    if s == {} {
      assert u == {};
    } else {
      var x := AnyOf(s);
      SameSize(s - {x}, u - {x});
      assert s == (s - {x}) + {x} && u == (u - {x}) + {x};
    }
  }

  /** As many slots with a single hit as short ids: every short id was met. */
  lemma AllMet<Tx(!new)>(m: map<nat, nat>, id: Tx -> nat, seen: set<Tx>, n: nat)
    requires |SingleHits(m, id, seen, n)| == |m|
    ensures forall s :: s in m ==> exists t :: t in seen && id(t) == s
  {
    var single := SingleHits(m, id, seen, n);
    var f := (p: nat) => if Hits(m, id, seen, p) != {} then id(TheHit(m, id, seen, p)) else 0;
    forall p: nat | p in single ensures Hits(m, id, seen, p) != {} && f(p) in m && m[f(p)] == p {
      var t := TheHit(m, id, seen, p);
      assert f(p) == id(t);
    }
    ImageSize(single, f);
    SameSize(Image(single, f), m.Keys);
    forall s | s in m ensures exists t :: t in seen && id(t) == s {
      assert s in Image(single, f);
      var p :| p in single && f(p) == s;
      assert TheHit(m, id, seen, p) in seen;
    }
  }

  lemma EnoughOutcome<Tx(!new)>(st: Scan<Tx>, a: Slots<Tx>, m: map<nat, nat>, id: Tx -> nat, seen: set<Tx>, all: set<Tx>)
    requires Outcome(st, a, m, id, seen) && st.found == |m| && seen <= all && OnePerId(m, id, all)
    ensures Outcome(st, a, m, id, all)
  {
    AllMet(m, id, seen, |a|);
    forall p ensures Hits(m, id, all, p) == Hits(m, id, seen, p) {
      forall t | t in Hits(m, id, all, p) ensures t in Hits(m, id, seen, p) {
        var u :| u in seen && id(u) == id(t);
        assert u == t;
      }
    }
    assert SingleHits(m, id, all, |a|) == SingleHits(m, id, seen, |a|);
  }

  ghost function Members<Tx>(ts: seq<Tx>): set<Tx> {
    set t | t in ts
  }

  lemma {:induction false} ScanOutcome<Tx(!new)>(st: Scan<Tx>, a: Slots<Tx>, m: map<nat, nat>, id: Tx -> nat, seen: set<Tx>, fromExtra: bool,
                                           ts: seq<Tx>)
    requires Fits(m, st) && Outcome(st, a, m, id, seen) && OnePerId(m, id, seen + Members(ts))
    requires fromExtra || (Distinct(ts) && forall t :: t in ts ==> t !in seen)
    ensures Outcome(ScanAll(m, id, fromExtra, st, ts), a, m, id, seen + Members(ts))
    decreases |ts|
  {
    hide Outcome, Step, OnePerId;
    if ts == [] {
      assert seen + Members(ts) == seen;
    } else {
      var next, seen' := Step(m, id, fromExtra, st, ts[0]), seen + {ts[0]};
      assert ts[0] in ts;
      assert seen + Members(ts) == seen' + Members(ts[1..]) by {
        assert ts == [ts[0]] + ts[1..];
      }
      StepOutcome(st, a, m, id, seen, fromExtra, ts[0]);
      if next.found == |m| {
        EnoughOutcome(next, a, m, id, seen', seen + Members(ts));
      } else {
        forall t | t in ts[1..] ensures t in ts && (!fromExtra ==> t !in seen') {
          var j :| 0 <= j < |ts| - 1 && ts[1..][j] == t;
          assert ts[j + 1] == t;
        }
        ScanOutcome(next, a, m, id, seen', fromExtra, ts[1..]);
      }
    }
  }

  /** What both searches leave, for every slot: with no transaction twice in the pool, exactly what the
      transactions that lead to it decide, in whatever order they come. */
  lemma SearchedOutcome<Tx(!new)>(a: Slots<Tx>, m: map<nat, nat>, id: Tx -> nat, pool: seq<Tx>, extra: seq<Tx>)
    requires (forall s :: s in m ==> m[s] < |a|) && Distinct(pool) && OnePerId(m, id, Members(pool) + Members(extra))
    ensures Outcome(Searched(a, m, id, pool, extra), a, m, id, Members(pool) + Members(extra))
  {
    hide Distinct, ScanAll;
    var st := Scan(a, seq(|a|, _ => false), 0);
    forall p ensures Hits(m, id, {}, p) == {} {}
    assert SingleHits(m, id, {}, |a|) == {};
    assert {} + Members(pool) == Members(pool);
    ScanOutcome(st, a, m, id, {}, false, pool);
    ScanOutcome(ScanAll(m, id, false, st, pool), a, m, id, Members(pool), true, extra);
  }

  // ------------------------------------------------------------------
  // From the sender's block to the receiver's
  // ------------------------------------------------------------------

  /** A message about the block that InitData accepted, and lists without foreign transactions of the same short ids. */
  ghost predicate Setting<Tx(!new)>(msg: Message<Tx>, vtx: seq<Tx>, id: Tx -> nat, isNull: Tx -> bool, m: map<nat, nat>,
                                    pool: seq<Tx>, extra: seq<Tx>)
  {
    && Encodes(msg, vtx, id, isNull)
    && (var a := Base(msg, isNull); IsSlotMap(m, msg.shorttxids, SlotNumbers(a)) && forall s :: s in m ==> m[s] < |a|)
    && NoClashes(pool, vtx, id) && NoClashes(extra, vtx, id)
  }

  /** A known transaction leads to slot p exactly if it is the block's own at an empty place with that 16-bit number. */
  lemma HitIs<Tx(!new)>(msg: Message<Tx>, vtx: seq<Tx>, id: Tx -> nat, isNull: Tx -> bool, m: map<nat, nat>,
                        pool: seq<Tx>, extra: seq<Tx>, t: Tx, p: nat)
    requires Setting(msg, vtx, id, isNull, m, pool, extra) && t in Members(pool) + Members(extra)
    ensures t in Hits(m, id, Members(pool) + Members(extra), p) <==> IsPlaceOf(Base(msg, isNull), vtx, t, p)
  {
    hide Gaps, Distinct, WellPlaced;
    var a := Base(msg, isNull);
    assert NoClash(t, vtx, id);
    if id(t) in m && m[id(t)] == p {
      var k :| 0 <= k < |msg.shorttxids| && msg.shorttxids[k] == id(t);
      var g := Gaps(a)[k];
      assert a[g].None? && g % LIMIT16 == p && vtx[g] == t;
    }
    if IsPlaceOf(a, vtx, t, p) {
      var g :| 0 <= g < |a| && a[g].None? && g % LIMIT16 == p && vtx[g] == t;
      GapsComplete(a, g);
      var k :| 0 <= k < |Gaps(a)| && Gaps(a)[k] == g;
      assert msg.shorttxids[k] == id(t);
    }
  }

  ghost predicate IsPlaceOf<Tx>(a: Slots<Tx>, vtx: seq<Tx>, t: Tx, p: nat)
    requires |a| == |vtx|
  {
    exists g :: 0 <= g < |a| && a[g].None? && g % LIMIT16 == p && vtx[g] == t
  }

  lemma KnownOnce<Tx(!new)>(msg: Message<Tx>, vtx: seq<Tx>, id: Tx -> nat, isNull: Tx -> bool, m: map<nat, nat>,
                            pool: seq<Tx>, extra: seq<Tx>)
    requires Setting(msg, vtx, id, isNull, m, pool, extra)
    ensures OnePerId(m, id, Members(pool) + Members(extra))
  {
    hide Gaps, Distinct, WellPlaced;
    var all := Members(pool) + Members(extra);
    forall t, u | t in all && u in all && id(t) in m && id(t) == id(u) ensures t == u {
      assert NoClash(t, vtx, id) && NoClash(u, vtx, id);
      var k :| 0 <= k < |msg.shorttxids| && msg.shorttxids[k] == id(t);
    }
  }

  /** The transaction at place f beyond the 16-bit limit is known and is the only known one that leads to the place
      with its 16-bit number, where the block has another. */
  ghost predicate Misplaced<Tx>(a: Slots<Tx>, vtx: seq<Tx>, known: set<Tx>, f: nat)
    requires |a| == |vtx|
  {
    && LIMIT16 <= f < |a| && vtx[f] in known && vtx[f] != vtx[f % LIMIT16]
    && forall t :: t in known && IsPlaceOf(a, vtx, t, f % LIMIT16) ==> t == vtx[f]
  }

  /** What the searches put in place is the block's own exactly when no transaction is misplaced. */
  lemma AgreesIff<Tx(!new)>(msg: Message<Tx>, vtx: seq<Tx>, id: Tx -> nat, isNull: Tx -> bool, m: map<nat, nat>,
                            pool: seq<Tx>, extra: seq<Tx>)
    requires Setting(msg, vtx, id, isNull, m, pool, extra) && Distinct(pool)
    ensures Agrees(Received(Base(msg, isNull), m, id, pool, extra), vtx) <==>
            forall f: nat :: !Misplaced(Base(msg, isNull), vtx, Members(pool) + Members(extra), f)
  {
    var a, r := Base(msg, isNull), Received(Base(msg, isNull), m, id, pool, extra);
    var known := Members(pool) + Members(extra);
    KnownOnce(msg, vtx, id, isNull, m, pool, extra);
    SearchedOutcome(a, m, id, pool, extra);
    hide Gaps, Distinct, WellPlaced, IsSlotMap, NoClashes, OnePerId, Searched;
    forall f: nat | Misplaced(a, vtx, known, f) ensures !Agrees(r, vtx) {
      MisplacedWins(msg, vtx, id, isNull, m, pool, extra, f);
    }
    if !Agrees(r, vtx) {
      var p :| 0 <= p < |a| && r[p].Some? && r[p].value != vtx[p];
      OnlyMisplaced(msg, vtx, id, isNull, m, pool, extra, p);
    }
  }

  lemma MisplacedWins<Tx(!new)>(msg: Message<Tx>, vtx: seq<Tx>, id: Tx -> nat, isNull: Tx -> bool, m: map<nat, nat>,
                                pool: seq<Tx>, extra: seq<Tx>, f: nat)
    requires Setting(msg, vtx, id, isNull, m, pool, extra)
    requires var known := Members(pool) + Members(extra);
             Misplaced(Base(msg, isNull), vtx, known, f) && Outcome(Searched(Base(msg, isNull), m, id, pool, extra), Base(msg, isNull), m, id, known)
    ensures !Agrees(Received(Base(msg, isNull), m, id, pool, extra), vtx)
  {
    hide Gaps, Distinct, WellPlaced, IsSlotMap, NoClashes, Searched, Names;
    var a, known, p := Base(msg, isNull), Members(pool) + Members(extra), f % LIMIT16;
    AboutBase(msg, isNull);
    assert IsPlaceOf(a, vtx, vtx[f], p) by { assert a[f].None?; }
    forall t | t in known ensures t in Hits(m, id, known, p) <==> t == vtx[f] {
      HitIs(msg, vtx, id, isNull, m, pool, extra, t, p);
    }
    assert Hits(m, id, known, p) == {vtx[f]};
    assert SlotOutcome(a[p], {vtx[f]}, Received(a, m, id, pool, extra)[p], true);
  }

  lemma OnlyMisplaced<Tx(!new)>(msg: Message<Tx>, vtx: seq<Tx>, id: Tx -> nat, isNull: Tx -> bool, m: map<nat, nat>,
                                pool: seq<Tx>, extra: seq<Tx>, p: nat)
    requires Setting(msg, vtx, id, isNull, m, pool, extra) && p < |vtx|
    requires var a := Base(msg, isNull);
             Outcome(Searched(a, m, id, pool, extra), a, m, id, Members(pool) + Members(extra))
    requires var slot := Received(Base(msg, isNull), m, id, pool, extra)[p]; slot.Some? && slot.value != vtx[p]
    ensures exists f: nat :: Misplaced(Base(msg, isNull), vtx, Members(pool) + Members(extra), f)
  {
    hide Gaps, Distinct, WellPlaced, IsSlotMap, NoClashes, Searched, Names;
    var a, known, r := Base(msg, isNull), Members(pool) + Members(extra), Received(Base(msg, isNull), m, id, pool, extra);
    var t := r[p].value;
    var hits := Hits(m, id, known, p);
    assert SlotOutcome(a[p], hits, r[p], hits != {});
    assert hits == {t} && t in known;
    forall u | u in known ensures u in hits <==> IsPlaceOf(a, vtx, u, p) {
      HitIs(msg, vtx, id, isNull, m, pool, extra, u, p);
    }
    var g :| 0 <= g < |a| && a[g].None? && g % LIMIT16 == p && vtx[g] == t;
    assert Misplaced(a, vtx, known, g);
  }

  /** In a block of at most 65536 transactions every place has its own number. */
  lemma NoneMisplaced<Tx(!new)>(msg: Message<Tx>, vtx: seq<Tx>, id: Tx -> nat, isNull: Tx -> bool, m: map<nat, nat>,
                                pool: seq<Tx>, extra: seq<Tx>, p: nat)
    requires Setting(msg, vtx, id, isNull, m, pool, extra) && |vtx| <= LIMIT16 && p < |vtx|
    ensures var known := Members(pool) + Members(extra);
            Hits(m, id, known, p) == if Base(msg, isNull)[p].None? && vtx[p] in known then {vtx[p]} else {}
  {
    hide Gaps, Distinct, WellPlaced, IsSlotMap, NoClashes, Names;
    var a, known := Base(msg, isNull), Members(pool) + Members(extra);
    forall t | t in known ensures t in Hits(m, id, known, p) <==> a[p].None? && t == vtx[p] {
      HitIs(msg, vtx, id, isNull, m, pool, extra, t, p);
      assert IsPlaceOf(a, vtx, t, p) <==> a[p].None? && t == vtx[p];
    }
  }

  /** With no transaction twice in the pool, a slot is left empty only if neither list has its transaction. */
  lemma ReceivedComplete<Tx(!new)>(msg: Message<Tx>, vtx: seq<Tx>, id: Tx -> nat, isNull: Tx -> bool, m: map<nat, nat>,
                                   pool: seq<Tx>, extra: seq<Tx>, p: nat)
    requires Setting(msg, vtx, id, isNull, m, pool, extra) && |vtx| <= LIMIT16 && p < |vtx| && Distinct(pool)
    ensures var a := Base(msg, isNull); var r := Received(a, m, id, pool, extra);
            |r| == |vtx| && (r[p].Some? <==> a[p].Some? || vtx[p] in pool || vtx[p] in extra)
  {
    KnownOnce(msg, vtx, id, isNull, m, pool, extra);
    SearchedOutcome(Base(msg, isNull), m, id, pool, extra);
    NoneMisplaced(msg, vtx, id, isNull, m, pool, extra, p);
    hide Gaps, Distinct, WellPlaced, IsSlotMap, NoClashes, OnePerId, Searched, Hits;
    var a, r := Base(msg, isNull), Received(Base(msg, isNull), m, id, pool, extra);
    var hits := Hits(m, id, Members(pool) + Members(extra), p);
    assert SlotOutcome(a[p], hits, r[p], hits != {});
  }

  /** The transaction was sent as a short id and neither list has it. */
  ghost predicate IsUnknown<Tx>(a: Slots<Tx>, vtx: seq<Tx>, pool: seq<Tx>, extra: seq<Tx>, t: Tx)
    requires |a| == |vtx|
  {
    t !in pool && t !in extra && exists p :: 0 <= p < |vtx| && a[p].None? && vtx[p] == t
  }

  lemma OnlyUnknown<Tx(!new)>(msg: Message<Tx>, vtx: seq<Tx>, id: Tx -> nat, isNull: Tx -> bool, m: map<nat, nat>,
                              pool: seq<Tx>, extra: seq<Tx>, missing: seq<Tx>)
    requires Setting(msg, vtx, id, isNull, m, pool, extra) && |vtx| <= LIMIT16 && Distinct(pool)
    requires var r := Received(Base(msg, isNull), m, id, pool, extra);
      |r| == |vtx| && |missing| == |Gaps(r)| && forall k :: 0 <= k < |missing| ==> missing[k] == vtx[Gaps(r)[k]]
    ensures forall t :: t in missing <==> IsUnknown(Base(msg, isNull), vtx, pool, extra, t)
  {
    hide Gaps, Received, Distinct, Base, IsSlotMap, NoClashes, WellPlaced, Names;
    var a, r := Base(msg, isNull), Received(Base(msg, isNull), m, id, pool, extra);
    forall t ensures t in missing <==> IsUnknown(a, vtx, pool, extra, t) {
      if t in missing {
        var k :| 0 <= k < |missing| && missing[k] == t;
        ReceivedComplete(msg, vtx, id, isNull, m, pool, extra, Gaps(r)[k]);
      }
      if IsUnknown(a, vtx, pool, extra, t) {
        var p :| 0 <= p < |vtx| && a[p].None? && vtx[p] == t;
        ReceivedComplete(msg, vtx, id, isNull, m, pool, extra, p);
        GapsComplete(r, p);
        var k :| 0 <= k < |Gaps(r)| && Gaps(r)[k] == p;
        assert missing[k] == t;
      }
    }
  }

  /**
   * The whole exchange, for any faithful message about a block. If InitData accepts it and the block has at most
   * 65536 transactions, the receiver ends up with exactly the sender's, and it only asks for those that neither its
   * pool nor its extra transactions hold. A larger block comes through exactly if no transaction is misplaced.
   */
  method Relay<Tx(==, !new)>(msg: Message<Tx>, vtx: seq<Tx>, id: Tx -> nat, isNull: Tx -> bool, crowded: nat -> bool,
                             pool: seq<Tx>, extra: seq<Tx>) returns (status: Status, missing: seq<Tx>, out: seq<Tx>)
    requires Encodes(msg, vtx, id, isNull)
    requires NoClashes(pool, vtx, id) && NoClashes(extra, vtx, id)
    ensures status == Invalid <==> Malformed(msg, isNull)
    ensures status == Ok <==>
      !Malformed(msg, isNull) && (msg.shorttxids == [] || |msg.prefilled| != LIMIT16) && Accepted(msg.shorttxids, crowded)
    ensures status == Ok && |vtx| <= LIMIT16 ==> out == vtx
    ensures status == Ok && |vtx| <= LIMIT16 && Distinct(pool) ==>
      forall t :: t in missing <==> IsUnknown(Base(msg, isNull), vtx, pool, extra, t)
    ensures status == Ok && Distinct(pool) ==>
      (out == vtx <==> forall f: nat :: !Misplaced(Base(msg, isNull), vtx, Members(pool) + Members(extra), f))
  {
    hide NoClashes, Gaps, Base, IsSlotMap, Received, Distinct, Accepted, Malformed, Misplaced, WellPlaced, Names, Members;
    var receiver := new PartiallyDownloadedBlock<Tx>();
    ghost var m;
    missing, out := [], [];
    status, m := receiver.InitData(msg, id, isNull, crowded, pool, extra);
    if status != Ok {
      return;
    }
    ghost var a := receiver.txnAvailable;
    if |vtx| <= LIMIT16 {
      ReceivedAgrees(msg, vtx, id, isNull, m, pool, extra);
    }
    missing := Requested(receiver.txnAvailable, vtx);
    status, out := receiver.FillBlock(missing);
    FilledIff(out, a, missing, vtx);
    if Distinct(pool) {
      AgreesIff(msg, vtx, id, isNull, m, pool, extra);
      if |vtx| <= LIMIT16 {
        OnlyUnknown(msg, vtx, id, isNull, m, pool, extra, missing);
      }
    }
  }

  lemma FilledIff<Tx>(out: seq<Tx>, a: Slots<Tx>, missing: seq<Tx>, vtx: seq<Tx>)
    requires IsFilled(out, a, missing) && |a| == |vtx| && |missing| == |Gaps(a)|
    requires forall k :: 0 <= k < |missing| ==> missing[k] == vtx[Gaps(a)[k]]
    ensures out == vtx <==> Agrees(a, vtx)
  {
    hide Gaps;
    if Agrees(a, vtx) {
      FilledIsBlock(out, a, missing, vtx);
    }
  }

  /** A block that does not come through: 65538 transactions of which the receiver knows the last. */
  method MisplacedExample() returns (status: Status, out: seq<int>)
    ensures status == Ok && out != seq(LIMIT16 + 2, i => i)
  {
    var vtx: seq<int> := seq(LIMIT16 + 2, i => i);
    var id: int -> nat, isNull := (t: int) => if t < 0 then 0 else t, (t: int) => false;
    var last := LIMIT16 + 1;
    var msg := EncodeBlock(vtx, id, isNull);
    hide Gaps, Base;
    assert Distinct(msg.shorttxids);
    assert Members([last]) + Members([]) == {last};
    assert Misplaced(Base(msg, isNull), vtx, {last}, last);
    var missing;
    status, missing, out := Relay(msg, vtx, id, isNull, _ => false, [last], []);
  }
}
