/**
 * CDBTransaction and CDBTransactionIterator of src/dbwrapper.h: pending writes and deletes on top of a
 * key-value store, and an iterator that merges the two in key order.
 */
module DbTransaction {
  import opened Foundations

  /** A serialized key; its order is that of std::lexicographical_compare on unsigned bytes. */
  type Key = seq<nat>

  predicate Less(a: Key, b: Key)
    decreases |a|
  {
    b != [] && (a == [] || a[0] < b[0] || (a[0] == b[0] && Less(a[1..], b[1..])))
  }

  lemma {:induction false} LessIrreflexive(a: Key)
    ensures !Less(a, a)
    decreases |a|
  {
    if a != [] { LessIrreflexive(a[1..]); }
  }

  lemma {:induction false} LessTransitive(a: Key, b: Key, c: Key)
    requires Less(a, b) && Less(b, c)
    ensures Less(a, c)
    decreases |a|
  {
    if a != [] && a[0] == b[0] == c[0] { LessTransitive(a[1..], b[1..], c[1..]); }
  }

  lemma {:induction false} LessTotal(a: Key, b: Key)
    ensures Less(a, b) || a == b || Less(b, a)
    decreases |a|
  {
    if a != [] && b != [] && a[0] == b[0] {
      LessTotal(a[1..], b[1..]);
      if a[1..] == b[1..] {
        assert a == [a[0]] + a[1..] && b == [b[0]] + b[1..];
      }
    }
  }

  /** After some equal bytes the first key ends or has the smaller byte. */
  ghost predicate Before(a: Key, b: Key) {
    exists n :: 0 <= n <= |a| && n < |b| && a[..n] == b[..n] && (n == |a| || a[n] < b[n])
  }

  /** After n equal bytes the first key ends or has the smaller byte. */
  ghost predicate BeforeAt(a: Key, b: Key, n: nat) {
    n <= |a| && n < |b| && a[..n] == b[..n] && (n == |a| || a[n] < b[n])
  }

  lemma {:induction false} LessFrom(a: Key, b: Key, n: nat)
    requires BeforeAt(a, b, n)
    ensures Less(a, b)
    decreases n
  {
    if n > 0 {
      assert a[0] == a[..n][0] == b[..n][0] == b[0];
      assert a[1..][..n - 1] == a[..n][1..] && b[1..][..n - 1] == b[..n][1..];
      LessFrom(a[1..], b[1..], n - 1);
    }
  }

  lemma {:induction false} LessAt(a: Key, b: Key) returns (n: nat)
    requires Less(a, b)
    ensures BeforeAt(a, b, n)
    decreases |a|
  {
    if a == [] || a[0] < b[0] {
      n := 0;
    } else {
      var m := LessAt(a[1..], b[1..]);
      n := m + 1;
      assert a[..n] == [a[0]] + a[1..][..m] && b[..n] == [b[0]] + b[1..][..m];
    }
  }

  /** The order of keys is that of their first different bytes, a prefix coming first. */
  lemma LessIff(a: Key, b: Key)
    ensures Less(a, b) <==> exists n :: 0 <= n <= |a| && n < |b| && a[..n] == b[..n] && (n == |a| || a[n] < b[n])
  {
    hide Less;
    if Less(a, b) {
      var n := LessAt(a, b);
    } else if n :| 0 <= n <= |a| && n < |b| && a[..n] == b[..n] && (n == |a| || a[n] < b[n]) {
      LessFrom(a, b, n);
    }
  }

  lemma BeforeIff(a: Key, b: Key)
    ensures Before(a, b) <==> Less(a, b)
    ensures Before(a, b) ==> !Less(b, a) && a != b
  {
    LessIff(a, b);
    hide Less;
    LessIrreflexive(a);
    if Less(a, b) && Less(b, a) { LessTransitive(a, b, a); }
  }

  // Cursors: the smallest key from a starting point on.

  datatype Start = Begin | AtLeast(key: Key) | Above(key: Key)

  predicate In(st: Start, x: Key) {
    match st
    case Begin => true
    case AtLeast(k) => !Less(x, k)
    case Above(k) => Less(k, x)
  }

  ghost predicate IsFirst(keys: set<Key>, st: Start, r: Option<Key>) {
    match r
    case None => forall x :: x in keys ==> !In(st, x)
    case Some(y) => y in keys && In(st, y) && forall x :: x in keys && In(st, x) ==> !Less(x, y)
  }

  /** Going on from a key inside the range stays inside. */
  lemma AboveStaysIn(st: Start, c: Key, x: Key)
    requires In(st, c) && Less(c, x)
    ensures In(st, x)
  {
    hide Less;
    match st
    case Begin =>
    case AtLeast(k) => if Less(x, k) { LessTransitive(c, x, k); }
    case Above(k) => LessTransitive(k, c, x);
  }

  /** lower_bound, begin and ++ of an ordered container, and Seek, SeekToFirst and Next of a database iterator. */
  method First(keys: set<Key>, st: Start) returns (r: Option<Key>)
    ensures IsFirst(keys, st, r)
  {
    hide Less;
    r := None;
    var rest := keys;
    while rest != {}
      invariant rest <= keys && IsFirst(keys - rest, st, r)
      decreases |rest|
    {
      var x :| x in rest;
      ghost var seen := keys - rest;
      LessIrreflexive(x);
      if In(st, x) && (r.None? || Less(x, r.value)) {
        forall y | y in seen && In(st, y) && Less(y, x) ensures false {
          LessTransitive(y, x, r.value);
        }
        r := Some(x);
      }
      rest := rest - {x};
      assert keys - rest == seen + {x};
    }
    assert keys - rest == keys;
  }

  /** The smaller of the first keys of two sets is the first key of both. */
  lemma FirstOfUnion(a: set<Key>, b: set<Key>, st: Start, x: Option<Key>, y: Option<Key>)
    requires a !! b && IsFirst(a, st, x) && IsFirst(b, st, y)
    ensures IsFirst(a + b, st, if y.None? || (x.Some? && Less(x.value, y.value)) then x else y)
  {
    hide Less, In;
    if x.Some? && y.Some? {
      LessTotal(x.value, y.value);
      if Less(x.value, y.value) {
        forall z | z in b && In(st, z) ensures !Less(z, x.value) {
          if Less(z, x.value) { LessTransitive(z, x.value, y.value); }
        }
      } else {
        forall z | z in a && In(st, z) ensures !Less(z, y.value) {
          if Less(z, y.value) { LessTransitive(z, y.value, x.value); }
        }
      }
    }
  }

  /** When the current key belongs to the other set, this set's first key stays first above it. */
  lemma FirstAbove(a: set<Key>, st: Start, x: Option<Key>, c: Key)
    requires IsFirst(a, st, x) && In(st, c) && c !in a && (x.Some? ==> !Less(x.value, c))
    ensures IsFirst(a, Above(c), x)
  {
    hide Less;
    if x.Some? {
      LessTotal(x.value, c);
    }
    forall z | z in a && In(Above(c), z) ensures In(st, z) {
      AboveStaysIn(st, c, z);
    }
  }

  // The transaction.

  /** A pending value with the serialized size it is accounted for. */
  datatype Held<V> = Held(value: V, memoryUsage: nat)

  /** What is pending for a key: a write, or a delete. */
  ghost function Pending<V>(writes: map<Key, Held<V>>, deletes: set<Key>): map<Key, Option<Held<V>>> {
    map k | k in writes.Keys + deletes :: Lookup(writes, k)
  }

  ghost function Cost<V>(k: Key, o: Option<Held<V>>): nat { |k| + if o.Some? then o.value.memoryUsage else 0 }

  /** The store as it reads through the pending changes. */
  ghost function Overlay<V>(base: map<Key, V>, writes: map<Key, Held<V>>, deletes: set<Key>): map<Key, V> {
    (base - deletes) + Values(writes)
  }

  /** The database. */
  class Store<V> {
    var data: map<Key, V>

    constructor (data: map<Key, V>)
      ensures this.data == data
    {
      this.data := data;
    }
  }

  /** What a transaction reads through to, or commits into: the database or another transaction. */
  datatype Layer<V(!new)> = Disk(store: Store<V>) | Over(txn: Transaction<V>)

  class Transaction<V(!new)> {
    const parent: Layer<V>
    const commitTarget: Layer<V>
    /** The transactions below and the database at the bottom. */
    ghost const level: nat
    ghost const below: set<Transaction<V>>
    ghost const disk: Store<V>
    var writes: map<Key, Held<V>>
    var deletes: set<Key>
    var memoryUsage: int

    /** Parent and target were there before the transaction. */
    ghost predicate Linked()
      decreases level
    {
      && this !in below
      && (commitTarget.Over? ==> commitTarget.txn != this && this !in commitTarget.txn.below)
      && match parent
         case Disk(s) => s == disk
         case Over(t) => t in below && t.below <= below && t.disk == disk && t.level < level && t.Linked()
    }

    ghost predicate Valid()
      reads this, below, disk
      ensures Valid() ==> Linked() && writes.Keys !! deletes
      decreases level
    {
      && Linked()
      && writes.Keys !! deletes
      && memoryUsage == Sum(Pending(writes, deletes), Cost)
      && (parent.Over? ==> parent.txn.Valid())
    }

    /** What the parent shows. */
    ghost function BaseView(): map<Key, V>
      requires Linked()
      reads below, disk
      decreases level, 0
    {
      match parent
      case Disk(s) => s.data
      case Over(t) => t.View()
    }

    /** What Read sees. */
    ghost function View(): map<Key, V>
      requires Linked()
      reads this, below, disk
      decreases level, 1
    {
      Overlay(BaseView(), writes, deletes)
    }

    constructor (base: Layer<V>, target: Layer<V>)
      requires base.Over? ==> base.txn.Valid()
      ensures Valid() && writes == map[] && deletes == {} && parent == base && commitTarget == target
      ensures below == match base case Disk(_) => {} case Over(t) => t.below + {t}
      ensures disk == match base case Disk(s) => s case Over(t) => t.disk
      ensures View() == match base case Disk(s) => s.data case Over(t) => t.View()
    {
      parent, commitTarget, writes, deletes, memoryUsage := base, target, map[], {}, 0;
      level := match base case Disk(_) => 0 case Over(t) => t.level + 1;
      below := match base case Disk(_) => {} case Over(t) => t.below + {t};
      disk := match base case Disk(s) => s case Over(t) => t.disk;
    }

    predicate IsClean()
      reads this
    {
      writes == map[] && deletes == {}
    }

    method Write(k: Key, v: V, valueMemoryUsage: nat)
      requires Valid()
      modifies this`writes, this`deletes, this`memoryUsage
      ensures Valid() && View() == old(View())[k := v]
      ensures writes == old(writes)[k := Held(v, valueMemoryUsage)] && deletes == old(deletes) - {k}
      ensures k !in old(writes) && k !in old(deletes) ==> memoryUsage == old(memoryUsage) + |k| + valueMemoryUsage
      ensures k in old(writes) ==> memoryUsage == old(memoryUsage) - old(writes)[k].memoryUsage + valueMemoryUsage
      ensures k in old(deletes) ==> memoryUsage == old(memoryUsage) + valueMemoryUsage
    {
      hide Overlay, Pending, Sum;
      ghost var writes0, deletes0 := writes, deletes;
      if k in deletes {
        deletes := deletes - {k};
        memoryUsage := memoryUsage - |k|;
      }
      if k in writes {
        memoryUsage := memoryUsage - (|k| + writes[k].memoryUsage);
      }
      var h := Held(v, valueMemoryUsage);
      writes := writes[k := h];
      memoryUsage := memoryUsage + |k| + valueMemoryUsage;
      assert deletes == deletes0 - {k};
      AfterWrite(BaseView(), writes0, deletes0, k, h);
    }

    method Read(k: Key) returns (r: Option<V>)
      requires Valid()
      ensures r == Lookup(View(), k)
      decreases level
    {
      if k in deletes {
        return None;
      }
      if k in writes {
        return Some(writes[k].value);
      }
      match parent
      case Disk(s) => r := Lookup(s.data, k);
      case Over(t) => r := t.Read(k);
    }

    method Exists(k: Key) returns (r: bool)
      requires Valid()
      ensures r <==> k in View()
      decreases level
    {
      if k in deletes {
        return false;
      }
      if k in writes {
        return true;
      }
      match parent
      case Disk(s) => r := k in s.data;
      case Over(t) => r := t.Exists(k);
    }

    method Erase(k: Key)
      requires Valid()
      modifies this`writes, this`deletes, this`memoryUsage
      ensures Valid() && View() == old(View()) - {k}
      ensures writes == old(writes) - {k} && deletes == old(deletes) + {k}
      ensures k !in old(writes) && k !in old(deletes) ==> memoryUsage == old(memoryUsage) + |k|
      ensures k in old(writes) ==> memoryUsage == old(memoryUsage) - old(writes)[k].memoryUsage
      ensures k in old(deletes) ==> memoryUsage == old(memoryUsage)
    {
      hide Overlay, Pending, Sum;
      ghost var writes0, deletes0 := writes, deletes;
      if k in writes {
        memoryUsage := memoryUsage - (|k| + writes[k].memoryUsage);
        writes := writes - {k};
      }
      if k !in deletes {
        deletes := deletes + {k};
        memoryUsage := memoryUsage + |k|;
      }
      assert writes == writes0 - {k} && deletes == deletes0 + {k};
      AfterErase(BaseView(), writes0, deletes0, k);
    }

    method Clear()
      requires Linked() && (parent.Over? ==> parent.txn.Valid())
      modifies this`writes, this`deletes, this`memoryUsage
      ensures Valid() && writes == map[] && deletes == {} && memoryUsage == 0 && View() == BaseView() == old(BaseView())
    {
      writes, deletes, memoryUsage := map[], {}, 0;
    }

    /** The keys that a cursor of the parent visits. */
    method BaseKeys() returns (keys: set<Key>)
      requires Valid()
      ensures keys == BaseView().Keys
      decreases level
    {
      match parent
      case Disk(s) => keys := s.data.Keys;
      case Over(t) =>
        keys := t.BaseKeys();
        keys := keys - t.deletes + t.writes.Keys;
        assert t.View().Keys == keys;
    }

    /** What is to be written and erased when committing into a database. */
    method CommitToDisk(s: Store<V>)
      requires Valid() && commitTarget == Disk(s) && (parent == commitTarget || s != disk)
      modifies this`writes, this`deletes, this`memoryUsage, s
      ensures Valid() && IsClean() && memoryUsage == 0
      ensures s.data == Overlay(old(s.data), old(writes), old(deletes))
      ensures View() == if commitTarget == parent then old(View()) else old(BaseView())
    {
      hide Pending, Sum;
      EraseAll(s, deletes);
      WriteAll(s, writes);
      Clear();
    }

    /** And when committing into another transaction. */
    method CommitToTransaction(t: Transaction<V>)
      requires Valid() && commitTarget == Over(t) && t.Valid() && (parent == commitTarget || t !in below)
      modifies this`writes, this`deletes, this`memoryUsage, t`writes, t`deletes, t`memoryUsage
      ensures Valid() && IsClean() && memoryUsage == 0
      ensures t.Valid() && t.View() == Overlay(old(t.View()), old(writes), old(deletes))
      ensures View() == if commitTarget == parent then old(View()) else old(BaseView())
    {
      hide Pending, Sum, Overlay, Values;
      OverlayParts(t.View(), writes, deletes);
      ghost var base := BaseView();
      EraseEach(t, deletes);
      WriteEach(t, writes);
      Clear();
    }
  }

  /** The loop of Commit over the deletes. */
  method EraseAll<V>(target: Store<V>, deletes: set<Key>)
    modifies target
    ensures target.data == old(target.data) - deletes
  {
    var rest := deletes;
    while rest != {}
      invariant rest <= deletes && target.data == old(target.data) - (deletes - rest)
      decreases |rest|
    {
      var k :| k in rest;
      target.data := target.data - {k};
      rest := rest - {k};
    }
    assert deletes - rest == deletes;
  }

  ghost function Values<V>(writes: map<Key, Held<V>>): map<Key, V> { map k | k in writes :: writes[k].value }

  /** The loop of Commit over the writes. */
  method WriteAll<V>(target: Store<V>, writes: map<Key, Held<V>>)
    modifies target
    ensures target.data == old(target.data) + Values(writes)
  {
    var todo := writes.Keys;
    NoValues(target.data, writes);
    hide Values;
    while todo != {}
      invariant todo <= writes.Keys && target.data == old(target.data) + Values(writes - todo)
      decreases |todo|
    {
      var k :| k in todo;
      MoreValues(writes, todo, k);
      PutInto(old(target.data), Values(writes - todo), k, writes[k].value);
      target.data := target.data[k := writes[k].value];
      todo := todo - {k};
    }
    assert writes - todo == writes;
  }

  method EraseEach<V(!new)>(outer: Transaction<V>, deletes: set<Key>)
    requires outer.Valid()
    modifies outer`writes, outer`deletes, outer`memoryUsage
    ensures outer.Valid() && outer.View() == old(outer.View()) - deletes
  {
    hide Pending, Sum, Overlay, Transaction.Valid;
    ghost var base := outer.View();
    var rest := deletes;
    while rest != {}
      invariant rest <= deletes && outer.Valid() && outer.View() == base - (deletes - rest)
      decreases |rest|
    {
      var k :| k in rest;
      outer.Erase(k);
      assert base - (deletes - rest) - {k} == base - (deletes - (rest - {k}));
      rest := rest - {k};
    }
    assert deletes - rest == deletes;
  }

  method WriteEach<V(!new)>(outer: Transaction<V>, writes: map<Key, Held<V>>)
    requires outer.Valid()
    modifies outer`writes, outer`deletes, outer`memoryUsage
    ensures outer.Valid() && outer.View() == old(outer.View()) + Values(writes)
  {
    hide Pending, Sum, Overlay, Values, Transaction.Valid;
    ghost var base := outer.View();
    var todo := writes.Keys;
    NoValues(base, writes);
    while todo != {}
      invariant todo <= writes.Keys && outer.Valid() && outer.View() == base + Values(writes - todo)
      decreases |todo|
    {
      var k :| k in todo;
      outer.Write(k, writes[k].value, writes[k].memoryUsage);
      MoreValues(writes, todo, k);
      PutInto(base, Values(writes - todo), k, writes[k].value);
      todo := todo - {k};
    }
    assert writes - {} == writes;
  }

  lemma NoValues<V>(base: map<Key, V>, writes: map<Key, Held<V>>)
    ensures base + Values(writes - writes.Keys) == base
  {}

  lemma PutInto<V>(a: map<Key, V>, b: map<Key, V>, k: Key, v: V)
    ensures (a + b)[k := v] == a + b[k := v]
  {}

  lemma MoreValues<V>(writes: map<Key, Held<V>>, todo: set<Key>, k: Key)
    requires k in todo && todo <= writes.Keys
    ensures Values(writes - (todo - {k})) == Values(writes - todo)[k := writes[k].value]
  {}

  lemma OverlayParts<V>(base: map<Key, V>, writes: map<Key, Held<V>>, deletes: set<Key>)
    ensures Overlay(base, writes, deletes) == (base - deletes) + Values(writes)
  {}

  lemma OverlayNothing<V>(base: map<Key, V>)
    ensures Overlay(base, map[], {}) == base
  {}

  lemma OverlayWrite<V>(base: map<Key, V>, writes: map<Key, Held<V>>, deletes: set<Key>, k: Key, h: Held<V>)
    ensures Overlay(base, writes[k := h], deletes - {k}) == Overlay(base, writes, deletes)[k := h.value]
  {}

  lemma OverlayErase<V>(base: map<Key, V>, writes: map<Key, Held<V>>, deletes: set<Key>, k: Key)
    ensures Overlay(base, writes - {k}, deletes + {k}) == Overlay(base, writes, deletes) - {k}
  {}

  lemma PendingWrite<V>(writes: map<Key, Held<V>>, deletes: set<Key>, k: Key, h: Held<V>)
    ensures Pending(writes[k := h], deletes - {k}) == Pending(writes, deletes)[k := Some(h)]
  {}

  lemma PendingErase<V>(writes: map<Key, Held<V>>, deletes: set<Key>, k: Key)
    ensures Pending(writes - {k}, deletes + {k}) == Pending(writes, deletes)[k := None]
  {}

  lemma PendingAt<V>(writes: map<Key, Held<V>>, deletes: set<Key>, k: Key)
    requires writes.Keys !! deletes
    ensures k in Pending(writes, deletes) <==> k in writes || k in deletes
    ensures k in writes ==> Pending(writes, deletes)[k] == Some(writes[k])
    ensures k in deletes ==> Pending(writes, deletes)[k] == None
  {}

  lemma AfterWrite<V(!new)>(base: map<Key, V>, writes: map<Key, Held<V>>, deletes: set<Key>, k: Key, h: Held<V>)
    requires writes.Keys !! deletes
    ensures Overlay(base, writes[k := h], deletes - {k}) == Overlay(base, writes, deletes)[k := h.value]
    ensures Sum(Pending(writes[k := h], deletes - {k}), Cost) == Sum(Pending(writes, deletes), Cost)
      - (if k in deletes then |k| else 0) - (if k in writes then |k| + writes[k].memoryUsage else 0) + |k| + h.memoryUsage
  {
    hide Sum, Pending, Overlay;
    OverlayWrite(base, writes, deletes, k, h);
    PendingWrite(writes, deletes, k, h);
    PendingAt(writes, deletes, k);
    Recount(Pending(writes, deletes), k, Some(h));
  }

  lemma AfterErase<V(!new)>(base: map<Key, V>, writes: map<Key, Held<V>>, deletes: set<Key>, k: Key)
    requires writes.Keys !! deletes
    ensures Overlay(base, writes - {k}, deletes + {k}) == Overlay(base, writes, deletes) - {k}
    ensures Sum(Pending(writes - {k}, deletes + {k}), Cost) == Sum(Pending(writes, deletes), Cost)
      - (if k in writes then |k| + writes[k].memoryUsage else 0) + (if k in deletes then 0 else |k|)
  {
    hide Sum, Pending, Overlay;
    OverlayErase(base, writes, deletes, k);
    PendingErase(writes, deletes, k);
    PendingAt(writes, deletes, k);
    Recount(Pending(writes, deletes), k, None);
  }

  /** The memory count follows a change of what is pending for one key. */
  lemma Recount<V(!new)>(was: map<Key, Option<Held<V>>>, k: Key, o: Option<Held<V>>)
    ensures Sum(was[k := o], Cost) == Sum(was, Cost) - (if k in was then Cost(k, was[k]) else 0) + Cost(k, o)
  {
    SumUpdate(was, Cost, k, o);
    if k in was {
      SumRemove(was, Cost, k);
    } else {
      SumAbsent(was, Cost, k);
    }
  }

  // The iterator.

  /** The parent's keys that no pending change hides. */
  ghost function Untouched<V(!new)>(txn: Transaction<V>): set<Key>
    requires txn.Linked()
    reads txn, txn.below, txn.disk
  {
    txn.BaseView().Keys - txn.deletes - txn.writes.Keys
  }

  lemma UntouchedIs<V(!new)>(txn: Transaction<V>)
    requires txn.Linked()
    ensures forall k :: k in Untouched(txn) <==> k in txn.BaseView() && k !in txn.deletes && k !in txn.writes
  {}

  lemma ViewKeys<V(!new)>(txn: Transaction<V>)
    requires txn.Linked() && txn.writes.Keys !! txn.deletes
    ensures txn.View().Keys == txn.writes.Keys + Untouched(txn) && txn.writes.Keys !! Untouched(txn)
  {}

  /** The keys of a set that a cursor has still to visit. */
  ghost function Ahead(keys: set<Key>, st: Start): set<Key> { set x | x in keys && In(st, x) }

  lemma AheadShrinks(keys: set<Key>, st: Start, p: Key)
    requires p in keys && In(st, p)
    ensures Ahead(keys, Above(p)) < Ahead(keys, st)
  {
    hide Less;
    LessIrreflexive(p);
    forall x | x in Ahead(keys, Above(p)) ensures x in Ahead(keys, st) {
      AboveStaysIn(st, p, x);
    }
    assert p in Ahead(keys, st) && p !in Ahead(keys, Above(p));
  }

  /** Nothing but the first key lies between a cursor and the same cursor moved past it. */
  lemma AheadWithout(keys: set<Key>, st: Start, p: Key)
    requires IsFirst(keys, st, Some(p))
    ensures Ahead(keys, Above(p)) == Ahead(keys, st) - {p}
  {
    hide Less;
    AheadShrinks(keys, st, p);
    forall x | x in Ahead(keys, st) && x != p ensures x in Ahead(keys, Above(p)) {
      LessTotal(x, p);
    }
    LessIrreflexive(p);
  }

  class Iterator<V(!new)> {
    const transaction: Transaction<V>
    var transactionIt: Option<Key>
    var parentIt: Option<Key>
    var parentKey: Key
    var curIsParent: bool
    /** Where the iteration has got to. */
    ghost var at: Start

    /** Both cursors stand at their first key from `at` on; the parent's key is not hidden by a change. */
    ghost predicate Positioned()
      reads this, transaction, transaction.below, transaction.disk
    {
      && transaction.Valid()
      && IsFirst(transaction.writes.Keys, at, transactionIt)
      && IsFirst(Untouched(transaction), at, parentIt)
      && (parentIt.Some? ==> parentKey == parentIt.value)
    }

    /** The choice between the two cursors is made. */
    ghost predicate Decided()
      reads this
    {
      && (transactionIt.Some? && parentIt.None? ==> !curIsParent)
      && (transactionIt.None? && parentIt.Some? ==> curIsParent)
      && (transactionIt.Some? && parentIt.Some? ==> curIsParent == !Less(transactionIt.value, parentKey))
    }

    /** The key the iterator shows, if any. */
    ghost function Current(): Option<Key>
      reads this
    {
      if transactionIt.None? && parentIt.None? then None else if curIsParent then Some(parentKey) else transactionIt
    }

    ghost predicate Ready()
      reads this, transaction, transaction.below, transaction.disk
    {
      Positioned() && Decided()
    }

    /** What the iterator shows is the first key of the merged store from its position on. */
    lemma CurrentIsFirst()
      requires Ready()
      ensures IsFirst(transaction.View().Keys, at, Current())
    {
      hide Less, In;
      ViewKeys(transaction);
      FirstOfUnion(transaction.writes.Keys, Untouched(transaction), at, transactionIt, parentIt);
    }

    constructor (txn: Transaction<V>)
      ensures transaction == txn
    {
      transaction := txn;
      transactionIt, parentIt, parentKey, curIsParent, at := None, None, [], false, Begin;
    }

    /** SkipDeletedAndOverwritten, with the parent's cursor at its first key from `from` on. */
    method SkipDeletedAndOverwritten(ghost from: Start)
      requires transaction.Valid() && IsFirst(transaction.BaseView().Keys, from, parentIt)
      modifies this`parentIt, this`parentKey
      ensures IsFirst(Untouched(transaction), from, parentIt) && (parentIt.Some? ==> parentKey == parentIt.value)
    {
      hide Less, In, Untouched, Transaction.Valid, Transaction.Linked, Transaction.View, Transaction.BaseView;
      UntouchedIs(transaction);
      ghost var cur := from;
      ghost var keys := Untouched(transaction);
      while parentIt.Some?
        invariant IsFirst(transaction.BaseView().Keys, cur, parentIt)
        invariant forall x :: x in keys ==> In(from, x) == In(cur, x)
        invariant parentIt.Some? ==> In(from, parentIt.value)
        decreases Ahead(transaction.BaseView().Keys, cur)
      {
        parentKey := parentIt.value;
        if parentKey !in transaction.deletes && parentKey !in transaction.writes {
          return;
        }
        AheadShrinks(transaction.BaseView().Keys, cur, parentKey);
        SkipOne(transaction.BaseView().Keys, keys, from, cur, parentKey);
        cur := Above(parentKey);
        var all := transaction.BaseKeys();
        parentIt := First(all, Above(parentKey));
        if parentIt.Some? {
          StepIn(from, parentKey, parentIt.value);
        }
      }
    }

    method DecideCur()
      modifies this`curIsParent
      ensures Decided()
    {
      if transactionIt.Some? && parentIt.None? {
        curIsParent := false;
      } else if transactionIt.None? && parentIt.Some? {
        curIsParent := true;
      } else if transactionIt.Some? && parentIt.Some? {
        curIsParent := !Less(transactionIt.value, parentKey);
      }
    }

    /** Seek and SeekToFirst. */
    method Seek(st: Start)
      requires transaction.Valid() && !st.Above?
      modifies this
      ensures Ready() && at == st
    {
      hide Less, In, IsFirst, Untouched, Transaction.Valid, Transaction.Linked, Transaction.View, Transaction.BaseView;
      at := st;
      transactionIt := First(transaction.writes.Keys, st);
      var all := transaction.BaseKeys();
      parentIt := First(all, st);
      SkipDeletedAndOverwritten(st);
      DecideCur();
    }

    /** Next: past the current key. Both cursors stand right for the rest without looking at the other one. */
    method Next()
      requires Ready()
      modifies this
      ensures Ready() && at == if old(Current()).Some? then Above(old(Current()).value) else old(at)
    {
      hide Less, In, Untouched, Transaction.Valid, Transaction.Linked, Transaction.View, Transaction.BaseView;
      if transactionIt.None? && parentIt.None? {
        return;
      }
      ghost var c := Current().value;
      CurrentIsFirst();
      ViewKeys(transaction);
      if curIsParent {
        assert parentIt.Some?;
        FirstAbove(transaction.writes.Keys, at, transactionIt, c);
        var all := transaction.BaseKeys();
        parentIt := First(all, Above(parentKey));
        at := Above(c);
        SkipDeletedAndOverwritten(at);
      } else {
        assert transactionIt.Some?;
        FirstAbove(Untouched(transaction), at, parentIt, c);
        transactionIt := First(transaction.writes.Keys, Above(transactionIt.value));
        at := Above(c);
      }
      DecideCur();
    }

    method GetKey() returns (k: Option<Key>)
      requires Ready()
      ensures k == Current()
    {
      if transactionIt.None? && parentIt.None? {
        return None;
      }
      if curIsParent {
        return Some(parentKey);
      }
      return transactionIt;
    }

    method GetValue() returns (v: Option<V>)
      requires Ready()
      ensures v == if Current().None? then None else Lookup(transaction.View(), Current().value)
    {
      hide Less, In, IsFirst;
      if transactionIt.None? && parentIt.None? {
        return None;
      }
      if curIsParent {
        v := transaction.Read(parentKey);
      } else {
        v := transaction.Read(transactionIt.value);
      }
    }
  }

  lemma SkipOne(keys: set<Key>, kept: set<Key>, from: Start, cur: Start, p: Key)
    requires kept <= keys && p !in kept && IsFirst(keys, cur, Some(p)) && In(from, p)
    requires forall x :: x in kept ==> In(from, x) == In(cur, x)
    ensures forall x :: x in kept ==> In(from, x) == In(Above(p), x)
  {
    hide Less;
    forall x | x in kept ensures In(from, x) == In(Above(p), x) {
      LessTotal(x, p);
      if Less(p, x) { AboveStaysIn(from, p, x); }
    }
  }

  lemma StepIn(from: Start, p: Key, q: Key)
    requires In(from, p) && In(Above(p), q)
    ensures In(from, q)
  {
    hide Less;
    AboveStaysIn(from, p, q);
  }

  /** The keys visited between two positions, in increasing order and all before what is ahead. */
  ghost predicate Visited(all: set<Key>, from: Start, at: Start, keys: seq<Key>) {
    && (forall i, j :: 0 <= i < j < |keys| ==> Less(keys[i], keys[j]))
    && (forall i, y :: 0 <= i < |keys| && y in all && In(at, y) ==> Less(keys[i], y))
    && (forall x :: x in keys || x in Ahead(all, at) <==> x in Ahead(all, from))
  }

  lemma VisitNext(all: set<Key>, from: Start, at: Start, keys: seq<Key>, k: Key)
    requires Visited(all, from, at, keys) && IsFirst(all, at, Some(k))
    ensures Visited(all, from, Above(k), keys + [k]) && Ahead(all, Above(k)) < Ahead(all, at)
  {
    hide Less;
    AheadShrinks(all, at, k);
    AheadWithout(all, at, k);
    forall y | y in all && In(Above(k), y) ensures In(at, y) {
      AboveStaysIn(at, k, y);
    }
  }

  lemma VisitEnd(all: set<Key>, from: Start, at: Start, keys: seq<Key>)
    requires Visited(all, from, at, keys) && IsFirst(all, at, None)
    ensures forall x :: x in keys <==> x in all && In(from, x)
  {
    hide Less, In;
    assert forall x :: x !in Ahead(all, at);
    forall x ensures x in keys <==> x in Ahead(all, from) {}
  }

  /** The merged store in the order of bytes, from the key given on, as a caller of Seek, Next, GetKey and GetValue sees it. */
  method Collect<V(!new)>(txn: Transaction<V>, from: Option<Key>) returns (keys: seq<Key>, values: seq<Option<V>>)
    requires txn.Valid()
    ensures |values| == |keys| && forall i :: 0 <= i < |keys| ==> values[i] == Lookup(txn.View(), keys[i])
    ensures forall i, j :: 0 <= i < j < |keys| ==> Before(keys[i], keys[j])
    ensures forall x :: x in keys <==> x in txn.View() && (from.Some? ==> x == from.value || Before(from.value, x))
  {
    keys, values := Walk(txn, if from.None? then Begin else AtLeast(from.value));
    hide Less, Before, Transaction.View;
    forall i, j | 0 <= i < j < |keys| ensures Before(keys[i], keys[j]) {
      BeforeIff(keys[i], keys[j]);
    }
    forall x ensures x in keys <==> x in txn.View() && (from.Some? ==> x == from.value || Before(from.value, x)) {
      if from.Some? {
        BeforeIff(from.value, x);
        LessTotal(x, from.value);
      }
    }
  }

  method Walk<V(!new)>(txn: Transaction<V>, st: Start) returns (keys: seq<Key>, values: seq<Option<V>>)
    requires txn.Valid() && !st.Above?
    ensures |values| == |keys| && forall i :: 0 <= i < |keys| ==> values[i] == Lookup(txn.View(), keys[i])
    ensures forall i, j :: 0 <= i < j < |keys| ==> Less(keys[i], keys[j])
    ensures forall x :: x in keys <==> x in txn.View() && In(st, x)
  {
    hide Less, In, Overlay, IsFirst, Ahead, Iterator.Ready, Iterator.Current, Transaction.Valid, Transaction.Linked, Transaction.View, Transaction.BaseView;
    ghost var all := txn.View().Keys;
    var it := new Iterator(txn);
    it.Seek(st);
    keys, values := [], [];
    var k := it.GetKey();
    while k.Some?
      invariant it.transaction == txn && it.Ready() && k == it.Current() && fresh(it)
      invariant |values| == |keys| && forall i :: 0 <= i < |keys| ==> values[i] == Lookup(txn.View(), keys[i])
      invariant Visited(all, st, it.at, keys)
      decreases Ahead(all, it.at)
    {
      var v := it.GetValue();
      it.CurrentIsFirst();
      VisitNext(all, st, it.at, keys, k.value);
      keys, values := keys + [k.value], values + [v];
      it.Next();
      k := it.GetKey();
    }
    it.CurrentIsFirst();
    VisitEnd(all, st, it.at, keys);
  }
}
