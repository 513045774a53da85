/**
 * The special-transaction database of src/evo/evodb.h: two stacked transactions over a database, the upper one for the
 * block being connected, the lower one for what is not yet written to disk.
 */
module EvoDb {
  import opened Foundations
  import opened DbTransaction

  class EvoDB<V(!new)> {
    const db: Store<V>
    const rootBatch: Transaction<V>
    const rootDBTransaction: Transaction<V>
    const curDBTransaction: Transaction<V>

    ghost predicate Valid()
      reads db, rootBatch, rootDBTransaction, curDBTransaction
    {
      var batch, root, cur := rootBatch, rootDBTransaction, curDBTransaction;
      && batch.parent == Disk(db) == batch.commitTarget && batch.below == {} && batch.disk == db
      && root.parent == Disk(db) && root.commitTarget == Over(batch) && root.below == {} && root.disk == db
      && cur.parent == Over(root) == cur.commitTarget && cur.below == {root} && cur.disk == db
      && batch != root && batch != cur && root != cur
      && batch.Valid() && root.Valid() && cur.Valid() && batch.IsClean()
    }

    /** What is on disk, what survives a rollback, and what Read sees. */
    ghost function State(): Plain<V>
      requires Valid()
      reads db, rootBatch, rootDBTransaction, curDBTransaction
    {
      Plain(db.data, rootDBTransaction.View(), curDBTransaction.View(), curDBTransaction.IsClean())
    }

    constructor (db: Store<V>)
      ensures Valid() && fresh(rootBatch) && fresh(rootDBTransaction) && fresh(curDBTransaction) && this.db == db
      ensures State() == Plain(db.data, db.data, db.data, true)
    {
      hide Sum, Pending, Overlay;
      this.db := db;
      var batch := new Transaction(Disk(db), Disk(db));
      var root := new Transaction(Disk(db), Over(batch));
      var cur := new Transaction(Over(root), Over(root));
      rootBatch, rootDBTransaction, curDBTransaction := batch, root, cur;
    }

    method Read(k: Key) returns (r: Option<V>)
      requires Valid()
      ensures r == Lookup(State().current, k)
    {
      r := curDBTransaction.Read(k);
    }

    method Exists(k: Key) returns (r: bool)
      requires Valid()
      ensures r <==> k in State().current
    {
      r := curDBTransaction.Exists(k);
    }

    method Write(k: Key, v: V, size: nat)
      requires Valid()
      modifies curDBTransaction
      ensures Valid() && State() == old(State()).(current := old(State()).current[k := v], clean := false)
    {
      curDBTransaction.Write(k, v, size);
      assert k in curDBTransaction.writes;
    }

    method Erase(k: Key)
      requires Valid()
      modifies curDBTransaction
      ensures Valid() && State() == old(State()).(current := old(State()).current - {k}, clean := false)
    {
      curDBTransaction.Erase(k);
      assert k in curDBTransaction.deletes;
    }

    /** Commit of the scoped transaction. */
    method Commit()
      requires Valid()
      modifies curDBTransaction, rootDBTransaction
      ensures Valid() && State() == old(State()).(saved := old(State()).current, clean := true)
    {
      curDBTransaction.CommitToTransaction(rootDBTransaction);
    }

    /** Rollback of the scoped transaction, or its destruction without a commit. */
    method Rollback()
      requires Valid()
      modifies curDBTransaction
      ensures Valid() && State() == old(State()).(current := old(State()).saved, clean := true)
    {
      curDBTransaction.Clear();
    }

    /** Everything that was committed goes to disk; nothing reads differently. */
    method CommitRootTransaction()
      requires Valid() && State().clean
      modifies db, rootBatch, rootDBTransaction
      ensures Valid() && State() == old(State()).(disk := old(State()).saved)
    {
      ghost var saved := rootDBTransaction.View();
      OverlayNothing(db.data);
      OverlayNothing(saved);
      assert curDBTransaction.View() == saved;
      rootDBTransaction.CommitToTransaction(rootBatch);
      assert rootBatch.View() == saved;
      rootBatch.CommitToDisk(db);
      assert rootDBTransaction.View() == Overlay(saved, map[], {});
      assert curDBTransaction.BaseView() == saved;
      assert curDBTransaction.View() == Overlay(saved, map[], {});
    }
  }

  // ------------------------------------------------------------------
  // Whole runs
  // ------------------------------------------------------------------

  /** The database as plain maps. */
  datatype Plain<V> = Plain(disk: map<Key, V>, saved: map<Key, V>, current: map<Key, V>, clean: bool)

  datatype Op<V> =
    | Read(k: Key)
    | Exists(k: Key)
    | Write(k: Key, v: V, size: nat)
    | Erase(k: Key)
    | Begin
    | Commit
    | Rollback
    | CommitRoot

  datatype Answer<V> = Value(value: Option<V>) | Found(found: bool) | Done

  /** Begin and CommitRoot assert that nothing is pending in the upper transaction. */
  predicate Asserted<V>(p: Plain<V>, op: Op<V>) {
    op.Begin? || op.CommitRoot? ==> p.clean
  }

  function Next<V>(p: Plain<V>, op: Op<V>): Plain<V> {
    match op
    case Read(_) => p
    case Exists(_) => p
    case Begin => p
    case Write(k, v, _) => p.(current := p.current[k := v], clean := false)
    case Erase(k) => p.(current := p.current - {k}, clean := false)
    case Commit => p.(saved := p.current, clean := true)
    case Rollback => p.(current := p.saved, clean := true)
    case CommitRoot => p.(disk := p.saved)
  }

  function Reply<V>(p: Plain<V>, op: Op<V>): Answer<V> {
    match op
    case Read(k) => Value(Lookup(p.current, k))
    case Exists(k) => Found(k in p.current)
    case _ => Done
  }

  ghost predicate Allowed<V>(p: Plain<V>, ops: seq<Op<V>>)
    decreases |ops|
  {
    ops == [] || (Asserted(p, ops[0]) && Allowed(Next(p, ops[0]), ops[1..]))
  }

  ghost function Replies<V>(p: Plain<V>, ops: seq<Op<V>>): seq<Answer<V>>
    decreases |ops|
  {
    if ops == [] then [] else [Reply(p, ops[0])] + Replies(Next(p, ops[0]), ops[1..])
  }

  ghost function Final<V>(p: Plain<V>, ops: seq<Op<V>>): Plain<V>
    decreases |ops|
  {
    if ops == [] then p else Final(Next(p, ops[0]), ops[1..])
  }

  method Perform<V(!new)>(evo: EvoDB<V>, op: Op<V>) returns (a: Answer<V>)
    requires evo.Valid() && Asserted(evo.State(), op)
    modifies evo.db, evo.rootBatch, evo.rootDBTransaction, evo.curDBTransaction
    ensures evo.Valid() && evo.State() == Next(old(evo.State()), op) && a == Reply(old(evo.State()), op)
  {
    hide EvoDB.Valid, EvoDB.State;
    a := Done;
    match op {
      case Read(k) =>
        var r := evo.Read(k);
        a := Value(r);
      case Exists(k) =>
        var r := evo.Exists(k);
        a := Found(r);
      case Write(k, v, size) => evo.Write(k, v, size);
      case Erase(k) => evo.Erase(k);
      case Begin =>
      case Commit => evo.Commit();
      case Rollback => evo.Rollback();
      case CommitRoot => evo.CommitRootTransaction();
    }
  }

  /** Any run that trips no assertion gives the answers of plain maps. */
  method Run<V(!new)>(evo: EvoDB<V>, ops: seq<Op<V>>) returns (answers: seq<Answer<V>>)
    requires evo.Valid() && Allowed(evo.State(), ops)
    modifies evo.db, evo.rootBatch, evo.rootDBTransaction, evo.curDBTransaction
    ensures evo.Valid() && evo.State() == Final(old(evo.State()), ops) && answers == Replies(old(evo.State()), ops)
  {
    hide EvoDB.Valid, EvoDB.State, Next, Reply, Asserted;
    answers := [];
    ghost var p := evo.State();
    for i := 0 to |ops|
      invariant evo.Valid() && Allowed(evo.State(), ops[i..])
      invariant Final(evo.State(), ops[i..]) == Final(p, ops)
      invariant answers + Replies(evo.State(), ops[i..]) == Replies(p, ops)
    {
      assert ops[i..][0] == ops[i] && ops[i..][1..] == ops[i + 1..];
      var a := Perform(evo, ops[i]);
      answers := answers + [a];
    }
  }

  /** What is written and committed is on disk after CommitRoot, with everything there was before; what is rolled back is
      as if it had not been written. */
  method WriteThrough<V(!new)>(evo: EvoDB<V>, k: Key, v: V, size: nat, j: Key, w: V)
    returns (before: Option<V>, after: Option<V>, own: Option<V>)
    requires evo.Valid() && evo.State().clean
    modifies evo.db, evo.rootBatch, evo.rootDBTransaction, evo.curDBTransaction
    ensures evo.Valid() && own == Some(v) && (j != k ==> after == before)
    ensures evo.State().disk == old(evo.State()).current[k := v]
  {
    hide EvoDB.Valid, EvoDB.State;
    evo.Commit();
    before := evo.Read(j);
    evo.Write(j, w, size);
    evo.Rollback();
    evo.Write(k, v, size);
    evo.Commit();
    evo.CommitRootTransaction();
    after := evo.Read(j);
    own := evo.Read(k);
  }

  lemma TailOfAppended<T>(s: seq<T>, x: T)
    requires s != []
    ensures (s + [x])[0] == s[0] && (s + [x])[1..] == s[1..] + [x]
  {
  }

  /** Only a commit reaches what survives a rollback, and only CommitRoot the disk, which then holds no more than that. */
  lemma {:induction false} UncommittedIsUndone<V(!new)>(p: Plain<V>, ops: seq<Op<V>>)
    requires forall op :: op in ops ==> !op.Commit?
    ensures Final(p, ops).saved == p.saved && Final(p, ops).disk in {p.disk, p.saved}
    ensures Final(p, ops + [Rollback]) == Plain(Final(p, ops).disk, p.saved, p.saved, true)
    decreases |ops|
  {
    if ops != [] {
      assert ops[0] in ops && forall op :: op in ops[1..] ==> op in ops;
      UncommittedIsUndone(Next(p, ops[0]), ops[1..]);
      TailOfAppended(ops, Rollback);
    } else {
      assert Final(Next(p, Rollback), []) == Next(p, Rollback);
    }
  }
}
