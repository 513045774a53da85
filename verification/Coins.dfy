/**
 * The UTXO cache stack of src/coins.cpp: write-back caches with DIRTY and FRESH
 * flags, stacked on a coin database. Level 0 is the database; level i is the
 * i-th cache above it. The specification of the stack is a plain stack of UTXO maps.
 */
module Coins {
  import opened Foundations

  const OP_RETURN := 0x6a
  const MAX_SCRIPT_SIZE := 10000

  datatype OutPoint = OutPoint(hash: nat, n: nat)

  datatype Coin = Coin(nValue: int, script: seq<nat>, height: nat, coinBase: bool) {
    predicate IsSpent() {
      nValue == -1
    }

    predicate IsUnspendable() {
      (|script| > 0 && script[0] == OP_RETURN) || |script| > MAX_SCRIPT_SIZE
    }
  }

  /** What Coin::Clear leaves behind, and what a missing coin reads as. */
  const EmptyCoin := Coin(-1, [], 0, false)

  datatype Entry = Entry(coin: Coin, isDirty: bool, isFresh: bool)

  type CoinsMap = map<OutPoint, Entry>
  type Utxo = map<OutPoint, Coin>

  datatype Layer = Layer(coins: CoinsMap, usage: int)

  /** DynamicMemoryUsage of a coin: heap bytes of its script, none when it is empty. */
  function CoinUsage(k: OutPoint, e: Entry): nat {
    |e.coin.script|
  }

  // ------------------------------------------------------------------
  // What a cache means
  // ------------------------------------------------------------------

  /** What a read through a cache finds: its unspent entry, else what lies below. */
  ghost function Seen(below: Utxo, cache: CoinsMap, k: OutPoint): Option<Coin> {
    if k !in cache then Lookup(below, k)
    else if cache[k].coin.IsSpent() then None
    else Some(cache[k].coin)
  }

  /** The flags tell the truth about the view below. */
  ghost predicate EntryOk(below: Utxo, k: OutPoint, e: Entry) {
    && (!e.isDirty ==> k in below && below[k] == e.coin)
    && (e.isFresh ==> k !in below)
    && (e.coin.IsSpent() ==> e.coin == EmptyCoin && !e.isFresh)
  }

  ghost predicate Coherent(below: Utxo, cache: CoinsMap) {
    forall k :: k in cache ==> EntryOk(below, k, cache[k])
  }

  ghost predicate AllUnspent(u: Utxo) {
    forall k :: k in u ==> !u[k].IsSpent()
  }

  /** The cache, read over `below`, is the plain map `above`. */
  ghost predicate Shows(below: Utxo, cache: CoinsMap, above: Utxo) {
    forall k :: Lookup(above, k) == Seen(below, cache, k)
  }

  ghost predicate LayerOk(below: Utxo, l: Layer, above: Utxo) {
    && Coherent(below, l.coins)
    && Shows(below, l.coins, above)
    && l.usage == Sum(l.coins, CoinUsage)
  }

  lemma SameLookups(a: Utxo, b: Utxo)
    requires forall k :: Lookup(a, k) == Lookup(b, k)
    ensures a == b
  {
    forall k ensures k in a <==> k in b {
      assert Lookup(a, k) == Lookup(b, k);
    }
    forall k | k in a ensures a[k] == b[k] {
      assert Lookup(a, k) == Lookup(b, k);
    }
  }

  // ------------------------------------------------------------------
  // Writing a child cache into its parent
  // ------------------------------------------------------------------

  /** The "FRESH flag misapplied" condition of BatchWrite. */
  predicate Misapplied(parent: CoinsMap, k: OutPoint, child: Entry) {
    child.isDirty && child.isFresh && k in parent && !parent[k].coin.IsSpent()
  }

  function MergeEntry(parent: Option<Entry>, child: Entry): Option<Entry> {
    if !child.isDirty then parent
    else if parent.None? then
      if child.isFresh && child.coin.IsSpent() then None
      else Some(Entry(child.coin, true, child.isFresh))
    else if parent.value.isFresh && child.coin.IsSpent() then None
    else Some(Entry(child.coin, true, parent.value.isFresh))
  }

  /** `merged` is the parent after the entries of `child` that are no longer in `rest`
      have been written to it. */
  ghost predicate IsMergeUpTo(parent: CoinsMap, child: CoinsMap, rest: CoinsMap, merged: CoinsMap) {
    forall k :: Lookup(merged, k)
      == if k in child && k !in rest then MergeEntry(Lookup(parent, k), child[k]) else Lookup(parent, k)
  }

  ghost predicate IsMerge(parent: CoinsMap, child: CoinsMap, merged: CoinsMap) {
    IsMergeUpTo(parent, child, map[], merged)
  }

  /** `after` is `before` with the child's entry `it` written at k. */
  ghost predicate IsWrite(before: CoinsMap, k: OutPoint, it: Entry, after: CoinsMap) {
    forall j :: Lookup(after, j) == if j == k then MergeEntry(Lookup(before, k), it) else Lookup(before, j)
  }

  /** A truthful child never trips the parent's FRESH check, and the merged parent
      shows exactly what the child showed, with truthful flags of its own. */
  lemma MergeShowsChild(below: Utxo, parent: CoinsMap, mid: Utxo, child: CoinsMap, above: Utxo, merged: CoinsMap)
    requires Coherent(below, parent) && Shows(below, parent, mid)
    requires AllUnspent(mid) && Coherent(mid, child) && Shows(mid, child, above)
    requires IsMerge(parent, child, merged)
    ensures Coherent(below, merged) && Shows(below, merged, above)
  {
    forall k
      ensures k in merged ==> EntryOk(below, k, merged[k])
      ensures Lookup(above, k) == Seen(below, merged, k)
    {
      MergeOneShows(below, parent, mid, child, above, merged, k);
    }
  }

  lemma MergeOneShows(below: Utxo, parent: CoinsMap, mid: Utxo, child: CoinsMap, above: Utxo,
                      merged: CoinsMap, k: OutPoint)
    requires Coherent(below, parent) && Shows(below, parent, mid)
    requires AllUnspent(mid) && Coherent(mid, child) && Shows(mid, child, above)
    requires IsMerge(parent, child, merged)
    ensures k in merged ==> EntryOk(below, k, merged[k])
    ensures Lookup(above, k) == Seen(below, merged, k)
  {
    assert Lookup(above, k) == Seen(mid, child, k) && Lookup(mid, k) == Seen(below, parent, k);
    assert Lookup(merged, k)
        == if k in child then MergeEntry(Lookup(parent, k), child[k]) else Lookup(parent, k);
    if k in child { assert EntryOk(mid, k, child[k]); }
    if k in parent { assert EntryOk(below, k, parent[k]); }
  }

  lemma NeverMisapplied(below: Utxo, parent: CoinsMap, mid: Utxo, child: CoinsMap, k: OutPoint)
    requires Shows(below, parent, mid) && Coherent(mid, child) && k in child
    ensures !Misapplied(parent, k, child[k])
  {
    assert EntryOk(mid, k, child[k]) && Lookup(mid, k) == Seen(below, parent, k);
  }

  /** A cache that was just flushed to its parent leaves nothing to see but the parent. */
  lemma EmptyShowsBelow(below: Utxo)
    requires AllUnspent(below)
    ensures LayerOk(below, Layer(map[], 0), below)
  {
  }

  // ------------------------------------------------------------------
  // The plain stack of maps, and runs on it
  // ------------------------------------------------------------------

  datatype Op =
    | Get(level: nat, k: OutPoint)
    | Access(level: nat, k: OutPoint)
    | Add(k: OutPoint, coin: Coin, possibleOverwrite: bool)
    | Spend(k: OutPoint)
    | Uncache(level: nat, k: OutPoint)
    | Flush
    | Push
    | Pop

  /** What a caller learns from one operation: the coin it read or took out. */
  datatype Obs = Found(coin: Option<Coin>) | Read(coin_: Coin) | Nothing

  ghost function CoinOr(c: Option<Coin>): Coin {
    if c.Some? then c.value else EmptyCoin
  }

  /** What the source demands of its callers: a real coin, and none replaced unannounced. */
  ghost predicate Allowed(v: seq<Utxo>, op: Op) {
    && v != []
    && match op
       case Get(level, _) => level < |v|
       case Access(level, _) => 1 <= level < |v|
       case Uncache(level, _) => 1 <= level < |v|
       case Add(k, coin, po) => |v| > 1 && !coin.IsSpent() && (po || k !in v[|v| - 1])
       case Push => true
       case _ => |v| > 1
  }

  /** One operation on plain maps: only writes, Flush, Push and Pop do anything. */
  ghost function PlainStep(v: seq<Utxo>, op: Op): (r: (seq<Utxo>, Obs))
    requires Allowed(v, op)
    ensures r.0 != []
  {
    var t := |v| - 1;
    match op
    case Get(level, k) => (v, Found(Lookup(v[level], k)))
    case Access(level, k) => (v, Read(CoinOr(Lookup(v[level], k))))
    case Add(k, coin, _) => (if coin.IsUnspendable() then v else v[t := v[t][k := coin]], Nothing)
    case Spend(k) => (v[t := v[t] - {k}], Read(CoinOr(Lookup(v[t], k))))
    case Uncache(_, _) => (v, Nothing)
    case Flush => (v[t - 1 := v[t]], Nothing)
    case Push => (v + [v[t]], Nothing)
    case Pop => (v[..t], Nothing)
  }

  ghost predicate AllowedRun(v: seq<Utxo>, ops: seq<Op>)
    decreases |ops|
  {
    ops != [] ==> Allowed(v, ops[0]) && AllowedRun(PlainStep(v, ops[0]).0, ops[1..])
  }

  ghost function PlainRun(v: seq<Utxo>, ops: seq<Op>): (seq<Utxo>, seq<Obs>)
    requires AllowedRun(v, ops)
    decreases |ops|
  {
    if ops == [] then (v, [])
    else
      var (v1, o) := PlainStep(v, ops[0]);
      var (v2, os) := PlainRun(v1, ops[1..]);
      (v2, [o] + os)
  }

  // ------------------------------------------------------------------
  // The stack of caches
  // ------------------------------------------------------------------

  class CoinStack {
    var db: Utxo
    var layers: seq<Layer>
    /** The plain map each level stands for. */
    ghost var plain: seq<Utxo>

    ghost predicate Valid()
      reads this
    {
      && |plain| == |layers| + 1
      && plain[0] == db
      && (forall j :: 0 <= j < |plain| ==> AllUnspent(plain[j]))
      && (forall j :: 0 <= j < |layers| ==> LayerOk(plain[j], layers[j], plain[j + 1]))
    }

    constructor (coins: Utxo)
      requires AllUnspent(coins)
      ensures Valid() && plain == [coins]
    {
      db, layers, plain := coins, [], [coins];
    }

    /** A new, empty cache on top: CCoinsViewCache(base). */
    method Push()
      requires Valid()
      modifies this
      ensures Valid() && plain == old(plain) + [old(plain)[|old(plain)| - 1]]
    {
      var t := |layers|;
      assert AllUnspent(plain[t]);
      EmptyShowsBelow(plain[t]);
      layers := layers + [Layer(map[], 0)];
      plain := plain + [plain[t]];
    }

    /** The top cache is destroyed; what it did not flush is forgotten. */
    method Pop()
      requires Valid() && layers != []
      modifies this
      ensures Valid() && plain == old(plain)[..|old(plain)| - 1]
    {
      layers := layers[..|layers| - 1];
      plain := plain[..|plain| - 1];
    }

    method GetCoin(i: nat, k: OutPoint) returns (r: Option<Coin>)
      requires Valid() && i <= |layers|
      modifies this`layers
      ensures Valid() && |layers| == |old(layers)|
      ensures forall j :: i <= j < |layers| ==> layers[j] == old(layers)[j]
      ensures i > 0 && k in old(layers)[i - 1].coins ==> layers == old(layers)
      ensures r == Lookup(plain[i], k)
      decreases i, 1
    {
      if i == 0 {
        return Lookup(db, k);
      }
      var found := FetchCoin(i, k);
      assert LayerOk(plain[i - 1], layers[i - 1], plain[i]);
      assert Lookup(plain[i], k) == Seen(plain[i - 1], layers[i - 1].coins, k);
      if !found {
        return None;
      }
      var coin := layers[i - 1].coins[k].coin;
      r := if coin.IsSpent() then None else Some(coin);
    }

    /** Find or load the entry for k in the cache at level i. */
    method FetchCoin(i: nat, k: OutPoint) returns (found: bool)
      requires Valid() && 1 <= i <= |layers|
      modifies this`layers
      ensures Valid() && |layers| == |old(layers)|
      ensures forall j :: i <= j < |layers| ==> layers[j] == old(layers)[j]
      ensures found <==> k in layers[i - 1].coins
      ensures k in old(layers)[i - 1].coins ==> layers == old(layers)
      ensures i > 1 && k in old(layers)[i - 2].coins ==> layers[..i - 1] == old(layers)[..i - 1]
      ensures layers[i - 1].coins ==
              if k in old(layers)[i - 1].coins || k !in plain[i - 1] then old(layers)[i - 1].coins
              else old(layers)[i - 1].coins[k := Entry(plain[i - 1][k], false, false)]
      decreases i, 0
    {
      if k in layers[i - 1].coins {
        return true;
      }
      var tmp := GetCoin(i - 1, k);
      if tmp.None? {
        return false;
      }
      var l := layers[i - 1];
      assert LayerOk(plain[i - 1], l, plain[i]);
      var coin := tmp.value;
      var entry := Entry(coin, false, coin.IsSpent());
      assert AllUnspent(plain[i - 1]);
      LoadKeepsLayer(plain[i - 1], l, plain[i], k);
      layers := layers[i - 1 := Layer(l.coins[k := entry], l.usage + CoinUsage(k, entry))];
      return true;
    }

    /** A reference into the cache at level i, or the empty coin. */
    method AccessCoin(i: nat, k: OutPoint) returns (coin: Coin)
      requires Valid() && 1 <= i <= |layers|
      modifies this`layers
      ensures Valid() && |layers| == |old(layers)|
      ensures coin == CoinOr(Lookup(plain[i], k))
    {
      var found := FetchCoin(i, k);
      assert LayerOk(plain[i - 1], layers[i - 1], plain[i]);
      assert Lookup(plain[i], k) == Seen(plain[i - 1], layers[i - 1].coins, k);
      if !found {
        return EmptyCoin;
      }
      assert EntryOk(plain[i - 1], k, layers[i - 1].coins[k]);
      coin := layers[i - 1].coins[k].coin;
    }

    method AddCoin(k: OutPoint, coin: Coin, possibleOverwrite: bool)
      requires Valid() && layers != [] && !coin.IsSpent()
      requires possibleOverwrite || k !in plain[|layers|]
      modifies this
      ensures Valid() && |layers| == |old(layers)|
      ensures plain[..|layers|] == old(plain)[..|layers|]
      ensures plain[|layers|] ==
                if (|coin.script| > 0 && coin.script[0] == 0x6a) || |coin.script| > 10000 then old(plain)[|layers|]
                else old(plain)[|layers|][k := coin]
      ensures layers[..|layers| - 1] == old(layers)[..|layers| - 1]
      ensures var coins := old(layers)[|layers| - 1].coins;
              var isFresh := (k in coins && coins[k].isFresh) || (!possibleOverwrite && !(k in coins && coins[k].isDirty));
              layers[|layers| - 1].coins == if coin.IsUnspendable() then coins else coins[k := Entry(coin, true, isFresh)]
    {
      if coin.IsUnspendable() {
        return;
      }
      var t := |layers| - 1;
      var l := layers[t];
      var usage := l.usage;
      var entry := Entry(EmptyCoin, false, false);
      if k in l.coins {
        entry := l.coins[k];
        usage := usage - CoinUsage(k, entry);
      }
      assert LayerOk(plain[t], l, plain[t + 1]);
      assert Lookup(plain[t + 1], k) == Seen(plain[t], l.coins, k);
      var isFresh := false;
      if !possibleOverwrite {
        if !entry.coin.IsSpent() {
          assert false; // "Adding new coin that replaces non-pruned entry"
        }
        isFresh := !entry.isDirty;
      }
      if k in l.coins { assert EntryOk(plain[t], k, l.coins[k]); }
      entry := Entry(coin, true, entry.isFresh || isFresh);
      usage := usage + CoinUsage(k, entry);
      SetKeepsLayer(plain[t], l, plain[t + 1], k, entry, usage);
      layers := layers[t := Layer(l.coins[k := entry], usage)];
      plain := plain[t + 1 := plain[t + 1][k := coin]];
    }

    /** Spend the coin at k. The view loses it; `ret` also says true of an already spent entry. */
    method SpendCoin(k: OutPoint) returns (ret: bool, moveout: Coin)
      requires Valid() && layers != []
      modifies this
      ensures Valid() && |layers| == |old(layers)|
      ensures plain[..|layers|] == old(plain)[..|layers|] && plain[|layers|] == old(plain)[|layers|] - {k}
      ensures moveout == CoinOr(Lookup(old(plain)[|layers|], k))
      ensures ret <==> k in old(plain)[|layers|] || k in old(layers)[|layers| - 1].coins
      ensures var coins := old(layers)[|layers| - 1].coins;
              layers[|layers| - 1].coins == if k in coins && coins[k].isFresh then coins - {k}
                                            else if ret then coins[k := Entry(EmptyCoin, true, false)] else coins
      ensures var t := |layers| - 1;
              t > 0 && k in old(layers)[t - 1].coins ==> layers[..t] == old(layers)[..t]
    {
      hide Sum;
      ghost var t := |layers| - 1;
      assert LayerOk(plain[t], layers[t], plain[t + 1]);
      assert Lookup(plain[t + 1], k) == Seen(plain[t], layers[t].coins, k);
      var found := FetchCoin(|layers|, k);
      if !found {
        assert plain[t + 1] - {k} == plain[t + 1];
        return false, EmptyCoin;
      }
      moveout := TakeCoin(k);
      ret := true;
    }

    /** Second part of SpendCoin: move the coin out of its entry and drop or clear the entry. */
    method TakeCoin(k: OutPoint) returns (moveout: Coin)
      requires Valid() && layers != [] && k in layers[|layers| - 1].coins
      modifies this
      ensures Valid() && |layers| == |old(layers)| && layers[..|layers| - 1] == old(layers)[..|layers| - 1]
      ensures plain[..|layers|] == old(plain)[..|layers|] && plain[|layers|] == old(plain)[|layers|] - {k}
      ensures moveout == CoinOr(Lookup(old(plain)[|layers|], k))
      ensures var coins := old(layers)[|layers| - 1].coins;
              layers[|layers| - 1].coins == if coins[k].isFresh then coins - {k} else coins[k := Entry(EmptyCoin, true, false)]
    {
      var t := |layers| - 1;
      var l := layers[t];
      assert LayerOk(plain[t], l, plain[t + 1]);
      assert Lookup(plain[t + 1], k) == Seen(plain[t], l.coins, k);
      var entry := l.coins[k];
      assert EntryOk(plain[t], k, entry);
      var usage := l.usage - CoinUsage(k, entry);
      moveout := entry.coin;
      if entry.isFresh {
        EraseKeepsLayer(plain[t], l, plain[t + 1], k);
        layers := layers[t := Layer(l.coins - {k}, usage)];
      } else {
        entry := Entry(EmptyCoin, true, false);
        ClearKeepsLayer(plain[t], l, plain[t + 1], k);
        layers := layers[t := Layer(l.coins[k := entry], usage)];
      }
      plain := plain[t + 1 := plain[t + 1] - {k}];
    }

    /** Drop an unmodified entry from the cache at level i. */
    method UncacheCoin(i: nat, k: OutPoint)
      requires Valid() && 1 <= i <= |layers|
      modifies this`layers
      ensures Valid() && |layers| == |old(layers)|
      ensures forall j :: 0 <= j < |layers| && j != i - 1 ==> layers[j] == old(layers)[j]
      ensures var coins := old(layers)[i - 1].coins;
        layers[i - 1].coins == if k in coins && !coins[k].isDirty && !coins[k].isFresh then coins - {k} else coins
    {
      var l := layers[i - 1];
      if k in l.coins && !l.coins[k].isDirty && !l.coins[k].isFresh {
        assert LayerOk(plain[i - 1], l, plain[i]);
        UncacheKeepsLayer(plain[i - 1], l, plain[i], k);
        layers := layers[i - 1 := Layer(l.coins - {k}, l.usage - CoinUsage(k, l.coins[k]))];
      }
    }

    /** One step of BatchWrite: the child's entry for k meets the entry at level i, if any. */
    method WriteEntry(i: nat, k: OutPoint, it: Entry) returns (threw: bool)
      requires 1 <= i <= |layers|
      requires layers[i - 1].usage == Sum(layers[i - 1].coins, CoinUsage)
      modifies this`layers
      ensures threw <==> Misapplied(old(layers)[i - 1].coins, k, it)
      ensures |layers| == |old(layers)|
      ensures forall j :: 0 <= j < |layers| && j != i - 1 ==> layers[j] == old(layers)[j]
      ensures layers[i - 1].usage == Sum(layers[i - 1].coins, CoinUsage)
      ensures !threw ==> IsWrite(old(layers)[i - 1].coins, k, it, layers[i - 1].coins)
    {
      var l := layers[i - 1];
      var coins, usage := l.coins, l.usage;
      if it.isDirty {
        if k !in coins {
          if !(it.isFresh && it.coin.IsSpent()) {
            var entry := Entry(it.coin, true, it.isFresh);
            SumUpdate(coins, CoinUsage, k, entry);
            SumAbsent(coins, CoinUsage, k);
            coins, usage := coins[k := entry], usage + CoinUsage(k, entry);
          }
        } else {
          var itUs := coins[k];
          if it.isFresh && !itUs.coin.IsSpent() {
            return true;
          }
          SumRemove(coins, CoinUsage, k);
          usage := usage - CoinUsage(k, itUs);
          if itUs.isFresh && it.coin.IsSpent() {
            coins := coins - {k};
          } else {
            var entry := Entry(it.coin, true, itUs.isFresh);
            SumUpdate(coins, CoinUsage, k, entry);
            coins, usage := coins[k := entry], usage + CoinUsage(k, entry);
          }
        }
      }
      layers := layers[i - 1 := Layer(coins, usage)];
      return false;
    }

    /** Write the entries of a child cache into the cache at level i, in any order.
        Stops and reports `threw` at a misapplied FRESH flag. */
    method BatchWrite(i: nat, mapCoins: CoinsMap) returns (threw: bool)
      requires 1 <= i <= |layers|
      requires layers[i - 1].usage == Sum(layers[i - 1].coins, CoinUsage)
      modifies this`layers
      ensures threw <==> exists k :: k in mapCoins && Misapplied(old(layers)[i - 1].coins, k, mapCoins[k])
      ensures |layers| == |old(layers)|
      ensures !threw ==> IsMerge(old(layers)[i - 1].coins, mapCoins, layers[i - 1].coins)
      ensures forall j :: 0 <= j < |layers| && j != i - 1 ==> layers[j] == old(layers)[j]
      ensures layers[i - 1].usage == Sum(layers[i - 1].coins, CoinUsage)
    {
      ghost var parent := layers[i - 1].coins;
      var rest := mapCoins;
      while rest != map[]
        invariant |layers| == |old(layers)|
        invariant forall j :: 0 <= j < |layers| && j != i - 1 ==> layers[j] == old(layers)[j]
        invariant layers[i - 1].usage == Sum(layers[i - 1].coins, CoinUsage)
        invariant forall k :: k in rest ==> k in mapCoins && rest[k] == mapCoins[k]
        invariant forall k :: k in mapCoins && k !in rest ==> !Misapplied(parent, k, mapCoins[k])
        invariant IsMergeUpTo(parent, mapCoins, rest, layers[i - 1].coins)
        decreases |rest|
      {
        var k :| k in rest;
        assert Lookup(layers[i - 1].coins, k) == Lookup(parent, k);
        threw := WriteEntry(i, k, rest[k]);
        if threw {
          assert Misapplied(parent, k, mapCoins[k]);
          return;
        }
        rest := rest - {k};
      }
      return false;
    }

    /** CCoinsViewDB::BatchWrite: every dirty entry is written to or erased from the database. */
    method DbBatchWrite(mapCoins: CoinsMap)
      modifies this`db
      ensures forall k :: Lookup(db, k) ==
                if k in mapCoins && mapCoins[k].isDirty
                then (if mapCoins[k].coin.IsSpent() then None else Some(mapCoins[k].coin))
                else Lookup(old(db), k)
    {
      var rest := mapCoins;
      while rest != map[]
        invariant forall k :: k in rest ==> k in mapCoins && rest[k] == mapCoins[k]
        invariant forall k :: Lookup(db, k) ==
                    if k in mapCoins && k !in rest && mapCoins[k].isDirty
                    then (if mapCoins[k].coin.IsSpent() then None else Some(mapCoins[k].coin))
                    else Lookup(old(db), k)
        decreases |rest|
      {
        var k :| k in rest;
        if rest[k].isDirty {
          db := if rest[k].coin.IsSpent() then db - {k} else db[k := rest[k].coin];
        }
        rest := rest - {k};
      }
    }

    /** Push the top cache's changes one level down and empty it: both levels then read as the top did. */
    method FlushTop()
      requires Valid() && layers != []
      modifies this
      ensures Valid() && |layers| == |old(layers)|
      ensures layers[|layers| - 1] == Layer(map[], 0)
      ensures plain[|layers| - 1] == plain[|layers|] == old(plain)[|layers|]
      ensures plain[..|layers| - 1] == old(plain)[..|layers| - 1]
      ensures var t := |layers| - 1;
              t > 0 ==> IsMerge(old(layers)[t - 1].coins, old(layers)[t].coins, layers[t - 1].coins)
    {
      var t := |layers| - 1;
      var child := layers[t].coins;
      assert LayerOk(plain[t], layers[t], plain[t + 1]);
      if t == 0 {
        DbBatchWrite(child);
        forall k ensures Lookup(db, k) == Lookup(plain[1], k) {
          assert Lookup(plain[1], k) == Seen(plain[0], child, k);
          if k in child { assert EntryOk(plain[0], k, child[k]); }
        }
        SameLookups(db, plain[1]);
      } else {
        ghost var parent := layers[t - 1].coins;
        assert LayerOk(plain[t - 1], layers[t - 1], plain[t]);
        var threw := BatchWrite(t, child);
        if threw {
          ghost var k :| k in child && Misapplied(parent, k, child[k]);
          NeverMisapplied(plain[t - 1], parent, plain[t], child, k);
          assert false; // "FRESH flag misapplied"
        }
        MergeShowsChild(plain[t - 1], parent, plain[t], child, plain[t + 1], layers[t - 1].coins);
      }
      EmptyShowsBelow(plain[t + 1]);
      layers := layers[t := Layer(map[], 0)];
      plain := plain[t := plain[t + 1]];
    }

    /** Any permitted operation: the plain stack predicts the new state and what is observed. */
    method Perform(op: Op) returns (o: Obs)
      requires Valid() && Allowed(plain, op)
      modifies this
      ensures Valid()
      ensures (plain, o) == PlainStep(old(plain), op)
    {
      ghost var was := plain;
      match op {
        case Get(level, k) => var r := GetCoin(level, k); o := Found(r);
        case Access(level, k) => var c := AccessCoin(level, k); o := Read(c);
        case Add(k, coin, po) => AddCoin(k, coin, po); o := Nothing;
        case Spend(k) => var ret, c := SpendCoin(k); o := Read(c);
        case Uncache(level, k) => UncacheCoin(level, k); o := Nothing;
        case Flush => FlushTop(); o := Nothing;
        case Push => Push(); o := Nothing;
        case Pop => Pop(); o := Nothing;
      }
      if op.Add? || op.Spend? || op.Flush? {
        assert plain == PlainStep(was, op).0;
      }
    }

    /** Every run on the stack of caches is observably the same run on plain maps. */
    method Run(ops: seq<Op>) returns (obs: seq<Obs>)
      requires Valid() && AllowedRun(plain, ops)
      modifies this
      ensures Valid()
      ensures (plain, obs) == PlainRun(old(plain), ops)
      decreases |ops|
    {
      if ops == [] {
        return [];
      }
      var o := Perform(ops[0]);
      var os := Run(ops[1..]);
      return [o] + os;
    }
  }

  lemma LoadKeepsLayer(below: Utxo, l: Layer, above: Utxo, k: OutPoint)
    requires AllUnspent(below) && LayerOk(below, l, above) && k !in l.coins && k in below
    ensures var e := Entry(below[k], false, false);
            LayerOk(below, Layer(l.coins[k := e], l.usage + CoinUsage(k, e)), above)
  {
    var e := Entry(below[k], false, false);
    SumUpdate(l.coins, CoinUsage, k, e);
    SumAbsent(l.coins, CoinUsage, k);
    forall j ensures Lookup(above, j) == Seen(below, l.coins[k := e], j) {
      assert Lookup(above, j) == Seen(below, l.coins, j);
    }
  }

  lemma UncacheKeepsLayer(below: Utxo, l: Layer, above: Utxo, k: OutPoint)
    requires AllUnspent(below) && LayerOk(below, l, above)
    requires k in l.coins && !l.coins[k].isDirty
    ensures LayerOk(below, Layer(l.coins - {k}, l.usage - CoinUsage(k, l.coins[k])), above)
  {
    SumRemove(l.coins, CoinUsage, k);
    assert EntryOk(below, k, l.coins[k]);
    forall j ensures Lookup(above, j) == Seen(below, l.coins - {k}, j) {
      assert Lookup(above, j) == Seen(below, l.coins, j);
    }
  }

  /** An unspent dirty entry is put at k, marked FRESH only if nothing is below. */
  lemma SetKeepsLayer(below: Utxo, l: Layer, above: Utxo, k: OutPoint, e: Entry, usage: int)
    requires LayerOk(below, l, above) && AllUnspent(above)
    requires !e.coin.IsSpent() && e.isDirty && (e.isFresh ==> k !in below)
    requires usage == l.usage - (if k in l.coins then CoinUsage(k, l.coins[k]) else 0) + CoinUsage(k, e)
    ensures AllUnspent(above[k := e.coin])
    ensures LayerOk(below, Layer(l.coins[k := e], usage), above[k := e.coin])
  {
    SumUpdate(l.coins, CoinUsage, k, e);
    if k in l.coins { SumRemove(l.coins, CoinUsage, k); } else { SumAbsent(l.coins, CoinUsage, k); }
    var above', coins' := above[k := e.coin], l.coins[k := e];
    forall j ensures Lookup(above', j) == Seen(below, coins', j) {
      assert Lookup(above, j) == Seen(below, l.coins, j);
    }
  }

  /** A FRESH entry may simply go: nothing below needs to hear of the spend. */
  lemma EraseKeepsLayer(below: Utxo, l: Layer, above: Utxo, k: OutPoint)
    requires LayerOk(below, l, above) && AllUnspent(above)
    requires k in l.coins && l.coins[k].isFresh
    ensures AllUnspent(above - {k})
    ensures LayerOk(below, Layer(l.coins - {k}, l.usage - CoinUsage(k, l.coins[k])), above - {k})
  {
    SumRemove(l.coins, CoinUsage, k);
    assert EntryOk(below, k, l.coins[k]);
    forall j ensures Lookup(above - {k}, j) == Seen(below, l.coins - {k}, j) {
      assert Lookup(above, j) == Seen(below, l.coins, j);
    }
  }

  lemma ClearKeepsLayer(below: Utxo, l: Layer, above: Utxo, k: OutPoint)
    requires LayerOk(below, l, above) && AllUnspent(above) && k in l.coins
    ensures var e := Entry(EmptyCoin, true, false);
            LayerOk(below, Layer(l.coins[k := e], l.usage - CoinUsage(k, l.coins[k])), above - {k})
    ensures AllUnspent(above - {k})
  {
    var e := Entry(EmptyCoin, true, false);
    SumUpdate(l.coins, CoinUsage, k, e);
    SumRemove(l.coins, CoinUsage, k);
    forall j ensures Lookup(above - {k}, j) == Seen(below, l.coins[k := e], j) {
      assert Lookup(above, j) == Seen(below, l.coins, j);
    }
  }

  /** SpendCoin's result is not the plain map's answer: the second spend of a coin that
      came from below also reports true, because the cache still holds its spent entry. */
  method SpendTwice(k: OutPoint, coin: Coin) returns (first: bool, second: bool, left: Option<Coin>)
    requires !coin.IsSpent()
    ensures first && second && left == None
  {
    var stack := new CoinStack(map[k := coin]);
    stack.Push();
    var taken;
    first, taken := stack.SpendCoin(k);
    assert LayerOk(stack.plain[0], stack.layers[0], stack.plain[1]);
    assert Lookup(stack.plain[1], k) == Seen(stack.plain[0], stack.layers[0].coins, k);
    left := stack.GetCoin(1, k);
    assert LayerOk(stack.plain[0], stack.layers[0], stack.plain[1]);
    assert Lookup(stack.plain[1], k) == Seen(stack.plain[0], stack.layers[0].coins, k);
    second, taken := stack.SpendCoin(k);
  }

  // ------------------------------------------------------------------
  // What callers see, in terms of GetCoin alone
  // ------------------------------------------------------------------

  /** An added coin is read at the top and nowhere else; flushed, it outlives the cache it was added to. */
  method AddIsSeen(stack: CoinStack, k: OutPoint, coin: Coin, overwrite: bool, j: OutPoint)
    returns (before: Option<Coin>, top: Option<Coin>, below: Option<Coin>, after: Option<Coin>, other: Option<Coin>)
    requires stack.Valid() && stack.layers != [] && coin.nValue != -1 && j != k
    requires overwrite || k !in stack.plain[|stack.layers|]
    requires |coin.script| <= 10000 && (coin.script == [] || coin.script[0] != 0x6a)
    modifies stack
    ensures top == Some(coin) && below == before && after == Some(coin)
    ensures other == Lookup(old(stack.plain)[|old(stack.layers)|], j)
  {
    hide LayerOk, AllUnspent, IsMerge;
    var t := |stack.layers|;
    before := stack.GetCoin(t - 1, k);
    stack.AddCoin(k, coin, overwrite);
    top := stack.GetCoin(t, k);
    assert stack.plain[t - 1] == stack.plain[..t][t - 1];
    below := stack.GetCoin(t - 1, k);
    stack.FlushTop();
    stack.Pop();
    after := stack.GetCoin(t - 1, k);
    other := stack.GetCoin(t - 1, j);
  }

  /** A spent coin is handed out and gone; flushed, the spend outlives the cache it was done in. */
  method SpendIsSeen(stack: CoinStack, k: OutPoint, j: OutPoint)
    returns (coin: Option<Coin>, taken: Coin, top: Option<Coin>, after: Option<Coin>, otherBefore: Option<Coin>, other: Option<Coin>)
    requires stack.Valid() && stack.layers != [] && j != k
    modifies stack
    ensures taken == if coin.Some? then coin.value else EmptyCoin
    ensures top == None && after == None && other == otherBefore
  {
    hide LayerOk, AllUnspent, IsMerge;
    var t := |stack.layers|;
    coin := stack.GetCoin(t, k);
    otherBefore := stack.GetCoin(t, j);
    var ret;
    ret, taken := stack.SpendCoin(k);
    top := stack.GetCoin(t, k);
    stack.FlushTop();
    stack.Pop();
    after := stack.GetCoin(t - 1, k);
    other := stack.GetCoin(t - 1, j);
  }

  /** A coin that no level had and that is added and spent in the same cache leaves no trace there. */
  method AddSpendLeavesNothing(stack: CoinStack, k: OutPoint, coin: Coin)
    requires stack.Valid() && stack.layers != [] && coin.nValue != -1
    requires k !in stack.plain[|stack.layers|] && k !in stack.layers[|stack.layers| - 1].coins
    modifies stack
    ensures stack.Valid() && |stack.layers| == |old(stack.layers)|
    ensures stack.layers[|stack.layers| - 1].coins == old(stack.layers)[|stack.layers| - 1].coins
  {
    ghost var coins := stack.layers[|stack.layers| - 1].coins;
    stack.AddCoin(k, coin, false);
    var _, _ := stack.SpendCoin(k);
    if !coin.IsUnspendable() {
      assert coins[k := Entry(coin, true, true)] - {k} == coins;
    }
  }

  /** A coin that no level had and that is spent between two flushes leaves no trace in the cache below either. */
  method ShortLivedCoin(stack: CoinStack, k: OutPoint, coin: Coin)
    requires stack.Valid() && |stack.layers| >= 2 && coin.nValue != -1
    requires k !in stack.plain[|stack.layers|] && k !in stack.layers[|stack.layers| - 1].coins
    requires k !in stack.layers[|stack.layers| - 2].coins
    requires |coin.script| <= 10000 && (coin.script == [] || coin.script[0] != 0x6a)
    modifies stack
    ensures stack.Valid() && |stack.layers| == |old(stack.layers)|
    ensures k !in stack.layers[|stack.layers| - 2].coins && k !in stack.plain[|stack.layers| - 1]
  {
    hide LayerOk, AllUnspent;
    var t := |stack.layers| - 1;
    stack.AddCoin(k, coin, false);
    ghost var coins, below := stack.layers[t].coins, stack.layers[t - 1].coins;
    stack.FlushTop();
    MergeAt(below, coins, stack.layers[t - 1].coins, k);
    coins := stack.layers[t].coins;
    var _, _ := stack.SpendCoin(k);
    coins, below := stack.layers[t].coins, stack.layers[t - 1].coins;
    stack.FlushTop();
    MergeAt(below, coins, stack.layers[t - 1].coins, k);
  }

  lemma MergeAt(parent: CoinsMap, child: CoinsMap, merged: CoinsMap, k: OutPoint)
    requires IsMerge(parent, child, merged)
    ensures Lookup(merged, k) == if k in child then MergeEntry(Lookup(parent, k), child[k]) else Lookup(parent, k)
  {
  }

  /** Without a flush, popping a cache forgets what was added and spent in it. */
  method PopForgets(stack: CoinStack, k: OutPoint, coin: Coin, spent: OutPoint, j: OutPoint)
    returns (before: Option<Coin>, pushed: Option<Coin>, after: Option<Coin>)
    requires stack.Valid() && coin.nValue != -1
    modifies stack
    ensures before == pushed == after
  {
    var t := |stack.layers|;
    before := stack.GetCoin(t, j);
    stack.Push();
    pushed := stack.GetCoin(t + 1, j);
    stack.AddCoin(k, coin, true);
    var _, _ := stack.SpendCoin(spent);
    assert stack.plain[t] == stack.plain[..t + 1][t];
    stack.Pop();
    after := stack.GetCoin(t, j);
  }
}
