/**
 * What users of the rolling filter of src/bloom.cpp see: which of the keys inserted are certainly found, and which other
 * keys are found with them.
 */
module BloomUse {
  import opened RollingBloom

  /** Two keys have the same two-bit cell under some of their hash functions. */
  ghost predicate Collide<Key>(hash: (nat, nat, Key) -> Word32, tweak: nat, words: nat, a: Key, i: nat, b: Key, j: nat) {
    var g: int, h: int := hash(i, tweak, a), hash(j, tweak, b);
    g % 64 == h % 64 && g * words / 0x1_0000_0000 / 2 == h * words / 0x1_0000_0000 / 2
  }

  lemma CollideIff<Key(!new)>(c: Config<Key>, a: Key, i: nat, b: Key, j: nat)
    requires c.words > 0 && c.words % 2 == 0
    ensures c.At(a, i) == c.At(b, j) <==> Collide(c.hash, c.tweak, c.words, a, i, b, j)
  {
  }

  /** The key collides under each of its hash functions with one of the last n keys. */
  ghost predicate CollidesWithLast<Key(!new)>(hash: (nat, nat, Key) -> Word32, tweak: nat, words: nat, funcs: nat,
                                              keys: seq<Key>, n: nat, key: Key) {
    forall i: nat :: i < funcs ==> HasCollision(hash, tweak, words, funcs, keys, n, key, i)
  }

  ghost predicate HasCollision<Key(!new)>(hash: (nat, nat, Key) -> Word32, tweak: nat, words: nat, funcs: nat,
                                          keys: seq<Key>, n: nat, key: Key, i: nat) {
    exists p: nat, j: nat :: p < |keys| && |keys| - p <= n && j < funcs && Collide(hash, tweak, words, key, i, keys[p], j)
  }

  lemma CoveredIff<Key(!new)>(filter: Filter<Key>, key: Key, i: nat)
    requires filter.Cfg().Valid()
    ensures var c, n := filter.Cfg(), 2 * filter.nEntriesPerGeneration + filter.nEntriesThisGeneration;
            filter.Covered(c.At(key, i)) <==> HasCollision(c.hash, c.tweak, c.words, c.funcs, filter.history, n, key, i)
  {
    var c, n, h := filter.Cfg(), 2 * filter.nEntriesPerGeneration + filter.nEntriesThisGeneration, filter.history;
    var r, s := filter.Recent(), |h| - |filter.Recent()|;
    assert forall q :: 0 <= q < |r| ==> r[q] == h[s + q];
    hide Collide, Config.At;
    if filter.Covered(c.At(key, i)) {
      var q :| 0 <= q < |r| && c.Touches(r[q], c.At(key, i));
      var j: nat :| j < c.funcs && c.At(r[q], j) == c.At(key, i);
      CollideIff(c, key, i, h[s + q], j);
      assert s + q >= 0 && |h| - (s + q) <= n;
    }
    if HasCollision(c.hash, c.tweak, c.words, c.funcs, h, n, key, i) {
      var p: nat, j: nat :| p < |h| && |h| - p <= n && j < c.funcs && Collide(c.hash, c.tweak, c.words, key, i, h[p], j);
      CollideIff(c, key, i, h[p], j);
      assert r[p - s] == h[p] && c.Touches(r[p - s], c.At(key, i));
    }
  }

  lemma IsRecent<Key(!new)>(filter: Filter<Key>, p: nat)
    requires p < |filter.history| && |filter.history| - p <= 2 * filter.nEntriesPerGeneration
    ensures filter.history[p] in filter.Recent()
  {
    var h, r := filter.history, filter.Recent();
    assert r[p - (|h| - |r|)] == h[p];
  }

  /** A filter for nElements, filled with any keys, finds each of the last nElements of them. Any key it finds collides,
      under each of its hash functions, with one of the last 3 * (nElements + 1) / 2 at most. */
  method Remembers<Key(!new)>(nElements: nat, words: nat, funcs: nat, hash: (nat, nat, Key) -> Word32, tweak: nat,
                              keys: seq<Key>, key: Key) returns (found: bool, ghost n: nat)
    requires nElements >= 1 && words > 0 && words % 2 == 0
    ensures nElements <= n <= (nElements + 1) / 2 * 3
    ensures found <==> CollidesWithLast(hash, tweak, words, funcs, keys, n, key)
    ensures (exists p :: 0 <= p < |keys| && |keys| - p <= nElements && keys[p] == key) ==> found
  {
    hide Shows, Config.LastHit, Config.At, Filter.Covered, Filter.Recent, Cell, InRange, HasCollision;
    var filter := new Filter(nElements, words, funcs, hash, tweak);
    for i := 0 to |keys|
      invariant filter.Valid() && fresh(filter) && fresh(filter.data) && filter.history == keys[..i]
      invariant filter.Cfg() == Config(hash, funcs, tweak, words, filter.nEntriesPerGeneration)
    {
      filter.Insert(keys[i]);
      assert keys[..i + 1] == keys[..i] + [keys[i]];
    }
    assert keys[..|keys|] == keys;
    n := 2 * filter.nEntriesPerGeneration + filter.nEntriesThisGeneration;
    found := filter.Contains(key);
    forall i: nat | i < funcs
      ensures filter.Covered(filter.Cfg().At(key, i)) <==> HasCollision(hash, tweak, words, funcs, keys, n, key, i)
    {
      CoveredIff(filter, key, i);
    }
    if p :| 0 <= p < |keys| && |keys| - p <= nElements && keys[p] == key {
      IsRecent(filter, p);
    }
    hide *;
  }
}
