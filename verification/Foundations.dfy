/** Vocabulary shared by the component models: optional values and sums over finite maps. */
module Foundations {

  datatype Option<+T> = None | Some(value: T)

  function Lookup<K, V>(m: map<K, V>, k: K): Option<V> {
    if k in m then Some(m[k]) else None
  }

  /** The total of `f` over the entries of `m`, in any order. */
  ghost function Sum<K(!new), V(!new)>(m: map<K, V>, f: (K, V) -> nat): nat
    decreases |m|
  {
    if m == map[] then 0
    else
      var k :| k in m;
      f(k, m[k]) + Sum(m - {k}, f)
  }

  /** The entry taken out first makes no difference to the sum. */
  lemma {:induction false} SumRemove<K(!new), V(!new)>(m: map<K, V>, f: (K, V) -> nat, k: K)
    requires k in m
    ensures Sum(m, f) == f(k, m[k]) + Sum(m - {k}, f)
    decreases |m|
  {
    var j :| j in m && Sum(m, f) == f(j, m[j]) + Sum(m - {j}, f);
    if j != k {
      SumRemove(m - {j}, f, k);
      SumRemove(m - {k}, f, j);
      assert m - {j} - {k} == m - {k} - {j};
    }
  }

  lemma SumUpdate<K(!new), V(!new)>(m: map<K, V>, f: (K, V) -> nat, k: K, v: V)
    ensures Sum(m[k := v], f) == f(k, v) + Sum(m - {k}, f)
  {
    SumRemove(m[k := v], f, k);
    assert m[k := v] - {k} == m - {k};
  }

  lemma SumAbsent<K(!new), V(!new)>(m: map<K, V>, f: (K, V) -> nat, k: K)
    requires k !in m
    ensures Sum(m - {k}, f) == Sum(m, f)
  {
    assert m - {k} == m;
  }

  lemma SumReplace<K(!new), V(!new)>(m: map<K, V>, f: (K, V) -> nat, k: K, v: V)
    requires k in m
    ensures Sum(m[k := v], f) == Sum(m, f) - f(k, m[k]) + f(k, v)
  {
    SumUpdate(m, f, k, v);
    SumRemove(m, f, k);
  }

  /** Only the values of `f` matter. */
  lemma {:induction false} SumSame<K(!new), V(!new)>(m: map<K, V>, m': map<K, V>, f: (K, V) -> nat)
    requires m'.Keys == m.Keys && forall k :: k in m ==> f(k, m'[k]) == f(k, m[k])
    ensures Sum(m', f) == Sum(m, f)
    decreases |m|
  {
    if m == map[] {
      assert m' == map[];
    } else {
      var k :| k in m;
      SumRemove(m, f, k);
      SumRemove(m', f, k);
      SumSame(m - {k}, m' - {k}, f);
    }
  }

  /** A positive sum has a positive term. */
  lemma {:induction false} SumPositive<K(!new), V(!new)>(m: map<K, V>, f: (K, V) -> nat) returns (k: K)
    requires Sum(m, f) > 0
    ensures k in m && f(k, m[k]) > 0
    decreases |m|
  {
    k :| k in m && Sum(m, f) == f(k, m[k]) + Sum(m - {k}, f);
    if f(k, m[k]) == 0 {
      k := SumPositive(m - {k}, f);
    }
  }

  lemma SumAtLeast<K(!new), V(!new)>(m: map<K, V>, f: (K, V) -> nat, k: K)
    requires k in m
    ensures Sum(m, f) >= f(k, m[k])
  {
    SumRemove(m, f, k);
  }

  ghost function Image<A(!new), B(!new)>(s: set<A>, f: A -> B): set<B> {
    set a | a in s :: f(a)
  }

  lemma AnyOf<T>(s: set<T>) returns (x: T)
    requires s != {}
    ensures x in s
  {
    x :| x in s;
  }

  /** An injective image has as many elements as its source. */
  lemma {:induction false} ImageSize<A(!new), B(!new)>(s: set<A>, f: A -> B)
    requires forall x, y :: x in s && y in s && f(x) == f(y) ==> x == y
    ensures |Image(s, f)| == |s|
    decreases |s|
  {
    if s == {} {
      assert Image(s, f) == {};
    } else {
      var a :| a in s;
      ImageSize(s - {a}, f);
      assert Image(s, f) == Image(s - {a}, f) + {f(a)};
    }
  }

  /** A list without repetitions has as many members as it is long. */
  lemma {:induction false} MembersOfDistinct<T>(s: seq<T>)
    requires forall i, j :: 0 <= i < j < |s| ==> s[i] != s[j]
    ensures |set x | x in s| == |s|
  {
    if s != [] {
      var n := |s| - 1;
      MembersOfDistinct(s[..n]);
      assert s == s[..n] + [s[n]] && s[n] !in s[..n];
      assert (set x | x in s) == (set x | x in s[..n]) + {s[n]};
    } else {
      assert (set x | x in s) == {};
    }
  }
}
