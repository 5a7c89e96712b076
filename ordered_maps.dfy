/**
 * A JavaScript `Map` (or a plain object used as a dictionary): entries kept in
 * insertion order, where `set` on a present key replaces its value in place and
 * on a new key appends the entry.
 */
module OrderedMaps {
  import opened Wrappers
  import Seqs

  type Entries<K, V> = seq<(K, V)>

  /** The keys, in entry order. */
  function Keys<K, V>(m: Entries<K, V>): seq<K> {
    seq(|m|, i requires 0 <= i < |m| => m[i].0)
  }

  /** The values, in entry order. */
  function Values<K, V>(m: Entries<K, V>): seq<V> {
    seq(|m|, i requires 0 <= i < |m| => m[i].1)
  }

  predicate DistinctKeys<K(==), V>(m: Entries<K, V>) {
    forall i, j :: 0 <= i < j < |m| ==> m[i].0 != m[j].0
  }

  /** `m.get(k)`. */
  function Get<K(==), V>(m: Entries<K, V>, k: K): (r: Option<V>)
    ensures r.None? <==> k !in Keys(m)
    ensures r.Some? ==> (k, r.value) in m
    decreases |m|
  {
    if m == [] then None
    else if m[0].0 == k then assert Keys(m)[0] == k; Some(m[0].1)
    else
      assert Keys(m) == [m[0].0] + Keys(m[1..]);
      Get(m[1..], k)
  }

  /** `m.set(k, v)`: a present key keeps its place, a new key goes last. */
  function Set<K(==), V>(m: Entries<K, V>, k: K, v: V): (r: Entries<K, V>)
    ensures Keys(r) == if k in Keys(m) then Keys(m) else Keys(m) + [k]
    decreases |m|
  {
    if m == [] then [(k, v)]
    else if m[0].0 == k then
      assert Keys(m)[0] == k && Keys([(k, v)] + m[1..]) == Keys(m);
      [(k, v)] + m[1..]
    else
      var r := [m[0]] + Set(m[1..], k, v);
      assert Keys(m) == [m[0].0] + Keys(m[1..]);
      assert Keys(r) == [m[0].0] + Keys(Set(m[1..], k, v));
      r
  }

  /** After `set`, the key maps to the new value and every other key is unaffected. */
  lemma {:induction false} GetAfterSet<K, V>(m: Entries<K, V>, k: K, v: V, k': K)
    ensures Get(Set(m, k, v), k') == if k' == k then Some(v) else Get(m, k')
    decreases |m|
  {
    if m != [] && m[0].0 != k {
      GetAfterSet(m[1..], k, v, k');
    }
  }

  lemma SetKeepsDistinct<K, V>(m: Entries<K, V>, k: K, v: V)
    requires DistinctKeys(m)
    ensures DistinctKeys(Set(m, k, v))
  {
    var r := Set(m, k, v);
    assert Keys(r) == if k in Keys(m) then Keys(m) else Keys(m) + [k];
    forall i, j | 0 <= i < j < |r|
      ensures r[i].0 != r[j].0
    {
      assert r[i].0 == Keys(r)[i] && r[j].0 == Keys(r)[j];
    }
  }

  /** A second `set` of the same key overrides the first, wherever it put the key. */
  lemma {:induction false} SetTwice<K, V>(m: Entries<K, V>, k: K, v1: V, v2: V)
    ensures Set(Set(m, k, v1), k, v2) == Set(m, k, v2)
    decreases |m|
  {
    if m != [] && m[0].0 != k {
      SetTwice(m[1..], k, v1, v2);
    }
  }

  /** The items grouped by key the way a loop of `if (!m.has(k)) m.set(k, []);
      m.get(k).push(x)` groups them. */
  function GroupBy<T, K(==)>(items: seq<T>, key: T -> K): Entries<K, seq<T>>
    decreases |items|
  {
    if items == [] then []
    else
      var prev := GroupBy(items[..|items| - 1], key);
      var x := items[|items| - 1];
      Set(prev, key(x), Get(prev, key(x)).GetOr([]) + [x])
  }

  /** Whether an item has the key. */
  function SameKey<T, K(==)>(key: T -> K, k: K): T -> bool {
    x => key(x) == k
  }

  /** Each key of the items maps to exactly the items with that key, in order, and no
      other key is present. */
  lemma {:induction false} GroupBySpec<T, K>(items: seq<T>, key: T -> K, k: K)
    ensures Get(GroupBy(items, key), k) ==
              if k in Seqs.Map(items, key) then Some(Seqs.Filter(items, SameKey(key, k))) else None
    decreases |items|
  {
    if items != [] {
      var init := items[..|items| - 1];
      var x := items[|items| - 1];
      var prev := GroupBy(init, key);
      var p := SameKey(key, k);
      GroupBySpec(init, key, k);
      assert items == init + [x];
      Seqs.FilterSnoc(init, x, p);
      Seqs.MapInit(items, key);
      GetAfterSet(prev, key(x), Get(prev, key(x)).GetOr([]) + [x], k);
      if k == key(x) {
        assert p(x);
        assert Seqs.Filter(items, p) == Seqs.Filter(init, p) + [x];
        if k !in Seqs.Map(init, key) {
          NoneWithKey(init, key, k);
        }
      } else {
        assert !p(x);
        assert Seqs.Filter(items, p) == Seqs.Filter(init, p);
        assert k in Seqs.Map(items, key) <==> k in Seqs.Map(init, key);
      }
    }
  }

  /** No item is kept for a key that none of them has. */
  lemma NoneWithKey<T, K>(items: seq<T>, key: T -> K, k: K)
    requires k !in Seqs.Map(items, key)
    ensures Seqs.Filter(items, SameKey(key, k)) == []
  {
  }

  /** The keys are the distinct keys of the items in first-occurrence order. */
  lemma {:induction false} GroupByKeys<T, K>(items: seq<T>, key: T -> K)
    ensures Keys(GroupBy(items, key)) == Seqs.Distinct(Seqs.Map(items, key))
    ensures DistinctKeys(GroupBy(items, key))
  {
    GroupByKeyOrder(items, key);
    Seqs.DistinctSpec(Seqs.Map(items, key));
    DistinctKeysOf(GroupBy(items, key));
  }

  lemma {:induction false} GroupByKeyOrder<T, K>(items: seq<T>, key: T -> K)
    ensures Keys(GroupBy(items, key)) == Seqs.Distinct(Seqs.Map(items, key))
    decreases |items|
  {
    if items != [] {
      var init := items[..|items| - 1];
      var x := items[|items| - 1];
      var prev := GroupBy(init, key);
      GroupByKeyOrder(init, key);
      Seqs.MapInit(items, key);
      KeysAfterSet(prev, Seqs.Map(init, key), key(x), Get(prev, key(x)).GetOr([]) + [x]);
    }
  }

  /** Keys without repetitions make a map with distinct keys. */
  lemma DistinctKeysOf<K, V>(m: Entries<K, V>)
    requires Seqs.NoDuplicates(Keys(m))
    ensures DistinctKeys(m)
  {
    forall i, j | 0 <= i < j < |m|
      ensures m[i].0 != m[j].0
    {
      assert Keys(m)[i] == m[i].0 && Keys(m)[j] == m[j].0;
    }
  }

  /** When the keys are the distinct keys seen so far, a `set` adds the next key the same
      way `Distinct` does. */
  lemma KeysAfterSet<K, V>(m: Entries<K, V>, ks: seq<K>, k: K, v: V)
    requires Keys(m) == Seqs.Distinct(ks)
    ensures Keys(Set(m, k, v)) == Seqs.Distinct(ks + [k])
  {
    assert (ks + [k])[..|ks|] == ks;
  }

  /** With distinct keys, the key at a position maps to the value at that position. */
  lemma {:induction false} GetAt<K, V>(m: Entries<K, V>, i: nat)
    requires DistinctKeys(m) && i < |m|
    ensures Get(m, m[i].0) == Some(m[i].1)
    decreases i
  {
    if i > 0 {
      assert m[0].0 != m[i].0;
      assert DistinctKeys(m[1..]) by {
        forall a, b | 0 <= a < b < |m| - 1
          ensures m[1..][a].0 != m[1..][b].0
        {
          assert m[1..][a] == m[a + 1] && m[1..][b] == m[b + 1];
        }
      }
      GetAt(m[1..], i - 1);
    }
  }

  /** Every entry after `set` is an old entry or the new one. */
  lemma {:induction false} SetEntries<K, V>(m: Entries<K, V>, k: K, v: V)
    ensures forall e :: e in Set(m, k, v) ==> e in m || e == (k, v)
    decreases |m|
  {
    if m != [] && m[0].0 != k {
      SetEntries(m[1..], k, v);
    }
  }

  /** The map after `m.set(key(x), value(x))` for each item in order. */
  function SetEach<T, K(==), V>(items: seq<T>, key: T -> K, value: T -> V): Entries<K, V>
    decreases |items|
  {
    if items == [] then []
    else
      var x := items[|items| - 1];
      Set(SetEach(items[..|items| - 1], key, value), key(x), value(x))
  }

  /** One entry per distinct key, in first-occurrence order. */
  lemma {:induction false} SetEachKeys<T, K, V>(items: seq<T>, key: T -> K, value: T -> V)
    ensures Keys(SetEach(items, key, value)) == Seqs.Distinct(Seqs.Map(items, key))
    ensures DistinctKeys(SetEach(items, key, value))
  {
    SetEachKeyOrder(items, key, value);
    Seqs.DistinctSpec(Seqs.Map(items, key));
    DistinctKeysOf(SetEach(items, key, value));
  }

  lemma {:induction false} SetEachKeyOrder<T, K, V>(items: seq<T>, key: T -> K, value: T -> V)
    ensures Keys(SetEach(items, key, value)) == Seqs.Distinct(Seqs.Map(items, key))
    decreases |items|
  {
    if items != [] {
      var init := items[..|items| - 1];
      var x := items[|items| - 1];
      SetEachKeyOrder(init, key, value);
      Seqs.MapInit(items, key);
      KeysAfterSet(SetEach(init, key, value), Seqs.Map(init, key), key(x), value(x));
    }
  }

  /** A key maps to the value of the last item with that key. */
  lemma {:induction false} SetEachLastWins<T, K, V>(items: seq<T>, key: T -> K, value: T -> V, i: nat)
    requires i < |items|
    requires forall j :: i < j < |items| ==> key(items[j]) != key(items[i])
    ensures Get(SetEach(items, key, value), key(items[i])) == Some(value(items[i]))
    decreases |items|
  {
    var init := items[..|items| - 1];
    var x := items[|items| - 1];
    GetAfterSet(SetEach(init, key, value), key(x), value(x), key(items[i]));
    if i < |items| - 1 {
      SetEachLastWins(init, key, value, i);
    }
  }

  /** Every entry is the key and value of some item. */
  lemma {:induction false} SetEachEntries<T, K, V>(items: seq<T>, key: T -> K, value: T -> V, e: (K, V))
    requires e in SetEach(items, key, value)
    ensures exists x :: x in items && e == (key(x), value(x))
    decreases |items|
  {
    var init := items[..|items| - 1];
    var x := items[|items| - 1];
    SetEntries(SetEach(init, key, value), key(x), value(x));
    if e != (key(x), value(x)) {
      SetEachEntries(init, key, value, e);
      var y :| y in init && e == (key(y), value(y));
      assert y in items;
    }
  }
}
