/**
 Python's `dict`, which remembers insertion order, modelled as a sequence of
 key/value entries. `Put` is `d[k] = v` (overwrite in place, or append a new
 key at the end); `AppendTo` is the `if k not in d: d[k] = []; d[k].append(v)`
 idiom the digests use to group items by key in first-seen order.
 */
module Dicts {
  import opened Wrappers

  datatype Entry<K, V> = Entry(key: K, value: V)

  /** `list(d.keys())`. */
  function Keys<K, V>(es: seq<Entry<K, V>>): (r: seq<K>)
    ensures |r| == |es|
    ensures forall i :: 0 <= i < |es| ==> r[i] == es[i].key
  {
    if es == [] then [] else [es[0].key] + Keys(es[1..])
  }

  predicate Distinct<K(==)>(xs: seq<K>) {
    forall i, j :: 0 <= i < j < |xs| ==> xs[i] != xs[j]
  }

  /** `d.get(k)`: the value stored under `k`, if any. */
  function Get<K(==,!new), V>(es: seq<Entry<K, V>>, k: K): (r: Option<V>)
    ensures r.Some? <==> k in Keys(es)
  {
    if es == [] then None
    else if es[0].key == k then Some(es[0].value)
    else Get(es[1..], k)
  }

  /** `d[k] = v`: an existing key keeps its position, a new key goes last. */
  function Put<K(==,!new), V>(es: seq<Entry<K, V>>, k: K, v: V): (r: seq<Entry<K, V>>)
    ensures Get(r, k) == Some(v)
    ensures forall k' :: k' != k ==> Get(r, k') == Get(es, k')
    ensures Keys(r) == if k in Keys(es) then Keys(es) else Keys(es) + [k]
  {
    if es == [] then [Entry(k, v)]
    else if es[0].key == k then
      ReplaceHead(es[0], es[1..], v);
      assert [es[0]] + es[1..] == es;
      [Entry(k, v)] + es[1..]
    else
      var rest := Put(es[1..], k, v);
      PutBehind(es[0], es[1..], rest, k, v);
      assert [es[0]] + es[1..] == es;
      [es[0]] + rest
  }

  /** Keys stay distinct under `Put`, as a Python dict's keys always are. */
  lemma PutKeepsDistinct<K(!new), V>(es: seq<Entry<K, V>>, k: K, v: V)
    requires Distinct(Keys(es))
    ensures Distinct(Keys(Put(es, k, v)))
  {
    var ks := Keys(es);
    if k !in ks {
      var r := ks + [k];
      forall i, j | 0 <= i < j < |r| ensures r[i] != r[j] {
        if j == |ks| {
          assert r[i] == ks[i];
        }
      }
    }
  }

  /** A fresh key is appended at the end. */
  lemma {:induction false} PutFresh<K(!new), V>(es: seq<Entry<K, V>>, k: K, v: V)
    requires k !in Keys(es)
    ensures Put(es, k, v) == es + [Entry(k, v)]
  {
    if es != [] {
      var rest := es[1..];
      KeysTail(es);
      assert es[0].key != k && k !in Keys(rest);
      PutStep(es, k, v);
      PutFresh(rest, k, v);
      ConsSnoc(es, Entry(k, v));
    }
  }

  lemma PutStep<K(!new), V>(es: seq<Entry<K, V>>, k: K, v: V)
    requires es != [] && es[0].key != k
    ensures Put(es, k, v) == [es[0]] + Put(es[1..], k, v)
  {
  }

  /** Overwriting the value of the first entry. */
  lemma ReplaceHead<K(!new), V>(e: Entry<K, V>, tail: seq<Entry<K, V>>, v: V)
    ensures Get([Entry(e.key, v)] + tail, e.key) == Some(v)
    ensures forall k' :: k' != e.key ==> Get([Entry(e.key, v)] + tail, k') == Get([e] + tail, k')
    ensures Keys([Entry(e.key, v)] + tail) == Keys([e] + tail)
  {
    assert ([Entry(e.key, v)] + tail)[1..] == tail == ([e] + tail)[1..];
  }

  /** A put behind a first entry with another key leaves that entry in front. */
  lemma PutBehind<K(!new), V>(e: Entry<K, V>, tail: seq<Entry<K, V>>, rest: seq<Entry<K, V>>, k: K, v: V)
    requires e.key != k
    requires Get(rest, k) == Some(v)
    requires forall k' :: k' != k ==> Get(rest, k') == Get(tail, k')
    requires Keys(rest) == if k in Keys(tail) then Keys(tail) else Keys(tail) + [k]
    ensures Get([e] + rest, k) == Some(v)
    ensures forall k' :: k' != k ==> Get([e] + rest, k') == Get([e] + tail, k')
    ensures Keys([e] + rest) == if k in Keys([e] + tail) then Keys([e] + tail) else Keys([e] + tail) + [k]
  {
    GetCons(e, rest);
    GetCons(e, tail);
    KeysBehind(e.key, Keys(tail), Keys(rest), k);
    KeysCons(e, rest);
    KeysCons(e, tail);
  }

  lemma KeysBehind<K>(x: K, kt: seq<K>, kr: seq<K>, k: K)
    requires x != k
    requires kr == if k in kt then kt else kt + [k]
    ensures [x] + kr == if k in [x] + kt then [x] + kt else ([x] + kt) + [k]
  {
    assert k in [x] + kt <==> k in kt;
  }

  lemma GetCons<K(!new), V>(e: Entry<K, V>, rest: seq<Entry<K, V>>)
    ensures forall k :: Get([e] + rest, k) == if e.key == k then Some(e.value) else Get(rest, k)
  {
    assert ([e] + rest)[1..] == rest;
  }

  lemma KeysCons<K, V>(e: Entry<K, V>, rest: seq<Entry<K, V>>)
    ensures Keys([e] + rest) == [e.key] + Keys(rest)
  {
    assert ([e] + rest)[1..] == rest;
  }

  lemma ConsSnoc<T>(xs: seq<T>, y: T)
    requires xs != []
    ensures [xs[0]] + (xs[1..] + [y]) == xs + [y]
  {
    assert [xs[0]] + xs[1..] == xs;
  }

  lemma KeysTail<K, V>(es: seq<Entry<K, V>>)
    requires es != []
    ensures Keys(es) == [es[0].key] + Keys(es[1..])
  {
  }


  /** `d.get(k, [])` for a dict of lists. */
  function GetList<K(==,!new), V>(es: seq<Entry<K, seq<V>>>, k: K): seq<V> {
    Get(es, k).GetOr([])
  }

  /** `d.setdefault(k, []).append(v)`. */
  function AppendTo<K(==,!new), V>(es: seq<Entry<K, seq<V>>>, k: K, v: V): (r: seq<Entry<K, seq<V>>>)
    ensures GetList(r, k) == GetList(es, k) + [v]
    ensures forall k' :: k' != k ==> GetList(r, k') == GetList(es, k')
    ensures Keys(r) == if k in Keys(es) then Keys(es) else Keys(es) + [k]
  {
    Put(es, k, GetList(es, k) + [v])
  }

  /** `sum(len(xs) for xs in d.values())`. */
  function TotalSize<K, V>(es: seq<Entry<K, seq<V>>>): nat {
    if es == [] then 0 else |es[0].value| + TotalSize(es[1..])
  }

  /** Appending one item to one list grows the total by exactly one. */
  lemma {:induction false} AppendToSize<K(!new), V>(es: seq<Entry<K, seq<V>>>, k: K, v: V)
    ensures TotalSize(AppendTo(es, k, v)) == TotalSize(es) + 1
  {
    if es == [] {
    } else if es[0].key == k {
      assert AppendTo(es, k, v)[1..] == es[1..];
    } else {
      AppendToSize(es[1..], k, v);
      assert AppendTo(es, k, v) == [es[0]] + AppendTo(es[1..], k, v);
      assert (([es[0]] + AppendTo(es[1..], k, v)))[1..] == AppendTo(es[1..], k, v);
    }
  }

  /** The keys of `xs`, in the order they are first seen. */
  function FirstSeen<K(==,!new)>(xs: seq<K>): (r: seq<K>)
    ensures Distinct(r)
    ensures forall x :: x in r <==> x in xs
  {
    if xs == [] then []
    else
      var prefix := FirstSeen(xs[..|xs| - 1]);
      assert xs == xs[..|xs| - 1] + [xs[|xs| - 1]];
      if xs[|xs| - 1] in prefix then prefix else prefix + [xs[|xs| - 1]]
  }

  function MapKeys<K, V>(xs: seq<V>, key: V -> K): (r: seq<K>)
    ensures |r| == |xs|
    ensures forall i :: 0 <= i < |xs| ==> r[i] == key(xs[i])
  {
    if xs == [] then [] else MapKeys(xs[..|xs| - 1], key) + [key(xs[|xs| - 1])]
  }

  /** The items of `xs` whose key is `k`, in their original order. */
  function Having<K(==,!new), V>(xs: seq<V>, key: V -> K, k: K): seq<V> {
    if xs == [] then []
    else
      var rest := Having(xs[..|xs| - 1], key, k);
      if key(xs[|xs| - 1]) == k then rest + [xs[|xs| - 1]] else rest
  }

  /** `Having` keeps exactly the items with key `k`. */
  lemma {:induction false} HavingKeyed<K(!new), V>(xs: seq<V>, key: V -> K, k: K)
    ensures forall x :: x in Having(xs, key, k) ==> key(x) == k
    ensures forall i :: 0 <= i < |xs| && key(xs[i]) == k ==> xs[i] in Having(xs, key, k)
  {
    if xs != [] {
      var init := xs[..|xs| - 1];
      HavingKeyed(init, key, k);
      forall i | 0 <= i < |xs| - 1 && key(xs[i]) == k ensures xs[i] in Having(xs, key, k) {
        assert init[i] == xs[i];
      }
    }
  }

  /** The loop `for x in xs: d.setdefault(key(x), []).append(x)` over an empty `d`. */
  function GroupBy<K(==,!new), V>(xs: seq<V>, key: V -> K): seq<Entry<K, seq<V>>> {
    if xs == [] then []
    else AppendTo(GroupBy(xs[..|xs| - 1], key), key(xs[|xs| - 1]), xs[|xs| - 1])
  }

  lemma {:induction false} GroupByList<K(!new), V>(xs: seq<V>, key: V -> K, k: K)
    ensures GetList(GroupBy(xs, key), k) == Having(xs, key, k)
  {
    if xs != [] {
      GroupByList(xs[..|xs| - 1], key, k);
    }
  }

  lemma {:induction false} GroupByKeys<K(!new), V>(xs: seq<V>, key: V -> K)
    ensures Keys(GroupBy(xs, key)) == FirstSeen(MapKeys(xs, key))
  {
    if xs != [] {
      var init := xs[..|xs| - 1];
      var x := xs[|xs| - 1];
      GroupByKeys(init, key);
      assert MapKeys(xs, key)[..|xs| - 1] == MapKeys(init, key);
      assert key(x) in Keys(GroupBy(init, key)) <==> key(x) in MapKeys(init, key);
    }
  }

  lemma {:induction false} GroupBySize<K(!new), V>(xs: seq<V>, key: V -> K)
    ensures TotalSize(GroupBy(xs, key)) == |xs|
  {
    if xs != [] {
      var init := xs[..|xs| - 1];
      GroupBySize(init, key);
      AppendToSize(GroupBy(init, key), key(xs[|xs| - 1]), xs[|xs| - 1]);
    }
  }

  /** Grouping keeps, under each key, exactly the items with that key, in
      their original order; keys appear in first-seen order and every item
      is counted once. */
  lemma GroupByCharacterised<K(!new), V>(xs: seq<V>, key: V -> K)
    ensures forall k :: GetList(GroupBy(xs, key), k) == Having(xs, key, k)
    ensures Keys(GroupBy(xs, key)) == FirstSeen(MapKeys(xs, key))
    ensures TotalSize(GroupBy(xs, key)) == |xs|
  {
    forall k ensures GetList(GroupBy(xs, key), k) == Having(xs, key, k) {
      GroupByList(xs, key, k);
    }
    GroupByKeys(xs, key);
    GroupBySize(xs, key);
  }
}
