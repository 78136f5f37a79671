/** Maps kept in ascending order of their keys, as `BTreeMap` iterates over them. */
module SortedMaps {
  import opened Names

  datatype Option<+T> = None | Some(value: T)

  datatype Entry<+V> = Entry(key: string, value: V)

  predicate Ascending<V>(m: seq<Entry<V>>) {
    forall i, j :: 0 <= i < j < |m| ==> Before(m[i].key, m[j].key)
  }

  function Find<V>(m: seq<Entry<V>>, k: string): Option<V> {
    if m == [] then None else if m[0].key == k then Some(m[0].value) else Find(m[1..], k)
  }

  function GetOr<V>(m: seq<Entry<V>>, k: string, default: V): V {
    var found := Find(m, k);
    if found.Some? then found.value else default
  }

  function Put<V>(m: seq<Entry<V>>, k: string, v: V): seq<Entry<V>> {
    if m == [] then [Entry(k, v)]
    else if m[0].key == k then [Entry(k, v)] + m[1..]
    else if Before(k, m[0].key) then [Entry(k, v)] + m
    else [m[0]] + Put(m[1..], k, v)
  }

  lemma {:induction false} PutKeepsOrder<V>(m: seq<Entry<V>>, k: string, v: V)
    requires Ascending(m)
    ensures Ascending(Put(m, k, v))
    ensures forall e :: e in Put(m, k, v) ==> e == Entry(k, v) || e in m
    decreases |m|
  {
    if m != [] && m[0].key != k {
      BeforeTotal(k, m[0].key);
      if Before(k, m[0].key) {
        forall i | 0 < i < |m| ensures Before(k, m[i].key) {
          BeforeTransitive(k, m[0].key, m[i].key);
        }
      } else {
        PutKeepsOrder(m[1..], k, v);
        forall e | e in Put(m[1..], k, v) ensures Before(m[0].key, e.key) {
        }
      }
    }
  }

  lemma {:induction false} FindPut<V>(m: seq<Entry<V>>, k: string, v: V, x: string)
    ensures Find(Put(m, k, v), x) == if x == k then Some(v) else Find(m, x)
    decreases |m|
  {
    if m != [] && m[0].key != k && !Before(k, m[0].key) {
      FindPut(m[1..], k, v, x);
    }
    assert x != k ==> m != [] ==> ([Entry(k, v)] + m[1..])[1..] == m[1..];
    assert ([Entry(k, v)] + m)[1..] == m;
  }

  /** Putting a key in range order finds an equal key if there is one. */
  lemma {:induction false} FindAbsent<V>(m: seq<Entry<V>>, k: string)
    requires Ascending(m) && (m == [] || Before(k, m[0].key))
    ensures Find(m, k).None?
    decreases |m|
  {
    if m != [] {
      BeforeTotal(k, m[0].key);
      if |m| > 1 {
        BeforeTransitive(k, m[0].key, m[1].key);
      }
      FindAbsent(m[1..], k);
    }
  }

  lemma {:induction false} FindEntry<V>(m: seq<Entry<V>>, k: string)
    requires Ascending(m)
    ensures forall v :: Find(m, k) == Some(v) <==> Entry(k, v) in m
    decreases |m|
  {
    if m != [] {
      if m[0].key == k {
        FindAbsent(m[1..], k);
        FindEntry(m[1..], k);
      } else {
        FindEntry(m[1..], k);
      }
      assert m == [m[0]] + m[1..];
    }
  }
}
