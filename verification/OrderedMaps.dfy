/** Insertion-ordered maps: sequences of entries with distinct keys. */
module OrderedMaps {

  datatype Option<+T> = None | Some(value: T)

  predicate UniqueKeys<K(==), V>(m: seq<(K, V)>) {
    forall i, j :: 0 <= i < j < |m| ==> m[i].0 != m[j].0
  }

  predicate HasKey<K(==), V>(m: seq<(K, V)>, k: K) {
    exists i :: 0 <= i < |m| && m[i].0 == k
  }

  function Keys<K(==), V>(m: seq<(K, V)>): set<K> {
    set i | 0 <= i < |m| :: m[i].0
  }

  function Get<K(==), V>(m: seq<(K, V)>, k: K): (r: Option<V>)
    ensures r.Some? <==> HasKey(m, k)
    ensures r.Some? ==> exists i :: 0 <= i < |m| && m[i] == (k, r.value)
  {
    if m == [] then None
    else if m[0].0 == k then
      assert HasKey(m, k);
      Some(m[0].1)
    else
      var r := Get(m[1..], k);
      assert HasKey(m[1..], k) <==> HasKey(m, k) by {
        assert forall i :: 0 < i < |m| ==> m[i] == m[1..][i - 1];
      }
      assert r.Some? ==> exists i :: 0 <= i < |m| && m[i] == (k, r.value) by {
        if r.Some? {
          var i :| 0 <= i < |m| - 1 && m[1..][i] == (k, r.value);
          assert m[i + 1] == (k, r.value);
        }
      }
      r
  }

  lemma GetIs<K, V>(m: seq<(K, V)>, i: nat)
    requires UniqueKeys(m) && i < |m|
    ensures Get(m, m[i].0) == Some(m[i].1)
  {
    assert HasKey(m, m[i].0);
  }

  /** Filtering by key keeps order and distinctness. */
  function Drop<K(==), V>(m: seq<(K, V)>, k: K): seq<(K, V)> {
    if m == [] then []
    else if m[0].0 == k then Drop(m[1..], k)
    else [m[0]] + Drop(m[1..], k)
  }

  lemma NotFirst<K, V>(m: seq<(K, V)>, e: (K, V))
    requires m != [] && UniqueKeys(m) && e in m[1..]
    ensures e.0 != m[0].0
  {
    var i :| 0 <= i < |m| - 1 && m[1..][i] == e;
    assert m[i + 1] == e;
  }

  lemma {:induction false} DropEntry<K, V>(m: seq<(K, V)>, k: K, e: (K, V))
    ensures e in Drop(m, k) <==> e in m && e.0 != k
  {
    if m != [] {
      DropEntry(m[1..], k, e);
      assert m == [m[0]] + m[1..];
    }
  }

  lemma {:induction false} DropUnique<K, V>(m: seq<(K, V)>, k: K)
    requires UniqueKeys(m)
    ensures UniqueKeys(Drop(m, k))
  {
    if m != [] {
      var rest := Drop(m[1..], k);
      DropUnique(m[1..], k);
      forall j | 0 <= j < |rest| ensures rest[j].0 != m[0].0 {
        DropEntry(m[1..], k, rest[j]);
        NotFirst(m, rest[j]);
      }
    }
  }

  /** `insert`: a known key keeps its place, a new one goes to the end. */
  function Insert<K(==), V>(m: seq<(K, V)>, k: K, v: V): seq<(K, V)> {
    if m == [] then [(k, v)]
    else if m[0].0 == k then [(k, v)] + m[1..]
    else [m[0]] + Insert(m[1..], k, v)
  }

  lemma {:induction false} InsertEntry<K, V>(m: seq<(K, V)>, k: K, v: V, e: (K, V))
    requires UniqueKeys(m)
    ensures e in Insert(m, k, v) <==> e == (k, v) || (e in m && e.0 != k)
  {
    if m != [] {
      assert m == [m[0]] + m[1..];
      if e in m[1..] {
        NotFirst(m, e);
      }
      InsertEntry(m[1..], k, v, e);
    }
  }

  lemma {:induction false} InsertUnique<K, V>(m: seq<(K, V)>, k: K, v: V)
    requires UniqueKeys(m)
    ensures UniqueKeys(Insert(m, k, v))
  {
    if m != [] && m[0].0 != k {
      var rest := Insert(m[1..], k, v);
      InsertUnique(m[1..], k, v);
      forall j | 0 <= j < |rest| ensures rest[j].0 != m[0].0 {
        InsertEntry(m[1..], k, v, rest[j]);
        if rest[j] in m[1..] {
          NotFirst(m, rest[j]);
        }
      }
    }
  }

  lemma {:induction false} InsertAbsent<K, V>(m: seq<(K, V)>, k: K, v: V)
    requires !HasKey(m, k)
    ensures Insert(m, k, v) == m + [(k, v)]
  {
    if m != [] {
      assert m[0].0 != k;
      forall i | 0 <= i < |m| - 1 ensures m[1..][i].0 != k {
        assert m[i + 1].0 != k;
      }
      InsertAbsent(m[1..], k, v);
    }
  }

  lemma {:induction false} InsertPresent<K, V>(m: seq<(K, V)>, k: K, v: V, i: nat)
    requires UniqueKeys(m) && i < |m| && m[i].0 == k
    ensures Insert(m, k, v) == m[..i] + [(k, v)] + m[i + 1..]
  {
    if i > 0 {
      InsertPresent(m[1..], k, v, i - 1);
    }
  }

  lemma {:induction false} DropInsert<K, V>(m: seq<(K, V)>, k: K, v: V)
    ensures Drop(Insert(m, k, v), k) == Drop(m, k)
  {
    if m == [] {
      assert Insert(m, k, v)[1..] == [];
    } else if m[0].0 == k {
      assert Insert(m, k, v)[1..] == m[1..];
    } else {
      assert Insert(m, k, v)[1..] == Insert(m[1..], k, v);
      DropInsert(m[1..], k, v);
    }
  }

  /** Distinct keys make as many keys as entries. */
  lemma {:induction false} KeyCount<K, V>(m: seq<(K, V)>)
    requires UniqueKeys(m)
    ensures |Keys(m)| == |m|
  {
    if m == [] {
    } else {
      var n := |m| - 1;
      KeyCount(m[..n]);
      assert Keys(m) == Keys(m[..n]) + {m[n].0};
      assert m[n].0 !in Keys(m[..n]);
    }
  }

  lemma {:induction false} SubsetCount<T>(a: set<T>, b: set<T>)
    requires a <= b
    ensures |a| <= |b|
  {
    assert b == a + (b - a);
  }
}
