/**
  An insertion-ordered map, the model of a JavaScript `Map`: a sequence of
  key/value pairs whose keys are pairwise distinct. Iteration order is the
  order of the sequence; `Set` on a present key keeps that key's position,
  `Set` on a new key appends, and `Delete` removes the pair.
 */
module OrderedMaps {
  import opened Wrappers

  ghost predicate DistinctKeys<K, V>(m: seq<(K, V)>) {
    forall i, j :: 0 <= i < j < |m| ==> m[i].0 != m[j].0
  }

  type OrderedMap<K(==), V> = m: seq<(K, V)> | DistinctKeys(m) witness []

  predicate HasKey<K(==), V>(m: seq<(K, V)>, k: K) {
    exists i :: 0 <= i < |m| && m[i].0 == k
  }

  /** The keys in iteration order. */
  function Keys<K, V>(m: seq<(K, V)>): (ks: seq<K>)
    ensures |ks| == |m|
    ensures forall i :: 0 <= i < |m| ==> ks[i] == m[i].0
  {
    if |m| == 0 then [] else [m[0].0] + Keys(m[1..])
  }

  /** The position of `k`, if present: the first (with distinct keys, the only) pair holding it. */
  function Find<K(==), V>(m: seq<(K, V)>, k: K): (r: Option<nat>)
    ensures r.None? <==> !HasKey(m, k)
    ensures r.Some? ==> r.value < |m| && m[r.value].0 == k
    ensures r.Some? ==> forall i :: 0 <= i < r.value ==> m[i].0 != k
  {
    if |m| == 0 then None
    else if m[0].0 == k then Some(0)
    else
      match Find(m[1..], k)
      case None => None
      case Some(j) => Some(j + 1)
  }

  /** `Map.prototype.get`: the value stored under `k`, or absent. */
  function Get<K(==), V>(m: OrderedMap<K, V>, k: K): (r: Option<V>)
    ensures r.None? <==> !HasKey(m, k)
    ensures forall i :: 0 <= i < |m| && m[i].0 == k ==> r == Some(m[i].1)
  {
    match Find(m, k)
    case None => None
    case Some(i) => Some(m[i].1)
  }

  /** `Map.prototype.set`: overwrite in place when `k` is present, append otherwise. */
  function Set<K(==), V>(m: OrderedMap<K, V>, k: K, v: V): (r: OrderedMap<K, V>)
    ensures Keys(r) == if HasKey(m, k) then Keys(m) else Keys(m) + [k]
    ensures forall p :: p in r ==> p == (k, v) || p in m
  {
    match Find(m, k)
    case Some(i) =>
      assert forall a :: 0 <= a < |m| ==> m[i := (k, v)][a].0 == m[a].0;
      m[i := (k, v)]
    case None =>
      assert forall a :: 0 <= a < |m| ==> (m + [(k, v)])[a] == m[a];
      m + [(k, v)]
  }

  /** `Map.prototype.delete`: drop the pair holding `k`; every other pair keeps its relative order. */
  function Delete<K(==), V>(m: OrderedMap<K, V>, k: K): (r: OrderedMap<K, V>)
    ensures forall i :: 0 <= i < |m| && m[i].0 == k ==> r == m[..i] + m[i + 1..]
    ensures !HasKey(m, k) ==> r == m
    ensures forall p :: p in r ==> p in m
  {
    match Find(m, k)
    case None => m
    case Some(i) =>
      RemoveAtKeepsDistinct(m, i);
      m[..i] + m[i + 1..]
  }

  lemma RemoveAtKeepsDistinct<K, V>(m: seq<(K, V)>, i: nat)
    requires DistinctKeys(m) && i < |m|
    ensures DistinctKeys(m[..i] + m[i + 1..])
  {
    var r := m[..i] + m[i + 1..];
    forall a, b | 0 <= a < b < |r| ensures r[a].0 != r[b].0 {
      var a' := if a < i then a else a + 1;
      var b' := if b < i then b else b + 1;
      assert r[a] == m[a'] && r[b] == m[b'];
    }
  }

  /** After `Set`, `k` maps to `v` and every other key reads as before. */
  lemma SetGet<K, V>(m: OrderedMap<K, V>, k: K, v: V, k': K)
    ensures Get(Set(m, k, v), k') == if k' == k then Some(v) else Get(m, k')
  {
    var r := Set(m, k, v);
    match Find(m, k)
    case Some(i) =>
      assert r[i] == (k, v);
      if k' != k {
        if HasKey(m, k') {
          var j :| 0 <= j < |m| && m[j].0 == k';
          assert r[j] == m[j];
        } else {
          assert !HasKey(r, k') by {
            forall j | 0 <= j < |r| ensures r[j].0 != k' {
              if j != i { assert r[j] == m[j]; }
            }
          }
        }
      }
    case None =>
      assert r[|m|] == (k, v);
      if k' != k {
        if HasKey(m, k') {
          var j :| 0 <= j < |m| && m[j].0 == k';
          assert r[j] == m[j];
        } else {
          assert !HasKey(r, k') by {
            forall j | 0 <= j < |r| ensures r[j].0 != k' {
              if j < |m| { assert r[j] == m[j]; }
            }
          }
        }
      }
  }

  /** After `Delete`, `k` is absent and every other key reads as before. */
  lemma DeleteGet<K, V>(m: OrderedMap<K, V>, k: K, k': K)
    ensures Get(Delete(m, k), k') == if k' == k then None else Get(m, k')
  {
    var r := Delete(m, k);
    match Find(m, k)
    case Some(i) =>
      if k' == k {
        assert !HasKey(r, k) by {
          forall j | 0 <= j < |r| ensures r[j].0 != k {
            if j < i { assert r[j] == m[j]; } else { assert r[j] == m[j + 1]; }
          }
        }
      } else if HasKey(m, k') {
        var j :| 0 <= j < |m| && m[j].0 == k';
        if j < i { assert r[j] == m[j]; } else { assert r[j - 1] == m[j]; }
      } else {
        assert !HasKey(r, k') by {
          forall j | 0 <= j < |r| ensures r[j].0 != k' {
            if j < i { assert r[j] == m[j]; } else { assert r[j] == m[j + 1]; }
          }
        }
      }
    case None =>
  }
}
