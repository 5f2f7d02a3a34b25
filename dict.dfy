/** The .NET `Dictionary<K, V>` as the loader uses it: entries kept in the
    order they were added (nothing is ever removed, and enumeration then
    follows insertion), keys unique, `Add` of a present key an error. */
module Dict {
  import opened Common

  function Keys<K(==), V>(m: seq<(K, V)>): (ks: seq<K>)
    ensures |ks| == |m|
    ensures forall i | 0 <= i < |m| :: ks[i] == m[i].0
  {
    if m == [] then [] else [m[0].0] + Keys(m[1..])
  }

  function Values<K(==), V>(m: seq<(K, V)>): (vs: seq<V>)
    ensures |vs| == |m|
    ensures forall i | 0 <= i < |m| :: vs[i] == m[i].1
  {
    if m == [] then [] else [m[0].1] + Values(m[1..])
  }

  /** `ContainsKey(k)`. */
  predicate HasKey<K(==), V>(m: seq<(K, V)>, k: K) {
    exists i | 0 <= i < |m| :: m[i].0 == k
  }

  predicate UniqueKeys<K(==), V>(m: seq<(K, V)>) {
    forall i, j | 0 <= i < j < |m| :: m[i].0 != m[j].0
  }

  /** `TryGetValue(k, out v)`: the value stored under `k`, if any. */
  function Lookup<K(==), V>(m: seq<(K, V)>, k: K): (r: Option<V>)
    ensures r.Some? <==> HasKey(m, k)
    ensures r.Some? ==> exists i | 0 <= i < |m| :: m[i] == (k, r.value)
  {
    if m == [] then None
    else if m[0].0 == k then Some(m[0].1)
    else
      var r := Lookup(m[1..], k);
      assert r.Some? ==> exists i | 0 <= i < |m[1..]| :: m[1..][i] == (k, r.value);
      assert r.Some? ==> exists i | 0 <= i < |m| :: m[i] == (k, r.value);
      r
  }

  /** With unique keys, the entry at position `i` is what its key looks up. */
  lemma {:induction false} LookupAt<K, V>(m: seq<(K, V)>, i: nat)
    requires UniqueKeys(m) && i < |m|
    ensures Lookup(m, m[i].0) == Some(m[i].1)
  {
    if i > 0 {
      LookupAt(m[1..], i - 1);
    }
  }

  /** `Add(k, v)` of a key not yet present: appended at the end. */
  function Add<K(==), V>(m: seq<(K, V)>, k: K, v: V): (r: seq<(K, V)>)
    requires !HasKey(m, k)
    ensures UniqueKeys(m) ==> UniqueKeys(r)
    ensures Keys(r) == Keys(m) + [k] && Values(r) == Values(m) + [v]
  {
    m + [(k, v)]
  }

  /** The keys after `Add(k, v)` are the old ones and `k`. */
  lemma HasKeyAdd<K, V>(m: seq<(K, V)>, k: K, v: V, k': K)
    requires !HasKey(m, k)
    ensures HasKey(Add(m, k, v), k') <==> HasKey(m, k') || k' == k
  {
    var r := Add(m, k, v);
    if HasKey(m, k') {
      var i :| 0 <= i < |m| && m[i].0 == k';
      assert r[i].0 == k';
    }
    if k' == k {
      assert r[|m|].0 == k;
    }
  }

  /** After `Add(k, v)`, `k` finds `v` and every other key finds what it
      found before. */
  lemma {:induction false} LookupAdd<K, V>(m: seq<(K, V)>, k: K, v: V, k': K)
    requires !HasKey(m, k)
    ensures Lookup(Add(m, k, v), k') == if k' == k then Some(v) else Lookup(m, k')
  {
    if m != [] && m[0].0 != k' {
      assert (m + [(k, v)])[1..] == m[1..] + [(k, v)];
      LookupAdd(m[1..], k, v, k');
    }
  }

  /** Entries with the same multiset have the same keys. */
  lemma SameEntriesSameKeys<K, V>(m: seq<(K, V)>, m': seq<(K, V)>, k: K)
    requires multiset(m) == multiset(m')
    ensures HasKey(m, k) <==> HasKey(m', k)
  {
    if HasKey(m, k) {
      var i :| 0 <= i < |m| && m[i].0 == k;
      assert m[i] in multiset(m');
      var j :| 0 <= j < |m'| && m'[j] == m[i];
    }
    if HasKey(m', k) {
      var i :| 0 <= i < |m'| && m'[i].0 == k;
      assert m'[i] in multiset(m);
      var j :| 0 <= j < |m| && m[j] == m'[i];
    }
  }
}
