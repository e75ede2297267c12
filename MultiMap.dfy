/**
 * A `defaultdict(set)` as a Dafny value: a map whose absent keys read as the
 * empty set, with the updates the dependency cache applies to it.
 */
module MultiMap {

  /** `d[k]` on a defaultdict(set): an absent key reads as the empty set. */
  function Get<K, V>(m: map<K, set<V>>, k: K): set<V>
  {
    if k in m then m[k] else {}
  }

  /** `d[k].add(v)`. */
  function Add<K, V>(m: map<K, set<V>>, k: K, v: V): map<K, set<V>>
  {
    m[k := Get(m, k) + {v}]
  }

  /** `d[k].update(vs)`, or equally `d[k] = d[k].union(vs)`. */
  function Update<K, V>(m: map<K, set<V>>, k: K, vs: set<V>): map<K, set<V>>
  {
    m[k := Get(m, k) + vs]
  }

  /** The map after `d[k].add(v)` for every `k` of `ks`, in any order. */
  function AddToAll<K, V>(m: map<K, set<V>>, ks: set<K>, v: V): map<K, set<V>>
  {
    map k | k in m.Keys + ks :: Get(m, k) + (if k in ks then {v} else {})
  }

  /** The elements of a list, as a set. */
  function Elems<T>(s: seq<T>): set<T>
  {
    set x | x in s
  }

  lemma ElemsStep<T>(s: seq<T>, j: nat)
    requires j < |s|
    ensures Elems(s[..j + 1]) == Elems(s[..j]) + {s[j]}
  {
    assert s[..j + 1] == s[..j] + [s[j]];
  }

  /** The entries of `m` whose keys are in `ks`. */
  function Restrict<K, V>(m: map<K, V>, ks: set<K>): map<K, V>
  {
    map k | k in m && k in ks :: m[k]
  }

  /** Every value stored under some key of `m`. */
  function Flatten<K, V>(m: map<K, set<V>>): set<V>
  {
    set k, v | k in m && v in m[k] :: v
  }

  /** The reverse index of `m`: each value maps to every key it is stored under. */
  function Invert<K, V>(m: map<K, set<V>>): (r: map<V, set<K>>)
    ensures r.Keys == Flatten(m)
  {
    map v | v in Flatten(m) :: set k | k in m && v in m[k]
  }

  lemma InvertEmpty<K, V>(m: map<K, set<V>>)
    requires m == map[]
    ensures Invert(m) == map[]
  {
  }

  /** A key is filed under a value of the reverse index exactly when the value is stored under the key. */
  lemma InvertMembership<K, V>(m: map<K, set<V>>, k: K, v: V)
    ensures (v in Invert(m) && k in Invert(m)[v]) <==> (k in m && v in m[k])
  {
    if k in m && v in m[k] {
      assert v in Flatten(m);
    }
  }

  lemma AddToAllNothing<K, V>(m: map<K, set<V>>, v: V)
    ensures AddToAll(m, {}, v) == m
  {
    var r := AddToAll(m, {}, v);
    assert r.Keys == m.Keys;
    forall k | k in m ensures r[k] == m[k] { }
  }

  /** Adding `v` under one more key extends the key set of `AddToAll`. */
  lemma {:induction false} AddToAllStep<K, V>(m: map<K, set<V>>, ks: set<K>, k: K, v: V)
    ensures Add(AddToAll(m, ks, v), k, v) == AddToAll(m, ks + {k}, v)
  {
    var a := Add(AddToAll(m, ks, v), k, v);
    var b := AddToAll(m, ks + {k}, v);
    assert a.Keys == b.Keys;
    forall x | x in a ensures a[x] == b[x] { }
  }

  /** Adding `v` under `ks1` and then under `ks2` is adding it under both. */
  lemma AddToAllUnion<K, V>(m: map<K, set<V>>, ks1: set<K>, ks2: set<K>, v: V)
    ensures AddToAll(AddToAll(m, ks1, v), ks2, v) == AddToAll(m, ks1 + ks2, v)
  {
    var a := AddToAll(AddToAll(m, ks1, v), ks2, v);
    var b := AddToAll(m, ks1 + ks2, v);
    assert a.Keys == b.Keys;
    forall x | x in a ensures a[x] == b[x] { }
  }

  /** Storing a new entry under key `k` adds `k` to the reverse index under each of its values. */
  lemma {:induction false} InvertAdd<K, V>(m: map<K, set<V>>, k: K, vs: set<V>)
    requires k in m ==> m[k] == vs
    ensures Invert(m[k := vs]) == AddToAll(Invert(m), vs, k)
  {
    var a := Invert(m[k := vs]);
    var b := AddToAll(Invert(m), vs, k);
    forall v ensures v in a <==> v in b {
      if v in vs {
        assert k in m[k := vs] && v in m[k := vs][k];
        assert v in Flatten(m[k := vs]);
      } else if v in Flatten(m) {
        var k' :| k' in m && v in m[k'];
        assert k' in m[k := vs] && v in m[k := vs][k'];
        assert v in Flatten(m[k := vs]);
      }
    }
    assert a.Keys == b.Keys;
    forall v | v in a ensures a[v] == b[v] {
      forall x ensures x in a[v] <==> x in b[v] {
        InvertMembership(m[k := vs], x, v);
        InvertMembership(m, x, v);
      }
    }
  }
}
