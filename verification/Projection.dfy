/** Re-keying a map through an invertible key, and how that commutes with updates. */
module Projection {
  /** `inv` undoes `key` on everything `m` keeps. */
  ghost predicate Inverts<X(!new), K(!new), V>(key: X -> K, inv: K -> X, keep: X -> bool, m: map<X, V>) {
    forall x :: x in m && keep(x) ==> inv(key(x)) == x
  }

  /** The kept entries of `m`, each under its key. */
  ghost function Rekey<X(!new), K(!new), V>(key: X -> K, inv: K -> X, keep: X -> bool, m: map<X, V>): (r: map<K, V>)
    requires Inverts(key, inv, keep, m)
    ensures forall k :: k in r <==> inv(k) in m && keep(inv(k)) && key(inv(k)) == k
    ensures forall k :: k in r ==> r[k] == m[inv(k)]
  {
    map x | x in m && keep(x) :: key(x) := m[x]
  }

  lemma RekeyHolds<X(!new), K(!new), V>(key: X -> K, inv: K -> X, keep: X -> bool, m: map<X, V>, x: X)
    requires Inverts(key, inv, keep, m)
    requires x in m && keep(x)
    ensures key(x) in Rekey(key, inv, keep, m) && Rekey(key, inv, keep, m)[key(x)] == m[x]
  {
    assert inv(key(x)) == x;
  }

  lemma RekeyPut<X(!new), K(!new), V>(key: X -> K, inv: K -> X, keep: X -> bool, m: map<X, V>, x: X, v: V)
    requires Inverts(key, inv, keep, m[x := v])
    ensures Inverts(key, inv, keep, m)
    ensures Rekey(key, inv, keep, m[x := v])
            == if keep(x) then Rekey(key, inv, keep, m)[key(x) := v] else Rekey(key, inv, keep, m)
  {
    var next := m[x := v];
    assert forall y :: y in m ==> y in next;
    assert keep(x) ==> inv(key(x)) == x by { assert x in next; }
    var l, r := Rekey(key, inv, keep, next), Rekey(key, inv, keep, m);
    forall k ensures k in l <==> (keep(x) && k == key(x)) || k in r {}
  }

  lemma RekeyRemove<X(!new), K(!new), V>(key: X -> K, inv: K -> X, keep: X -> bool, m: map<X, V>, x: X)
    requires Inverts(key, inv, keep, m) && inv(key(x)) == x
    ensures Inverts(key, inv, keep, m - {x})
    ensures Rekey(key, inv, keep, m - {x})
            == if keep(x) then Rekey(key, inv, keep, m) - {key(x)} else Rekey(key, inv, keep, m)
  {
    assert forall y :: y in m - {x} ==> y in m;
  }

  /** Filtering entries by value before or after re-keying is the same. */
  lemma RekeyFilter<X(!new), K(!new), V>(key: X -> K, inv: K -> X, keep: X -> bool, m: map<X, V>,
                                         n: map<X, V>, j: map<K, V>, p: V -> bool)
    requires Inverts(key, inv, keep, m)
    requires forall x :: x in n <==> x in m && p(m[x])
    requires forall x :: x in n ==> n[x] == m[x]
    requires forall k :: k in j <==> k in Rekey(key, inv, keep, m) && p(Rekey(key, inv, keep, m)[k])
    requires forall k :: k in j ==> j[k] == Rekey(key, inv, keep, m)[k]
    ensures Inverts(key, inv, keep, n)
    ensures Rekey(key, inv, keep, n) == j
  {}
}
