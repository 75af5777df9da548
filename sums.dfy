/** Sums over finite maps, the specification of the engine's counting loops. */
module Sums {

  /** Some key of a non-empty map (the order the sum takes them in is fixed by this choice). */
  ghost function Pick<K, V>(m: map<K, V>): (k: K)
    requires m != map[]
    ensures k in m
  {
    assert m.Keys != {};
    var k :| k in m; k
  }

  ghost function Sum<K>(m: map<K, nat>): nat
    decreases |m|
  {
    if m == map[] then 0 else m[Pick(m)] + Sum(m - {Pick(m)})
  }

  /** The sum does not depend on which key is taken first. */
  lemma {:induction false} SumRemove<K>(m: map<K, nat>, k: K)
    requires k in m
    ensures Sum(m) == m[k] + Sum(m - {k})
    decreases |m|
  {
    var j := Pick(m);
    if j != k {
      SumRemove(m - {j}, k);
      SumRemove(m - {k}, j);
      assert m - {j} - {k} == m - {k} - {j};
    }
  }

  lemma {:induction false} SumUnion<K>(a: map<K, nat>, b: map<K, nat>)
    requires a.Keys !! b.Keys
    ensures Sum(a + b) == Sum(a) + Sum(b)
    decreases |b|
  {
    if b == map[] {
      assert a + b == a;
    } else {
      var k := Pick(b);
      var rest := b - {k};
      assert a.Keys !! rest.Keys;
      SumUnion(a, rest);
      SumRemove(b, k);
      UnionMinus(a, b, k);
      SumRemove(a + b, k);
    }
  }

  lemma UnionMinus<K>(a: map<K, nat>, b: map<K, nat>, k: K)
    requires k in b && k !in a
    ensures (a + b)[k] == b[k]
    ensures (a + b) - {k} == a + (b - {k})
  {
  }

  lemma SumSingleton<K>(k: K, v: nat)
    ensures Sum(map[k := v]) == v
  {
    SumRemove(map[k := v], k);
    assert map[k := v] - {k} == map[];
  }

  /** The values of a map, each as often as it occurs: what collecting `values()` yields. */
  ghost function Bag<K, V>(m: map<K, V>): multiset<V>
    decreases |m|
  {
    if m == map[] then multiset{} else multiset{m[Pick(m)]} + Bag(m - {Pick(m)})
  }

  lemma {:induction false} BagRemove<K, V>(m: map<K, V>, k: K)
    requires k in m
    ensures Bag(m) == multiset{m[k]} + Bag(m - {k})
    decreases |m|
  {
    var j := Pick(m);
    if j != k {
      var rest := m - {j} - {k};
      assert rest == m - {k} - {j};
      assert Bag(m) == multiset{m[j]} + Bag(m - {j});
      BagRemove(m - {j}, k);
      assert Bag(m - {j}) == multiset{m[k]} + Bag(rest);
      BagRemove(m - {k}, j);
      assert Bag(m - {k}) == multiset{m[j]} + Bag(rest);
    }
  }

  /** A value is in the bag exactly when some key maps to it, and there is one entry per key. */
  lemma BagMembers<K, V>(m: map<K, V>)
    ensures |Bag(m)| == |m|
    ensures forall v :: v in Bag(m) <==> exists k | k in m :: m[k] == v
  {
    BagSize(m);
    forall v | v in Bag(m) ensures exists k | k in m :: m[k] == v {
      BagHasValue(m, v);
    }
    forall k | k in m ensures m[k] in Bag(m) {
      BagRemove(m, k);
    }
  }

  lemma {:induction false} BagSize<K, V>(m: map<K, V>)
    ensures |Bag(m)| == |m|
    decreases |m|
  {
    if m != map[] {
      BagSize(m - {Pick(m)});
    }
  }

  lemma {:induction false} BagHasValue<K, V>(m: map<K, V>, v: V)
    requires v in Bag(m)
    ensures exists k | k in m :: m[k] == v
    decreases |m|
  {
    var j := Pick(m);
    if v != m[j] {
      assert v in Bag(m - {j});
      BagHasValue(m - {j}, v);
      var k :| k in m - {j} && (m - {j})[k] == v;
      assert m[k] == v;
    }
  }
}
