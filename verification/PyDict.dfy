// Python dictionaries: key-value pairs in insertion order, no key twice.
module PyDict {
  import opened Wrappers

  type Dict<K, V> = seq<(K, V)>

  ghost predicate Distinct<K, V>(d: Dict<K, V>) {
    forall i, j :: 0 <= i < j < |d| ==> d[i].0 != d[j].0
  }

  function Keys<K, V>(d: Dict<K, V>): (keys: set<K>) {
    set i | 0 <= i < |d| :: d[i].0
  }

  function Get<K(==), V>(d: Dict<K, V>, k: K): (r: Option<V>)
    ensures r.Some? <==> k in Keys(d)
    ensures r.Some? ==> (k, r.value) in d
  {
    if d == [] then None
    else if d[0].0 == k then Some(d[0].1)
    else
      KeysCons(d);
      Get(d[1..], k)
  }

  lemma KeysCons<K, V>(d: Dict<K, V>)
    requires d != []
    ensures Keys(d) == {d[0].0} + Keys(d[1..])
  {
    assert d == [d[0]] + d[1..];
    forall k | k in Keys(d)
      ensures k == d[0].0 || k in Keys(d[1..])
    {
      var i :| 0 <= i < |d| && d[i].0 == k;
      assert i > 0 ==> d[1..][i - 1].0 == k;
    }
    forall k | k in Keys(d[1..])
      ensures k in Keys(d)
    {
      var i :| 0 <= i < |d[1..]| && d[1..][i].0 == k;
      assert d[i + 1].0 == k;
    }
  }

  // d[k] = v: a known key keeps its place, a new one goes last.
  function Put<K(==), V>(d: Dict<K, V>, k: K, v: V): (r: Dict<K, V>)
  {
    if d == [] then [(k, v)]
    else if d[0].0 == k then [(k, v)] + d[1..]
    else [d[0]] + Put(d[1..], k, v)
  }

  function KeyOrder<K, V>(d: Dict<K, V>): (keys: seq<K>)
    ensures |keys| == |d| && forall i :: 0 <= i < |d| ==> keys[i] == d[i].0
  {
    seq(|d|, i requires 0 <= i < |d| => d[i].0)
  }

  function Extended<K(==)>(keys: seq<K>, k: K): seq<K> {
    if k in keys then keys else keys + [k]
  }

  lemma {:induction false} PutKeyOrder<K, V>(d: Dict<K, V>, k: K, v: V)
    ensures KeyOrder(Put(d, k, v)) == Extended(KeyOrder(d), k)
  {
    hide KeyOrder;
    if d == [] {
      KeyOrderCons(Put(d, k, v));
    } else {
      KeyOrderCons(d);
      KeyOrderCons(Put(d, k, v));
      if d[0].0 == k {
        assert Put(d, k, v)[1..] == d[1..];
      } else {
        PutKeyOrder(d[1..], k, v);
        assert Put(d, k, v)[1..] == Put(d[1..], k, v);
        ConsSnoc(d[0].0, KeyOrder(d[1..]), k);
      }
    }
  }

  lemma KeyOrderCons<K, V>(d: Dict<K, V>)
    requires d != []
    ensures KeyOrder(d) == [d[0].0] + KeyOrder(d[1..])
  {
  }

  lemma ConsSnoc<K>(first: K, rest: seq<K>, k: K)
    requires k != first
    ensures Extended([first] + rest, k) == [first] + Extended(rest, k)
  {
    assert ([first] + rest) + [k] == [first] + (rest + [k]);
  }

  // del d[k], without the error for a missing key.
  function Remove<K(==), V>(d: Dict<K, V>, k: K): (r: Dict<K, V>)
  {
    if d == [] then []
    else if d[0].0 == k then d[1..]
    else [d[0]] + Remove(d[1..], k)
  }

  lemma {:induction false} PutMeaning<K, V>(d: Dict<K, V>, k: K, v: V)
    requires Distinct(d)
    ensures Distinct(Put(d, k, v))
    ensures Keys(Put(d, k, v)) == Keys(d) + {k}
    ensures forall x :: Get(Put(d, k, v), x) == if x == k then Some(v) else Get(d, x)
  {
    if d == [] {
      KeysCons([(k, v)]);
    } else {
      var r := Put(d, k, v);
      KeysCons(d);
      KeysCons(r);
      DistinctTail(d);
      if d[0].0 == k {
        assert r[1..] == d[1..];
        DistinctCons(r);
      } else {
        PutMeaning(d[1..], k, v);
        assert r[1..] == Put(d[1..], k, v);
        DistinctCons(r);
      }
    }
  }

  lemma {:induction false} RemoveMeaning<K, V>(d: Dict<K, V>, k: K)
    requires Distinct(d)
    ensures Distinct(Remove(d, k))
    ensures Keys(Remove(d, k)) == Keys(d) - {k}
    ensures forall x :: Get(Remove(d, k), x) == if x == k then None else Get(d, x)
  {
    if d != [] {
      var r := Remove(d, k);
      KeysCons(d);
      DistinctTail(d);
      if d[0].0 != k {
        RemoveMeaning(d[1..], k);
        KeysCons(r);
        assert r[1..] == Remove(d[1..], k);
        DistinctCons(r);
      }
    }
  }

  lemma DistinctTail<K, V>(d: Dict<K, V>)
    requires Distinct(d) && d != []
    ensures Distinct(d[1..]) && d[0].0 !in Keys(d[1..])
  {
  }

  lemma DistinctCons<K, V>(d: Dict<K, V>)
    requires d != [] && Distinct(d[1..]) && d[0].0 !in Keys(d[1..])
    ensures Distinct(d)
  {
    forall i, j | 0 <= i < j < |d|
      ensures d[i].0 != d[j].0
    {
      assert d[j] == d[1..][j - 1];
      if i > 0 {
        assert d[i] == d[1..][i - 1];
      }
    }
  }

  lemma {:induction false} GetAt<K, V>(d: Dict<K, V>, i: nat)
    requires Distinct(d) && i < |d|
    ensures Get(d, d[i].0) == Some(d[i].1)
  {
    if i > 0 {
      DistinctTail(d);
      GetAt(d[1..], i - 1);
    }
  }

  // The entries whose keys are not in ks, in the same order.
  function Without<K(==), V>(d: Dict<K, V>, ks: set<K>): (r: Dict<K, V>)
  {
    if d == [] then []
    else if d[0].0 in ks then Without(d[1..], ks)
    else [d[0]] + Without(d[1..], ks)
  }

  lemma {:induction false} WithoutMeaning<K, V>(d: Dict<K, V>, ks: set<K>)
    requires Distinct(d)
    ensures Distinct(Without(d, ks))
    ensures Keys(Without(d, ks)) == Keys(d) - ks
    ensures forall x :: Get(Without(d, ks), x) == if x in ks then None else Get(d, x)
  {
    if d != [] {
      var r := Without(d, ks);
      KeysCons(d);
      DistinctTail(d);
      WithoutMeaning(d[1..], ks);
      if d[0].0 !in ks {
        KeysCons(r);
        assert r[1..] == Without(d[1..], ks);
        DistinctCons(r);
      }
    }
  }

  // Deleting one more key.
  lemma {:induction false} RemoveFromWithout<K, V>(d: Dict<K, V>, ks: set<K>, k: K)
    requires Distinct(d) && k !in ks
    ensures Remove(Without(d, ks), k) == Without(d, ks + {k})
  {
    if d != [] {
      DistinctTail(d);
      if d[0].0 == k {
        WithoutAbsent(d[1..], ks, k);
        assert ([d[0]] + Without(d[1..], ks))[1..] == Without(d[1..], ks);
      } else {
        RemoveFromWithout(d[1..], ks, k);
        if d[0].0 !in ks {
          assert ([d[0]] + Without(d[1..], ks))[1..] == Without(d[1..], ks);
        }
      }
    }
  }

  lemma {:induction false} WithoutAbsent<K, V>(d: Dict<K, V>, ks: set<K>, k: K)
    requires k !in Keys(d)
    ensures Without(d, ks + {k}) == Without(d, ks)
  {
    if d != [] {
      KeysCons(d);
      WithoutAbsent(d[1..], ks, k);
    }
  }

  lemma {:induction false} WithoutNothing<K, V>(d: Dict<K, V>)
    ensures Without(d, {}) == d
  {
    if d != [] {
      WithoutNothing(d[1..]);
    }
  }
}
