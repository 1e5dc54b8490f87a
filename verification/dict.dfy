/**
  Python's insertion-ordered `dict`, as a sequence of (key, value) entries.
  Assigning to a present key replaces its value in place; assigning to a new
  key appends an entry.
 */
module Dict {
  import opened Wrappers

  type Dict<K, V> = seq<(K, V)>

  function Keys<K, V>(d: Dict<K, V>): (ks: seq<K>)
    ensures |ks| == |d|
    ensures forall i :: 0 <= i < |d| ==> ks[i] == d[i].0
  {
    seq(|d|, i requires 0 <= i < |d| => d[i].0)
  }

  predicate Distinct<K(==)>(ks: seq<K>) {
    forall i, j :: 0 <= i < j < |ks| ==> ks[i] != ks[j]
  }

  /** `d[k]`, or None when `k` is not a key. */
  function Lookup<K(==), V>(d: Dict<K, V>, k: K): (r: Option<V>)
    ensures r.Some? <==> k in Keys(d)
    ensures r.Some? ==> exists i :: 0 <= i < |d| && d[i] == (k, r.value)
  {
    if |d| == 0 then None
    else if d[0].0 == k then Some(d[0].1)
    else
      assert Keys(d) == [d[0].0] + Keys(d[1..]);
      Lookup(d[1..], k)
  }

  /** `d[k] = v`. */
  function Assign<K(==), V>(d: Dict<K, V>, k: K, v: V): (r: Dict<K, V>)
    // a present key keeps its position; a new key goes last
    ensures |r| == if k in Keys(d) then |d| else |d| + 1
  {
    if |d| == 0 then [(k, v)]
    else if d[0].0 == k then [(k, v)] + d[1..]
    else
      assert Keys(d) == [d[0].0] + Keys(d[1..]);
      [d[0]] + Assign(d[1..], k, v)
  }

  lemma KeysCons<K, V>(e: (K, V), d: Dict<K, V>)
    ensures Keys([e] + d) == [e.0] + Keys(d)
  {
  }

  lemma LookupCons<K, V>(e: (K, V), d: Dict<K, V>, k: K)
    ensures Lookup([e] + d, k) == if e.0 == k then Some(e.1) else Lookup(d, k)
  {
    assert ([e] + d)[1..] == d;
  }

  /** After `d[k] = v`, `k` maps to `v` and every other key keeps its value. */
  lemma {:induction false} AssignLookup<K, V>(d: Dict<K, V>, k: K, v: V, k': K)
    ensures Lookup(Assign(d, k, v), k') == if k' == k then Some(v) else Lookup(d, k')
    decreases |d|
  {
    if |d| == 0 {
    } else if d[0].0 == k {
      LookupCons((k, v), d[1..], k');
      LookupCons(d[0], d[1..], k');
      assert d == [d[0]] + d[1..];
    } else {
      AssignLookup(d[1..], k, v, k');
      LookupCons(d[0], Assign(d[1..], k, v), k');
      LookupCons(d[0], d[1..], k');
      assert d == [d[0]] + d[1..];
    }
  }

  /** `d[k] = v` keeps a present key in place and appends a new one. */
  lemma {:induction false} AssignKeyOrder<K, V>(d: Dict<K, V>, k: K, v: V)
    ensures k in Keys(d) ==> Keys(Assign(d, k, v)) == Keys(d)
    ensures k !in Keys(d) ==> Keys(Assign(d, k, v)) == Keys(d) + [k]
    decreases |d|
  {
    if |d| == 0 {
    } else {
      KeysCons(d[0], d[1..]);
      assert d == [d[0]] + d[1..];
      if d[0].0 == k {
        KeysCons((k, v), d[1..]);
      } else {
        AssignKeyOrder(d[1..], k, v);
        KeysCons(d[0], Assign(d[1..], k, v));
      }
    }
  }

  /** The members of `s + [x]` are those of `s` and `x`. */
  lemma MembersSnoc<T>(s: seq<T>, x: T)
    ensures forall k :: k in s + [x] <==> k in s || k == x
  {
  }

  /** Appending a fresh key keeps a key sequence distinct. */
  lemma DistinctSnoc<K>(ks: seq<K>, k: K)
    requires Distinct(ks) && k !in ks
    ensures Distinct(ks + [k])
  {
    var ks' := ks + [k];
    forall i, j | 0 <= i < j < |ks'|
      ensures ks'[i] != ks'[j]
    {
      assert ks'[i] == ks[i];
      if j < |ks| {
        assert ks'[j] == ks[j];
      }
    }
  }

  /** `d[k] = v` keeps a present key in place and appends a new one; keys stay distinct. */
  lemma {:induction false} AssignKeys<K, V>(d: Dict<K, V>, k: K, v: V)
    ensures k in Keys(d) ==> Keys(Assign(d, k, v)) == Keys(d)
    ensures k !in Keys(d) ==> Keys(Assign(d, k, v)) == Keys(d) + [k]
    ensures Distinct(Keys(d)) ==> Distinct(Keys(Assign(d, k, v)))
  {
    AssignKeyOrder(d, k, v);
    if Distinct(Keys(d)) && k !in Keys(d) {
      DistinctSnoc(Keys(d), k);
    }
  }

  /** Assigning a new key appends exactly one entry. */
  lemma {:induction false} AssignAppends<K, V>(d: Dict<K, V>, k: K, v: V)
    requires k !in Keys(d)
    ensures Assign(d, k, v) == d + [(k, v)]
    decreases |d|
  {
    if |d| > 0 {
      KeysCons(d[0], d[1..]);
      assert d == [d[0]] + d[1..];
      AssignAppends(d[1..], k, v);
    }
  }
}
