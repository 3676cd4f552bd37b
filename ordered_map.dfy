/** A JavaScript `Map`: a finite map that remembers the order in which keys were first inserted. */
module OrderedMaps {

  datatype OrderedMap<K, V> = OrderedMap(keys: seq<K>, values: map<K, V>)

  /** Keys are listed once each, and exactly the keys of the map are listed. */
  ghost predicate Valid<K, V>(m: OrderedMap<K, V>) {
    && (forall i, j | 0 <= i < j < |m.keys| :: m.keys[i] != m.keys[j])
    && (forall k | k in m.values :: k in m.keys)
    && (forall i | 0 <= i < |m.keys| :: m.keys[i] in m.values)
  }

  function Empty<K, V>(): (m: OrderedMap<K, V>)
    ensures Valid(m) && m.values == map[]
  {
    OrderedMap([], map[])
  }

  /** `m.set(k, v)`: overwrites in place when `k` is present, appends it otherwise. */
  function Set<K(==), V>(m: OrderedMap<K, V>, k: K, v: V): (r: OrderedMap<K, V>)
    requires Valid(m)
    ensures Valid(r)
    ensures r.values == m.values[k := v]
    ensures k in m.values ==> r.keys == m.keys
    ensures k !in m.values ==> r.keys == m.keys + [k]
  {
    if k in m.values then OrderedMap(m.keys, m.values[k := v])
    else OrderedMap(m.keys + [k], m.values[k := v])
  }

  /** The key sequence with every occurrence of `k` removed. */
  function Without<K(==)>(s: seq<K>, k: K): (r: seq<K>)
    ensures forall x | x in r :: x in s && x != k
    ensures forall i | 0 <= i < |s| && s[i] != k :: s[i] in r
    ensures |r| <= |s|
  {
    if |s| == 0 then []
    else if s[0] == k then Without(s[1..], k)
    else [s[0]] + Without(s[1..], k)
  }

  /** Removal goes key by key: on a concatenation it removes from each part and keeps the parts in
      order, so the remaining keys keep their relative order. */
  lemma {:induction false} WithoutAppend<K>(a: seq<K>, b: seq<K>, k: K)
    ensures Without(a + b, k) == Without(a, k) + Without(b, k)
  {
    if |a| == 0 {
      assert a + b == b;
    } else {
      assert (a + b)[0] == a[0] && (a + b)[1..] == a[1..] + b;
      WithoutAppend(a[1..], b, k);
    }
  }

  /** A sequence without `k` is left as it is. */
  lemma {:induction false} WithoutAbsent<K>(s: seq<K>, k: K)
    requires k !in s
    ensures Without(s, k) == s
  {
    if |s| > 0 {
      assert s == [s[0]] + s[1..];
      WithoutAbsent(s[1..], k);
    }
  }

  /** Removing a key from distinct keys leaves them distinct. */
  lemma {:induction false} WithoutDistinct<K>(s: seq<K>, k: K)
    requires forall i, j | 0 <= i < j < |s| :: s[i] != s[j]
    ensures forall i, j | 0 <= i < j < |Without(s, k)| :: Without(s, k)[i] != Without(s, k)[j]
  {
    if |s| > 0 {
      var t := s[1..];
      assert forall i, j | 0 <= i < j < |t| :: t[i] != t[j] by {
        forall i, j | 0 <= i < j < |t| ensures t[i] != t[j] {
          assert t[i] == s[i + 1] && t[j] == s[j + 1];
        }
      }
      WithoutDistinct(t, k);
      if s[0] != k {
        assert s[0] !in t by {
          forall j | 0 <= j < |t| ensures t[j] != s[0] { assert t[j] == s[j + 1]; }
        }
        var w := Without(t, k);
        var r := [s[0]] + w;
        forall i, j | 0 <= i < j < |r| ensures r[i] != r[j] {
          if i == 0 { assert r[j] == w[j - 1] && r[j] in t; }
          else { assert r[i] == w[i - 1] && r[j] == w[j - 1]; }
        }
      }
    }
  }

  /** `m.delete(k)`: drops the key and its value; absent keys leave the map as it was. */
  function Delete<K(==), V>(m: OrderedMap<K, V>, k: K): (r: OrderedMap<K, V>)
    requires Valid(m)
    ensures Valid(r)
    ensures r.values == m.values - {k}
    ensures k !in m.values ==> r == m
    ensures r.keys == Without(m.keys, k)
  {
    WithoutDistinct(m.keys, k);
    var w := Without(m.keys, k);
    assert forall x | x in w :: x in m.values by {
      forall x | x in w ensures x in m.values {
        var i :| 0 <= i < |m.keys| && m.keys[i] == x;
      }
    }
    if k !in m.values then
      assert k !in m.keys;
      WithoutAbsent(m.keys, k);
      m
    else OrderedMap(w, m.values - {k})
  }
}
