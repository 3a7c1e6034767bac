/** The mutex-guarded insertion-ordered map. The ordered map behind it is
    represented by its two observable parts: the keys from oldest to newest
    and the key-to-value mapping. Every call is treated as atomic. */
module Syncmap {

  /** No key occurs twice. */
  predicate Distinct<K(==)>(s: seq<K>)
  {
    forall i, j :: 0 <= i < j < |s| ==> s[i] != s[j]
  }

  /** `s` with every occurrence of `k` taken out, the rest in their order. */
  function Without<K(==)>(s: seq<K>, k: K): seq<K>
  {
    if |s| == 0 then []
    else if s[0] == k then Without(s[1..], k)
    else [s[0]] + Without(s[1..], k)
  }

  /** Taking a key out keeps exactly the other keys and keeps them distinct. */
  lemma {:induction false} WithoutElements<K>(s: seq<K>, k: K)
    requires Distinct(s)
    ensures forall x :: x in Without(s, k) <==> x in s && x != k
    ensures Distinct(Without(s, k))
  {
    if |s| > 0 {
      assert Distinct(s[1..]);
      WithoutElements(s[1..], k);
      forall x ensures x in s <==> x == s[0] || x in s[1..] {
        assert s == [s[0]] + s[1..];
      }
      if s[0] != k {
        var w := Without(s[1..], k);
        assert s[0] !in w;
        forall i, j | 0 <= i < j < |[s[0]] + w| ensures ([s[0]] + w)[i] != ([s[0]] + w)[j] {
          if i > 0 {
            assert ([s[0]] + w)[i] == w[i - 1];
          }
        }
      }
    }
  }

  /** Taking out an absent key changes nothing. */
  lemma {:induction false} WithoutAbsent<K>(s: seq<K>, k: K)
    requires k !in s
    ensures Without(s, k) == s
  {
    if |s| > 0 {
      assert k !in s[1..];
      WithoutAbsent(s[1..], k);
    }
  }

  /** Taking out a key that sits at position `p` of a duplicate-free
      sequence closes the gap and leaves every other key in its order. */
  lemma {:induction false} WithoutAt<K>(s: seq<K>, k: K, p: nat)
    requires Distinct(s) && p < |s| && s[p] == k
    ensures Without(s, k) == s[..p] + s[p + 1..]
  {
    if p == 0 {
      assert k !in s[1..];
      WithoutAbsent(s[1..], k);
    } else {
      assert Distinct(s[1..]);
      WithoutAt(s[1..], k, p - 1);
      assert s[..p] == [s[0]] + s[1..][..p - 1];
      assert s[p + 1..] == s[1..][p..];
    }
  }

  /** A duplicate-free sequence has as many elements as the set of its elements. */
  lemma {:induction false} DistinctCardinality<K>(s: seq<K>)
    requires Distinct(s)
    ensures |set x | x in s| == |s|
  {
    if |s| > 0 {
      assert Distinct(s[1..]);
      DistinctCardinality(s[1..]);
      assert (set x | x in s) == (set x | x in s[1..]) + {s[0]};
      assert s[0] !in s[1..];
    }
  }

  /** `keys` lists exactly the keys of `data`. */
  predicate ListsKeys<K(==), V>(keys: seq<K>, data: map<K, V>)
  {
    (forall k :: k in data ==> k in keys) && (forall k :: k in keys ==> k in data)
  }

  /** The keys of a map listed without repetition number as many as its entries. */
  lemma KeyCount<K, V>(keys: seq<K>, data: map<K, V>)
    requires Distinct(keys) && ListsKeys(keys, data)
    ensures |keys| == |data|
  {
    DistinctCardinality(keys);
    assert (set x | x in keys) == data.Keys;
  }

  class SyncMap<K(==), V> {
    /** The keys present, from oldest to newest. */
    var keys: seq<K>
    /** The value stored under each present key. */
    var data: map<K, V>
    /** Go's zero value of the value type, returned when nothing is found. */
    const zero: V

    /** The keys are listed once each, and they are exactly the map's keys. */
    ghost predicate Valid()
      reads this
    {
      Distinct(keys) && ListsKeys(keys, data)
    }

    /** A map whose `Init` has run. */
    constructor (zero: V)
      ensures Valid() && keys == [] && data == map[] && this.zero == zero
    {
      this.zero := zero;
      keys := [];
      data := map[];
    }

    /** `Init`: replaces the contents with an empty ordered map. */
    method Init()
      modifies this
      ensures Valid() && keys == [] && data == map[]
    {
      keys := [];
      data := map[];
    }

    /** `Get`: the stored value and true, or the zero value and false. */
    method Get(key: K) returns (value: V, ok: bool)
      requires Valid()
      ensures ok <==> key in keys
      ensures ok ==> key in data && value == data[key]
      ensures !ok ==> value == zero
    {
      ok := key in data;
      if ok {
        value := data[key];
      } else {
        value := zero;
      }
    }

    /** `First`: the value of the oldest entry still present and true, or the
        zero value and false when the map is empty. */
    method First() returns (value: V, ok: bool)
      requires Valid()
      ensures ok <==> |keys| > 0
      ensures ok ==> keys[0] in data && value == data[keys[0]]
      ensures !ok ==> value == zero && data == map[]
    {
      if |keys| > 0 {
        value, ok := data[keys[0]], true;
      } else {
        value, ok := zero, false;
      }
    }

    /** `GetAll`: walks the entries from oldest to newest collecting the values. */
    method GetAll() returns (list: seq<V>)
      requires Valid()
      ensures |list| == |keys| == |data|
      ensures forall i :: 0 <= i < |list| ==> keys[i] in data && list[i] == data[keys[i]]
    {
      KeyCount(keys, data);
      list := [];
      var i := 0;
      while i < |keys|
        invariant 0 <= i <= |keys|
        invariant |list| == i
        invariant forall j :: 0 <= j < i ==> list[j] == data[keys[j]]
      {
        list := list + [data[keys[i]]];
        i := i + 1;
      }
    }

    /** `GetKeys`: walks the entries from oldest to newest collecting the
        keys; the result has no duplicates and holds exactly the present keys. */
    method GetKeys() returns (list: seq<K>)
      requires Valid()
      ensures list == keys
      ensures |list| == |data|
      ensures Distinct(list)
      ensures forall k :: k in list <==> k in data
    {
      KeyCount(keys, data);
      list := [];
      var i := 0;
      while i < |keys|
        invariant 0 <= i <= |keys|
        invariant list == keys[..i]
      {
        list := list + [keys[i]];
        i := i + 1;
      }
    }

    /** `Set`: stores `value` under `key`. A new key becomes the newest; an
        existing key keeps its place and only its value changes. */
    method Set(key: K, value: V)
      requires Valid()
      modifies this
      ensures Valid()
      ensures data == old(data)[key := value]
      ensures keys == if key in old(data) then old(keys) else old(keys) + [key]
    {
      if key !in data {
        keys := keys + [key];
      }
      data := data[key := value];
    }

    /** `Delete`: removes `key` if present; the other keys keep their order. */
    method Delete(key: K)
      requires Valid()
      modifies this
      ensures Valid()
      ensures data == old(data) - {key}
      ensures keys == Without(old(keys), key)
      ensures key !in old(data) ==> keys == old(keys)
    {
      WithoutElements(keys, key);
      if key !in keys {
        WithoutAbsent(keys, key);
      }
      ghost var previous, before := keys, data;
      keys := Without(keys, key);
      data := data - {key};
      forall k | k in keys ensures k in data {
        WithoutElements(previous, key);
        assert k in previous && k != key;
        assert k in before;
      }
    }

    /** `Clear`: empties the map. */
    method Clear()
      modifies this
      ensures Valid() && keys == [] && data == map[]
    {
      keys := [];
      data := map[];
    }

    /** `Len`: the number of entries, which is also the number of keys listed. */
    method Len() returns (n: int)
      requires Valid()
      ensures n == |data| == |keys|
    {
      KeyCount(keys, data);
      n := |data|;
    }
  }

  /** Setting an existing key again changes its value but not its place:
      after `a`, `b` and then `a` again, the keys are still [a, b] and the
      oldest entry holds the new value. */
  method OverwriteKeepsPlace<K(==), V>(a: K, b: K, va: V, vb: V, va2: V, zero: V) returns (keys: seq<K>, first: V)
    requires a != b
    ensures keys == [a, b]
    ensures first == va2
  {
    var m := new SyncMap<K, V>(zero);
    m.Set(a, va);
    m.Set(b, vb);
    assert m.keys == [a, b] && a in m.data;
    m.Set(a, va2);
    keys := m.GetKeys();
    var ok;
    first, ok := m.First();
  }

  /** A deleted key set again becomes the newest: after `a`, `b`, deleting
      `a` and setting it again, the keys are [b, a]. */
  method ReinsertBecomesNewest<K(==), V>(a: K, b: K, va: V, vb: V, zero: V) returns (keys: seq<K>)
    requires a != b
    ensures keys == [b, a]
  {
    var m := new SyncMap<K, V>(zero);
    m.Set(a, va);
    m.Set(b, vb);
    assert m.keys == [a, b];
    m.Delete(a);
    assert [a, b][1..] == [b];
    assert Without([a, b], a) == Without([b], a);
    WithoutAbsent([b], a);
    m.Set(a, va);
    keys := m.GetKeys();
  }
}
