/**
 * A JavaScript `Map<number, V>` as a value: its entries, and its keys in the
 * order they were inserted, which is the order `values()` walks them in. Setting
 * a present key keeps its place; a key set again after a delete goes last.
 */
module JsMaps {
  import opened Wrappers

  datatype OrderedMap<V> = OrderedMap(keys: seq<int>, entries: map<int, V>)

  /** Every key is listed exactly once, and the listed keys are the keys of the entries. */
  ghost predicate Valid<V>(m: OrderedMap<V>) {
    && Distinct(m.keys)
    && (forall i :: 0 <= i < |m.keys| ==> m.keys[i] in m.entries)
    && (forall k :: k in m.entries ==> k in m.keys)
  }

  ghost predicate Distinct(s: seq<int>) {
    forall i, j :: 0 <= i < j < |s| ==> s[i] != s[j]
  }

  ghost predicate Increasing(s: seq<int>) {
    forall i, j :: 0 <= i < j < |s| ==> s[i] < s[j]
  }

  /** `new Map()` */
  function Empty<V>(): (m: OrderedMap<V>)
    ensures Valid(m) && m.keys == [] && m.entries == map[]
  {
    OrderedMap([], map[])
  }

  /** `m.get(k)` */
  function Get<V>(m: OrderedMap<V>, k: int): Option<V> {
    if k in m.entries then Some(m.entries[k]) else None
  }

  /** `m.set(k, v)`: a key already present keeps its place, a new key goes last. */
  function Set<V>(m: OrderedMap<V>, k: int, v: V): (r: OrderedMap<V>)
    requires Valid(m)
    ensures Valid(r)
  {
    if k in m.entries then OrderedMap(m.keys, m.entries[k := v])
    else OrderedMap(m.keys + [k], m.entries[k := v])
  }

  /** `m.delete(k)`: a no-op when `k` is absent. */
  function Delete<V>(m: OrderedMap<V>, k: int): (r: OrderedMap<V>)
    requires Valid(m)
    ensures Valid(r)
  {
    var keys := Without(m.keys, k);
    WithoutKeepsDistinct(m.keys, k);
    assert forall i :: 0 <= i < |keys| ==> keys[i] in keys;
    OrderedMap(keys, m.entries - {k})
  }

  /** The keys of `s` other than `k`, in their order in `s`. */
  function Without(s: seq<int>, k: int): (r: seq<int>)
    ensures forall x :: x in r <==> x in s && x != k
    ensures k !in s ==> r == s
  {
    if s == [] then []
    else if s[0] == k then Without(s[1..], k)
    else [s[0]] + Without(s[1..], k)
  }

  lemma {:induction false} WithoutKeepsDistinct(s: seq<int>, k: int)
    requires Distinct(s)
    ensures Distinct(Without(s, k))
  {
    if s != [] {
      WithoutKeepsDistinct(s[1..], k);
      assert s[0] !in s[1..];
    }
  }

  /** Removing a key from an increasing sequence leaves it increasing. */
  lemma {:induction false} WithoutKeepsIncreasing(s: seq<int>, k: int)
    requires Increasing(s)
    ensures Increasing(Without(s, k))
  {
    if s != [] {
      WithoutKeepsIncreasing(s[1..], k);
      var rest := Without(s[1..], k);
      forall x | x in rest ensures s[0] < x {
        var i :| 0 <= i < |s[1..]| && s[1..][i] == x;
        assert s[i + 1] == x;
      }
      assert forall j :: 0 <= j < |rest| ==> rest[j] in rest;
    }
  }

  /** `Array.from(m.values())`: the entries in key order. */
  function Values<V>(m: OrderedMap<V>): (r: seq<V>)
    requires Valid(m)
    ensures |r| == |m.keys|
    ensures forall i :: 0 <= i < |r| ==> r[i] == m.entries[m.keys[i]]
  {
    ValuesOf(m.keys, m.entries)
  }

  function ValuesOf<V>(keys: seq<int>, entries: map<int, V>): (r: seq<V>)
    requires forall i :: 0 <= i < |keys| ==> keys[i] in entries
    ensures |r| == |keys|
    ensures forall i :: 0 <= i < |r| ==> r[i] == entries[keys[i]]
  {
    if keys == [] then [] else [entries[keys[0]]] + ValuesOf(keys[1..], entries)
  }

  /** Reading back what was just set, and leaving every other key alone. */
  lemma GetAfterSet<V>(m: OrderedMap<V>, k: int, v: V, other: int)
    requires Valid(m)
    ensures Get(Set(m, k, v), k) == Some(v)
    ensures other != k ==> Get(Set(m, k, v), other) == Get(m, other)
  {
  }

  /** A deleted key reads as `undefined`; every other key reads as before. */
  lemma GetAfterDelete<V>(m: OrderedMap<V>, k: int, other: int)
    requires Valid(m)
    ensures Get(Delete(m, k), k) == None
    ensures other != k ==> Get(Delete(m, k), other) == Get(m, other)
  {
  }

  /** Deleting an absent key changes nothing. */
  lemma DeleteAbsent<V>(m: OrderedMap<V>, k: int)
    requires Valid(m) && k !in m.entries
    ensures Delete(m, k) == m
  {
    assert m.entries - {k} == m.entries;
  }

  /** Setting a key that is already present replaces its value in place in the listing. */
  lemma ValuesAfterSetExisting<V>(m: OrderedMap<V>, k: int, v: V)
    requires Valid(m) && k in m.entries
    ensures |Values(Set(m, k, v))| == |Values(m)|
    ensures forall i :: 0 <= i < |Values(m)| ==>
      Values(Set(m, k, v))[i] == if m.keys[i] == k then v else Values(m)[i]
  {
  }

  /** Setting a new key appends its value to the listing. */
  lemma ValuesAfterSetNew<V>(m: OrderedMap<V>, k: int, v: V)
    requires Valid(m) && k !in m.entries
    ensures Values(Set(m, k, v)) == Values(m) + [v]
  {
    assert Set(m, k, v).keys == m.keys + [k];
  }

  /** Deleting the key at position `i` removes exactly that position from the key listing. */
  lemma {:induction false} WithoutAt(s: seq<int>, i: nat)
    requires Distinct(s) && i < |s|
    ensures Without(s, s[i]) == s[..i] + s[i + 1..]
  {
    if i == 0 {
      assert s[0] !in s[1..];
      assert s[1..] == s[..0] + s[1..];
    } else {
      assert s[0] != s[i];
      assert s[1..][i - 1] == s[i];
      WithoutAt(s[1..], i - 1);
      assert s[1..][..i - 1] == s[1..i];
      assert s[1..][i..] == s[i + 1..];
      assert [s[0]] + s[1..i] == s[..i];
    }
  }

  /** Deleting a key drops its value from the listing and keeps the others in their order. */
  lemma ValuesAfterDelete<V>(m: OrderedMap<V>, i: nat)
    requires Valid(m) && i < |m.keys|
    ensures Values(Delete(m, m.keys[i])) == Values(m)[..i] + Values(m)[i + 1..]
  {
    var k := m.keys[i];
    WithoutAt(m.keys, i);
    var before, after := Values(m), Values(Delete(m, k));
    var expected := before[..i] + before[i + 1..];
    assert |after| == |expected|;
    forall j | 0 <= j < |after| ensures after[j] == expected[j] {
      if j < i {
        assert Delete(m, k).keys[j] == m.keys[j];
      } else {
        assert Delete(m, k).keys[j] == m.keys[j + 1];
      }
    }
  }
}
