/**
 * An insertion-ordered dictionary, as Python's `dict` and `OrderedDict`
 * behave: a sequence of key-value pairs in which assigning to a present key
 * replaces its value where it stands, and assigning to a new key appends.
 */
module OrderedMap {
  import opened Wrappers

  type Assoc<K, V> = seq<(K, V)>

  function Keys<K, V>(m: Assoc<K, V>): (ks: seq<K>)
    ensures |ks| == |m| && forall i :: 0 <= i < |m| ==> ks[i] == m[i].0
  {
    seq(|m|, i requires 0 <= i < |m| => m[i].0)
  }

  /** Python's `list(d.values())`. */
  function Values<K, V>(m: Assoc<K, V>): (vs: seq<V>)
    ensures |vs| == |m| && forall i :: 0 <= i < |m| ==> vs[i] == m[i].1
  {
    seq(|m|, i requires 0 <= i < |m| => m[i].1)
  }

  /** No key appears twice: the invariant every Python dictionary keeps. */
  predicate DistinctKeys<K(==), V>(m: Assoc<K, V>) {
    forall i, j :: 0 <= i < j < |m| ==> m[i].0 != m[j].0
  }

  function IndexFrom<K(==), V>(m: Assoc<K, V>, k: K, i: nat): (r: nat)
    requires i <= |m|
    requires exists j :: i <= j < |m| && m[j].0 == k
    ensures i <= r < |m| && m[r].0 == k
    ensures forall j :: i <= j < r ==> m[j].0 != k
    decreases |m| - i
  {
    if m[i].0 == k then i else IndexFrom(m, k, i + 1)
  }

  /** The position of key `k`: the first one, should there be several. */
  function IndexOf<K(==), V>(m: Assoc<K, V>, k: K): (r: nat)
    requires k in Keys(m)
    ensures r < |m| && m[r].0 == k
    ensures forall j :: 0 <= j < r ==> m[j].0 != k
  {
    IndexFrom(m, k, 0)
  }

  /** Python's `d.get(k)`. */
  function Get<K(==), V>(m: Assoc<K, V>, k: K): Option<V> {
    if k in Keys(m) then Some(m[IndexOf(m, k)].1) else None
  }

  /** The keys of a non-empty dictionary: its first key and the keys of the rest. */
  lemma KeysTail<K, V>(m: Assoc<K, V>)
    requires |m| > 0
    ensures forall x :: x in Keys(m) <==> x == m[0].0 || x in Keys(m[1..])
  {
    assert Keys(m) == [m[0].0] + Keys(m[1..]);
  }

  /** A key other than the first is found one place further on than in the rest. */
  lemma IndexOfTail<K, V>(m: Assoc<K, V>, k: K)
    requires |m| > 0 && m[0].0 != k && k in Keys(m)
    ensures k in Keys(m[1..]) && IndexOf(m, k) == 1 + IndexOf(m[1..], k)
  {
    KeysTail(m);
    var i, j := IndexOf(m, k), IndexOf(m[1..], k);
    assert m[1..][i - 1].0 == k;
    assert m[j + 1].0 == k;
  }

  /** Replacing entry `i` of a non-empty sequence through its tail. */
  lemma ConsUpdate<T>(m: seq<T>, i: nat, x: T)
    requires 0 < i < |m|
    ensures [m[0]] + m[1..][i - 1 := x] == m[i := x]
  {
  }

  /**
   * Python's `d[k] = v`. A new key goes to the end; a present key keeps its
   * position and only its value changes.
   */
  function Put<K(==), V>(m: Assoc<K, V>, k: K, v: V): (r: Assoc<K, V>)
    ensures k !in Keys(m) ==> r == m + [(k, v)]
    ensures k in Keys(m) ==> r == m[IndexOf(m, k) := (k, v)]
  {
    if |m| == 0 then
      [(k, v)]
    else if m[0].0 == k then
      assert IndexOf(m, k) == 0;
      [(k, v)] + m[1..]
    else
      KeysTail(m);
      var rest := Put(m[1..], k, v);
      if k in Keys(m) then
        IndexOfTail(m, k);
        ConsUpdate(m, IndexOf(m, k), (k, v));
        [m[0]] + rest
      else
        assert [m[0]] + (m[1..] + [(k, v)]) == m + [(k, v)];
        [m[0]] + rest
  }

  /** With distinct keys, the key at position `i` is found at `i`. */
  lemma IndexOfDistinct<K, V>(m: Assoc<K, V>, i: nat)
    requires DistinctKeys(m) && i < |m|
    ensures m[i].0 in Keys(m) && IndexOf(m, m[i].0) == i
  {
    assert Keys(m)[i] == m[i].0;
  }

  /** Assigning to a present key: same keys, the new value there, the rest unchanged. */
  lemma PutPresent<K, V>(m: Assoc<K, V>, k: K, v: V)
    requires DistinctKeys(m) && k in Keys(m)
    ensures DistinctKeys(Put(m, k, v))
    ensures Keys(Put(m, k, v)) == Keys(m)
    ensures Get(Put(m, k, v), k) == Some(v)
    ensures forall k' :: k' != k ==> Get(Put(m, k, v), k') == Get(m, k')
  {
    var i := IndexOf(m, k);
    var r := m[i := (k, v)];
    assert Put(m, k, v) == r;
    assert forall j :: 0 <= j < |r| ==> r[j].0 == m[j].0;
    assert Keys(r) == Keys(m);
    IndexOfDistinct(r, i);
    forall k' | k' != k
      ensures Get(r, k') == Get(m, k')
    {
      if k' in Keys(m) {
        var j := IndexOf(m, k');
        IndexOfDistinct(r, j);
      }
    }
  }

  /** Assigning to a new key appends it, leaving every other key's value alone. */
  lemma PutNew<K, V>(m: Assoc<K, V>, k: K, v: V)
    requires DistinctKeys(m) && k !in Keys(m)
    ensures DistinctKeys(Put(m, k, v))
    ensures Keys(Put(m, k, v)) == Keys(m) + [k]
    ensures Get(Put(m, k, v), k) == Some(v)
    ensures forall k' :: k' != k ==> Get(Put(m, k, v), k') == Get(m, k')
  {
    var r := m + [(k, v)];
    assert Put(m, k, v) == r;
    assert forall j :: 0 <= j < |m| ==> r[j] == m[j] && Keys(m)[j] == m[j].0;
    assert Keys(r) == Keys(m) + [k];
    IndexOfDistinct(r, |m|);
    forall k' | k' != k
      ensures Get(r, k') == Get(m, k')
    {
      if k' in Keys(m) {
        var j := IndexOf(m, k');
        IndexOfDistinct(r, j);
      }
    }
  }

  /** `d[k] = v` keeps the keys distinct, yields `v` at `k`, and changes no other key. */
  lemma PutGet<K, V>(m: Assoc<K, V>, k: K, v: V)
    requires DistinctKeys(m)
    ensures DistinctKeys(Put(m, k, v))
    ensures Keys(Put(m, k, v)) == if k in Keys(m) then Keys(m) else Keys(m) + [k]
    ensures Get(Put(m, k, v), k) == Some(v)
    ensures forall k' :: k' != k ==> Get(Put(m, k, v), k') == Get(m, k')
  {
    if k in Keys(m) {
      PutPresent(m, k, v);
    } else {
      PutNew(m, k, v);
    }
  }

  /**
   * Python's `d.update(other)`: every pair of `other`, in order, assigned
   * with `Put`.
   */
  function Update<K(==), V>(m: Assoc<K, V>, other: Assoc<K, V>): (r: Assoc<K, V>)
    decreases |other|
  {
    if |other| == 0 then m else Update(Put(m, other[0].0, other[0].1), other[1..])
  }

  /**
   * After `d.update(other)` the keys are those of both dictionaries, still
   * distinct, and each key of `other` holds `other`'s value while every
   * other key keeps its old one.
   */
  lemma {:induction false} UpdateGet<K, V>(m: Assoc<K, V>, other: Assoc<K, V>)
    requires DistinctKeys(m) && DistinctKeys(other)
    ensures DistinctKeys(Update(m, other))
    ensures forall k :: k in Keys(Update(m, other)) <==> k in Keys(m) || k in Keys(other)
    ensures forall k :: Get(Update(m, other), k) == if k in Keys(other) then Get(other, k) else Get(m, k)
    decreases |other|
  {
    if |other| > 0 {
      var (k0, v0) := other[0];
      var m' := Put(m, k0, v0);
      var rest := other[1..];
      PutGet(m, k0, v0);
      FirstAndRest(other);
      UpdateGet(m', rest);
      assert Update(m, other) == Update(m', rest);
    }
  }

  /** A dictionary with distinct keys is its first entry followed by the rest, which lacks the first key. */
  lemma FirstAndRest<K, V>(m: Assoc<K, V>)
    requires DistinctKeys(m) && |m| > 0
    ensures DistinctKeys(m[1..])
    ensures forall k :: k in Keys(m) <==> k == m[0].0 || k in Keys(m[1..])
    ensures Get(m, m[0].0) == Some(m[0].1)
    ensures forall k :: k in Keys(m[1..]) ==> k != m[0].0 && Get(m, k) == Get(m[1..], k)
  {
    KeysTail(m);
    IndexOfDistinct(m, 0);
    forall k | k in Keys(m[1..])
      ensures k != m[0].0 && Get(m, k) == Get(m[1..], k)
    {
      var j := IndexOf(m[1..], k);
      assert m[j + 1].0 == k;
      IndexOfDistinct(m, j + 1);
    }
  }

  /** Every value is `f` of its key. */
  ghost predicate ValuesFrom<K, V>(m: Assoc<K, V>, f: K -> V) {
    forall i :: 0 <= i < |m| ==> m[i].1 == f(m[i].0)
  }

  /** Assigning `f(k)` to `k` keeps every value `f` of its key. */
  lemma PutValuesFrom<K, V>(m: Assoc<K, V>, k: K, f: K -> V)
    requires ValuesFrom(m, f)
    ensures ValuesFrom(Put(m, k, f(k)), f)
  {
  }

  /** Merging two dictionaries whose values are `f` of their keys gives another such dictionary. */
  lemma {:induction false} UpdateValuesFrom<K, V>(m: Assoc<K, V>, other: Assoc<K, V>, f: K -> V)
    requires ValuesFrom(m, f) && ValuesFrom(other, f)
    ensures ValuesFrom(Update(m, other), f)
    decreases |other|
  {
    if |other| > 0 {
      var m' := Put(m, other[0].0, other[0].1);
      PutValuesFrom(m, other[0].0, f);
      UpdateValuesFrom(m', other[1..], f);
    }
  }

  /** A dictionary whose only key is `k` has exactly one entry. */
  lemma SingleKey<K, V>(m: Assoc<K, V>, k: K)
    requires DistinctKeys(m)
    requires forall x :: x in Keys(m) <==> x == k
    ensures |m| == 1 && m[0].0 == k
  {
    assert k in Keys(m);
    assert m[0].0 in Keys(m);
    if |m| > 1 {
      FirstTwoKeys(m);
      assert false;
    }
  }

  /** The key at any position is among the keys. */
  lemma KeyAt<K, V>(m: Assoc<K, V>, i: nat)
    requires i < |m|
    ensures m[i].0 in Keys(m)
  {
    assert Keys(m)[i] == m[i].0;
  }

  /** A dictionary without keys is empty. */
  lemma NoKeys<K, V>(m: Assoc<K, V>)
    requires forall k :: k !in Keys(m)
    ensures m == []
  {
    if |m| > 0 {
      KeyAt(m, 0);
      assert false;
    }
  }

  lemma FirstTwoKeys<K, V>(m: Assoc<K, V>)
    requires DistinctKeys(m) && |m| > 1
    ensures m[0].0 in Keys(m) && m[1].0 in Keys(m) && m[0].0 != m[1].0
  {
    assert Keys(m)[1] == m[1].0;
  }
}
