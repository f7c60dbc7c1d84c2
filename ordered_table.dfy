/**
 * A JavaScript `Map` as a sequence of (key, value) entries kept in insertion
 * order, which is the order in which `keys()`, `values()` and `entries()`
 * iterate. `Set` and `Delete` follow `Map.prototype.set` (section 24.1.3.9 of
 * ECMA-262) and `Map.prototype.delete` (section 24.1.3.3): setting a present
 * key replaces its value where it stands, setting a new key appends, deleting
 * removes the entry and keeps the others in order.
 */
module OrderedTable {
  import opened Wrappers

  /** The position of the first occurrence of `x` in `s`, scanning from the front. */
  function FirstIndex<T(==)>(s: seq<T>, x: T): (r: Option<nat>)
    ensures r.None? <==> x !in s
    ensures r.Some? ==> r.value < |s| && s[r.value] == x && forall j :: 0 <= j < r.value ==> s[j] != x
  {
    if s == [] then None
    else if s[0] == x then Some(0)
    else
      match FirstIndex(s[1..], x)
      case None =>
        assert s == [s[0]] + s[1..];
        None
      case Some(k) =>
        Some(k + 1)
  }

  /** An index holding `x` with no earlier occurrence is the one `FirstIndex` finds. */
  lemma FirstIndexAt<T>(s: seq<T>, x: T, i: nat)
    requires i < |s| && s[i] == x && forall j :: 0 <= j < i ==> s[j] != x
    ensures FirstIndex(s, x) == Some(i)
  {
    var m := FirstIndex(s, x).value;
    assert s[m] == x;
  }

  /** `Map.prototype.keys()`: the keys in insertion order. */
  function Keys<K, V>(t: seq<(K, V)>): seq<K> {
    seq(|t|, i requires 0 <= i < |t| => t[i].0)
  }

  /** `Map.prototype.values()`: the values in insertion order, duplicates kept. */
  function Values<K, V>(t: seq<(K, V)>): (r: seq<V>)
    ensures |r| == |t|
    ensures forall i :: 0 <= i < |t| ==> r[i] == t[i].1
  {
    seq(|t|, i requires 0 <= i < |t| => t[i].1)
  }

  /** A `Map` holds at most one entry per key. */
  ghost predicate DistinctKeys<K, V>(t: seq<(K, V)>) {
    forall i, j :: 0 <= i < j < |t| ==> t[i].0 != t[j].0
  }

  /** `Map.prototype.get`: the value stored under `k`, if there is one. */
  function Get<K(==), V>(t: seq<(K, V)>, k: K): (r: Option<V>)
    ensures r.None? <==> k !in Keys(t)
    ensures r.Some? ==> (k, r.value) in t
  {
    match FirstIndex(Keys(t), k)
    case None => None
    case Some(i) =>
      assert t[i] == (k, t[i].1);
      Some(t[i].1)
  }

  /** `Map.prototype.set`: overwrite the entry for `k` in place, or append a new one. */
  function Set<K(==), V>(t: seq<(K, V)>, k: K, v: V): (r: seq<(K, V)>)
    ensures Keys(r) == if k in Keys(t) then Keys(t) else Keys(t) + [k]
    ensures Get(r, k) == Some(v)
    ensures forall j :: 0 <= j < |t| && t[j].0 != k ==> r[j] == t[j]
  {
    match FirstIndex(Keys(t), k)
    case None =>
      var r := t + [(k, v)];
      assert Keys(r) == Keys(t) + [k];
      assert FirstIndex(Keys(r), k) == Some(|t|) by {
        assert forall j :: 0 <= j < |t| ==> Keys(r)[j] == Keys(t)[j];
      }
      r
    case Some(i) =>
      var r := t[i := (k, v)];
      assert Keys(r) == Keys(t);
      r
  }

  /** `Map.prototype.delete`: remove the entry for `k`; without one, nothing changes. */
  function Delete<K(==), V>(t: seq<(K, V)>, k: K): (r: seq<(K, V)>)
    ensures k !in Keys(t) ==> r == t
    ensures k in Keys(t) ==> |r| == |t| - 1
  {
    match FirstIndex(Keys(t), k)
    case None => t
    case Some(i) => t[..i] + t[i + 1..]
  }

  /** Reference definition of deletion: every entry whose key is not `k`, in order. */
  function Without<K(==), V>(t: seq<(K, V)>, k: K): seq<(K, V)> {
    if t == [] then []
    else (if t[0].0 == k then [] else [t[0]]) + Without(t[1..], k)
  }

  /** The index of the earliest entry whose value is `v`. */
  ghost predicate EarliestWith<K, V>(t: seq<(K, V)>, v: V, i: int) {
    && 0 <= i < |t|
    && t[i].1 == v
    && forall j :: 0 <= j < i ==> t[j].1 != v
  }

  /** The key of the earliest entry, in insertion order, whose value is `v`. */
  function FirstKeyOf<K, V(==)>(t: seq<(K, V)>, v: V): (r: Option<K>)
    ensures r.None? <==> v !in Values(t)
    ensures r.Some? ==> exists i :: EarliestWith(t, v, i) && t[i].0 == r.value
  {
    match FirstIndex(Values(t), v)
    case None => None
    case Some(i) =>
      assert forall j :: 0 <= j < i ==> t[j].1 == Values(t)[j];
      assert EarliestWith(t, v, i);
      Some(t[i].0)
  }

  /** The earliest entry holding a value is the one `FirstKeyOf` reports. */
  lemma EarliestIsFirstKey<K, V>(t: seq<(K, V)>, v: V, i: int)
    requires EarliestWith(t, v, i)
    ensures FirstKeyOf(t, v) == Some(t[i].0)
  {
  }

  /** With distinct keys, the first occurrence of an entry's key is that entry. */
  lemma KeyIndex<K, V>(t: seq<(K, V)>, i: int)
    requires DistinctKeys(t) && 0 <= i < |t|
    ensures FirstIndex(Keys(t), t[i].0) == Some(i)
    ensures Get(t, t[i].0) == Some(t[i].1)
  {
    assert Keys(t)[i] == t[i].0;
    var m := FirstIndex(Keys(t), t[i].0).value;
    assert t[m].0 == Keys(t)[m] == t[i].0;
  }

  /** Setting a key keeps keys distinct and leaves every other key's value alone. */
  lemma SetSpec<K, V>(t: seq<(K, V)>, k: K, v: V)
    requires DistinctKeys(t)
    ensures DistinctKeys(Set(t, k, v))
    ensures forall k' :: k' != k ==> Get(Set(t, k, v), k') == Get(t, k')
  {
    var r := Set(t, k, v);
    assert |r| == |Keys(r)|;
    forall i, j | 0 <= i < j < |r| ensures r[i].0 != r[j].0 {
      assert Keys(r)[i] == r[i].0 && Keys(r)[j] == r[j].0;
      if j == |t| {
        assert k !in Keys(t);
        assert Keys(t)[i] == t[i].0;
      }
    }
    forall k' | k' != k ensures Get(r, k') == Get(t, k') {
      if k' in Keys(t) {
        var j :| 0 <= j < |t| && Keys(t)[j] == k';
        KeyIndex(t, j);
        KeyIndex(r, j);
      } else {
        assert k' !in Keys(r);
      }
    }
  }

  /** Deleting a present key shifts every later entry down by one place. */
  lemma DeleteShifts<K, V>(t: seq<(K, V)>, k: K, i: nat)
    requires FirstIndex(Keys(t), k) == Some(i)
    ensures |Delete(t, k)| == |t| - 1
    ensures forall j :: 0 <= j < |t| - 1 ==> Delete(t, k)[j] == t[if j < i then j else j + 1]
  {
    assert Delete(t, k) == t[..i] + t[i + 1..];
  }

  /** After deleting a key from a table with distinct keys, the keys are still distinct and that key is gone. */
  lemma DeleteRemovesKey<K, V>(t: seq<(K, V)>, k: K, i: nat)
    requires DistinctKeys(t) && FirstIndex(Keys(t), k) == Some(i)
    ensures DistinctKeys(Delete(t, k)) && k !in Keys(Delete(t, k))
  {
    var r := Delete(t, k);
    DeleteShifts(t, k, i);
    assert Keys(t)[i] == t[i].0;
    forall j | 0 <= j < |r| ensures Keys(r)[j] != k {
      assert Keys(r)[j] == t[if j < i then j else j + 1].0;
    }
  }

  /** Deleting one key does not change the lookup of another. */
  lemma DeleteKeepsOther<K, V>(t: seq<(K, V)>, k: K, i: nat, k': K)
    requires DistinctKeys(t) && FirstIndex(Keys(t), k) == Some(i) && k' != k
    ensures Get(Delete(t, k), k') == Get(t, k')
  {
    var r := Delete(t, k);
    DeleteShifts(t, k, i);
    DeleteRemovesKey(t, k, i);
    if k' in Keys(t) {
      var j :| 0 <= j < |t| && Keys(t)[j] == k';
      assert Get(t, k') == Some(t[j].1) by {
        KeyIndex(t, j);
      }
      assert j != i;
      var m := if j < i then j else j - 1;
      assert r[m] == t[j];
      assert Get(r, k') == Some(t[j].1) by {
        KeyIndex(r, m);
      }
    } else {
      assert k' !in Keys(r) by {
        forall j | 0 <= j < |r| ensures Keys(r)[j] != k' {
          assert Keys(r)[j] == Keys(t)[if j < i then j else j + 1];
        }
      }
    }
  }

  /** Deleting a key keeps keys distinct, removes that key, and leaves every other key's value alone. */
  lemma DeleteSpec<K, V>(t: seq<(K, V)>, k: K)
    requires DistinctKeys(t)
    ensures DistinctKeys(Delete(t, k))
    ensures Get(Delete(t, k), k) == None
    ensures forall k' :: k' != k ==> Get(Delete(t, k), k') == Get(t, k')
  {
    if k in Keys(t) {
      var i := FirstIndex(Keys(t), k).value;
      DeleteRemovesKey(t, k, i);
      forall k' | k' != k ensures Get(Delete(t, k), k') == Get(t, k') {
        DeleteKeepsOther(t, k, i, k');
      }
    }
  }

  /** A second delete of the same key changes nothing. */
  lemma DeleteTwice<K, V>(t: seq<(K, V)>, k: K)
    requires DistinctKeys(t)
    ensures Delete(Delete(t, k), k) == Delete(t, k)
  {
    DeleteSpec(t, k);
  }

  lemma {:induction false} WithoutAbsent<K, V>(t: seq<(K, V)>, k: K)
    requires k !in Keys(t)
    ensures Without(t, k) == t
  {
    if t != [] {
      assert Keys(t)[0] == t[0].0;
      assert Keys(t[1..]) == Keys(t)[1..];
      WithoutAbsent(t[1..], k);
      assert t == [t[0]] + t[1..];
    }
  }

  /** Deleting a key that is not at the front commutes with dropping the front entry. */
  lemma DeleteBehindHead<K, V>(t: seq<(K, V)>, k: K)
    requires t != [] && t[0].0 != k
    ensures Delete(t, k) == [t[0]] + Delete(t[1..], k)
  {
    var rest := t[1..];
    assert Keys(t) == [t[0].0] + Keys(rest) by {
      assert forall m :: 0 <= m < |rest| ==> Keys(rest)[m] == Keys(t)[m + 1];
    }
    match FirstIndex(Keys(rest), k)
    case None =>
      assert t == [t[0]] + rest;
    case Some(j) =>
      DeleteBehindHeadAt(t, k, j);
  }

  /** The inductive step of `DeleteBehindHead` when the key occurs behind the front entry. */
  lemma DeleteBehindHeadAt<K, V>(t: seq<(K, V)>, k: K, j: nat)
    requires t != [] && FirstIndex(Keys(t), k) == Some(j + 1) && FirstIndex(Keys(t[1..]), k) == Some(j)
    ensures Delete(t, k) == [t[0]] + Delete(t[1..], k)
  {
    var rest := t[1..];
    DeleteShifts(t, k, j + 1);
    DeleteShifts(rest, k, j);
    var r, r' := Delete(t, k), [t[0]] + Delete(rest, k);
    forall m | 0 <= m < |r| ensures r[m] == r'[m] {
      if m > 0 {
        assert r'[m] == Delete(rest, k)[m - 1];
      }
    }
  }

  /** Deleting the key at the front of a table with distinct keys drops just that entry. */
  lemma DeleteHead<K, V>(t: seq<(K, V)>, k: K)
    requires DistinctKeys(t) && t != [] && t[0].0 == k
    ensures Delete(t, k) == t[1..] == Without(t[1..], k)
  {
    var rest := t[1..];
    assert Keys(t)[0] == k;
    assert k !in Keys(rest) by {
      forall j | 0 <= j < |rest| ensures Keys(rest)[j] != k {
        assert Keys(rest)[j] == t[j + 1].0;
      }
    }
    WithoutAbsent(rest, k);
  }

  /** Deleting a key removes exactly its entry and keeps the rest in insertion order. */
  lemma {:induction false} DeleteIsWithout<K, V>(t: seq<(K, V)>, k: K)
    requires DistinctKeys(t)
    ensures Delete(t, k) == Without(t, k)
  {
    if t != [] {
      if t[0].0 == k {
        DeleteHead(t, k);
      } else {
        var rest := t[1..];
        assert DistinctKeys(rest) by {
          forall i, j | 0 <= i < j < |rest| ensures rest[i].0 != rest[j].0 {
            assert rest[i] == t[i + 1] && rest[j] == t[j + 1];
          }
        }
        DeleteIsWithout(rest, k);
        DeleteBehindHead(t, k);
      }
    }
  }

  /** After deleting `k`, a value is still listed exactly when another key holds it. */
  lemma ValueAfterDelete<K, V>(t: seq<(K, V)>, k: K, u: V)
    requires DistinctKeys(t)
    ensures u in Values(Delete(t, k)) <==> exists j :: 0 <= j < |t| && t[j].0 != k && t[j].1 == u
  {
    var r := Delete(t, k);
    if k in Keys(t) {
      var i := FirstIndex(Keys(t), k).value;
      assert r == t[..i] + t[i + 1..];
      if u in Values(r) {
        var m :| 0 <= m < |r| && Values(r)[m] == u;
        var j := if m < i then m else m + 1;
        assert r[m] == t[j];
        assert t[j].0 != k;
      }
      if exists j :: 0 <= j < |t| && t[j].0 != k && t[j].1 == u {
        var j :| 0 <= j < |t| && t[j].0 != k && t[j].1 == u;
        var m := if j < i then j else j - 1;
        assert r[m] == t[j];
        assert Values(r)[m] == u;
      }
    } else {
      forall j | 0 <= j < |t| ensures t[j].0 != k {
        assert Keys(t)[j] == t[j].0;
      }
      if u in Values(t) {
        var m :| 0 <= m < |t| && Values(t)[m] == u;
        assert t[m].0 != k && t[m].1 == u;
      }
      if exists j :: 0 <= j < |t| && t[j].0 != k && t[j].1 == u {
        var j :| 0 <= j < |t| && t[j].0 != k && t[j].1 == u;
        assert Values(t)[j] == u;
      }
    }
  }
}
