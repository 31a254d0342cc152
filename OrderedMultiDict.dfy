/**
 * The ordered multi-dictionary the group database is kept in (an `omdict`).
 * It is modelled by its item list: every (key, value) pair in insertion order.
 * Equality of two dictionaries is equality of their item lists, and copying
 * one yields an independent value.
 */
module OrderedMultiDict {

  type Key = string
  type Value = string
  type Items = seq<(Key, Value)>

  /** No element of `s` occurs twice. */
  predicate NoDuplicates<T(==)>(s: seq<T>) {
    forall i, j :: 0 <= i < j < |s| ==> s[i] != s[j]
  }

  /** The keys that have at least one item. */
  function KeySet(d: Items): set<Key> {
    set x | x in d :: x.0
  }

  /** The items whose key is not `k`, in their order. */
  function Without(d: Items, k: Key): (r: Items)
    ensures |r| <= |d|
    ensures forall x :: x in r <==> x in d && x.0 != k
  {
    if d == [] then [] else (if d[0].0 == k then [] else [d[0]]) + Without(d[1..], k)
  }

  /** `add(k, v)`: append one item. */
  function Add(d: Items, k: Key, v: Value): Items {
    d + [(k, v)]
  }

  /** `keys()`: the distinct keys, in the order of their first item. */
  function Keys(d: Items): (r: seq<Key>)
    ensures NoDuplicates(r)
    ensures forall k :: k in r <==> k in KeySet(d)
    decreases |d|
  {
    if d == [] then []
    else
      var rest := Without(d[1..], d[0].0);
      assert d[0].0 !in KeySet(rest);
      [d[0].0] + Keys(rest)
  }

  /** `getlist(k)`: the values of key `k`, in order; empty when `k` has no item. */
  function GetList(d: Items, k: Key): (r: seq<Value>)
    ensures |r| <= |d|
    ensures forall v :: v in r <==> (k, v) in d
  {
    if d == [] then [] else (if d[0].0 == k then [d[0].1] else []) + GetList(d[1..], k)
  }

  /** `r` is `s` with one occurrence of `x` taken out and the rest kept in order. */
  predicate RemovedOne<T(==)>(s: seq<T>, r: seq<T>, x: T) {
    exists i :: 0 <= i < |s| && s[i] == x && r == s[..i] + s[i + 1..]
  }

  /**
   * `popvalue(k, v)`: remove one item (k, v). This removes the last such item,
   * as omdict does by default; the contract promises one occurrence only.
   * Removing an absent pair raises KeyError, which no caller here triggers.
   */
  function PopValue(d: Items, k: Key, v: Value): (r: Items)
    requires (k, v) in d
    ensures RemovedOne(d, r, (k, v))
  {
    if d[0] == (k, v) && (k, v) !in d[1..] then
      assert d[..0] + d[1..] == d[1..];
      d[1..]
    else
      var tail := PopValue(d[1..], k, v);
      var i :| 0 <= i < |d[1..]| && d[1..][i] == (k, v) && tail == d[1..][..i] + d[1..][i + 1..];
      RemoveAtCons(d, i);
      [d[0]] + tail
  }

  /** Removing position `i + 1` keeps the first item in front of the tail with position `i` removed. */
  lemma RemoveAtCons(d: Items, i: int)
    requires 0 <= i < |d| - 1
    ensures [d[0]] + (d[1..][..i] + d[1..][i + 1..]) == d[..i + 1] + d[i + 2..]
  {
    var a, b := [d[0]] + (d[1..][..i] + d[1..][i + 1..]), d[..i + 1] + d[i + 2..];
    assert |a| == |b|;
    forall j | 0 <= j < |a| ensures a[j] == b[j] {
      if j == 0 {
      } else if j <= i {
        assert a[j] == d[1..][..i][j - 1] == d[j];
      } else {
        assert a[j] == d[1..][i + 1..][j - 1 - i] == d[j + 1];
      }
    }
  }

  /** Every key's value list is free of duplicates. */
  ghost predicate UniqueValues(d: Items) {
    forall k :: NoDuplicates(GetList(d, k))
  }

  lemma ConcatAssoc<T>(a: seq<T>, b: seq<T>, c: seq<T>)
    ensures a + (b + c) == (a + b) + c
  {
  }

  lemma {:induction false} GetListConcat(a: Items, b: Items, k: Key)
    ensures GetList(a + b, k) == GetList(a, k) + GetList(b, k)
  {
    if a == [] {
      assert a + b == b;
    } else {
      assert (a + b)[1..] == a[1..] + b;
      GetListConcat(a[1..], b, k);
    }
  }

  lemma {:induction false} WithoutConcat(a: Items, b: Items, k: Key)
    ensures Without(a + b, k) == Without(a, k) + Without(b, k)
  {
    if a == [] {
      assert a + b == b;
    } else {
      assert (a + b)[1..] == a[1..] + b;
      WithoutConcat(a[1..], b, k);
    }
  }

  /** Removing a key that has no item changes nothing. */
  lemma {:induction false} WithoutAbsent(d: Items, k: Key)
    requires k !in KeySet(d)
    ensures Without(d, k) == d
  {
    if d != [] {
      assert d[0] in d;
      assert KeySet(d[1..]) <= KeySet(d);
      WithoutAbsent(d[1..], k);
    }
  }

  /** A key has no values exactly when it is not a key. */
  lemma GetListEmpty(d: Items, k: Key)
    ensures GetList(d, k) == [] <==> k !in KeySet(d)
  {
    if GetList(d, k) != [] {
      assert GetList(d, k)[0] in GetList(d, k);
    }
    if k in KeySet(d) {
      var x :| x in d && x.0 == k;
      assert x.1 in GetList(d, k);
    }
  }

  /** `add(k, v)` appends `v` to the values of `k` and leaves every other key's values alone. */
  lemma AddGetList(d: Items, k: Key, v: Value, g: Key)
    ensures GetList(Add(d, k, v), g) == if g == k then GetList(d, g) + [v] else GetList(d, g)
  {
    GetListConcat(d, [(k, v)], g);
  }

  /** A key other than `k` is a key of `Without(d, k)` exactly when it is a key of `d`. */
  lemma WithoutKeySet(d: Items, k: Key, g: Key)
    requires g != k
    ensures g in KeySet(Without(d, k)) <==> g in KeySet(d)
  {
    if g in KeySet(d) {
      var y :| y in d && y.0 == g;
      assert y in Without(d, k);
    }
  }

  /** Past the first key, the other keys are those of the remaining items without it. */
  lemma KeysTail(d: Items, k: Key)
    requires d != [] && k != d[0].0
    ensures k in Keys(d) <==> k in Keys(Without(d[1..], d[0].0))
  {
    WithoutKeySet(d[1..], d[0].0, k);
    if k in KeySet(d) {
      var y :| y in d && y.0 == k;
      assert y in d[1..];
    }
  }

  /** `add(k, v)` keeps the key order and puts a new key last. */
  lemma {:induction false} AddKeys(d: Items, k: Key, v: Value)
    ensures Keys(Add(d, k, v)) == if k in Keys(d) then Keys(d) else Keys(d) + [k]
    decreases |d|
  {
    if d != [] {
      var x := d[0];
      var rest := Without(d[1..], x.0);
      assert Add(d, k, v)[0] == x;
      assert Add(d, k, v)[1..] == d[1..] + [(k, v)];
      WithoutConcat(d[1..], [(k, v)], x.0);
      if k != x.0 {
        assert Without(d[1..] + [(k, v)], x.0) == Add(rest, k, v);
        AddKeys(rest, k, v);
        KeysTail(d, k);
        if k !in Keys(d) {
          ConcatAssoc([x.0], Keys(rest), [k]);
        }
      } else {
        assert Without([(k, v)], x.0) == [];
        assert Without(d[1..] + [(k, v)], x.0) == rest;
      }
    }
  }

  /** Adding a value a key does not yet hold keeps that key's list free of duplicates. */
  lemma AddKeepsUnique(d: Items, k: Key, v: Value)
    requires UniqueValues(d)
    requires (k, v) !in d
    ensures UniqueValues(Add(d, k, v))
  {
    forall g ensures NoDuplicates(GetList(Add(d, k, v), g)) {
      AddGetList(d, k, v, g);
      assert NoDuplicates(GetList(d, g));
    }
  }

  /** The values of `g` around position `i`, and with the item at `i` taken out. */
  lemma GetListAround(d: Items, i: int, g: Key)
    requires 0 <= i < |d|
    ensures GetList(d, g) == GetList(d[..i], g) + GetList([d[i]], g) + GetList(d[i + 1..], g)
    ensures GetList(d[..i] + d[i + 1..], g) == GetList(d[..i], g) + GetList(d[i + 1..], g)
  {
    assert d == d[..i] + ([d[i]] + d[i + 1..]);
    GetListConcat(d[..i], [d[i]] + d[i + 1..], g);
    GetListConcat([d[i]], d[i + 1..], g);
    GetListConcat(d[..i], d[i + 1..], g);
  }

  /** Taking out of `s` the element at `j` keeps `s` free of duplicates, and without `s[j]` then. */
  lemma RemoveAtUnique<T>(s: seq<T>, j: int)
    requires 0 <= j < |s| && NoDuplicates(s)
    ensures NoDuplicates(s[..j] + s[j + 1..])
    ensures s[j] !in s[..j] + s[j + 1..]
  {
    var r := s[..j] + s[j + 1..];
    forall a, b | 0 <= a < b < |r| ensures r[a] != r[b] {
      var a' := if a < j then a else a + 1;
      var b' := if b < j then b else b + 1;
      assert r[a] == s[a'] && r[b] == s[b'];
    }
  }

  /**
   * `popvalue(k, v)` removes one `v` from the values of `k`, keeping the
   * order of the others, and leaves every other key's values alone.
   */
  lemma PopValueGetList(d: Items, k: Key, v: Value, g: Key)
    requires (k, v) in d
    ensures g != k ==> GetList(PopValue(d, k, v), g) == GetList(d, g)
    ensures g == k ==> RemovedOne(GetList(d, k), GetList(PopValue(d, k, v), k), v)
  {
    var i :| 0 <= i < |d| && d[i] == (k, v) && PopValue(d, k, v) == d[..i] + d[i + 1..];
    GetListAround(d, i, g);
    if g == k {
      var before, after := GetList(d[..i], k), GetList(d[i + 1..], k);
      assert GetList([d[i]], k) == [v];
      SplitAround(GetList(d, k), before, v, after);
    } else {
      assert GetList([d[i]], g) == [];
    }
  }

  /** A sequence made of `before`, `x` and `after` has `x` at position `|before|`. */
  lemma SplitAround<T>(all: seq<T>, before: seq<T>, x: T, after: seq<T>)
    requires all == before + [x] + after
    ensures RemovedOne(all, before + after, x)
  {
    assert all[..|before|] == before;
    assert all[|before| + 1..] == after;
    assert all[|before|] == x;
  }

  /** `popvalue` keeps every list free of duplicates, and then the removed value is gone. */
  lemma PopValueKeepsUnique(d: Items, k: Key, v: Value)
    requires UniqueValues(d)
    requires (k, v) in d
    ensures UniqueValues(PopValue(d, k, v))
    ensures (k, v) !in PopValue(d, k, v)
  {
    forall g ensures NoDuplicates(GetList(PopValue(d, k, v), g)) {
      PopValueGetList(d, k, v, g);
      assert NoDuplicates(GetList(d, g));
      if g == k {
        var all := GetList(d, k);
        var j :| 0 <= j < |all| && all[j] == v && GetList(PopValue(d, k, v), k) == all[..j] + all[j + 1..];
        RemoveAtUnique(all, j);
      }
    }
    PopValueGetList(d, k, v, k);
    var all := GetList(d, k);
    var j :| 0 <= j < |all| && all[j] == v && GetList(PopValue(d, k, v), k) == all[..j] + all[j + 1..];
    assert NoDuplicates(all);
    RemoveAtUnique(all, j);
  }
}
