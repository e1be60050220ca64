/**
 * `BTreeMap<Key, V>` as a list of entries kept strictly increasing by key, so that
 * iterating the map visits the keys in the order Rust's `BTreeMap` does.
 */
module SortedMaps {
  import opened Wrappers
  import opened Keys

  datatype Entry<V> = Entry(key: Key, value: V)

  predicate Sorted<V>(m: seq<Entry<V>>) {
    forall i, j :: 0 <= i < j < |m| ==> KeyLess(m[i].key, m[j].key)
  }

  predicate HasKey<V>(m: seq<Entry<V>>, k: Key) {
    exists i :: 0 <= i < |m| && m[i].key == k
  }

  function KeysOf<V>(m: seq<Entry<V>>): (r: seq<Key>)
    ensures |r| == |m| && forall i :: 0 <= i < |m| ==> r[i] == m[i].key
  {
    if m == [] then [] else [m[0].key] + KeysOf(m[1..])
  }

  /** `BTreeMap::get`. */
  function Get<V>(m: seq<Entry<V>>, k: Key): (r: Option<V>)
    ensures r.Some? <==> HasKey(m, k)
    ensures r.Some? ==> exists i :: 0 <= i < |m| && m[i] == Entry(k, r.value)
  {
    if m == [] then None
    else if m[0].key == k then Some(m[0].value)
    else
      var r := Get(m[1..], k);
      assert HasKey(m, k) ==> HasKey(m[1..], k) by {
        if HasKey(m, k) {
          var i :| 0 <= i < |m| && m[i].key == k;
          assert m[1..][i - 1].key == k;
        }
      }
      assert r.Some? ==> exists i :: 0 <= i < |m| && m[i] == Entry(k, r.value) by {
        if r.Some? {
          var i :| 0 <= i < |m| - 1 && m[1..][i] == Entry(k, r.value);
          assert m[i + 1] == Entry(k, r.value);
        }
      }
      r
  }

  lemma SortedTail<V>(m: seq<Entry<V>>)
    requires Sorted(m) && m != []
    ensures Sorted(m[1..])
  {
  }

  /** Every key of a sorted map after the first is greater than the first. */
  lemma SortedHeadLeast<V>(m: seq<Entry<V>>, k: Key)
    requires Sorted(m) && m != [] && HasKey(m[1..], k)
    ensures KeyLess(m[0].key, k)
  {
    var i :| 0 <= i < |m| - 1 && m[1..][i].key == k;
    assert m[i + 1].key == k;
  }

  /** `BTreeMap::insert`: `k` now maps to `v`, and every other key is unchanged. */
  function Insert<V>(m: seq<Entry<V>>, k: Key, v: V): (r: seq<Entry<V>>)
    requires Sorted(m)
    ensures Sorted(r)
    ensures Get(r, k) == Some(v)
    ensures forall k' :: k' != k ==> Get(r, k') == Get(m, k')
    ensures HasKey(m, k) ==> |r| == |m|
    ensures !HasKey(m, k) ==> |r| == |m| + 1
    ensures r != [] && (r[0].key == k || (m != [] && r[0].key == m[0].key))
  {
    if m == [] then
      InsertIntoEmpty(k, v);
      [Entry(k, v)]
    else if m[0].key == k then
      InsertAtHead(m, k, v);
      [Entry(k, v)] + m[1..]
    else if KeyLess(k, m[0].key) then
      InsertBefore(m, k, v);
      [Entry(k, v)] + m
    else
      KeyOrderIsTotal(k, m[0].key, k);
      var rest := Insert(m[1..], k, v);
      InsertAfter(m, k, v, rest);
      [m[0]] + rest
  }

  /** What `Insert` promises of its result `r`. */
  ghost predicate Inserted<V>(m: seq<Entry<V>>, k: Key, v: V, r: seq<Entry<V>>) {
    Sorted(r) && Get(r, k) == Some(v)
    && (forall k' :: k' != k ==> Get(r, k') == Get(m, k'))
    && (HasKey(m, k) ==> |r| == |m|)
    && (!HasKey(m, k) ==> |r| == |m| + 1)
    && r != [] && (r[0].key == k || (m != [] && r[0].key == m[0].key))
  }

  /** Looking up in a map with one entry in front: that entry, or the rest. */
  lemma GetAll<V>(front: seq<Entry<V>>, rest: seq<Entry<V>>, k: Key)
    requires |front| == 1
    ensures forall k' :: Get(front + rest, k') == if front[0].key == k' then Some(front[0].value) else Get(rest, k')
    ensures HasKey(front + rest, k) <==> front[0].key == k || HasKey(rest, k)
  {
    assert (front + rest)[1..] == rest;
  }

  lemma InsertIntoEmpty<V>(k: Key, v: V)
    ensures Inserted([], k, v, [Entry(k, v)])
  {
    GetAll([Entry(k, v)], [], k);
    assert [Entry(k, v)] + [] == [Entry(k, v)];
  }

  lemma InsertAtHead<V>(m: seq<Entry<V>>, k: Key, v: V)
    requires Sorted(m) && m != [] && m[0].key == k
    ensures Inserted(m, k, v, [Entry(k, v)] + m[1..])
  {
    var r := [Entry(k, v)] + m[1..];
    GetAll([Entry(k, v)], m[1..], k);
    GetAll([m[0]], m[1..], k);
    assert [m[0]] + m[1..] == m;
    assert forall i :: 0 <= i < |m| ==> r[i].key == m[i].key;
  }

  lemma InsertBefore<V>(m: seq<Entry<V>>, k: Key, v: V)
    requires Sorted(m) && m != [] && KeyLess(k, m[0].key)
    ensures Inserted(m, k, v, [Entry(k, v)] + m)
  {
    InsertBeforeHead(m, k, v);
    GetAll([Entry(k, v)], m, k);
  }

  lemma InsertAfter<V>(m: seq<Entry<V>>, k: Key, v: V, rest: seq<Entry<V>>)
    requires Sorted(m) && m != [] && KeyLess(m[0].key, k) && m[0].key != k
    requires Inserted(m[1..], k, v, rest)
    ensures Inserted(m, k, v, [m[0]] + rest)
  {
    InsertAfterHead(m, k, v, rest);
    GetAll([m[0]], rest, k);
    GetAll([m[0]], m[1..], k);
    assert [m[0]] + m[1..] == m;
  }

  lemma InsertBeforeHead<V>(m: seq<Entry<V>>, k: Key, v: V)
    requires Sorted(m) && m != [] && KeyLess(k, m[0].key)
    ensures Sorted([Entry(k, v)] + m)
    ensures !HasKey(m, k)
  {
    var r := [Entry(k, v)] + m;
    forall i, j | 0 <= i < j < |r|
      ensures KeyLess(r[i].key, r[j].key)
    {
      if i == 0 && j > 1 {
        KeyOrderIsTotal(k, m[0].key, m[j - 1].key);
      }
    }
    if HasKey(m, k) {
      var i :| 0 <= i < |m| && m[i].key == k;
      if i > 0 {
        KeyOrderIsTotal(k, m[0].key, k);
      } else {
        KeyOrderIsTotal(k, k, k);
      }
    }
  }

  lemma InsertAfterHead<V>(m: seq<Entry<V>>, k: Key, v: V, rest: seq<Entry<V>>)
    requires Sorted(m) && m != [] && KeyLess(m[0].key, k)
    requires Sorted(rest)
    requires forall k' :: k' != k ==> Get(rest, k') == Get(m[1..], k')
    ensures Sorted([m[0]] + rest)
  {
    var r := [m[0]] + rest;
    forall i, j | 0 <= i < j < |r|
      ensures KeyLess(r[i].key, r[j].key)
    {
      if i == 0 {
        var x := rest[j - 1].key;
        if x != k {
          assert HasKey(rest, x);
          assert Get(m[1..], x).Some?;
          SortedHeadLeast(m, x);
        }
      }
    }
  }

  /** Keys of an insertion result come from the map or are the inserted key. */
  lemma InsertKeys<V>(m: seq<Entry<V>>, k: Key, v: V)
    requires Sorted(m)
    ensures forall i :: 0 <= i < |Insert(m, k, v)| ==> Insert(m, k, v)[i].key == k || HasKey(m, Insert(m, k, v)[i].key)
  {
    var r := Insert(m, k, v);
    forall i | 0 <= i < |r|
      ensures r[i].key == k || HasKey(m, r[i].key)
    {
      if r[i].key != k {
        assert HasKey(r, r[i].key);
        assert Get(r, r[i].key) == Get(m, r[i].key);
      }
    }
  }

  /** `BTreeMap::remove`: the map without `k`. */
  function Remove<V>(m: seq<Entry<V>>, k: Key): (r: seq<Entry<V>>)
    requires Sorted(m)
    ensures Sorted(r)
    ensures Get(r, k) == None
    ensures forall k' :: k' != k ==> Get(r, k') == Get(m, k')
  {
    if m == [] then []
    else if m[0].key == k then
      assert !HasKey(m[1..], k) by {
        if HasKey(m[1..], k) { SortedHeadLeast(m, k); KeyOrderIsTotal(k, k, k); }
      }
      m[1..]
    else
      var rest := Remove(m[1..], k);
      assert Sorted([m[0]] + rest) by {
        var r := [m[0]] + rest;
        forall i, j | 0 <= i < j < |r|
          ensures KeyLess(r[i].key, r[j].key)
        {
          if i == 0 {
            assert HasKey(rest, rest[j - 1].key);
            assert Get(rest, rest[j - 1].key).Some?;
            SortedHeadLeast(m, rest[j - 1].key);
          }
        }
      }
      [m[0]] + rest
  }

  /** Looking up in a map with one entry appended: the map's own entry wins. */
  lemma {:induction false} GetAppendLast<V>(m: seq<Entry<V>>, e: Entry<V>, k: Key)
    ensures Get(m + [e], k) == if HasKey(m, k) then Get(m, k) else if e.key == k then Some(e.value) else None
  {
    if m != [] {
      assert (m + [e])[1..] == m[1..] + [e];
      GetAppendLast(m[1..], e, k);
      if m[0].key != k && HasKey(m, k) {
        var i :| 0 <= i < |m| && m[i].key == k;
        assert m[1..][i - 1].key == k;
      }
    }
  }

  /**
   * Rebuilding a sorted map by inserting its entries in order: after the
   * `i`-th insertion, the copy agrees with the map's first `i + 1` entries.
   */
  lemma InsertNextOfSorted<V>(m: seq<Entry<V>>, i: nat, copy: seq<Entry<V>>)
    requires Sorted(m) && i < |m| && Sorted(copy)
    requires forall k :: Get(copy, k) == Get(m[..i], k)
    ensures forall k :: Get(Insert(copy, m[i].key, m[i].value), k) == Get(m[..i + 1], k)
  {
    var e := m[i];
    assert m[..i + 1] == m[..i] + [e];
    forall k
      ensures Get(Insert(copy, e.key, e.value), k) == Get(m[..i + 1], k)
    {
      GetAppendLast(m[..i], e, k);
      if HasKey(m[..i], e.key) {
        var j :| 0 <= j < i && m[..i][j].key == e.key;
        assert KeyLess(m[j].key, m[i].key);
        KeyOrderIsTotal(e.key, e.key, e.key);
      }
    }
  }
}
