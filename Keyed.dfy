/** The keyed in-memory cache shared by the three stores: a record from id to
    entity, written through copy-on-write insert and remove helpers and folds
    of them (the `reduce` calls), plus the order in which `Object.values`
    enumerates a record whose keys are integers. */
module Keyed {

  import opened Wrappers

  /** Every entry is stored under its own id. */
  ghost predicate KeyedBy<V>(m: map<int, V>, key: V -> int)
  {
    forall k :: k in m ==> key(m[k]) == k
  }

  /** `{...m, [k]: v}` */
  function Put<V>(m: map<int, V>, k: int, v: V): (r: map<int, V>)
    ensures k in r && r[k] == v
    ensures r.Keys == m.Keys + {k}
    ensures forall j :: j in m && j != k ==> r[j] == m[j]
  {
    m[k := v]
  }

  /** `const {[k]: _, ...rest} = m; rest` */
  function Drop<V>(m: map<int, V>, k: int): (r: map<int, V>)
    ensures k !in r
    ensures r.Keys == m.Keys - {k}
    ensures forall j :: j in r ==> r[j] == m[j]
    ensures k !in m ==> r == m
  {
    m - {k}
  }

  /** `vs.reduce(set, m)`: a left fold of Put. */
  function PutAll<V>(m: map<int, V>, vs: seq<V>, key: V -> int): (r: map<int, V>)
    decreases |vs|
  {
    if vs == [] then m else PutAll(Put(m, key(vs[0]), vs[0]), vs[1..], key)
  }

  /** `ks.reduce(remove, m)`: a left fold of Drop. */
  function DropAll<V>(m: map<int, V>, ks: seq<int>): (r: map<int, V>)
    decreases |ks|
  {
    if ks == [] then m else DropAll(Drop(m, ks[0]), ks[1..])
  }

  /** The last element of `vs` whose key is `k`, if any. */
  function LastWithKey<V>(vs: seq<V>, key: V -> int, k: int): (r: Option<V>)
    ensures r.None? <==> forall i :: 0 <= i < |vs| ==> key(vs[i]) != k
    ensures r.Some? ==> exists i :: 0 <= i < |vs| && vs[i] == r.value && key(vs[i]) == k &&
                                  (forall j :: i < j < |vs| ==> key(vs[j]) != k)
    decreases |vs|
  {
    if vs == [] then None
    else if key(vs[|vs| - 1]) == k then Some(vs[|vs| - 1])
    else LastWithKey(vs[..|vs| - 1], key, k)
  }

  /** An element that no later element shares its key with is the last one
      with that key. */
  lemma {:induction false} LastWithKeyIsLast<V>(vs: seq<V>, key: V -> int, i: int)
    requires 0 <= i < |vs|
    requires forall j :: i < j < |vs| ==> key(vs[j]) != key(vs[i])
    ensures LastWithKey(vs, key, key(vs[i])) == Some(vs[i])
    decreases |vs|
  {
    if i < |vs| - 1 {
      LastWithKeyIsLast(vs[..|vs| - 1], key, i);
    }
  }

  lemma PutIdempotent<V>(m: map<int, V>, k: int, v: V)
    ensures Put(Put(m, k, v), k, v) == Put(m, k, v)
  {
  }

  lemma DropIdempotent<V>(m: map<int, V>, k: int)
    ensures Drop(Drop(m, k), k) == Drop(m, k)
  {
  }

  /** A fold of Put keeps every key it had, adds the keys of `vs`, lets the
      later of two elements with the same key win, and leaves the value of
      every key not in `vs` alone. */
  lemma {:induction false} PutAllSpec<V>(m: map<int, V>, vs: seq<V>, key: V -> int)
    ensures var r := PutAll(m, vs, key);
      && (forall k :: k in r <==> k in m || LastWithKey(vs, key, k).Some?)
      && (forall k :: LastWithKey(vs, key, k).Some? ==> r[k] == LastWithKey(vs, key, k).value)
      && (forall k :: k in m && LastWithKey(vs, key, k).None? ==> r[k] == m[k])
    decreases |vs|
  {
    if vs != [] {
      var m1 := Put(m, key(vs[0]), vs[0]);
      PutAllSpec(m1, vs[1..], key);
      forall k ensures LastWithKey(vs, key, k) ==
        (if LastWithKey(vs[1..], key, k).Some? then LastWithKey(vs[1..], key, k)
         else if key(vs[0]) == k then Some(vs[0]) else None)
      {
        LastWithKeyCons(vs, key, k);
      }
    }
  }

  lemma {:induction false} LastWithKeyCons<V>(vs: seq<V>, key: V -> int, k: int)
    requires vs != []
    ensures LastWithKey(vs, key, k) ==
      (if LastWithKey(vs[1..], key, k).Some? then LastWithKey(vs[1..], key, k)
       else if key(vs[0]) == k then Some(vs[0]) else None)
    decreases |vs|
  {
    if |vs| > 1 && key(vs[|vs| - 1]) != k {
      assert vs[..|vs| - 1][1..] == vs[1..][..|vs[1..]| - 1];
      LastWithKeyCons(vs[..|vs| - 1], key, k);
    }
  }

  /** A fold of Drop removes exactly the listed keys and nothing else. */
  lemma {:induction false} DropAllSpec<V>(m: map<int, V>, ks: seq<int>)
    ensures var r := DropAll(m, ks);
      && (forall k :: k in r <==> k in m && k !in ks)
      && (forall k :: k in r ==> r[k] == m[k])
    decreases |ks|
  {
    if ks != [] {
      DropAllSpec(Drop(m, ks[0]), ks[1..]);
      assert forall k :: k in ks <==> k == ks[0] || k in ks[1..];
    }
  }

  /** `PutAllSpec` stated by positions in `vs`: a key is present when it was
      before or some element carries it, an element no later one shares its
      key with is the stored value, and keys no element carries keep their
      value. */
  lemma PutAllLatest<V>(m: map<int, V>, vs: seq<V>, key: V -> int)
    ensures var r := PutAll(m, vs, key);
      && (forall k :: k in r <==> k in m || exists i :: 0 <= i < |vs| && key(vs[i]) == k)
      && (forall i :: 0 <= i < |vs| ==> key(vs[i]) in r)
      && (forall i :: 0 <= i < |vs| && (forall j :: i < j < |vs| ==> key(vs[j]) != key(vs[i])) ==>
            r[key(vs[i])] == vs[i])
      && (forall k :: k in m && (forall i :: 0 <= i < |vs| ==> key(vs[i]) != k) ==> r[k] == m[k])
  {
    PutAllSpec(m, vs, key);
    var r := PutAll(m, vs, key);
    forall k ensures k in r <==> k in m || exists i :: 0 <= i < |vs| && key(vs[i]) == k {
      if exists i :: 0 <= i < |vs| && key(vs[i]) == k {
        var i :| 0 <= i < |vs| && key(vs[i]) == k;
        assert LastWithKey(vs, key, k).Some?;
      }
    }
    forall i | 0 <= i < |vs| ensures key(vs[i]) in r {
      assert LastWithKey(vs, key, key(vs[i])).Some?;
    }
    forall i | 0 <= i < |vs| && (forall j :: i < j < |vs| ==> key(vs[j]) != key(vs[i]))
      ensures r[key(vs[i])] == vs[i]
    {
      LastWithKeyIsLast(vs, key, i);
    }
    forall k | k in m && (forall i :: 0 <= i < |vs| ==> key(vs[i]) != k) ensures r[k] == m[k] {
      assert LastWithKey(vs, key, k).None?;
    }
  }

  /** Folding one more element onto a fold, as the loops over a response do. */
  lemma {:induction false} PutAllSnoc<V>(m: map<int, V>, vs: seq<V>, v: V, key: V -> int)
    ensures PutAll(m, vs + [v], key) == Put(PutAll(m, vs, key), key(v), v)
    decreases |vs|
  {
    if vs != [] {
      assert (vs + [v])[1..] == vs[1..] + [v];
      PutAllSnoc(Put(m, key(vs[0]), vs[0]), vs[1..], v, key);
    }
  }

  lemma {:induction false} DropAllSnoc<V>(m: map<int, V>, ks: seq<int>, k: int)
    ensures DropAll(m, ks + [k]) == Drop(DropAll(m, ks), k)
    decreases |ks|
  {
    if ks != [] {
      assert (ks + [k])[1..] == ks[1..] + [k];
      DropAllSnoc(Drop(m, ks[0]), ks[1..], k);
    }
  }

  /** Writing back values that the map held before, over a map that differs from
      it only at their keys, gives back the original map: the rollback of a
      batch of optimistic writes. */
  lemma {:induction false} PutAllRestores<V>(orig: map<int, V>, m: map<int, V>, vs: seq<V>, key: V -> int)
    requires m.Keys == orig.Keys
    requires forall i :: 0 <= i < |vs| ==> key(vs[i]) in orig && orig[key(vs[i])] == vs[i]
    requires forall k :: k in orig && LastWithKey(vs, key, k).None? ==> m[k] == orig[k]
    ensures PutAll(m, vs, key) == orig
  {
    PutAllSpec(m, vs, key);
    var r := PutAll(m, vs, key);
    forall k | k in r ensures k in orig {
      if LastWithKey(vs, key, k).Some? {
        var i :| 0 <= i < |vs| && vs[i] == LastWithKey(vs, key, k).value && key(vs[i]) == k;
      }
    }
    forall k | k in orig ensures k in r && r[k] == orig[k] {
      if LastWithKey(vs, key, k).Some? {
        var i :| 0 <= i < |vs| && vs[i] == LastWithKey(vs, key, k).value && key(vs[i]) == k;
      }
    }
    assert r.Keys == orig.Keys;
  }

  /** Keeping the ids of a record keyed by id. */
  lemma PutAllKeyedBy<V>(m: map<int, V>, vs: seq<V>, key: V -> int)
    ensures KeyedBy(m, key) ==> KeyedBy(PutAll(m, vs, key), key)
    decreases |vs|
  {
    if vs != [] && KeyedBy(m, key) {
      PutAllKeyedBy(Put(m, key(vs[0]), vs[0]), vs[1..], key);
    }
  }

  lemma DropAllKeyedBy<V>(m: map<int, V>, ks: seq<int>, key: V -> int)
    ensures KeyedBy(m, key) ==> KeyedBy(DropAll(m, ks), key)
  {
    DropAllSpec(m, ks);
  }

  // ---- Object.values on a record with integer keys ---------------------------

  lemma MinExists(s: set<int>)
    requires s != {}
    ensures exists x :: x in s && forall y :: y in s ==> x <= y
    decreases |s|
  {
    if forall a :: a !in s {
      assert false;
    }
    var a :| a in s;
    var rest := s - {a};
    if rest == {} {
      forall y | y in s ensures a <= y {
        assert y !in rest;
      }
    } else {
      MinExists(rest);
      var b :| b in rest && forall y :: y in rest ==> b <= y;
      var x := if a < b then a else b;
      forall y | y in s ensures x <= y {
        if y != a {
          assert y in rest;
        }
      }
      assert x in s;
    }
  }

  function Min(s: set<int>): (x: int)
    requires s != {}
    ensures x in s && forall y :: y in s ==> x <= y
  {
    MinExists(s);
    var x :| x in s && forall y :: y in s ==> x <= y; x
  }

  /** The keys of a record in the order JavaScript enumerates integer keys:
      ascending. */
  function SortedKeys(s: set<int>): (r: seq<int>)
    ensures forall k :: k in r <==> k in s
    ensures forall i, j :: 0 <= i < j < |r| ==> r[i] < r[j]
    ensures |r| == |s|
    decreases |s|
  {
    if s == {} then []
    else
      var x := Min(s);
      var rest := SortedKeys(s - {x});
      assert forall i :: 0 <= i < |rest| ==> rest[i] in s - {x};
      ConsAscending(x, rest);
      [x] + rest
  }

  lemma ConsAscending(x: int, rest: seq<int>)
    requires forall i, j :: 0 <= i < j < |rest| ==> rest[i] < rest[j]
    requires forall i :: 0 <= i < |rest| ==> x < rest[i]
    ensures var r := [x] + rest; forall i, j :: 0 <= i < j < |r| ==> r[i] < r[j]
  {
    var r := [x] + rest;
    forall i, j | 0 <= i < j < |r| ensures r[i] < r[j] {
      assert r[j] == rest[j - 1];
      if i > 0 {
        assert r[i] == rest[i - 1];
      }
    }
  }

  /** `Object.values(m)`. */
  function Values<V(==)>(m: map<int, V>): (r: seq<V>)
    ensures |r| == |m|
    ensures forall i :: 0 <= i < |r| ==> r[i] == m[SortedKeys(m.Keys)[i]]
  {
    var ks := SortedKeys(m.Keys);
    assert forall i :: 0 <= i < |ks| ==> ks[i] in m.Keys;
    seq(|ks|, i requires 0 <= i < |ks| => m[ks[i]])
  }

  /** `v` is one of the record's values. */
  ghost predicate Stored<V>(m: map<int, V>, v: V)
  {
    exists k :: k in m && m[k] == v
  }

  /** In a record keyed by id, a value is stored under its own id. */
  lemma ValueUnderKey<V>(m: map<int, V>, key: V -> int, v: V)
    requires KeyedBy(m, key) && Stored(m, v)
    ensures key(v) in m && m[key(v)] == v
  {
    var k :| k in m && m[k] == v;
  }

  /** `Object.values` lists exactly the values of the record. */
  lemma ValuesAreValues<V>(m: map<int, V>)
    ensures forall v :: v in Values(m) <==> Stored(m, v)
  {
    var vs := Values(m);
    var ks := SortedKeys(m.Keys);
    forall v | Stored(m, v) ensures v in vs {
      var k :| k in m && m[k] == v;
      var i :| 0 <= i < |ks| && ks[i] == k;
      assert vs[i] == v;
    }
    forall v | v in vs ensures Stored(m, v) {
      var i :| 0 <= i < |vs| && vs[i] == v;
      assert ks[i] in m && m[ks[i]] == v;
    }
  }

  /** Every entry of the record is enumerated. */
  lemma ValuesHas<V>(m: map<int, V>, k: int)
    requires k in m
    ensures m[k] in Values(m)
  {
    var ks := SortedKeys(m.Keys);
    var i :| 0 <= i < |ks| && ks[i] == k;
    assert Values(m)[i] == m[k];
  }

  /** In `Object.values` of a record keyed by id, the ids strictly ascend, so in
      particular no two entries carry the same id. */
  lemma ValuesAscend<V>(m: map<int, V>, key: V -> int)
    ensures KeyedBy(m, key) ==> var vs := Values(m);
      forall i, j :: 0 <= i < j < |vs| ==> key(vs[i]) < key(vs[j])
  {
  }
}
