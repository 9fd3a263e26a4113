/** An IndexedDB object store with an in-line string key (`keyPath: 'id'`):
    at most one record per key, and `getAll` returns the records in ascending
    key order. Transactions and asynchrony are not modelled. */
module KeyedStore {
  import opened Common
  import Strings

  datatype Record<V> = Record(key: string, value: V)

  predicate Ascending<V>(rs: seq<Record<V>>)
  {
    forall i, j :: 0 <= i < j < |rs| ==> Strings.Lt(rs[i].key, rs[j].key)
  }

  type Store<V> = rs: seq<Record<V>> | Ascending(rs) witness []

  function KeySet<V>(s: seq<Record<V>>): set<string>
  {
    set i | 0 <= i < |s| :: s[i].key
  }

  /** `store.get(key)`. */
  function Get<V>(s: seq<Record<V>>, k: string): (r: Option<V>)
    ensures r.Some? <==> k in KeySet(s)
    ensures r.Some? ==> Record(k, r.value) in s
    decreases |s|
  {
    if |s| == 0 then None
    else if s[0].key == k then Some(s[0].value)
    else
      var r := Get(s[1..], k);
      assert KeySet(s) == {s[0].key} + KeySet(s[1..]);
      r
  }

  /** The record at a position is the one `get` finds for its key. */
  lemma {:induction false} GetAt<V>(s: Store<V>, i: int)
    requires 0 <= i < |s|
    ensures Get(s, s[i].key) == Some(s[i].value)
    decreases |s|
  {
    if i > 0 {
      Strings.LtIrreflexive(s[0].key);
      assert Strings.Lt(s[0].key, s[i].key);
      GetAt(s[1..], i - 1);
    }
  }

  /** `store.put(value)`: inserts, or overwrites the record with the same key,
      keeping the records in key order. */
  function Put<V>(s: Store<V>, k: string, v: V): (r: Store<V>)
    ensures Get(r, k) == Some(v)
    ensures forall k' :: k' != k ==> Get(r, k') == Get(s, k')
    ensures KeySet(r) == KeySet(s) + {k}
    ensures |r| == if k in KeySet(s) then |s| else |s| + 1
    decreases |s|
  {
    if |s| == 0 then [Record(k, v)]
    else if s[0].key == k then
      PutReplacesHead(s, k, v);
      [Record(k, v)] + s[1..]
    else if Strings.Lt(k, s[0].key) then
      PutBeforeHead(s, k, v);
      [Record(k, v)] + s
    else
      var rest := Put(s[1..], k, v);
      PutAfterHead(s, k, v, rest);
      [s[0]] + rest
  }

  lemma PutReplacesHead<V>(s: Store<V>, k: string, v: V)
    requires |s| > 0 && s[0].key == k
    ensures Ascending([Record(k, v)] + s[1..])
    ensures Get([Record(k, v)] + s[1..], k) == Some(v)
    ensures forall k' :: k' != k ==> Get([Record(k, v)] + s[1..], k') == Get(s, k')
    ensures KeySet([Record(k, v)] + s[1..]) == KeySet(s)
  {
    var r := [Record(k, v)] + s[1..];
    assert r[1..] == s[1..];
    assert forall j :: 0 <= j < |r| ==> r[j].key == s[j].key;
    KeySetCons(s[0], s[1..]);
    KeySetCons(Record(k, v), s[1..]);
  }

  lemma PutBeforeHead<V>(s: Store<V>, k: string, v: V)
    requires |s| > 0 && Strings.Lt(k, s[0].key)
    ensures Ascending([Record(k, v)] + s)
    ensures Get([Record(k, v)] + s, k) == Some(v)
    ensures forall k' :: k' != k ==> Get([Record(k, v)] + s, k') == Get(s, k')
    ensures KeySet([Record(k, v)] + s) == KeySet(s) + {k}
    ensures k !in KeySet(s)
  {
    var r := [Record(k, v)] + s;
    assert forall j :: 0 < j < |r| ==> r[j] == s[j - 1];
    forall j | 0 < j < |r| ensures Strings.Lt(k, r[j].key) {
      if j > 1 {
        Strings.LtTransitive(k, s[0].key, s[j - 1].key);
      }
    }
    assert r[1..] == s;
    KeySetCons(Record(k, v), s);
    Strings.LtIrreflexive(k);
  }

  lemma PutAfterHead<V>(s: Store<V>, k: string, v: V, rest: Store<V>)
    requires |s| > 0 && s[0].key != k && !Strings.Lt(k, s[0].key)
    requires Get(rest, k) == Some(v)
    requires forall k' :: k' != k ==> Get(rest, k') == Get(s[1..], k')
    requires KeySet(rest) == KeySet(s[1..]) + {k}
    requires |rest| == if k in KeySet(s[1..]) then |s| - 1 else |s|
    ensures Ascending([s[0]] + rest)
    ensures Get([s[0]] + rest, k) == Some(v)
    ensures forall k' :: k' != k ==> Get([s[0]] + rest, k') == Get(s, k')
    ensures KeySet([s[0]] + rest) == KeySet(s) + {k}
    ensures |[s[0]] + rest| == if k in KeySet(s) then |s| else |s| + 1
  {
    HeadBelowRest(s, k, rest);
    AfterHeadKeys(s, k, rest);
    AfterHeadGet(s, k, v, rest);
  }

  lemma AfterHeadKeys<V>(s: Store<V>, k: string, rest: seq<Record<V>>)
    requires |s| > 0 && s[0].key != k
    requires KeySet(rest) == KeySet(s[1..]) + {k}
    requires |rest| == if k in KeySet(s[1..]) then |s| - 1 else |s|
    ensures KeySet([s[0]] + rest) == KeySet(s) + {k}
    ensures |[s[0]] + rest| == if k in KeySet(s) then |s| else |s| + 1
  {
    assert [s[0]] + s[1..] == s;
    KeySetCons(s[0], s[1..]);
    KeySetCons(s[0], rest);
  }

  lemma AfterHeadGet<V>(s: Store<V>, k: string, v: V, rest: seq<Record<V>>)
    requires |s| > 0 && s[0].key != k
    requires Get(rest, k) == Some(v)
    requires forall k' :: k' != k ==> Get(rest, k') == Get(s[1..], k')
    ensures Get([s[0]] + rest, k) == Some(v)
    ensures forall k' :: k' != k ==> Get([s[0]] + rest, k') == Get(s, k')
  {
    assert [s[0]] + s[1..] == s;
    GetConsAll(s[0], rest);
    GetConsAll(s[0], s[1..]);
  }

  lemma GetConsAll<V>(x: Record<V>, s: seq<Record<V>>)
    ensures forall k :: Get([x] + s, k) == if x.key == k then Some(x.value) else Get(s, k)
  {
    forall k ensures Get([x] + s, k) == if x.key == k then Some(x.value) else Get(s, k) {
      GetCons(x, s, k);
    }
  }

  lemma GetCons<V>(x: Record<V>, s: seq<Record<V>>, k: string)
    ensures Get([x] + s, k) == if x.key == k then Some(x.value) else Get(s, k)
  {
    assert ([x] + s)[1..] == s;
  }

  lemma HeadBelowRest<V>(s: Store<V>, k: string, rest: seq<Record<V>>)
    requires |s| > 0 && s[0].key != k && !Strings.Lt(k, s[0].key)
    requires Ascending(rest)
    requires KeySet(rest) == KeySet(s[1..]) + {k}
    ensures Ascending([s[0]] + rest)
  {
    Strings.LtTotal(k, s[0].key);
    forall j | 0 <= j < |rest| ensures Strings.Lt(s[0].key, rest[j].key) {
      assert rest[j].key in KeySet(rest);
      if rest[j].key != k {
        var t :| 0 <= t < |s[1..]| && s[1..][t].key == rest[j].key;
        assert Strings.Lt(s[0].key, s[t + 1].key);
      }
    }
    var r := [s[0]] + rest;
    assert forall j :: 0 < j < |r| ==> r[j] == rest[j - 1];
  }

  /** The first record's key is smaller than every other key of the store. */
  lemma KeyedHeadIsLeast<V>(s: Store<V>)
    requires |s| > 0
    ensures s[0].key !in KeySet(s[1..])
  {
    Strings.LtIrreflexive(s[0].key);
    forall t | 0 <= t < |s| - 1
      ensures s[1..][t].key != s[0].key
    {
      assert Strings.Lt(s[0].key, s[t + 1].key);
    }
  }

  lemma KeySetCons<V>(x: Record<V>, s: seq<Record<V>>)
    ensures KeySet([x] + s) == {x.key} + KeySet(s)
  {
    var r := [x] + s;
    assert r[0] == x;
    assert forall j :: 0 < j < |r| ==> r[j] == s[j - 1];
    forall key | key in KeySet(s) ensures key in KeySet(r) {
      var t :| 0 <= t < |s| && s[t].key == key;
      assert r[t + 1].key == key;
    }
    forall key | key in KeySet(r) ensures key == x.key || key in KeySet(s) {
      var t :| 0 <= t < |r| && r[t].key == key;
      if t > 0 {
        assert s[t - 1].key == key;
      }
    }
  }

  /** `getAll()`: every stored value, in ascending key order. */
  function Values<V>(s: Store<V>): (vs: seq<V>)
    ensures |vs| == |s|
    ensures forall i :: 0 <= i < |s| ==> vs[i] == s[i].value
  {
    seq(|s|, i requires 0 <= i < |s| => s[i].value)
  }

  /** Every stored key occurs once. */
  lemma {:induction false} DistinctKeyCount<V>(s: Store<V>)
    ensures |KeySet(s)| == |s|
    decreases |s|
  {
    if |s| > 0 {
      DistinctKeyCount(s[1..]);
      KeySetCons(s[0], s[1..]);
      KeyedHeadIsLeast(s);
      assert [s[0]] + s[1..] == s;
    }
  }

  /** The value `getAll` lists at position `i` is what `get` finds for the
      `i`-th smallest key. */
  lemma ValuesAreStored<V>(s: Store<V>)
    ensures forall i :: 0 <= i < |s| ==> Get(s, s[i].key) == Some(Values(s)[i])
  {
    forall i | 0 <= i < |s| ensures Get(s, s[i].key) == Some(Values(s)[i]) {
      GetAt(s, i);
    }
  }

  /** What `get` finds for a stored key is among the values `getAll` lists. */
  lemma ValuesHoldStored<V>(s: Store<V>)
    ensures forall k :: k in KeySet(s) ==> Get(s, k).value in Values(s)
  {
    forall k | k in KeySet(s) ensures Get(s, k).value in Values(s) {
      var i :| 0 <= i < |s| && s[i] == Record(k, Get(s, k).value);
      assert Values(s)[i] == Get(s, k).value;
    }
  }

  /** `store.clear()`. */
  function Clear<V>(s: Store<V>): (r: Store<V>)
    ensures forall k :: Get(r, k).None?
  {
    []
  }
}
