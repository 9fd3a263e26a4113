/** A JavaScript `Map` with string keys (and a plain object used as a
    dictionary): entries in insertion order, each key at most once. `set` on a present key keeps its
    position, `set` on a new key appends, `delete` removes the entry. */
module OrderedMap {
  import opened Common

  datatype Entry<V> = Entry(key: string, value: V)

  predicate DistinctKeys<V>(es: seq<Entry<V>>)
  {
    forall i, j :: 0 <= i < j < |es| ==> es[i].key != es[j].key
  }

  type OMap<V> = es: seq<Entry<V>> | DistinctKeys(es) witness []

  function Empty<V>(): OMap<V>
  {
    []
  }

  function Keys<V>(m: OMap<V>): (ks: seq<string>)
    ensures |ks| == |m|
    ensures forall i :: 0 <= i < |m| ==> ks[i] == m[i].key
  {
    seq(|m|, i requires 0 <= i < |m| => m[i].key)
  }

  /** Position of key `k`, or -1 when it is absent. */
  function IndexOf<V>(m: OMap<V>, k: string): (i: int)
    ensures -1 <= i < |m|
    ensures 0 <= i ==> m[i].key == k
    ensures i < 0 <==> forall j :: 0 <= j < |m| ==> m[j].key != k
    decreases |m|
  {
    if |m| == 0 then -1
    else if m[0].key == k then 0
    else
      var i := IndexOf(m[1..], k);
      if i < 0 then -1 else i + 1
  }

  /** `Map.prototype.has`. */
  predicate Has<V>(m: OMap<V>, k: string)
  {
    IndexOf(m, k) >= 0
  }

  /** `Map.prototype.get`: present exactly when some entry carries `k`, and
      then the value is that entry's. */
  function Get<V>(m: OMap<V>, k: string): (r: Option<V>)
    ensures r.Some? <==> Has(m, k)
    ensures r.Some? <==> k in Keys(m)
    ensures r.Some? ==> Entry(k, r.value) in m
  {
    var i := IndexOf(m, k);
    if i < 0 then None else Some(m[i].value)
  }

  /** Reading the key of the entry at position `i` yields that entry's value. */
  lemma GetAt<V>(m: OMap<V>, i: int)
    requires 0 <= i < |m|
    ensures IndexOf(m, m[i].key) == i
    ensures Get(m, m[i].key) == Some(m[i].value)
  {
  }

  /** `Map.prototype.set`. */
  function Set<V>(m: OMap<V>, k: string, v: V): (r: OMap<V>)
    ensures Get(r, k) == Some(v)
    ensures forall k' :: k' != k ==> Get(r, k') == Get(m, k')
    ensures Has(m, k) ==> Keys(r) == Keys(m)
    ensures !Has(m, k) ==> Keys(r) == Keys(m) + [k]
  {
    var i := IndexOf(m, k);
    if 0 <= i then
      SetInPlace(m, i, v);
      m[i := Entry(k, v)]
    else
      SetAppended(m, k, v);
      m + [Entry(k, v)]
  }

  /** Overwriting the value at position `i` keeps every key where it was. */
  lemma SetInPlace<V>(m: OMap<V>, i: int, v: V)
    requires 0 <= i < |m|
    ensures DistinctKeys(m[i := Entry(m[i].key, v)])
    ensures Get(m[i := Entry(m[i].key, v)], m[i].key) == Some(v)
    ensures forall k' :: k' != m[i].key ==> Get(m[i := Entry(m[i].key, v)], k') == Get(m, k')
    ensures Keys(m[i := Entry(m[i].key, v)]) == Keys(m)
  {
    var r: OMap<V> := m[i := Entry(m[i].key, v)];
    assert forall j :: 0 <= j < |r| ==> r[j].key == m[j].key;
    GetAt(r, i);
    forall k' | k' != m[i].key ensures Get(r, k') == Get(m, k') {
      var a := IndexOf(m, k');
      if 0 <= a {
        GetAt(m, a);
        GetAt(r, a);
      }
    }
    assert Keys(r) == Keys(m);
  }

  /** Appending an entry for an absent key leaves the other keys alone. */
  lemma SetAppended<V>(m: OMap<V>, k: string, v: V)
    requires !Has(m, k)
    ensures DistinctKeys(m + [Entry(k, v)])
    ensures Get(m + [Entry(k, v)], k) == Some(v)
    ensures forall k' :: k' != k ==> Get(m + [Entry(k, v)], k') == Get(m, k')
    ensures Keys(m + [Entry(k, v)]) == Keys(m) + [k]
  {
    var r: OMap<V> := m + [Entry(k, v)];
    GetAt(r, |m|);
    forall k' | k' != k ensures Get(r, k') == Get(m, k') {
      var a := IndexOf(m, k');
      if 0 <= a {
        GetAt(m, a);
        GetAt(r, a);
      } else {
        assert forall j :: 0 <= j < |r| ==> r[j].key != k';
      }
    }
    assert Keys(r) == Keys(m) + [k];
  }

  /** `Map.prototype.delete`: afterwards `k` is absent and every other key
      reads as before. */
  function Delete<V>(m: OMap<V>, k: string): (r: OMap<V>)
    ensures !Has(r, k)
    ensures forall k' :: k' != k ==> Get(r, k') == Get(m, k')
    ensures |r| == if Has(m, k) then |m| - 1 else |m|
  {
    var i := IndexOf(m, k);
    if i < 0 then m
    else
      var r := m[..i] + m[i + 1..];
      RemoveAtGet(m, i, r);
      r
  }

  lemma RemoveAtGet<V>(m: OMap<V>, i: int, r: OMap<V>)
    requires 0 <= i < |m| && r == m[..i] + m[i + 1..]
    ensures !Has(r, m[i].key)
    ensures forall k' :: k' != m[i].key ==> Get(r, k') == Get(m, k')
  {
    assert forall j :: 0 <= j < |r| ==> r[j].key != m[i].key by {
      forall j | 0 <= j < |r| ensures r[j].key != m[i].key {
        RemoveAtIndex(m, i, r, j);
      }
    }
    forall k' | k' != m[i].key
      ensures Get(r, k') == Get(m, k')
    {
      RemoveAtGetOther(m, i, r, k');
    }
  }

  lemma RemoveAtIndex<V>(m: OMap<V>, i: int, r: seq<Entry<V>>, j: int)
    requires 0 <= i < |m| && r == m[..i] + m[i + 1..]
    requires 0 <= j < |r|
    ensures r[j] == if j < i then m[j] else m[j + 1]
  {
  }

  lemma RemoveAtGetOther<V>(m: OMap<V>, i: int, r: OMap<V>, k: string)
    requires 0 <= i < |m| && r == m[..i] + m[i + 1..]
    requires k != m[i].key
    ensures Get(r, k) == Get(m, k)
  {
    var a := IndexOf(m, k);
    if 0 <= a {
      var b := if a < i then a else a - 1;
      RemoveAtIndex(m, i, r, b);
      GetAt(m, a);
      GetAt(r, b);
    } else {
      forall j | 0 <= j < |r| ensures r[j].key != k {
        RemoveAtIndex(m, i, r, j);
      }
    }
  }

  /** The key of the first entry, in insertion order, whose value is `v`. */
  function FirstKeyWithValue<V(==)>(m: OMap<V>, v: V): (r: Option<string>)
    ensures r.Some? ==> Get(m, r.value) == Some(v)
    ensures r.Some? ==> forall j :: 0 <= j < IndexOf(m, r.value) ==> m[j].value != v
    ensures r.None? <==> forall j :: 0 <= j < |m| ==> m[j].value != v
    decreases |m|
  {
    if |m| == 0 then None
    else if m[0].value == v then Some(m[0].key)
    else
      var r := FirstKeyWithValue(m[1..], v);
      if r.Some? then
        FirstKeyBehindHead(m, v, r.value);
        r
      else
        assert forall j :: 0 < j < |m| ==> m[j] == m[1..][j - 1];
        r
  }

  /** A key found behind a head entry that does not hold `v` keeps its
      properties in the whole map, one position further on. */
  lemma FirstKeyBehindHead<V>(m: OMap<V>, v: V, k: string)
    requires |m| > 0 && m[0].value != v
    requires Get(m[1..], k) == Some(v)
    requires forall j :: 0 <= j < IndexOf(m[1..], k) ==> m[1..][j].value != v
    ensures Get(m, k) == Some(v)
    ensures forall j :: 0 <= j < IndexOf(m, k) ==> m[j].value != v
  {
    var i := IndexOf(m[1..], k);
    assert m[1..][i] == m[i + 1];
    assert m[0].key != k;
    assert IndexOf(m, k) == i + 1;
    assert forall j :: 0 < j <= i ==> m[j] == m[1..][j - 1];
  }
}
