/** The offline persistence layer: three IndexedDB object stores (`messages`,
    `profile`, `peers`), each keyed by the record's `id`. Every operation is a
    pure function from the database before to the database after (or to the
    records read). The ISO-string round trip of dates is taken to be exact. */
module Storage {
  import opened Common
  import opened P2PTypes
  import KeyedStore
  import Strings

  datatype Db = Db(
    messages: KeyedStore.Store<Message>,
    profiles: KeyedStore.Store<LocalProfile>,
    peers: KeyedStore.Store<Peer>)

  /** `saveProfile`: a put keyed by the profile's id. */
  function SaveProfile(db: Db, p: LocalProfile): (r: Db)
    ensures KeyedStore.Get(r.profiles, p.id) == Some(p)
    ensures forall k :: k != p.id ==> KeyedStore.Get(r.profiles, k) == KeyedStore.Get(db.profiles, k)
    ensures r.messages == db.messages && r.peers == db.peers
  {
    db.(profiles := KeyedStore.Put(db.profiles, p.id, p))
  }

  /** `k` is a stored key and every other stored key sorts after it. */
  predicate IsLeastKey<V>(s: KeyedStore.Store<V>, k: string)
  {
    k in KeyedStore.KeySet(s) &&
    forall k' :: k' in KeyedStore.KeySet(s) && k' != k ==> Strings.Lt(k, k')
  }

  /** `getProfile`: the first record `getAll` yields, which is the one with the
      least key, or nothing when the store is empty. */
  function GetProfile(db: Db): (r: Option<LocalProfile>)
    ensures r.None? <==> KeyedStore.KeySet(db.profiles) == {}
    ensures r.Some? ==> exists k :: KeyedStore.Get(db.profiles, k) == r && IsLeastKey(db.profiles, k)
  {
    if |db.profiles| > 0 then
      var s := db.profiles;
      assert s[0].key in KeyedStore.KeySet(s);
      KeyedStore.GetAt(s, 0);
      assert IsLeastKey(s, s[0].key);
      Some(s[0].value)
    else None
  }

  /** `deleteProfile`: clears the profile store. */
  function DeleteProfile(db: Db): (r: Db)
    ensures GetProfile(r).None?
    ensures r.messages == db.messages && r.peers == db.peers
  {
    db.(profiles := KeyedStore.Clear(db.profiles))
  }

  /** `saveMessage`: a put keyed by the message id; a message with the same id
      is overwritten. */
  function SaveMessage(db: Db, m: Message): (r: Db)
    ensures KeyedStore.Get(r.messages, m.id) == Some(m)
    ensures forall k :: k != m.id ==> KeyedStore.Get(r.messages, k) == KeyedStore.Get(db.messages, k)
    ensures r.profiles == db.profiles && r.peers == db.peers
  {
    db.(messages := KeyedStore.Put(db.messages, m.id, m))
  }

  /** The message travels between `a` and `b`, in either direction. */
  predicate InConversation(m: Message, a: string, b: string)
  {
    (m.senderId == a && m.receiverId == b) || (m.senderId == b && m.receiverId == a)
  }

  /** The conversation filter of `getMessages`, keeping the store's order. */
  function Conversation(ms: seq<Message>, a: string, b: string): (r: seq<Message>)
    ensures forall m :: m in r <==> m in ms && InConversation(m, a, b)
    ensures |r| <= |ms|
    decreases |ms|
  {
    if |ms| == 0 then []
    else if InConversation(ms[0], a, b) then [ms[0]] + Conversation(ms[1..], a, b)
    else Conversation(ms[1..], a, b)
  }

  predicate SortedByTime(ms: seq<Message>)
  {
    forall i, j :: 0 <= i < j < |ms| ==> ms[i].timestamp <= ms[j].timestamp
  }

  /** Inserts `x` before the first element that is not earlier than it, so
      that among equal timestamps the original order is kept. */
  function InsertByTime(x: Message, ms: seq<Message>): (r: seq<Message>)
    requires SortedByTime(ms)
    ensures SortedByTime(r)
    ensures multiset(r) == multiset(ms) + multiset{x}
    decreases |ms|
  {
    if |ms| == 0 || x.timestamp <= ms[0].timestamp then
      InsertAtHead(x, ms);
      [x] + ms
    else
      var rest := InsertByTime(x, ms[1..]);
      InsertBehindHead(x, ms, rest);
      [ms[0]] + rest
  }

  lemma InsertAtHead(x: Message, ms: seq<Message>)
    requires SortedByTime(ms)
    requires |ms| == 0 || x.timestamp <= ms[0].timestamp
    ensures SortedByTime([x] + ms)
  {
    var r := [x] + ms;
    forall i, j | 0 <= i < j < |r| ensures r[i].timestamp <= r[j].timestamp {
      if i == 0 {
        assert r[j] == ms[j - 1];
      } else {
        assert r[i] == ms[i - 1] && r[j] == ms[j - 1];
      }
    }
  }

  lemma InsertBehindHead(x: Message, ms: seq<Message>, rest: seq<Message>)
    requires SortedByTime(ms) && |ms| > 0 && ms[0].timestamp < x.timestamp
    requires SortedByTime(rest)
    requires multiset(rest) == multiset(ms[1..]) + multiset{x}
    ensures SortedByTime([ms[0]] + rest)
    ensures multiset([ms[0]] + rest) == multiset(ms) + multiset{x}
  {
    assert ms == [ms[0]] + ms[1..];
    forall j | 0 <= j < |rest| ensures ms[0].timestamp <= rest[j].timestamp {
      assert rest[j] in multiset(rest);
      if rest[j] != x {
        assert rest[j] in multiset(ms[1..]);
        var t :| 0 <= t < |ms[1..]| && ms[1..][t] == rest[j];
        assert ms[t + 1] == rest[j];
      }
    }
    var r := [ms[0]] + rest;
    forall i, j | 0 <= i < j < |r| ensures r[i].timestamp <= r[j].timestamp {
      if i == 0 {
        assert r[j] == rest[j - 1];
      } else {
        assert r[i] == rest[i - 1] && r[j] == rest[j - 1];
      }
    }
  }

  /** `Array.prototype.sort` with the comparator `a.timestamp - b.timestamp`
      (a stable sort), as an insertion sort. */
  function SortByTime(ms: seq<Message>): (r: seq<Message>)
    ensures SortedByTime(r)
    ensures multiset(r) == multiset(ms)
    decreases |ms|
  {
    if |ms| == 0 then []
    else
      assert ms == [ms[0]] + ms[1..];
      InsertByTime(ms[0], SortByTime(ms[1..]))
  }

  /** The messages stamped `t`, in their order. */
  function AtTime(ms: seq<Message>, t: int): (r: seq<Message>)
    ensures forall m :: m in r <==> m in ms && m.timestamp == t
    decreases |ms|
  {
    if |ms| == 0 then []
    else if ms[0].timestamp == t then [ms[0]] + AtTime(ms[1..], t)
    else AtTime(ms[1..], t)
  }

  /** Inserting puts `x` ahead of every message with the same timestamp. */
  lemma {:induction false} InsertByTimeAtTime(x: Message, ms: seq<Message>, t: int)
    requires SortedByTime(ms)
    ensures AtTime(InsertByTime(x, ms), t) == (if x.timestamp == t then [x] else []) + AtTime(ms, t)
    decreases |ms|
  {
    var r := InsertByTime(x, ms);
    if |ms| == 0 || x.timestamp <= ms[0].timestamp {
      assert r == [x] + ms;
      assert r[1..] == ms;
    } else {
      var rest := InsertByTime(x, ms[1..]);
      assert r == [ms[0]] + rest;
      assert r[1..] == rest;
      InsertByTimeAtTime(x, ms[1..], t);
    }
  }

  /** The sort is stable: for each timestamp, the messages carrying it keep
      their relative order. */
  lemma {:induction false} SortByTimeStable(ms: seq<Message>, t: int)
    ensures AtTime(SortByTime(ms), t) == AtTime(ms, t)
    decreases |ms|
  {
    if |ms| > 0 {
      SortByTimeStable(ms[1..], t);
      InsertByTimeAtTime(ms[0], SortByTime(ms[1..]), t);
    }
  }

  /** `getMessages(a, b)`: exactly the stored messages between `a` and `b`,
      oldest first. */
  function GetMessages(db: Db, a: string, b: string): (r: seq<Message>)
    ensures forall m :: m in r <==> m in KeyedStore.Values(db.messages) && InConversation(m, a, b)
    ensures SortedByTime(r)
    ensures multiset(r) == multiset(Conversation(KeyedStore.Values(db.messages), a, b))
  {
    var c := Conversation(KeyedStore.Values(db.messages), a, b);
    var r := SortByTime(c);
    assert forall m :: m in r <==> m in multiset(r);
    assert forall m :: m in c <==> m in multiset(c);
    r
  }

  /** The conversation filter does not depend on which side is named first. */
  lemma {:induction false} ConversationSymmetric(ms: seq<Message>, a: string, b: string)
    ensures Conversation(ms, a, b) == Conversation(ms, b, a)
    decreases |ms|
  {
    if |ms| > 0 {
      ConversationSymmetric(ms[1..], a, b);
    }
  }

  /** `getMessages(a, b)` and `getMessages(b, a)` return the same sequence. */
  lemma GetMessagesSymmetric(db: Db, a: string, b: string)
    ensures GetMessages(db, a, b) == GetMessages(db, b, a)
  {
    ConversationSymmetric(KeyedStore.Values(db.messages), a, b);
  }

  /** `updateMessageStatus`: overwrites the status of a stored message,
      whatever it was; a missing id leaves the database as it was. */
  function UpdateMessageStatus(db: Db, id: string, status: Status): (r: Db)
    ensures KeyedStore.Get(db.messages, id).None? ==> r == db
    ensures KeyedStore.Get(db.messages, id).Some? ==>
      KeyedStore.Get(r.messages, id) == Some(KeyedStore.Get(db.messages, id).value.(status := status))
    ensures forall k :: k != id ==> KeyedStore.Get(r.messages, k) == KeyedStore.Get(db.messages, k)
    ensures r.profiles == db.profiles && r.peers == db.peers
  {
    match KeyedStore.Get(db.messages, id)
    case None => db
    case Some(m) => db.(messages := KeyedStore.Put(db.messages, id, m.(status := status)))
  }

  /** Status updates are not monotonic: a `delivered` arriving after `seen`
      moves the message back to `delivered`. */
  lemma DeliveredOverwritesSeen(db: Db, id: string)
    requires KeyedStore.Get(db.messages, id).Some?
    ensures KeyedStore.Get(UpdateMessageStatus(UpdateMessageStatus(db, id, Seen), id, Delivered).messages, id).value.status == Delivered
  {
  }

  /** `savePeer`: a put keyed by the peer's id. */
  function SavePeer(db: Db, p: Peer): (r: Db)
    ensures KeyedStore.Get(r.peers, p.id) == Some(p)
    ensures forall k :: k != p.id ==> KeyedStore.Get(r.peers, k) == KeyedStore.Get(db.peers, k)
    ensures r.messages == db.messages && r.profiles == db.profiles
  {
    db.(peers := KeyedStore.Put(db.peers, p.id, p))
  }

  /** Every stored peer sits under its own id, as `savePeer` keeps it. */
  ghost predicate PeersKeyedById(db: Db)
  {
    forall k :: KeyedStore.Get(db.peers, k).Some? ==> KeyedStore.Get(db.peers, k).value.id == k
  }

  /** `savePeer` keeps every peer under its own id. */
  lemma SavePeerKeyedById(db: Db, p: Peer)
    requires PeersKeyedById(db)
    ensures PeersKeyedById(SavePeer(db, p))
  {
  }

  /** `getPeers`: every stored peer, in ascending id order. */
  function GetPeers(db: Db): (r: seq<Peer>)
    ensures |r| == |db.peers| == |KeyedStore.KeySet(db.peers)|
    ensures forall i :: 0 <= i < |r| ==> KeyedStore.Get(db.peers, db.peers[i].key) == Some(r[i])
    ensures forall k :: k in KeyedStore.KeySet(db.peers) ==> KeyedStore.Get(db.peers, k).value in r
    ensures forall q :: q in r ==> exists k :: KeyedStore.Get(db.peers, k) == Some(q)
    ensures PeersKeyedById(db) ==> forall i, j :: 0 <= i < j < |r| ==> Strings.Lt(r[i].id, r[j].id)
  {
    KeyedStore.DistinctKeyCount(db.peers);
    KeyedStore.ValuesHoldStored(db.peers);
    KeyedStore.ValuesAreStored(db.peers);
    KeyedStore.Values(db.peers)
  }

  /** `clearAllData`: empties all three stores. */
  function ClearAllData(db: Db): (r: Db)
    ensures forall k :: KeyedStore.Get(r.messages, k).None?
    ensures GetProfile(r).None?
    ensures GetPeers(r) == []
  {
    Db(KeyedStore.Clear(db.messages), KeyedStore.Clear(db.profiles), KeyedStore.Clear(db.peers))
  }
}
