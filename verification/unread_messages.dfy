/** Per-peer unread counters: a dictionary from peer id to the number of
    inbound messages from that peer not yet seen, recomputed from storage and
    adjusted as messages arrive or a conversation is opened. */
module UnreadMessages {
  import opened Common
  import opened P2PTypes
  import OrderedMap
  import KeyedStore
  import Storage

  /** The `unreadCounts` state: peer id to count, in insertion order. */
  type Counts = OrderedMap.OMap<nat>

  /** A message from `peer` to `me` that `me` has not seen. */
  predicate IsUnread(m: Message, me: string, peer: string)
  {
    m.receiverId == me && m.senderId == peer && m.status != Seen
  }

  /** Number of unread messages from `peer` to `me` in a list. */
  function UnreadIn(ms: seq<Message>, me: string, peer: string): nat
    decreases |ms|
  {
    if |ms| == 0 then 0
    else (if IsUnread(ms[0], me, peer) then 1 else 0) + UnreadIn(ms[1..], me, peer)
  }

  lemma {:induction false} UnreadInInsert(x: Message, ms: seq<Message>, me: string, peer: string)
    requires Storage.SortedByTime(ms)
    ensures UnreadIn(Storage.InsertByTime(x, ms), me, peer) == UnreadIn(ms, me, peer) + UnreadIn([x], me, peer)
    decreases |ms|
  {
    if |ms| > 0 && x.timestamp > ms[0].timestamp {
      UnreadInInsert(x, ms[1..], me, peer);
      var rest := Storage.InsertByTime(x, ms[1..]);
      assert ([ms[0]] + rest)[1..] == rest;
    }
  }

  /** Sorting does not change how many unread messages a list holds. */
  lemma {:induction false} UnreadInSort(ms: seq<Message>, me: string, peer: string)
    ensures UnreadIn(Storage.SortByTime(ms), me, peer) == UnreadIn(ms, me, peer)
    decreases |ms|
  {
    if |ms| > 0 {
      UnreadInSort(ms[1..], me, peer);
      UnreadInInsert(ms[0], Storage.SortByTime(ms[1..]), me, peer);
    }
  }

  /** Every unread message from `peer` to `me` is in their conversation. */
  lemma {:induction false} UnreadInConversation(ms: seq<Message>, me: string, peer: string)
    ensures UnreadIn(Storage.Conversation(ms, me, peer), me, peer) == UnreadIn(ms, me, peer)
    decreases |ms|
  {
    if |ms| > 0 {
      UnreadInConversation(ms[1..], me, peer);
      var c := Storage.Conversation(ms[1..], me, peer);
      assert ([ms[0]] + c)[1..] == c;
    }
  }

  /** `calculateUnreadCount(peer)`: the unread messages from `peer` to `me`
      among all stored messages. `me` absent (or empty) gives 0, and so does
      a failed read of the store (`fetched` is `None`). */
  function CalculateUnreadCount(me: Option<string>, peer: string, fetched: Option<Storage.Db>): (r: nat)
    ensures !Truthy(me) || fetched.None? ==> r == 0
    ensures Truthy(me) && fetched.Some? ==>
      r == UnreadIn(KeyedStore.Values(fetched.value.messages), me.value, peer)
  {
    if !Truthy(me) then 0
    else
      match fetched
      case None => 0
      case Some(db) =>
        var all := KeyedStore.Values(db.messages);
        UnreadInSort(Storage.Conversation(all, me.value, peer), me.value, peer);
        UnreadInConversation(all, me.value, peer);
        UnreadIn(Storage.GetMessages(db, me.value, peer), me.value, peer)
  }

  /** The loop of `loadUnreadCounts`: one freshly computed entry per peer. */
  function CountAll(peers: seq<Peer>, me: Option<string>, fetched: Option<Storage.Db>, acc: Counts): Counts
    decreases |peers|
  {
    if |peers| == 0 then acc
    else CountAll(peers[1..], me, fetched, OrderedMap.Set(acc, peers[0].id, CalculateUnreadCount(me, peers[0].id, fetched)))
  }

  predicate Listed(peers: seq<Peer>, k: string)
  {
    exists i :: 0 <= i < |peers| && peers[i].id == k
  }

  lemma ListedCons(peers: seq<Peer>, k: string)
    requires |peers| > 0
    ensures Listed(peers, k) <==> k == peers[0].id || Listed(peers[1..], k)
  {
    if Listed(peers, k) && k != peers[0].id {
      var i :| 0 <= i < |peers| && peers[i].id == k;
      assert peers[1..][i - 1].id == k;
    }
    if Listed(peers[1..], k) {
      var i :| 0 <= i < |peers[1..]| && peers[1..][i].id == k;
      assert peers[i + 1].id == k;
    }
  }

  /** A key the loop does not visit reads as before. */
  lemma {:induction false} CountAllKeepsOther(peers: seq<Peer>, me: Option<string>, fetched: Option<Storage.Db>, acc: Counts, k: string)
    requires !Listed(peers, k)
    ensures OrderedMap.Get(CountAll(peers, me, fetched, acc), k) == OrderedMap.Get(acc, k)
    decreases |peers|
  {
    if |peers| > 0 {
      ListedCons(peers, k);
      CountAllKeepsOther(peers[1..], me, fetched, OrderedMap.Set(acc, peers[0].id, CalculateUnreadCount(me, peers[0].id, fetched)), k);
    }
  }

  /** A visited peer carries its freshly computed count. */
  lemma {:induction false} CountAllSetsListed(peers: seq<Peer>, me: Option<string>, fetched: Option<Storage.Db>, acc: Counts, k: string)
    requires Listed(peers, k)
    ensures OrderedMap.Get(CountAll(peers, me, fetched, acc), k) == Some(CalculateUnreadCount(me, k, fetched))
    decreases |peers|
  {
    var acc' := OrderedMap.Set(acc, peers[0].id, CalculateUnreadCount(me, peers[0].id, fetched));
    assert CountAll(peers, me, fetched, acc) == CountAll(peers[1..], me, fetched, acc');
    ListedCons(peers, k);
    if Listed(peers[1..], k) {
      CountAllSetsListed(peers[1..], me, fetched, acc', k);
    } else {
      CountAllKeepsOther(peers[1..], me, fetched, acc', k);
    }
  }

  /** After the loop, the listed peers carry their computed counts and every
      other key reads as before. */
  lemma CountAllFacts(peers: seq<Peer>, me: Option<string>, fetched: Option<Storage.Db>, acc: Counts)
    ensures forall k :: OrderedMap.Has(CountAll(peers, me, fetched, acc), k) <==> OrderedMap.Has(acc, k) || Listed(peers, k)
    ensures forall i :: 0 <= i < |peers| ==>
      OrderedMap.Get(CountAll(peers, me, fetched, acc), peers[i].id) == Some(CalculateUnreadCount(me, peers[i].id, fetched))
    ensures forall k :: !Listed(peers, k) ==> OrderedMap.Get(CountAll(peers, me, fetched, acc), k) == OrderedMap.Get(acc, k)
  {
    var r := CountAll(peers, me, fetched, acc);
    forall i | 0 <= i < |peers|
      ensures OrderedMap.Get(r, peers[i].id) == Some(CalculateUnreadCount(me, peers[i].id, fetched))
    {
      assert Listed(peers, peers[i].id);
      CountAllSetsListed(peers, me, fetched, acc, peers[i].id);
    }
    forall k ensures OrderedMap.Has(r, k) <==> OrderedMap.Has(acc, k) || Listed(peers, k) {
      if Listed(peers, k) {
        CountAllSetsListed(peers, me, fetched, acc, k);
      } else {
        CountAllKeepsOther(peers, me, fetched, acc, k);
      }
    }
    forall k | !Listed(peers, k) ensures OrderedMap.Get(r, k) == OrderedMap.Get(acc, k) {
      CountAllKeepsOther(peers, me, fetched, acc, k);
    }
  }

  /** `loadUnreadCounts`: with a profile id and at least one peer, the counts
      are replaced by one entry per listed peer; otherwise nothing changes. */
  function LoadUnreadCounts(me: Option<string>, peers: seq<Peer>, fetched: Option<Storage.Db>, counts: Counts): (r: Counts)
    ensures !Truthy(me) || |peers| == 0 ==> r == counts
    ensures Truthy(me) && |peers| > 0 ==>
      (forall k :: OrderedMap.Has(r, k) <==> Listed(peers, k)) &&
      (forall i :: 0 <= i < |peers| ==>
        OrderedMap.Get(r, peers[i].id) == Some(CalculateUnreadCount(me, peers[i].id, fetched)))
  {
    if !Truthy(me) || |peers| == 0 then counts
    else
      CountAllFacts(peers, me, fetched, OrderedMap.Empty());
      CountAll(peers, me, fetched, OrderedMap.Empty())
  }

  /** The count currently shown for `peer` (`prev[peer] || 0`). */
  function CountOf(counts: Counts, peer: string): nat
  {
    OrderedMap.Get(counts, peer).GetOr(0)
  }

  /** `markPeerAsSeen`: the peer's count becomes 0. */
  function MarkPeerAsSeen(counts: Counts, peer: string): (r: Counts)
    ensures OrderedMap.Get(r, peer) == Some(0)
    ensures forall k :: k != peer ==> OrderedMap.Get(r, k) == OrderedMap.Get(counts, k)
  {
    OrderedMap.Set(counts, peer, 0)
  }

  /** `addUnreadMessage`: the peer's count goes up by one, an absent count
      counting as 0. */
  function AddUnreadMessage(counts: Counts, peer: string): (r: Counts)
    ensures OrderedMap.Get(r, peer) == Some(CountOf(counts, peer) + 1)
    ensures forall k :: k != peer ==> OrderedMap.Get(r, k) == OrderedMap.Get(counts, k)
  {
    OrderedMap.Set(counts, peer, CountOf(counts, peer) + 1)
  }

  /** Sum of a list of counts, left to right. */
  function Sum(es: seq<OrderedMap.Entry<nat>>): nat
    decreases |es|
  {
    if |es| == 0 then 0 else es[0].value + Sum(es[1..])
  }

  /** `getTotalUnread`: `Object.values(unreadCounts).reduce((a, b) => a + b, 0)`. */
  function GetTotalUnread(counts: Counts): nat
  {
    Sum(counts)
  }

  lemma {:induction false} SumAppend(es: seq<OrderedMap.Entry<nat>>, e: OrderedMap.Entry<nat>)
    ensures Sum(es + [e]) == Sum(es) + e.value
    decreases |es|
  {
    if |es| > 0 {
      SumAppend(es[1..], e);
      assert (es + [e])[1..] == es[1..] + [e];
    }
  }

  lemma {:induction false} SumUpdate(es: seq<OrderedMap.Entry<nat>>, i: int, e: OrderedMap.Entry<nat>)
    requires 0 <= i < |es|
    ensures Sum(es[i := e]) == Sum(es) - es[i].value + e.value
    decreases |es|
  {
    if i > 0 {
      SumUpdate(es[1..], i - 1, e);
      assert es[i := e][1..] == es[1..][i - 1 := e];
    }
  }

  /** Setting one count moves the total by the difference. */
  lemma TotalAfterSet(counts: Counts, peer: string, v: nat)
    ensures GetTotalUnread(OrderedMap.Set(counts, peer, v)) == GetTotalUnread(counts) - CountOf(counts, peer) + v
  {
    var i := OrderedMap.IndexOf(counts, peer);
    if 0 <= i {
      SumUpdate(counts, i, OrderedMap.Entry(peer, v));
      OrderedMap.GetAt(counts, i);
    } else {
      SumAppend(counts, OrderedMap.Entry(peer, v));
    }
  }

  /** The total is the sum of the individual counts, so marking a peer as
      seen lowers it by exactly that peer's count. */
  lemma TotalAfterMarkSeen(counts: Counts, peer: string)
    ensures GetTotalUnread(MarkPeerAsSeen(counts, peer)) == GetTotalUnread(counts) - CountOf(counts, peer)
  {
    TotalAfterSet(counts, peer, 0);
  }

  /** An arriving message raises the total by exactly one. */
  lemma TotalAfterAddUnread(counts: Counts, peer: string)
    ensures GetTotalUnread(AddUnreadMessage(counts, peer)) == GetTotalUnread(counts) + 1
  {
    TotalAfterSet(counts, peer, CountOf(counts, peer) + 1);
  }
}
