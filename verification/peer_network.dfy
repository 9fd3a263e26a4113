/** The signaling router and peer roster of the chat: one node's state and
    the pure transition taken for each inbound envelope, plus the user-facing
    operations (host, join, disconnect, send, mark as seen). Envelopes handed
    to `broadcast` are appended to an outbox; callbacks to the application are
    appended to a notice log; the clock and the WebRTC answer are inputs. */
module PeerNetwork {
  import opened Common
  import opened P2PTypes
  import KeyedStore
  import Storage

  /** An application callback invocation. */
  datatype Notice =
    | MessageReceived(message: Message)             // onMessage
    | TypingChanged(peerId: string, isTyping: bool) // onTyping
    | IncomingCall(caller: Peer)                    // onCallOffer

  datatype Node = Node(
    profile: Option<LocalProfile>,
    peers: seq<Peer>,        // the roster
    isHost: bool,
    isConnected: bool,
    hostAddress: string,
    db: Storage.Db,
    sessions: set<string>,   // peers with an RTCPeerConnection
    channels: set<string>,   // peers with a data channel
    outbox: seq<Envelope>,   // everything broadcast, oldest first
    notices: seq<Notice>)    // callbacks fired, oldest first

  /** The filter at the top of `handleSignalingMessage`: a local profile
      exists, the envelope is not our own echo, and it is either untargeted
      (no `to`, or an empty one) or targeted at us. */
  predicate Accepts(n: Node, e: Envelope)
  {
    n.profile.Some? && e.from != n.profile.value.id && !(Truthy(e.to) && e.to.value != n.profile.value.id)
  }

  // ----- Roster -----

  predicate HasId(roster: seq<Peer>, id: string)
  {
    exists i :: 0 <= i < |roster| && roster[i].id == id
  }

  predicate UniqueIds(roster: seq<Peer>)
  {
    forall i, j :: 0 <= i < j < |roster| ==> roster[i].id != roster[j].id
  }

  /** The join update of `setPeers`: a peer with the same id is replaced where
      it stands, otherwise the new peer is appended. The roster never gains a
      second entry for the id. */
  function Upsert(roster: seq<Peer>, p: Peer): (r: seq<Peer>)
    ensures p in r
    ensures HasId(roster, p.id) ==> |r| == |roster|
    ensures !HasId(roster, p.id) ==> r == roster + [p]
    ensures forall i :: 0 <= i < |roster| && roster[i].id == p.id ==> r[i] == p
    ensures forall i :: 0 <= i < |roster| && roster[i].id != p.id ==> r[i] == roster[i]
    ensures UniqueIds(roster) ==> UniqueIds(r)
    ensures forall id :: HasId(r, id) <==> HasId(roster, id) || id == p.id
  {
    if HasId(roster, p.id) then
      var r := seq(|roster|, i requires 0 <= i < |roster| => if roster[i].id == p.id then p else roster[i]);
      assert forall i :: 0 <= i < |r| ==> r[i].id == roster[i].id;
      var i :| 0 <= i < |roster| && roster[i].id == p.id;
      assert r[i] == p;
      r
    else
      var r := roster + [p];
      assert r[|roster|] == p;
      r
  }

  /** `handlePeerLeave`: the peers with the id go offline with a fresh
      `lastSeen`; nobody is removed and nobody else changes. */
  function MarkOffline(roster: seq<Peer>, id: string, now: int): (r: seq<Peer>)
    ensures |r| == |roster|
    ensures forall i :: 0 <= i < |r| && roster[i].id == id ==>
      r[i] == roster[i].(isOnline := false, lastSeen := now)
    ensures forall i :: 0 <= i < |r| && roster[i].id != id ==> r[i] == roster[i]
    ensures forall i :: 0 <= i < |r| ==> r[i].id == roster[i].id
  {
    seq(|roster|, i requires 0 <= i < |roster| =>
      if roster[i].id == id then roster[i].(isOnline := false, lastSeen := now) else roster[i])
  }

  /** Every peer goes offline; `lastSeen` is left as it was. */
  function AllOffline(roster: seq<Peer>): (r: seq<Peer>)
    ensures |r| == |roster|
    ensures forall i :: 0 <= i < |r| ==> r[i] == roster[i].(isOnline := false)
    ensures forall p :: p in r ==> !p.isOnline
  {
    seq(|roster|, i requires 0 <= i < |roster| => roster[i].(isOnline := false))
  }

  /** `list.filter(p => p.id !== id)`: every entry without the id stays, as
      often as it occurred; the order is that of the list (`RemoveIdAppend`). */
  function RemoveId(list: seq<Peer>, id: string): (r: seq<Peer>)
    ensures forall p :: p in r <==> p in list && p.id != id
    ensures forall p :: multiset(r)[p] == if p.id == id then 0 else multiset(list)[p]
    ensures !HasId(list, id) ==> r == list
    ensures !HasId(r, id)
    ensures UniqueIds(list) ==> UniqueIds(r)
    decreases |list|
  {
    if |list| == 0 then []
    else
      var rest := RemoveId(list[1..], id);
      RemoveIdStep(list, id, rest);
      if list[0].id == id then rest else [list[0]] + rest
  }

  /** One step of the filter: what holds of the filtered tail holds of the
      filtered list. */
  lemma RemoveIdStep(list: seq<Peer>, id: string, rest: seq<Peer>)
    requires |list| > 0
    requires forall p :: multiset(rest)[p] == if p.id == id then 0 else multiset(list[1..])[p]
    requires !HasId(list[1..], id) ==> rest == list[1..]
    requires !HasId(rest, id)
    requires UniqueIds(list[1..]) ==> UniqueIds(rest)
    ensures var r := if list[0].id == id then rest else [list[0]] + rest;
      && (forall p :: p in r <==> p in list && p.id != id)
      && (forall p :: multiset(r)[p] == if p.id == id then 0 else multiset(list)[p])
      && (!HasId(list, id) ==> r == list)
      && !HasId(r, id)
      && (UniqueIds(list) ==> UniqueIds(r))
  {
    var r := if list[0].id == id then rest else [list[0]] + rest;
    StepCount(list, id, rest);
    forall p ensures p in r <==> p in list && p.id != id {
      assert p in r <==> multiset(r)[p] > 0;
      assert p in list <==> multiset(list)[p] > 0;
    }
    StepUnchanged(list, id, rest);
    if list[0].id != id {
      StepNoId(list[0], id, rest);
      StepUnique(list, id, rest);
    }
  }

  lemma StepCount(list: seq<Peer>, id: string, rest: seq<Peer>)
    requires |list| > 0
    requires forall p :: multiset(rest)[p] == if p.id == id then 0 else multiset(list[1..])[p]
    ensures var r := if list[0].id == id then rest else [list[0]] + rest;
      forall p :: multiset(r)[p] == if p.id == id then 0 else multiset(list)[p]
  {
    assert list == [list[0]] + list[1..];
    assert multiset(list) == multiset{list[0]} + multiset(list[1..]);
    assert multiset([list[0]] + rest) == multiset{list[0]} + multiset(rest);
  }

  lemma StepUnchanged(list: seq<Peer>, id: string, rest: seq<Peer>)
    requires |list| > 0
    requires !HasId(list[1..], id) ==> rest == list[1..]
    ensures !HasId(list, id) ==> (if list[0].id == id then rest else [list[0]] + rest) == list
  {
    if !HasId(list, id) {
      forall j | 0 <= j < |list[1..]| ensures list[1..][j].id != id {
        assert list[1..][j] == list[j + 1];
      }
      assert list[0].id != id;
      assert list == [list[0]] + list[1..];
    }
  }

  lemma StepNoId(x: Peer, id: string, rest: seq<Peer>)
    requires x.id != id && !HasId(rest, id)
    ensures !HasId([x] + rest, id)
  {
    var r := [x] + rest;
    forall j | 0 <= j < |r| ensures r[j].id != id {
      if j > 0 {
        assert r[j] == rest[j - 1];
      }
    }
  }

  lemma StepUnique(list: seq<Peer>, id: string, rest: seq<Peer>)
    requires |list| > 0
    requires forall p :: p in rest ==> p in list[1..]
    requires UniqueIds(list[1..]) ==> UniqueIds(rest)
    ensures UniqueIds(list) ==> UniqueIds([list[0]] + rest)
  {
    if UniqueIds(list) {
      assert UniqueIds(list[1..]) by {
        forall i, j | 0 <= i < j < |list[1..]| ensures list[1..][i].id != list[1..][j].id {
          assert list[1..][i] == list[i + 1] && list[1..][j] == list[j + 1];
        }
      }
      var r := [list[0]] + rest;
      forall i, j | 0 <= i < j < |r| ensures r[i].id != r[j].id {
        assert r[j] == rest[j - 1];
        if i == 0 {
          assert rest[j - 1] in rest;
          var t :| 0 <= t < |list[1..]| && list[1..][t] == rest[j - 1];
          assert list[t + 1] == rest[j - 1];
        } else {
          assert r[i] == rest[i - 1];
        }
      }
    }
  }

  /** Filtering a concatenation filters each part: the kept entries stay in
      their order. */
  lemma {:induction false} RemoveIdAppend(a: seq<Peer>, b: seq<Peer>, id: string)
    ensures RemoveId(a + b, id) == RemoveId(a, id) + RemoveId(b, id)
    decreases |a|
  {
    if |a| > 0 {
      assert (a + b)[1..] == a[1..] + b;
      RemoveIdAppend(a[1..], b, id);
    } else {
      assert a + b == b;
    }
  }

  /** `peers.find(p => p.id === id)`: the first roster entry with the id. */
  function FindPeer(roster: seq<Peer>, id: string): (r: Option<Peer>)
    ensures r.None? <==> !HasId(roster, id)
    ensures r.Some? ==> r.value in roster && r.value.id == id
    ensures r.Some? ==> exists i :: 0 <= i < |roster| && roster[i] == r.value &&
                                   (forall j :: 0 <= j < i ==> roster[j].id != id)
    decreases |roster|
  {
    if |roster| == 0 then None
    else if roster[0].id == id then Some(roster[0])
    else
      var r := FindPeer(roster[1..], id);
      assert forall j :: 0 < j < |roster| ==> roster[j] == roster[1..][j - 1];
      if r.Some? then
        var i :| 0 <= i < |roster[1..]| && roster[1..][i] == r.value &&
          forall j :: 0 <= j < i ==> roster[1..][j].id != id;
        assert roster[i + 1] == r.value;
        r
      else r
  }

  /** `peers.forEach(peer => savePeer(peer))`. */
  function SavePeers(db: Storage.Db, ps: seq<Peer>): Storage.Db
    decreases |ps|
  {
    if |ps| == 0 then db else SavePeers(Storage.SavePeer(db, ps[0]), ps[1..])
  }

  /** Saving leaves the message and profile stores alone. */
  lemma {:induction false} SavePeersFrame(db: Storage.Db, ps: seq<Peer>)
    ensures SavePeers(db, ps).messages == db.messages && SavePeers(db, ps).profiles == db.profiles
    decreases |ps|
  {
    if |ps| > 0 {
      SavePeersFrame(Storage.SavePeer(db, ps[0]), ps[1..]);
    }
  }

  /** An id no entry carries keeps its record. */
  lemma {:induction false} SavePeersKeepsOther(db: Storage.Db, ps: seq<Peer>, k: string)
    requires !HasId(ps, k)
    ensures KeyedStore.Get(SavePeers(db, ps).peers, k) == KeyedStore.Get(db.peers, k)
    decreases |ps|
  {
    if |ps| > 0 {
      assert ps[0] in ps;
      assert !HasId(ps[1..], k) by {
        forall t | 0 <= t < |ps[1..]| ensures ps[1..][t].id != k {
          assert ps[1..][t] == ps[t + 1];
        }
      }
      SavePeersKeepsOther(Storage.SavePeer(db, ps[0]), ps[1..], k);
    }
  }

  /** The last entry with a given id is the one stored. */
  lemma {:induction false} SavePeersLastWins(db: Storage.Db, ps: seq<Peer>, i: int)
    requires 0 <= i < |ps|
    requires forall j :: i < j < |ps| ==> ps[j].id != ps[i].id
    ensures KeyedStore.Get(SavePeers(db, ps).peers, ps[i].id) == Some(ps[i])
    decreases |ps|
  {
    var db1 := Storage.SavePeer(db, ps[0]);
    if i > 0 {
      assert ps[i] == ps[1..][i - 1];
      assert forall j :: i - 1 < j < |ps[1..]| ==> ps[1..][j] == ps[j + 1];
      SavePeersLastWins(db1, ps[1..], i - 1);
    } else {
      assert !HasId(ps[1..], ps[0].id) by {
        forall t | 0 <= t < |ps[1..]| ensures ps[1..][t].id != ps[0].id {
          assert ps[1..][t] == ps[t + 1];
        }
      }
      SavePeersKeepsOther(db1, ps[1..], ps[0].id);
    }
  }

  /** Each listed peer ends up stored under its id, a later entry with the
      same id winning; other ids keep their records. */
  lemma SavePeersFacts(db: Storage.Db, ps: seq<Peer>)
    ensures forall i :: 0 <= i < |ps| && (forall j :: i < j < |ps| ==> ps[j].id != ps[i].id) ==>
      KeyedStore.Get(SavePeers(db, ps).peers, ps[i].id) == Some(ps[i])
    ensures forall k :: !HasId(ps, k) ==> KeyedStore.Get(SavePeers(db, ps).peers, k) == KeyedStore.Get(db.peers, k)
    ensures SavePeers(db, ps).messages == db.messages && SavePeers(db, ps).profiles == db.profiles
  {
    forall i | 0 <= i < |ps| && (forall j :: i < j < |ps| ==> ps[j].id != ps[i].id)
      ensures KeyedStore.Get(SavePeers(db, ps).peers, ps[i].id) == Some(ps[i])
    {
      SavePeersLastWins(db, ps, i);
    }
    forall k | !HasId(ps, k) ensures KeyedStore.Get(SavePeers(db, ps).peers, k) == KeyedStore.Get(db.peers, k) {
      SavePeersKeepsOther(db, ps, k);
    }
    SavePeersFrame(db, ps);
  }

  // ----- Inbound handlers -----

  /** The roster entry built from a `join`: online, stamped now, ip `Local`
      when the payload carries none (or an empty one). */
  function JoinedPeer(id: string, username: string, ip: Option<string>, avatarUrl: Option<string>, now: int): (p: Peer)
    ensures p.id == id && p.isOnline && p.lastSeen == now
    ensures p.ip == if Truthy(ip) then ip.value else "Local"
  {
    Peer(id, None, None, None, username, if Truthy(ip) then ip.value else "Local", true, now, avatarUrl)
  }

  /** The host's own entry appended to a broadcast peer list. */
  function HostEntry(me: LocalProfile, now: int): Peer
  {
    Peer(me.id, None, None, None, me.username, "Host", true, now, None)
  }

  /** `handlePeerJoin`: upserts the peer, stores it and, on the host, broadcasts
      the roster without the joiner's old entry, plus the joiner and the host. */
  function HandlePeerJoin(n: Node, from: string, username: string, ip: Option<string>, avatarUrl: Option<string>, now: int): (r: Node)
    ensures var p := JoinedPeer(from, username, ip, avatarUrl, now);
      && r.peers == Upsert(n.peers, p)
      && KeyedStore.Get(r.db.peers, from) == Some(p)
      && (forall k :: k != from ==> KeyedStore.Get(r.db.peers, k) == KeyedStore.Get(n.db.peers, k))
      && (!(n.isHost && n.profile.Some?) ==> r.outbox == n.outbox)
      && (n.isHost && n.profile.Some? ==>
            |r.outbox| == |n.outbox| + 1 && r.outbox[..|n.outbox|] == n.outbox &&
            var e := r.outbox[|n.outbox|];
            e.from == n.profile.value.id && e.to.None? && e.signal.PeerList? &&
            e.signal.list == RemoveId(n.peers, from) + [p, HostEntry(n.profile.value, now)] &&
            forall q :: q in e.signal.list <==>
              (q in n.peers && q.id != from) || q == p || q == HostEntry(n.profile.value, now))
    ensures r.db.messages == n.db.messages && r.db.profiles == n.db.profiles
    ensures r.(peers := n.peers, db := n.db, outbox := n.outbox) == n
  {
    var p := JoinedPeer(from, username, ip, avatarUrl, now);
    var out := if n.isHost && n.profile.Some? then
      var list := RemoveId(n.peers, from) + [p, HostEntry(n.profile.value, now)];
      n.outbox + [Envelope(n.profile.value.id, None, PeerList(list))]
      else n.outbox;
    assert out[..|n.outbox|] == n.outbox;
    n.(peers := Upsert(n.peers, p), db := Storage.SavePeer(n.db, p), outbox := out)
  }

  /** `handlePeerList`: the roster becomes the received list without our own
      entry, and each of those peers is stored, the last copy of a repeated
      id winning. */
  function HandlePeerList(n: Node, me: LocalProfile, list: seq<Peer>): (r: Node)
    ensures r.peers == RemoveId(list, me.id)
    ensures forall q :: q in r.peers <==> q in list && q.id != me.id
    ensures !HasId(r.peers, me.id)
    ensures UniqueIds(list) ==>
      (UniqueIds(r.peers) && forall q :: q in r.peers ==> KeyedStore.Get(r.db.peers, q.id) == Some(q))
    ensures forall i :: 0 <= i < |r.peers| && (forall j :: i < j < |r.peers| ==> r.peers[j].id != r.peers[i].id) ==>
      KeyedStore.Get(r.db.peers, r.peers[i].id) == Some(r.peers[i])
    ensures forall k :: !HasId(r.peers, k) ==> KeyedStore.Get(r.db.peers, k) == KeyedStore.Get(n.db.peers, k)
    ensures r.db.messages == n.db.messages && r.db.profiles == n.db.profiles
    ensures r.(peers := n.peers, db := n.db) == n
  {
    var kept := RemoveId(list, me.id);
    SavePeersFacts(n.db, kept);
    n.(peers := kept, db := SavePeers(n.db, kept))
  }

  /** `handleIncomingMessage`: stores the message as `delivered`, reports it,
      and sends a `delivered` receipt addressed to its sender. */
  function HandleIncomingMessage(n: Node, me: LocalProfile, m: Message): (r: Node)
    ensures KeyedStore.Get(r.db.messages, m.id) == Some(m.(status := Delivered))
    ensures forall k :: k != m.id ==> KeyedStore.Get(r.db.messages, k) == KeyedStore.Get(n.db.messages, k)
    ensures r.notices == n.notices + [MessageReceived(m.(status := Delivered))]
    ensures r.outbox == n.outbox + [Envelope(me.id, Some(m.senderId), DeliveredReceipt(m.id))]
    ensures r.db.peers == n.db.peers && r.db.profiles == n.db.profiles
    ensures r.(db := n.db, notices := n.notices, outbox := n.outbox) == n
  {
    var stored := m.(status := Delivered);
    n.(db := Storage.SaveMessage(n.db, stored),
       notices := n.notices + [MessageReceived(stored)],
       outbox := n.outbox + [Envelope(me.id, Some(stored.senderId), DeliveredReceipt(stored.id))])
  }

  /** `handleWebRTCSignaling`, bookkeeping only: a session for the sender is
      created when missing, and an offer is answered with exactly one `answer`
      envelope addressed to the sender once negotiation succeeds. `answerSdp`
      is the answer the browser produced, or `None` when one of
      `setRemoteDescription`, `createAnswer` or `setLocalDescription`
      rejected: the session then stays and nothing is sent. */
  function HandleWebRtc(n: Node, me: LocalProfile, from: string, s: Signal, answerSdp: Option<string>): (r: Node)
    requires s.Offer? || s.Answer? || s.IceCandidate?
    ensures r.sessions == n.sessions + {from}
    ensures s.Offer? && answerSdp.Some? ==>
      r.outbox == n.outbox + [Envelope(me.id, Some(from), Answer(answerSdp.value))]
    ensures !s.Offer? || answerSdp.None? ==> r.outbox == n.outbox
    ensures r.(sessions := n.sessions, outbox := n.outbox) == n
  {
    var n' := n.(sessions := n.sessions + {from});
    if s.Offer? && answerSdp.Some? then
      n'.(outbox := n.outbox + [Envelope(me.id, Some(from), Answer(answerSdp.value))])
    else n'
  }

  /** `handleSignalingMessage`: filter, then dispatch on the envelope type.
      `now` is the clock reading and `answerSdp` the answer WebRTC produces
      should the envelope be an offer (`None` when negotiation rejects). */
  function Dispatch(n: Node, e: Envelope, now: int, answerSdp: Option<string>): (r: Node)
    ensures !Accepts(n, e) ==> r == n
    ensures e.signal.CallAnswer? || e.signal.CallEnd? ==> r == n
    ensures r.profile == n.profile && r.isHost == n.isHost && r.isConnected == n.isConnected
    ensures r.hostAddress == n.hostAddress && r.channels == n.channels
    ensures n.sessions <= r.sessions
    ensures n.outbox <= r.outbox && |r.outbox| <= |n.outbox| + 1
    ensures n.notices <= r.notices && |r.notices| <= |n.notices| + 1
  {
    if !Accepts(n, e) then n
    else
      var me := n.profile.value;
      match e.signal
      case Join(username, ip, avatarUrl) => HandlePeerJoin(n, e.from, username, ip, avatarUrl, now)
      case Leave => n.(peers := MarkOffline(n.peers, e.from, now))
      case PeerList(list) => HandlePeerList(n, me, list)
      case ChatMessage(m) => HandleIncomingMessage(n, me, m)
      case Typing(isTyping) => n.(notices := n.notices + [TypingChanged(e.from, isTyping)])
      case DeliveredReceipt(id) => n.(db := Storage.UpdateMessageStatus(n.db, id, Delivered))
      case SeenReceipt(id) => n.(db := Storage.UpdateMessageStatus(n.db, id, Seen))
      case CallOffer(_) =>
        (match FindPeer(n.peers, e.from)
         case Some(caller) => n.(notices := n.notices + [IncomingCall(caller)])
         case None => n)
      case CallAnswer => n
      case CallEnd => n
      case Offer(_) => HandleWebRtc(n, me, e.from, e.signal, answerSdp)
      case Answer(_) => HandleWebRtc(n, me, e.from, e.signal, answerSdp)
      case IceCandidate(_) => HandleWebRtc(n, me, e.from, e.signal, answerSdp)
  }

  /** Our own echo is never processed. */
  lemma SelfEchoDropped(n: Node, e: Envelope, now: int, answerSdp: Option<string>)
    requires n.profile.Some? && e.from == n.profile.value.id
    ensures Dispatch(n, e, now, answerSdp) == n
  {
  }

  /** Every envelope except a peer list keeps roster ids unique; after an
      accepted join the joiner is in the roster exactly once. */
  lemma DispatchKeepsIdsUnique(n: Node, e: Envelope, now: int, answerSdp: Option<string>)
    requires UniqueIds(n.peers) && !e.signal.PeerList?
    ensures UniqueIds(Dispatch(n, e, now, answerSdp).peers)
    ensures Accepts(n, e) && e.signal.Join? ==> HasId(Dispatch(n, e, now, answerSdp).peers, e.from)
  {
    if Accepts(n, e) && e.signal.Leave? {
      var r := MarkOffline(n.peers, e.from, now);
      assert forall i :: 0 <= i < |r| ==> r[i].id == n.peers[i].id;
    }
  }

  /** A leave keeps every roster entry and changes only the leaver's. */
  lemma LeaveMarksOffline(n: Node, e: Envelope, now: int, answerSdp: Option<string>)
    requires Accepts(n, e) && e.signal.Leave?
    ensures var r := Dispatch(n, e, now, answerSdp);
      && |r.peers| == |n.peers|
      && (forall i :: 0 <= i < |r.peers| && n.peers[i].id == e.from ==>
            !r.peers[i].isOnline && r.peers[i].lastSeen == now)
      && (forall i :: 0 <= i < |r.peers| && n.peers[i].id != e.from ==> r.peers[i] == n.peers[i])
      && r.outbox == n.outbox && r.db == n.db
  {
  }

  /** A call offer reaches the application exactly when the caller is already
      in the roster, and then with the caller's roster entry. */
  lemma CallOfferNeedsKnownCaller(n: Node, e: Envelope, now: int, answerSdp: Option<string>)
    requires Accepts(n, e) && e.signal.CallOffer?
    ensures var r := Dispatch(n, e, now, answerSdp);
      && (|r.notices| == |n.notices| + 1 <==> HasId(n.peers, e.from))
      && (HasId(n.peers, e.from) ==>
            r.notices[|n.notices|].IncomingCall? &&
            r.notices[|n.notices|].caller in n.peers &&
            r.notices[|n.notices|].caller.id == e.from)
      && r.peers == n.peers && r.outbox == n.outbox
  {
  }

  /** An accepted offer, answer or ICE candidate leaves a session for its
      sender; only an offer whose negotiation succeeds emits anything, and
      then one answer to the sender. */
  lemma SignalingCreatesSession(n: Node, e: Envelope, now: int, answerSdp: Option<string>)
    requires Accepts(n, e) && (e.signal.Offer? || e.signal.Answer? || e.signal.IceCandidate?)
    ensures var r := Dispatch(n, e, now, answerSdp);
      && e.from in r.sessions
      && (e.signal.Offer? && answerSdp.Some? ==>
            r.outbox == n.outbox + [Envelope(n.profile.value.id, Some(e.from), Answer(answerSdp.value))])
      && (!e.signal.Offer? || answerSdp.None? ==> r.outbox == n.outbox)
  {
  }

  /** An accepted chat message is stored as `delivered`, reported once, and
      acknowledged to its sender; the roster is untouched. */
  lemma MessageStoredAndAcknowledged(n: Node, e: Envelope, now: int, answerSdp: Option<string>)
    requires Accepts(n, e) && e.signal.ChatMessage?
    ensures var r := Dispatch(n, e, now, answerSdp); var m := e.signal.message;
      && KeyedStore.Get(r.db.messages, m.id) == Some(m.(status := Delivered))
      && r.notices == n.notices + [MessageReceived(m.(status := Delivered))]
      && r.outbox == n.outbox + [Envelope(n.profile.value.id, Some(m.senderId), DeliveredReceipt(m.id))]
      && r.peers == n.peers && r.db.peers == n.db.peers && r.db.profiles == n.db.profiles
  {
  }

  /** An accepted typing envelope only reports the sender's typing state. */
  lemma TypingReported(n: Node, e: Envelope, now: int, answerSdp: Option<string>)
    requires Accepts(n, e) && e.signal.Typing?
    ensures Dispatch(n, e, now, answerSdp) == n.(notices := n.notices + [TypingChanged(e.from, e.signal.isTyping)])
  {
  }

  /** An accepted receipt sets the status of the stored message it names,
      whatever the status was, and changes nothing else; a receipt for an
      unknown message changes nothing at all. */
  lemma ReceiptSetsStatus(n: Node, e: Envelope, now: int, answerSdp: Option<string>)
    requires Accepts(n, e) && (e.signal.DeliveredReceipt? || e.signal.SeenReceipt?)
    ensures var r := Dispatch(n, e, now, answerSdp); var id := e.signal.messageId;
      var status := if e.signal.DeliveredReceipt? then Delivered else Seen;
      && (KeyedStore.Get(n.db.messages, id).None? ==> r == n)
      && (KeyedStore.Get(n.db.messages, id).Some? ==>
            KeyedStore.Get(r.db.messages, id) == Some(KeyedStore.Get(n.db.messages, id).value.(status := status)))
      && (forall k :: k != id ==> KeyedStore.Get(r.db.messages, k) == KeyedStore.Get(n.db.messages, k))
      && r.(db := n.db) == n && r.db.peers == n.db.peers && r.db.profiles == n.db.profiles
  {
  }

  // ----- User operations -----

  /** `startHost`: marks the node as a connected host and announces it. */
  function StartHost(n: Node): (r: Node)
    ensures n.profile.None? ==> r == n
    ensures n.profile.Some? ==>
      r.isHost && r.isConnected && r.hostAddress == "This Device (Host)" &&
      r.outbox == n.outbox + [Envelope(n.profile.value.id, None,
        Join(n.profile.value.username, Some("Host"), n.profile.value.avatarUrl))]
    ensures r.(isHost := n.isHost, isConnected := n.isConnected, hostAddress := n.hostAddress, outbox := n.outbox) == n
  {
    match n.profile
    case None => n
    case Some(me) =>
      n.(isHost := true, isConnected := true, hostAddress := "This Device (Host)",
         outbox := n.outbox + [Envelope(me.id, None, Join(me.username, Some("Host"), me.avatarUrl))])
  }

  /** `joinNetwork(hostIp?)`: marks the node as a connected client and
      announces it. */
  function JoinNetwork(n: Node, hostIp: Option<string>): (r: Node)
    ensures n.profile.None? ==> r == n
    ensures n.profile.Some? ==>
      !r.isHost && r.isConnected &&
      r.hostAddress == (if Truthy(hostIp) then hostIp.value else "Local Network") &&
      r.outbox == n.outbox + [Envelope(n.profile.value.id, None,
        Join(n.profile.value.username, Some("Client"), n.profile.value.avatarUrl))]
    ensures r.(isHost := n.isHost, isConnected := n.isConnected, hostAddress := n.hostAddress, outbox := n.outbox) == n
  {
    match n.profile
    case None => n
    case Some(me) =>
      n.(isHost := false, isConnected := true,
         hostAddress := if Truthy(hostIp) then hostIp.value else "Local Network",
         outbox := n.outbox + [Envelope(me.id, None, Join(me.username, Some("Client"), me.avatarUrl))])
  }

  /** `disconnect`: announces the leave (with a profile), drops the host and
      connected flags, marks every peer offline without removing any, and
      forgets every session and data channel. */
  function Disconnect(n: Node): (r: Node)
    ensures n.profile.Some? ==> r.outbox == n.outbox + [Envelope(n.profile.value.id, None, Leave)]
    ensures n.profile.None? ==> r.outbox == n.outbox
    ensures !r.isConnected && !r.isHost
    ensures |r.peers| == |n.peers|
    ensures forall i :: 0 <= i < |r.peers| ==> r.peers[i] == n.peers[i].(isOnline := false)
    ensures r.sessions == {} && r.channels == {}
    ensures r.(outbox := n.outbox, isConnected := n.isConnected, isHost := n.isHost, peers := n.peers,
               sessions := n.sessions, channels := n.channels) == n
  {
    var out := if n.profile.Some? then n.outbox + [Envelope(n.profile.value.id, None, Leave)] else n.outbox;
    n.(outbox := out, isConnected := false, isHost := false, peers := AllOffline(n.peers),
       sessions := {}, channels := {})
  }

  /** After a join is upserted, looking the joiner up finds the new entry. */
  lemma FindUpserted(roster: seq<Peer>, p: Peer)
    ensures FindPeer(Upsert(roster, p), p.id) == Some(p)
  {
    var r := Upsert(roster, p);
    var f := FindPeer(r, p.id);
    assert p in r;
    var i :| 0 <= i < |r| && r[i] == f.value;
    if i < |roster| {
      assert roster[i].id == p.id;
    }
  }

  /** The host's announcement, received by another node, puts the host in
      that node's roster and store with the ip `Host`. */
  lemma HostAnnouncementRecorded(n: Node, m: Node, now: int, answerSdp: Option<string>)
    requires n.profile.Some? && m.profile.Some? && m.profile.value.id != n.profile.value.id
    ensures var me := n.profile.value;
      var e := StartHost(n).outbox[|n.outbox|];
      var r := Dispatch(m, e, now, answerSdp);
      var p := JoinedPeer(me.id, me.username, Some("Host"), me.avatarUrl, now);
      && p.ip == "Host"
      && FindPeer(r.peers, me.id) == Some(p)
      && KeyedStore.Get(r.db.peers, me.id) == Some(p)
  {
    var me := n.profile.value;
    FindUpserted(m.peers, JoinedPeer(me.id, me.username, Some("Host"), me.avatarUrl, now));
  }

  /** A client's announcement, received by another node, puts the client in
      that node's roster and store with the ip `Client`. */
  lemma ClientAnnouncementRecorded(n: Node, hostIp: Option<string>, m: Node, now: int, answerSdp: Option<string>)
    requires n.profile.Some? && m.profile.Some? && m.profile.value.id != n.profile.value.id
    ensures var me := n.profile.value;
      var e := JoinNetwork(n, hostIp).outbox[|n.outbox|];
      var r := Dispatch(m, e, now, answerSdp);
      var p := JoinedPeer(me.id, me.username, Some("Client"), me.avatarUrl, now);
      && p.ip == "Client"
      && FindPeer(r.peers, me.id) == Some(p)
      && KeyedStore.Get(r.db.peers, me.id) == Some(p)
  {
    var me := n.profile.value;
    FindUpserted(m.peers, JoinedPeer(me.id, me.username, Some("Client"), me.avatarUrl, now));
  }

  /** A sent message, received by its addressee, is stored there as
      `delivered` with the same id and content, and the addressee sends a
      `delivered` receipt back to the sender. */
  lemma SentMessageDelivered(n: Node, receiverId: string, content: string, id: string, now: int,
                             m: Node, later: int, answerSdp: Option<string>)
    requires n.profile.Some? && m.profile.Some? && m.profile.value.id == receiverId
    requires receiverId != n.profile.value.id
    ensures var sent := SendMessage(n, receiverId, content, id, now);
      && sent.Posted?
      && var e := sent.node.outbox[|n.outbox|];
      var r := Dispatch(m, e, later, answerSdp);
      && KeyedStore.Get(r.db.messages, id) == Some(sent.message.(status := Delivered))
      && r.outbox == m.outbox + [Envelope(receiverId, Some(n.profile.value.id), DeliveredReceipt(id))]
  {
    var sent := SendMessage(n, receiverId, content, id, now);
    MessageStoredAndAcknowledged(m, sent.node.outbox[|n.outbox|], later, answerSdp);
  }

  /** Disconnecting keeps roster ids unique. */
  lemma DisconnectKeepsIdsUnique(n: Node)
    requires UniqueIds(n.peers)
    ensures UniqueIds(Disconnect(n).peers)
  {
    var r := Disconnect(n).peers;
    assert forall i :: 0 <= i < |r| ==> r[i].id == n.peers[i].id;
  }

  datatype SendOutcome =
    | NoProfile                           // `throw new Error('No profile')`
    | Posted(node: Node, message: Message)

  /** `sendMessage(receiverId, content)` with the generated `id` and the clock
      reading `now`: stores the message as `sending`, broadcasts it addressed
      to the receiver, then marks it `sent` and returns it. */
  function SendMessage(n: Node, receiverId: string, content: string, id: string, now: int): (r: SendOutcome)
    ensures r.NoProfile? <==> n.profile.None?
    ensures r.Posted? ==>
      var me := n.profile.value;
      && r.message == Message(id, me.id, receiverId, content, now, Sent, Text)
      && KeyedStore.Get(r.node.db.messages, id) == Some(r.message)
      && (forall k :: k != id ==> KeyedStore.Get(r.node.db.messages, k) == KeyedStore.Get(n.db.messages, k))
      && r.node.outbox == n.outbox + [Envelope(me.id, Some(receiverId), ChatMessage(r.message.(status := Sending)))]
      && r.node.db.peers == n.db.peers && r.node.db.profiles == n.db.profiles
      && r.node.(db := n.db, outbox := n.outbox) == n
  {
    match n.profile
    case None => NoProfile
    case Some(me) =>
      var m := Message(id, me.id, receiverId, content, now, Sending, Text);
      var db1 := Storage.SaveMessage(n.db, m);
      var out := n.outbox + [Envelope(me.id, Some(receiverId), ChatMessage(m))];
      var db2 := Storage.UpdateMessageStatus(db1, id, Sent);
      Posted(n.(db := db2, outbox := out), m.(status := Sent))
  }

  /** `sendTyping`. */
  function SendTyping(n: Node, receiverId: string, isTyping: bool): (r: Node)
    ensures n.profile.None? ==> r == n
    ensures n.profile.Some? ==> r == n.(outbox := n.outbox + [Envelope(n.profile.value.id, Some(receiverId), Typing(isTyping))])
  {
    match n.profile
    case None => n
    case Some(me) => n.(outbox := n.outbox + [Envelope(me.id, Some(receiverId), Typing(isTyping))])
  }

  /** `initiateCall`. */
  function InitiateCall(n: Node, peerId: string): (r: Node)
    ensures n.profile.None? ==> r == n
    ensures n.profile.Some? ==>
      r == n.(outbox := n.outbox + [Envelope(n.profile.value.id, Some(peerId), CallOffer(n.profile.value.username))])
  {
    match n.profile
    case None => n
    case Some(me) => n.(outbox := n.outbox + [Envelope(me.id, Some(peerId), CallOffer(me.username))])
  }

  /** The `forEach` of `markAsSeen`: per id, mark the stored message seen and
      send a `seen` receipt to the sender. */
  function MarkEachSeen(n: Node, me: LocalProfile, ids: seq<string>, senderId: string): (r: Node)
    ensures |r.outbox| == |n.outbox| + |ids| && r.outbox[..|n.outbox|] == n.outbox
    ensures forall i :: 0 <= i < |ids| ==>
      r.outbox[|n.outbox| + i] == Envelope(me.id, Some(senderId), SeenReceipt(ids[i]))
    ensures forall k :: k in ids && KeyedStore.Get(n.db.messages, k).Some? ==>
      KeyedStore.Get(r.db.messages, k) == Some(KeyedStore.Get(n.db.messages, k).value.(status := Seen))
    ensures forall k :: k !in ids ==> KeyedStore.Get(r.db.messages, k) == KeyedStore.Get(n.db.messages, k)
    ensures forall k :: KeyedStore.Get(n.db.messages, k).None? ==> KeyedStore.Get(r.db.messages, k).None?
    ensures r.db.peers == n.db.peers && r.db.profiles == n.db.profiles
    ensures r.(db := n.db, outbox := n.outbox) == n
    decreases |ids|
  {
    if |ids| == 0 then n
    else
      var n1 := n.(db := Storage.UpdateMessageStatus(n.db, ids[0], Seen),
                   outbox := n.outbox + [Envelope(me.id, Some(senderId), SeenReceipt(ids[0]))]);
      var r := MarkEachSeen(n1, me, ids[1..], senderId);
      assert forall i :: 0 < i < |ids| ==> ids[i] == ids[1..][i - 1];
      assert forall k :: k in ids <==> k == ids[0] || k in ids[1..];
      assert r.outbox[..|n1.outbox|] == n1.outbox;
      assert r.outbox[..|n.outbox|] == n1.outbox[..|n.outbox|];
      r
  }

  /** `markAsSeen(messageIds, senderId)`: nothing without a profile. */
  function MarkAsSeen(n: Node, ids: seq<string>, senderId: string): (r: Node)
    ensures n.profile.None? ==> r == n
    ensures n.profile.Some? ==> r == MarkEachSeen(n, n.profile.value, ids, senderId)
    ensures forall k :: KeyedStore.Get(n.db.messages, k).None? ==> KeyedStore.Get(r.db.messages, k).None?
  {
    match n.profile
    case None => n
    case Some(me) => MarkEachSeen(n, me, ids, senderId)
  }
}
