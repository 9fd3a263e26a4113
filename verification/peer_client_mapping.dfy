/** The identity map between profile ids (peer ids), WebSocket client ids
    (opaque strings such as `ip:port`) and IP addresses. Three independent
    JavaScript maps are kept; nothing forces them to agree with each other. */
module PeerClientMapping {
  import opened Common
  import opened OrderedMap
  import Strings

  datatype Mapping = Mapping(
    peerToClient: OMap<string>,  // profile id -> client id, used for sending
    clientToPeer: OMap<string>,  // client id -> profile id, used for receiving
    ipToPeer: OMap<string>)      // ip -> profile id

  /** `registerPeerConnection(peerId, clientId, ip?)`: sets the pair in both
      directions and, when `ip` is a non-empty string, the ip entry. No other
      key is touched: an earlier client id of `peerId` keeps its reverse entry. */
  function Register(s: Mapping, peerId: string, clientId: string, ip: Option<string>): (r: Mapping)
    ensures Get(r.peerToClient, peerId) == Some(clientId)
    ensures Get(r.clientToPeer, clientId) == Some(peerId)
    ensures forall p :: p != peerId ==> Get(r.peerToClient, p) == Get(s.peerToClient, p)
    ensures forall c :: c != clientId ==> Get(r.clientToPeer, c) == Get(s.clientToPeer, c)
    ensures Truthy(ip) ==> Get(r.ipToPeer, ip.value) == Some(peerId)
    ensures Truthy(ip) ==> forall a :: a != ip.value ==> Get(r.ipToPeer, a) == Get(s.ipToPeer, a)
    ensures !Truthy(ip) ==> r.ipToPeer == s.ipToPeer
  {
    Mapping(
      Set(s.peerToClient, peerId, clientId),
      Set(s.clientToPeer, clientId, peerId),
      if Truthy(ip) then Set(s.ipToPeer, ip.value, peerId) else s.ipToPeer)
  }

  /** Registering a peer under a second client id leaves the first client id
      pointing at the peer, while the peer now points at the second. */
  lemma StaleReverseEntry(s: Mapping, peerId: string, c1: string, c2: string)
    requires c1 != c2
    ensures var r := Register(Register(s, peerId, c1, None), peerId, c2, None);
      Get(r.peerToClient, peerId) == Some(c2) &&
      Get(r.clientToPeer, c1) == Some(peerId) &&
      Get(r.clientToPeer, c2) == Some(peerId)
  {
  }

  /** The entries the join-time scan re-keys, in iteration order: client ids
      containing `ip` that map to some other profile. */
  function Rekeyed(es: seq<Entry<string>>, ip: string, profileId: string): (ks: seq<string>)
    ensures forall k :: k in ks ==> Strings.Contains(k, ip)
    decreases |es|
  {
    if |es| == 0 then []
    else if Strings.Contains(es[0].key, ip) && es[0].value != profileId then
      [es[0].key] + Rekeyed(es[1..], ip, profileId)
    else Rekeyed(es[1..], ip, profileId)
  }

  /** One iteration of the scan over `clientToPeer.entries()`. */
  function ScanStep(s: Mapping, e: Entry<string>, ip: string, profileId: string): Mapping
  {
    if Strings.Contains(e.key, ip) && e.value != profileId then
      s.(clientToPeer := Set(s.clientToPeer, e.key, profileId),
         peerToClient := Set(s.peerToClient, profileId, e.key))
    else s
  }

  /** The scan, over a snapshot of the entries. The loop only ever writes the
      key it is visiting, and Map iteration visits each existing key once, so
      every visited value is the one the snapshot holds. */
  function Scan(s: Mapping, es: seq<Entry<string>>, ip: string, profileId: string): Mapping
    decreases |es|
  {
    if |es| == 0 then s else Scan(ScanStep(s, es[0], ip, profileId), es[1..], ip, profileId)
  }

  /** Every not-yet-visited entry still holds its snapshot value. */
  predicate Unvisited(m: OMap<string>, es: seq<Entry<string>>)
  {
    forall i :: 0 <= i < |es| ==> Get(m, es[i].key) == Some(es[i].value)
  }

  /** After one step the remaining entries are still unvisited. */
  lemma StepKeepsUnvisited(s: Mapping, es: OMap<string>, ip: string, profileId: string)
    requires |es| > 0 && Unvisited(s.clientToPeer, es)
    ensures Unvisited(ScanStep(s, es[0], ip, profileId).clientToPeer, es[1..])
  {
    var s' := ScanStep(s, es[0], ip, profileId);
    var rest := es[1..];
    forall i | 0 <= i < |rest| ensures Get(s'.clientToPeer, rest[i].key) == Some(rest[i].value) {
      assert rest[i] == es[i + 1];
    }
  }

  lemma KeysCons(es: OMap<string>)
    requires |es| > 0
    ensures Keys(es) == [es[0].key] + Keys(es[1..])
    ensures es[0].key !in Keys(es[1..])
  {
    var rest: OMap<string> := es[1..];
    forall c | c in Keys(rest) ensures c != es[0].key {
      var i :| 0 <= i < |rest| && Keys(rest)[i] == c;
      assert es[i + 1].key == c;
    }
  }

  /** The scan's effect on the reverse map: a visited client id containing
      `ip` ends mapped to `profileId`; every other client id keeps its value;
      no key is added or moved. */
  lemma {:induction false} ScanReverse(s: Mapping, es: OMap<string>, ip: string, profileId: string)
    requires Unvisited(s.clientToPeer, es)
    ensures forall c :: c in Keys(es) && Strings.Contains(c, ip) ==>
      Get(Scan(s, es, ip, profileId).clientToPeer, c) == Some(profileId)
    ensures forall c :: !(c in Keys(es) && Strings.Contains(c, ip)) ==>
      Get(Scan(s, es, ip, profileId).clientToPeer, c) == Get(s.clientToPeer, c)
    ensures Keys(Scan(s, es, ip, profileId).clientToPeer) == Keys(s.clientToPeer)
    decreases |es|
  {
    if |es| > 0 {
      var s' := ScanStep(s, es[0], ip, profileId);
      StepKeepsUnvisited(s, es, ip, profileId);
      ScanReverse(s', es[1..], ip, profileId);
      KeysCons(es);
      assert Has(s.clientToPeer, es[0].key) by {
        assert Get(s.clientToPeer, es[0].key) == Some(es[0].value);
      }
    }
  }

  /** One step on the forward and ip maps: a re-keying step points
      `profileId` at the visited client id; nothing else changes there. */
  lemma ScanStepForward(s: Mapping, e: Entry<string>, ip: string, profileId: string)
    ensures var s' := ScanStep(s, e, ip, profileId);
      && (Strings.Contains(e.key, ip) && e.value != profileId ==> Get(s'.peerToClient, profileId) == Some(e.key))
      && (!(Strings.Contains(e.key, ip) && e.value != profileId) ==> s'.peerToClient == s.peerToClient)
      && (forall p :: p != profileId ==> Get(s'.peerToClient, p) == Get(s.peerToClient, p))
      && s'.ipToPeer == s.ipToPeer
  {
  }

  /** The scan never writes the ip map. */
  lemma {:induction false} ScanKeepsIps(s: Mapping, es: seq<Entry<string>>, ip: string, profileId: string)
    ensures Scan(s, es, ip, profileId).ipToPeer == s.ipToPeer
    decreases |es|
  {
    if |es| > 0 {
      ScanKeepsIps(ScanStep(s, es[0], ip, profileId), es[1..], ip, profileId);
    }
  }

  /** Forward entries of other profiles are left alone. */
  lemma {:induction false} ScanForwardOther(s: Mapping, es: seq<Entry<string>>, ip: string, profileId: string, p: string)
    requires p != profileId
    ensures Get(Scan(s, es, ip, profileId).peerToClient, p) == Get(s.peerToClient, p)
    decreases |es|
  {
    if |es| > 0 {
      var s' := ScanStep(s, es[0], ip, profileId);
      ScanStepForward(s, es[0], ip, profileId);
      ScanForwardOther(s', es[1..], ip, profileId, p);
    }
  }

  /** The last re-keyed client id wins the forward entry of `profileId`. */
  lemma {:induction false} ScanForwardOwn(s: Mapping, es: seq<Entry<string>>, ip: string, profileId: string)
    ensures Get(Scan(s, es, ip, profileId).peerToClient, profileId) ==
      (var ks := Rekeyed(es, ip, profileId); if |ks| > 0 then Some(ks[|ks| - 1]) else Get(s.peerToClient, profileId))
    decreases |es|
  {
    if |es| > 0 {
      var s' := ScanStep(s, es[0], ip, profileId);
      ScanStepForward(s, es[0], ip, profileId);
      ScanForwardOwn(s', es[1..], ip, profileId);
      var tail := Rekeyed(es[1..], ip, profileId);
      if Strings.Contains(es[0].key, ip) && es[0].value != profileId {
        var ks := [es[0].key] + tail;
        assert Rekeyed(es, ip, profileId) == ks;
        assert |tail| > 0 ==> ks[|ks| - 1] == tail[|tail| - 1];
      } else {
        assert Rekeyed(es, ip, profileId) == tail;
      }
    }
  }

  /** The scan's effect on the forward map: the entry of `profileId` becomes
      the last re-keyed client id, if any; other entries are untouched. */
  lemma ScanForward(s: Mapping, es: seq<Entry<string>>, ip: string, profileId: string)
    ensures Get(Scan(s, es, ip, profileId).peerToClient, profileId) ==
      (var ks := Rekeyed(es, ip, profileId); if |ks| > 0 then Some(ks[|ks| - 1]) else Get(s.peerToClient, profileId))
    ensures forall p :: p != profileId ==> Get(Scan(s, es, ip, profileId).peerToClient, p) == Get(s.peerToClient, p)
    ensures Scan(s, es, ip, profileId).ipToPeer == s.ipToPeer
  {
    ScanForwardOwn(s, es, ip, profileId);
    forall p | p != profileId ensures Get(Scan(s, es, ip, profileId).peerToClient, p) == Get(s.peerToClient, p) {
      ScanForwardOther(s, es, ip, profileId, p);
    }
    ScanKeepsIps(s, es, ip, profileId);
  }

  /** `updateFromJoinMessage(profileId, ip, clientId?)`: installs the pair for
      a non-empty `clientId`, maps `ip` to the profile, then re-keys every
      client id that contains `ip` as a substring (so `10.0.0.5` also catches
      `10.0.0.55:8765`). */
  function UpdateFromJoin(s: Mapping, profileId: string, ip: string, clientId: Option<string>): Mapping
  {
    var s2 := BeforeScan(s, profileId, ip, clientId);
    Scan(s2, s2.clientToPeer, ip, profileId)
  }

  /** The ip map gains `ip -> profileId` and nothing else changes there. */
  lemma UpdateFromJoinIp(s: Mapping, profileId: string, ip: string, clientId: Option<string>)
    ensures Get(UpdateFromJoin(s, profileId, ip, clientId).ipToPeer, ip) == Some(profileId)
    ensures forall a :: a != ip ==> Get(UpdateFromJoin(s, profileId, ip, clientId).ipToPeer, a) == Get(s.ipToPeer, a)
  {
    UpdateFromJoinFacts(s, profileId, ip, clientId);
  }

  /** The mapping once the given pair and the ip entry are installed, just
      before the scan starts. */
  function BeforeScan(s: Mapping, profileId: string, ip: string, clientId: Option<string>): Mapping
  {
    var s1 := if Truthy(clientId) then
      s.(peerToClient := Set(s.peerToClient, profileId, clientId.value),
         clientToPeer := Set(s.clientToPeer, clientId.value, profileId))
      else s;
    s1.(ipToPeer := Set(s1.ipToPeer, ip, profileId))
  }

  /** Everything `updateFromJoinMessage` guarantees about the reverse and
      forward maps:
      - a client id containing `ip` now maps to `profileId`, as does a given
        non-empty `clientId`;
      - a client id that neither contains `ip` nor equals `clientId` is
        unchanged, and no client id is added except `clientId`;
      - the forward entry of `profileId` is the last client id the scan
        re-keyed, or else `clientId`, or else what it was;
      - every other forward entry is unchanged. */
  lemma UpdateFromJoinFacts(s: Mapping, profileId: string, ip: string, clientId: Option<string>)
    ensures var r := UpdateFromJoin(s, profileId, ip, clientId);
      && (forall c :: Has(r.clientToPeer, c) && Strings.Contains(c, ip) ==> Get(r.clientToPeer, c) == Some(profileId))
      && (Truthy(clientId) ==> Get(r.clientToPeer, clientId.value) == Some(profileId))
      && (forall c :: !Strings.Contains(c, ip) && !(Truthy(clientId) && c == clientId.value) ==>
            Get(r.clientToPeer, c) == Get(s.clientToPeer, c))
      && (forall c :: Has(r.clientToPeer, c) <==> Has(s.clientToPeer, c) || (Truthy(clientId) && c == clientId.value))
      && Get(r.peerToClient, profileId) ==
           (var ks := Rekeyed(BeforeScan(s, profileId, ip, clientId).clientToPeer, ip, profileId);
            if |ks| > 0 then Some(ks[|ks| - 1])
            else if Truthy(clientId) then clientId
            else Get(s.peerToClient, profileId))
      && (forall p :: p != profileId ==> Get(r.peerToClient, p) == Get(s.peerToClient, p))
      && Get(r.ipToPeer, ip) == Some(profileId)
      && (forall a :: a != ip ==> Get(r.ipToPeer, a) == Get(s.ipToPeer, a))
  {
    var s2 := BeforeScan(s, profileId, ip, clientId);
    assert Unvisited(s2.clientToPeer, s2.clientToPeer) by {
      forall i | 0 <= i < |s2.clientToPeer| { GetAt(s2.clientToPeer, i); }
    }
    ScanReverse(s2, s2.clientToPeer, ip, profileId);
    ScanForward(s2, s2.clientToPeer, ip, profileId);
    var r := UpdateFromJoin(s, profileId, ip, clientId);
    assert r == Scan(s2, s2.clientToPeer, ip, profileId);
    forall c | Has(r.clientToPeer, c) && Strings.Contains(c, ip)
      ensures Get(r.clientToPeer, c) == Some(profileId)
    {
      assert c in Keys(r.clientToPeer);
    }
    forall c ensures Has(r.clientToPeer, c) <==> Has(s.clientToPeer, c) || (Truthy(clientId) && c == clientId.value) {
      assert Has(r.clientToPeer, c) <==> c in Keys(r.clientToPeer);
      assert Has(s2.clientToPeer, c) <==> c in Keys(s2.clientToPeer);
    }
  }

  /** A peer joining from `10.0.0.5` captures the client id of a different
      device at `10.0.0.55`, because matching is by substring. */
  lemma SubstringCapture(s: Mapping)
    requires Get(s.clientToPeer, "10.0.0.55:8765") == Some("other")
    ensures Get(UpdateFromJoin(s, "joiner", "10.0.0.5", None).clientToPeer, "10.0.0.55:8765") == Some("joiner")
  {
    assert "10.0.0.5" <= "10.0.0.55:8765";
    UpdateFromJoinFacts(s, "joiner", "10.0.0.5", None);
  }

  /** `getClientIdForPeer`. */
  function ClientIdForPeer(s: Mapping, peerId: string): (r: Option<string>)
    ensures r.Some? <==> peerId in Keys(s.peerToClient)
    ensures r.Some? ==> Entry(peerId, r.value) in s.peerToClient
  {
    Get(s.peerToClient, peerId)
  }

  /** `getPeerIdForClient`. */
  function PeerIdForClient(s: Mapping, clientId: string): (r: Option<string>)
    ensures r.Some? <==> clientId in Keys(s.clientToPeer)
    ensures r.Some? ==> Entry(clientId, r.value) in s.clientToPeer
  {
    Get(s.clientToPeer, clientId)
  }

  /** `getPeerIdByIp`. */
  function PeerIdByIp(s: Mapping, ip: string): (r: Option<string>)
    ensures r.Some? <==> ip in Keys(s.ipToPeer)
    ensures r.Some? ==> Entry(ip, r.value) in s.ipToPeer
  {
    Get(s.ipToPeer, ip)
  }

  /** `hasPeerMapping`: exactly the profile ids with a forward entry. */
  function HasPeerMapping(s: Mapping, peerId: string): (r: bool)
    ensures r <==> peerId in Keys(s.peerToClient)
    ensures r <==> ClientIdForPeer(s, peerId).Some?
  {
    Has(s.peerToClient, peerId)
  }

  /** `removePeerMapping(peerId)`: deletes the forward entry, the reverse entry
      of the client id it pointed to (unless that id is empty), and the first
      ip entry, in insertion order, that maps to `peerId`. */
  function Remove(s: Mapping, peerId: string): (r: Mapping)
    ensures !Has(r.peerToClient, peerId)
    ensures forall p :: p != peerId ==> Get(r.peerToClient, p) == Get(s.peerToClient, p)
    ensures Truthy(Get(s.peerToClient, peerId)) ==> !Has(r.clientToPeer, Get(s.peerToClient, peerId).value)
    ensures forall c :: !(Truthy(Get(s.peerToClient, peerId)) && Get(s.peerToClient, peerId).value == c) ==>
      Get(r.clientToPeer, c) == Get(s.clientToPeer, c)
    ensures |s.ipToPeer| - 1 <= |r.ipToPeer| <= |s.ipToPeer|
    ensures forall a :: FirstKeyWithValue(s.ipToPeer, peerId) != Some(a) ==> Get(r.ipToPeer, a) == Get(s.ipToPeer, a)
    ensures FirstKeyWithValue(s.ipToPeer, peerId).None? ==> r.ipToPeer == s.ipToPeer
    ensures FirstKeyWithValue(s.ipToPeer, peerId).Some? ==>
      !Has(r.ipToPeer, FirstKeyWithValue(s.ipToPeer, peerId).value)
  {
    var clientId := Get(s.peerToClient, peerId);
    var ctp := if Truthy(clientId) then Delete(s.clientToPeer, clientId.value) else s.clientToPeer;
    var first := FirstKeyWithValue(s.ipToPeer, peerId);
    var itp := if first.Some? then Delete(s.ipToPeer, first.value) else s.ipToPeer;
    Mapping(Delete(s.peerToClient, peerId), ctp, itp)
  }

  /** Number of ip entries that map to `peerId`. */
  function IpsOf(m: OMap<string>, peerId: string): nat
    decreases |m|
  {
    if |m| == 0 then 0 else (if m[0].value == peerId then 1 else 0) + IpsOf(m[1..], peerId)
  }

  /** With at most one ip mapped to `peerId`, removing twice is removing once. */
  lemma RemoveIdempotent(s: Mapping, peerId: string)
    requires IpsOf(s.ipToPeer, peerId) <= 1
    ensures Remove(Remove(s, peerId), peerId) == Remove(s, peerId)
  {
    var r := Remove(s, peerId);
    var first := FirstKeyWithValue(s.ipToPeer, peerId);
    if first.Some? {
      var i := IndexOf(s.ipToPeer, first.value);
      IpsOfOthers(s.ipToPeer, peerId, i);
      forall j | 0 <= j < |r.ipToPeer| ensures r.ipToPeer[j].value != peerId {
        var a := r.ipToPeer[j].key;
        GetAt(r.ipToPeer, j);
        assert a != first.value;
        var k := IndexOf(s.ipToPeer, a);
        GetAt(s.ipToPeer, k);
      }
    }
  }

  /** If the entry at `i` maps to `v` and only one entry does, no other does. */
  lemma {:induction false} IpsOfOthers(m: OMap<string>, v: string, i: int)
    requires 0 <= i < |m| && m[i].value == v && IpsOf(m, v) <= 1
    ensures forall j :: 0 <= j < |m| && j != i ==> m[j].value != v
    decreases |m|
  {
    if i > 0 {
      IpsOfAt(m[1..], v, i - 1);
      IpsOfOthers(m[1..], v, i - 1);
    } else {
      forall j | 0 < j < |m| ensures m[j].value != v {
        IpsOfZero(m[1..], v);
      }
    }
  }

  lemma {:induction false} IpsOfAt(m: OMap<string>, v: string, i: int)
    requires 0 <= i < |m| && m[i].value == v
    ensures IpsOf(m, v) >= 1
    decreases |m|
  {
    if i > 0 {
      IpsOfAt(m[1..], v, i - 1);
    }
  }

  lemma {:induction false} IpsOfZero(m: OMap<string>, v: string)
    requires IpsOf(m, v) == 0
    ensures forall j :: 0 <= j < |m| ==> m[j].value != v
    decreases |m|
  {
    if |m| > 0 {
      IpsOfZero(m[1..], v);
      assert forall j :: 0 < j < |m| ==> m[j] == m[1..][j - 1];
    }
  }

  /** Removal is not idempotent in general: when two ips map to the peer,
      the first call deletes one, leaving the other for the second call. */
  lemma RemoveNotIdempotent()
    ensures var s := Mapping([], [], [Entry("10.0.0.2", "p"), Entry("10.0.0.3", "p")]);
      Get(Remove(s, "p").ipToPeer, "10.0.0.3") == Some("p") &&
      !Has(Remove(Remove(s, "p"), "p").ipToPeer, "10.0.0.3")
  {
    var m: OMap<string> := [Entry("10.0.0.2", "p"), Entry("10.0.0.3", "p")];
    var s := Mapping([], [], m);
    assert m[0].key != m[1].key by { assert m[0].key[7] != m[1].key[7]; }
    GetAt(m, 0);
    GetAt(m, 1);
    var r := Remove(s, "p");
    assert FirstKeyWithValue(m, "p") == Some("10.0.0.2");
    assert Get(r.ipToPeer, "10.0.0.3") == Some("p");
    assert |r.ipToPeer| == 1;
    assert Entry("10.0.0.3", "p") in r.ipToPeer;
    assert r.ipToPeer[0] == Entry("10.0.0.3", "p");
    assert FirstKeyWithValue(r.ipToPeer, "p") == Some("10.0.0.3");
  }

  /** `clearAllMappings`: all three maps end empty. */
  function ClearAll(s: Mapping): (r: Mapping)
    ensures forall k :: !Has(r.peerToClient, k) && !Has(r.clientToPeer, k) && !Has(r.ipToPeer, k)
  {
    Mapping([], [], [])
  }
}
