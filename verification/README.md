# LAN chat core in Dafny

This project models the state logic under a peer-to-peer LAN chat app. Its
React hooks talk over a signaling channel, keep messages in IndexedDB, and
ask an Android plugin for the device's local IP. Five parts are modelled, each
as immutable datatypes and pure transition functions with their contracts
proved.

- **Identity map** (`PeerClientMapping`). It holds three insertion-ordered
  string maps:
  - profile id → WebSocket client id;
  - client id → profile id;
  - IP → profile id.

  The operations are register, join-time re-keying, lookups, remove and clear.
  JavaScript `Map` is modelled by `OrderedMap`.
- **Signaling router and roster** (`PeerNetwork`). One node's state is its
  profile, roster, flags, database, WebRTC sessions, an outbox of broadcast
  envelopes and a log of application callbacks.
  - `Dispatch` filters each inbound envelope and routes it by type.
  - The user operations are host, join, disconnect, send, typing, call and
    mark-as-seen.
- **Storage** (`Storage`, over `KeyedStore`). There are three IndexedDB object
  stores keyed by `id`.
  - A store keeps its records sorted by key, because `getAll` yields them in
    key order.
  - The conversation query filters both directions and applies a stable sort
    by timestamp.
- **Unread counters** (`UnreadMessages`). Per-peer counts are recomputed from
  storage, reset, incremented and summed.
- **Local-IP helpers** in the two copies of `LanDiscoveryPlugin.java`
  (`LanDiscovery`, `NativeLanDiscovery`).
  - `DottedQuad` covers the WiFi `int` → dotted-quad rendering and its parser.
  - `NetInterfaces` covers the platform's interface list and the
    "first match" search.

The code is followed wherever it departs from the intended protocol:
- Status receipts are not monotonic. A late `delivered` moves a `seen` message
  back (`Storage.DeliveredOverwritesSeen`).
- Re-registering a peer leaves the old client id's reverse entry in place
  (`PeerClientMapping.StaleReverseEntry`).
- Join-time re-keying matches client ids by substring, so `10.0.0.5` captures
  `10.0.0.55:8765` (`PeerClientMapping.SubstringCapture`).
- Removing a peer deletes only the first IP entry that names it, so a second
  removal can still change the state (`PeerClientMapping.RemoveNotIdempotent`).
- The two plugin copies choose different addresses on the same inputs
  (`NativeLanDiscovery.CopiesDisagreeOnDisabledWifi`,
  `NativeLanDiscovery.DownInterfaceCounts`).
- `getLocalIp` answers `0.0.0.0` when nothing is found. It also answers
  `0.0.0.0` when an interface itself reports that text, so the reply alone
  does not tell the two cases apart (`LanDiscovery.GetLocalIp`).

## Model

| member | source | states |
|---|---|---|
| PeerClientMapping.Register | src/hooks/usePeerClientMapping.ts:26-35 | forward(peer) = client and reverse(client) = peer. The ip entry is written only for a non-empty ip. No other key of any map changes, so older entries survive. |
| PeerClientMapping.StaleReverseEntry | src/hooks/usePeerClientMapping.ts:29-30 | Registering a peer under a second client id leaves the first client id still mapped to that peer. |
| PeerClientMapping.UpdateFromJoinIp | src/hooks/usePeerClientMapping.ts:52 | `UpdateFromJoin`: a join always maps its ip to the profile and leaves every other ip entry alone. |
| PeerClientMapping.ScanReverse | src/hooks/usePeerClientMapping.ts:55-62 | The scan maps every visited client id that contains the ip to the profile. It keeps all other reverse entries and the key set unchanged. |
| PeerClientMapping.ScanForward | src/hooks/usePeerClientMapping.ts:55-62 | After the scan, forward(profile) is the last client id re-keyed in iteration order, or its old value if none was re-keyed. Other forward entries and the ip map do not change. |
| PeerClientMapping.UpdateFromJoinFacts | src/hooks/usePeerClientMapping.ts:42-63 | After `UpdateFromJoin`, every client id containing the ip, and a given non-empty client id, maps to the profile. Other reverse entries are unchanged. The only key that can be added is the given client id. forward(profile) is the last re-keyed id, else the given client id, else its old value. Other forward entries are untouched. |
| PeerClientMapping.SubstringCapture | src/hooks/usePeerClientMapping.ts:56 | A join from `10.0.0.5` re-keys the client `10.0.0.55:8765` belonging to someone else. |
| PeerClientMapping.ClientIdForPeer | src/hooks/usePeerClientMapping.ts:68-70 | The result is defined exactly when the peer is a forward key, and it is the stored entry. |
| PeerClientMapping.PeerIdForClient | src/hooks/usePeerClientMapping.ts:75-77 | The result is defined exactly when the client id is a reverse key, and it is the stored entry. |
| PeerClientMapping.PeerIdByIp | src/hooks/usePeerClientMapping.ts:82-84 | The result is defined exactly when the ip is a key, and it is the stored entry. |
| PeerClientMapping.HasPeerMapping | src/hooks/usePeerClientMapping.ts:89-91 | True exactly when the peer is a forward key, which is exactly when the forward lookup succeeds. |
| PeerClientMapping.Remove | src/hooks/usePeerClientMapping.ts:96-114 | Removes the forward entry. Removes the reverse entry of the peer's client id only if that id is non-empty; with an empty client id, even a reverse entry keyed by the empty string is kept. Removes the first ip entry naming the peer and no other. Every other entry is unchanged. |
| PeerClientMapping.RemoveIdempotent | src/hooks/usePeerClientMapping.ts:97-111 | A second removal changes nothing when at most one ip maps to the peer. |
| PeerClientMapping.RemoveNotIdempotent | src/hooks/usePeerClientMapping.ts:106-111 | With two ips mapped to one peer, the first removal deletes only one of them. A second removal deletes the other. |
| PeerClientMapping.ClearAll | src/hooks/usePeerClientMapping.ts:119-124 | All three maps end up with no keys. |
| PeerNetwork.Dispatch | src/hooks/usePeerNetwork.ts:40-78 | Without a profile, a self-echo or an envelope for someone else, the state is unchanged. `call-answer` and `call-end` change nothing. Profile, flags, host address and data channels never change. Sessions only grow. Outbox and notices only get appended to, at most one entry each. |
| PeerNetwork.SelfEchoDropped | src/hooks/usePeerNetwork.ts:41 | An envelope from our own id leaves the node as it was. |
| PeerNetwork.Upsert | src/hooks/usePeerNetwork.ts:90-96 | A peer with the same id is replaced in place (same length); otherwise the peer is appended. Other entries stay. Ids stay unique. |
| PeerNetwork.JoinedPeer | src/hooks/usePeerNetwork.ts:81-88 | The joined peer is online and stamped now. Its ip is `Local` when the payload's ip is missing or empty. |
| PeerNetwork.HandlePeerJoin | src/hooks/usePeerNetwork.ts:80-116 | Upserts and stores the joined peer. Only a host broadcasts the peer list, and it is exactly the old roster filtered of the joiner's id (order kept), then the joiner, then the host's own entry. The message and profile stores are unchanged. |
| PeerNetwork.MarkOffline | src/hooks/usePeerNetwork.ts:118-122 | Only the leaver's entries go offline, restamped now. Nothing is removed, others are unchanged, and ids keep their positions. |
| PeerNetwork.LeaveMarksOffline | src/hooks/usePeerNetwork.ts:48-50 | An accepted leave keeps the roster length and changes only the leaver's entries. It sends nothing and stores nothing. |
| PeerNetwork.RemoveId | src/hooks/usePeerNetwork.ts:127-128 | Each peer with another id appears as often as in the list, peers with the id not at all. A list without the id comes back unchanged, and unique ids stay unique. |
| PeerNetwork.RemoveIdAppend | src/hooks/usePeerNetwork.ts:127-128 | Filtering a concatenation is the concatenation of the filtered parts, so the kept peers keep their relative order. |
| PeerNetwork.HandlePeerList | src/hooks/usePeerNetwork.ts:124-136 | The roster becomes exactly the received list filtered of our own id, in the received order. Each kept peer is stored under its id, the last copy winning when the list repeats an id; with unique ids every kept peer is stored. Other stored peers are untouched. |
| PeerNetwork.SavePeersFacts | src/hooks/usePeerNetwork.ts:135 | `SavePeers`, saving peers one by one, stores each under its id, the last entry with a given id winning. Unlisted ids keep their records. |
| PeerNetwork.HandleIncomingMessage | src/hooks/usePeerNetwork.ts:138-157 | Stores the message as `delivered` and reports it. Emits a `delivered` receipt with its id, addressed to its sender. The peer and profile stores, and the rest of the node, do not change. |
| PeerNetwork.MessageStoredAndAcknowledged | src/hooks/usePeerNetwork.ts:54-56 | An accepted chat envelope stores its message as `delivered`, reports it once and acknowledges it to its sender. The roster and the peer and profile stores are untouched. |
| PeerNetwork.TypingReported | src/hooks/usePeerNetwork.ts:57-59 | An accepted typing envelope only reports the sender and its typing flag. |
| PeerNetwork.ReceiptSetsStatus | src/hooks/usePeerNetwork.ts:60-65 | An accepted `delivered` or `seen` receipt sets that status on the named stored message, whatever it was. Other messages and the rest of the node stay. A receipt for an unknown message changes nothing. |
| PeerNetwork.FindPeer | src/hooks/usePeerNetwork.ts:67 | Finds the first roster entry with the id. None exactly when there is no such entry. |
| PeerNetwork.CallOfferNeedsKnownCaller | src/hooks/usePeerNetwork.ts:66-71 | A call offer raises a notice exactly when the caller is already in the roster, and then it carries the caller's roster entry. |
| PeerNetwork.HandleWebRtc | src/hooks/usePeerNetwork.ts:159-187 | The sender gets a session if missing. Only an offer whose negotiation succeeds emits, and then exactly one `answer` addressed to the sender. A rejected negotiation keeps the session and sends nothing. |
| PeerNetwork.SignalingCreatesSession | src/hooks/usePeerNetwork.ts:72-75 | After an accepted offer, answer or candidate the sender has a session, even when negotiation rejects. Only an offer whose negotiation succeeds emits an answer. |
| PeerNetwork.DispatchKeepsIdsUnique | src/hooks/usePeerNetwork.ts:80-122 | Every envelope except a peer list keeps roster ids unique. After a join the joiner is in the roster. |
| PeerNetwork.StartHost | src/hooks/usePeerNetwork.ts:231-248 | With a profile the node becomes a connected host and broadcasts a `join` with ip `Host`. Without one nothing happens. Profile, roster, database, sessions, channels and notices never change. |
| PeerNetwork.HostAnnouncementRecorded | src/hooks/usePeerNetwork.ts:231-248 | The host's `join`, received by any other node, puts the host in that node's roster and peer store with the ip `Host`. |
| PeerNetwork.JoinNetwork | src/hooks/usePeerNetwork.ts:251-268 | With a profile the node becomes a connected client. The host address is the given one, or `Local Network` if missing or empty. It broadcasts a `join` with ip `Client`. Profile, roster, database, sessions, channels and notices never change. |
| PeerNetwork.ClientAnnouncementRecorded | src/hooks/usePeerNetwork.ts:251-268 | A client's `join`, received by any other node, puts the client in that node's roster and peer store with the ip `Client`. |
| PeerNetwork.Disconnect | src/hooks/usePeerNetwork.ts:271-287 | Emits one `leave` when there is a profile and none otherwise. Clears both flags. Every peer goes offline, with the same length and `lastSeen` kept. Sessions and channels are emptied. Profile, host address, database and notices are kept. |
| PeerNetwork.DisconnectKeepsIdsUnique | src/hooks/usePeerNetwork.ts:282 | Disconnecting keeps roster ids unique. |
| PeerNetwork.AllOffline | src/hooks/usePeerNetwork.ts:282 | Keeps every peer with only `isOnline` cleared, so no peer is online. |
| PeerNetwork.SendMessage | src/hooks/usePeerNetwork.ts:290-316 | Fails exactly when there is no profile. Otherwise it stores the message as `sent` under its id, leaving other ids and the peer and profile stores alone. It broadcasts the `sending` version to the receiver and returns the `sent` one. Nothing else in the node changes. |
| PeerNetwork.SentMessageDelivered | src/hooks/usePeerNetwork.ts:290-316 | The message a node sends, dispatched at its addressee, is stored there as `delivered` with the same fields, and the addressee sends a `delivered` receipt for that id back to the sender. |
| PeerNetwork.SendTyping | src/hooks/usePeerNetwork.ts:319-328 | With a profile, one `typing` envelope goes to the receiver and nothing else changes. |
| PeerNetwork.MarkEachSeen | src/hooks/usePeerNetwork.ts:334-343 | Each listed stored message becomes `seen` and unlisted ones are untouched. Listed ids with no stored message stay absent. One `seen` receipt per id goes to the sender, in list order, appended to the outbox. The peer and profile stores do not change. |
| PeerNetwork.MarkAsSeen | src/hooks/usePeerNetwork.ts:331-344 | Nothing happens without a profile; otherwise the per-id marking above. Either way no message is created for an id that was not stored. |
| PeerNetwork.InitiateCall | src/hooks/usePeerNetwork.ts:347-356 | With a profile, one `call-offer` carrying our username goes to the peer. |
| Storage.SaveProfile | src/lib/storage.ts:45-53 | The profile is stored under its id, overwriting any record with that id. Other ids and stores are unchanged. |
| Storage.GetProfile | src/lib/storage.ts:55-66 | Returns None exactly when the store is empty; otherwise the profile with the least id, the first one `getAll` yields. |
| Storage.DeleteProfile | src/lib/storage.ts:68-76 | No profile is left. The other stores are unchanged. |
| Storage.SaveMessage | src/lib/storage.ts:79-90 | The message is stored under its id, overwriting any record with that id. Other ids and stores are unchanged. |
| Storage.Conversation | src/lib/storage.ts:100-104 | Keeps exactly the messages sent between the two ids, in either direction. |
| Storage.InsertByTime | src/lib/storage.ts:109 | Inserting into a list sorted by timestamp keeps it sorted and adds exactly the one element. |
| Storage.SortByTime | src/lib/storage.ts:109 | The output is sorted by non-decreasing timestamp and is a permutation of the input. |
| Storage.InsertByTimeAtTime | src/lib/storage.ts:109 | Inserting into a sorted list puts the new message ahead of those with the same timestamp and keeps their order. |
| Storage.SortByTimeStable | src/lib/storage.ts:109 | The sort is stable: for every timestamp, the messages carrying it come out in their input order. |
| Storage.GetMessages | src/lib/storage.ts:92-114 | Returns exactly the stored messages between the two ids, in non-decreasing timestamp order, as a permutation of the filtered store. |
| Storage.ConversationSymmetric | src/lib/storage.ts:101-104 | The conversation filter gives the same sequence whichever id comes first. |
| Storage.GetMessagesSymmetric | src/lib/storage.ts:92-114 | `getMessages(a, b)` and `getMessages(b, a)` are the same sequence. |
| Storage.UpdateMessageStatus | src/lib/storage.ts:116-134 | A missing id leaves the database as it was. A present message gets the new status whatever it had, with all its other fields kept. Other messages and stores are unchanged. |
| Storage.DeliveredOverwritesSeen | src/lib/storage.ts:125-127 | A `delivered` arriving after `seen` leaves the message `delivered`. |
| Storage.SavePeer | src/lib/storage.ts:137-148 | The peer is stored under its id, overwriting any record with that id. Other ids and stores are unchanged. |
| Storage.SavePeerKeyedById | src/lib/storage.ts:137-148 | If every stored peer sits under its own id, it still does after `savePeer`. |
| Storage.GetPeers | src/lib/storage.ts:150-164 | Returns one record per stored id: the i-th result is the record stored under the i-th key. Every stored peer is among the results and every result is stored. When peers sit under their own ids, the results come in strictly ascending id order. |
| Storage.ClearAllData | src/lib/storage.ts:166-176 | No message, no profile and no peer is left. |
| KeyedStore.Put | src/lib/storage.ts:49 | The key reads back the new value. Other keys read as before. The key set gains exactly that key. |
| UnreadMessages.CalculateUnreadCount | src/hooks/useUnreadMessages.ts:12-26 | 0 without a (non-empty) profile id or when the fetch fails. Otherwise it is the number of stored messages from the peer to me that are not `seen`, computed over the whole store rather than the sorted conversation. |
| UnreadMessages.UnreadInConversation | src/hooks/useUnreadMessages.ts:18-20 | Filtering to the conversation first does not change the unread count. |
| UnreadMessages.UnreadInSort | src/hooks/useUnreadMessages.ts:16-20 | Sorting does not change the unread count. |
| UnreadMessages.CountAllFacts | src/hooks/useUnreadMessages.ts:32-35 | After the `CountAll` loop, each listed peer carries its computed count. Every unlisted key reads as before. |
| UnreadMessages.LoadUnreadCounts | src/hooks/useUnreadMessages.ts:29-37 | Does nothing without a profile id or with no peers. Otherwise the keys are exactly the listed peers, each with its computed count. |
| UnreadMessages.MarkPeerAsSeen | src/hooks/useUnreadMessages.ts:45-50 | The peer's count becomes 0 and the others are unchanged. |
| UnreadMessages.AddUnreadMessage | src/hooks/useUnreadMessages.ts:53-58 | The peer's count goes up by one, an absent count counting as 0. The others are unchanged. |
| UnreadMessages.TotalAfterSet | src/hooks/useUnreadMessages.ts:65 | Setting one peer's count moves `GetTotalUnread` by the difference. |
| UnreadMessages.TotalAfterMarkSeen | src/hooks/useUnreadMessages.ts:65 | Marking a peer seen lowers `GetTotalUnread` by exactly that peer's count. |
| UnreadMessages.TotalAfterAddUnread | src/hooks/useUnreadMessages.ts:65 | An arriving message raises `GetTotalUnread` by exactly one. |
| DottedQuad.Octets | android/app/src/main/java/app/lovable/lanchat/plugins/LanDiscoveryPlugin.java:269-273 | Four octets, each in 0..255, low byte first. They recompose to the unsigned 32-bit value of the `int`. |
| DottedQuad.OctetsZero | android/app/src/main/java/app/lovable/lanchat/plugins/LanDiscoveryPlugin.java:268 | The octets are all zero exactly when the `int` is 0. |
| DottedQuad.OctetsInjective | android/app/src/main/java/app/lovable/lanchat/plugins/LanDiscoveryPlugin.java:269-273 | Distinct `int`s render to distinct octets. |
| DottedQuad.ParseFormat | android/app/src/main/java/app/lovable/lanchat/plugins/LanDiscoveryPlugin.java:269 | Parsing a formatted quad returns its octets. |
| DottedQuad.WifiIpRoundTrip | android/app/src/main/java/app/lovable/lanchat/plugins/LanDiscoveryPlugin.java:269-273 | The printed WiFi address parses back to the octets of the `int`, which recompose to its unsigned value. |
| DottedQuad.WifiIpString | native-plugins/android/LanDiscoveryPlugin.java:232-236 | The rendered address holds no colon. |
| LanDiscovery.HotspotIp | android/app/src/main/java/app/lovable/lanchat/plugins/LanDiscoveryPlugin.java:334-365 | Returns None exactly when no up, non-loopback interface with a hotspot name carries a usable IPv4 address. Otherwise it returns such an address, from the first such interface. |
| LanDiscovery.ActiveNetworkIp | android/app/src/main/java/app/lovable/lanchat/plugins/LanDiscoveryPlugin.java:244-262 | Returns the first non-loopback IPv4 link address of the active network, and None exactly when there is none. |
| LanDiscovery.WifiIp | android/app/src/main/java/app/lovable/lanchat/plugins/LanDiscoveryPlugin.java:264-277 | Gives an answer exactly when there is a WiFi manager, WiFi is enabled and the `int` is non-zero. The answer parses back to the `int`'s octets and is never `0.0.0.0`. |
| LanDiscovery.EnumerationReference | android/app/src/main/java/app/lovable/lanchat/plugins/LanDiscoveryPlugin.java:279-325 | Returns None exactly when no live interface carries a usable IPv4 address. Any answer is such an address. If a preferred interface carries one, the answer comes from a preferred interface. |
| LanDiscovery.ScanAddresses | android/app/src/main/java/app/lovable/lanchat/plugins/LanDiscoveryPlugin.java:292-319 | On a tethering or WiFi name, returns the interface's first usable address. Otherwise it returns nothing and sets the fallback to that address if the fallback is still unset. |
| LanDiscovery.EnumerationIp | android/app/src/main/java/app/lovable/lanchat/plugins/LanDiscoveryPlugin.java:279-325 | The loop with its early returns and fallback variable computes the reference choice. That choice is the first preferred live interface's first usable address, else the first usable address on any live interface. |
| LanDiscovery.LocalIpAddress | android/app/src/main/java/app/lovable/lanchat/plugins/LanDiscoveryPlugin.java:233-332 | Computes `LocalIpReference`: hotspot, then active network, then WiFi, then enumeration. |
| LanDiscovery.LocalIpIsReported | android/app/src/main/java/app/lovable/lanchat/plugins/LanDiscoveryPlugin.java:233-332 | Every answer of `LocalIpReference` is a usable IPv4 address on a live interface or on the active network, or the WiFi address. There is no answer exactly when no source has one. |
| LanDiscovery.HotspotWins | android/app/src/main/java/app/lovable/lanchat/plugins/LanDiscoveryPlugin.java:238-242 | When a hotspot interface carries a usable address, the answer is a hotspot address, whatever the other sources say. |
| LanDiscovery.GetLocalIp | android/app/src/main/java/app/lovable/lanchat/plugins/LanDiscoveryPlugin.java:225-231 | Replies with the selected address, or `0.0.0.0`. The reply is `0.0.0.0` exactly when no source has an address, or the selected address is itself `0.0.0.0`. |
| NativeLanDiscovery.WifiIp | native-plugins/android/LanDiscoveryPlugin.java:227-238 | Gives an answer exactly when there is a WiFi manager and a non-zero `int`; WiFi being enabled is not asked. The answer parses back to the `int`'s octets. |
| NativeLanDiscovery.InterfaceIp | native-plugins/android/LanDiscoveryPlugin.java:240-249 | Returns None exactly when no interface, up or not, carries a non-loopback address whose text has no colon. Otherwise it returns the first such address of the first interface that has one. |
| NativeLanDiscovery.InterfaceHost | native-plugins/android/LanDiscoveryPlugin.java:243-247 | An interface yields None exactly when none of its addresses is a candidate, and otherwise the first candidate address in address order. |
| NativeLanDiscovery.LocalIpAddress | native-plugins/android/LanDiscoveryPlugin.java:225-254 | The WiFi answer wins, else the interface answer. Any answer holds no colon. None exactly when WiFi gives nothing and no candidate exists. |
| NativeLanDiscovery.GetLocalIp | native-plugins/android/LanDiscoveryPlugin.java:217-223 | Replies with the selected address, or `0.0.0.0`. The reply is `0.0.0.0` exactly when nothing is found, or the selected address is itself `0.0.0.0`. |
| NativeLanDiscovery.CopiesDisagreeOnDisabledWifi | native-plugins/android/LanDiscoveryPlugin.java:229-237 | With WiFi disabled but reporting an address, and nothing else available, the application's copy finds nothing while this copy answers with the WiFi address. |
| NativeLanDiscovery.DownInterfaceCounts | native-plugins/android/LanDiscoveryPlugin.java:241-249 | An address on a down interface is this copy's answer. The application's copy ignores it. |

## Left out

- Asynchrony and I/O. Every IndexedDB call is a synchronous function on the
  database value. Transactions, `openDB`, the `conversation` and `timestamp`
  indexes (the reads never use them), and `onerror` rejections are not
  modelled.
- Dates are milliseconds since the epoch. The `toISOString`/`new Date` round
  trip is taken to be exact.
- IndexedDB orders string keys by UTF-16 code unit. The model compares Dafny
  characters, which agrees below U+10000.
- React state. Each operation sees the state the previous one produced. In the
  source, the BroadcastChannel listener, the only inbound path, is installed by
  an effect that re-runs only when `profile` changes
  (src/hooks/usePeerNetwork.ts:26-38). The listener therefore keeps the
  `handleSignalingMessage`, and through it the `handlePeerJoin`, of the render
  in which `profile` last changed, with that render's `peers` and `isHost`.
- PeerNetwork.HandlePeerJoin: the host branch is proved for the node's current
  `isHost` and roster. As wired, a join reaches the `handlePeerJoin` of the
  render where `profile` last changed. `startHost` needs a profile first, so
  unless the profile changes after hosting that closure sees `isHost` false
  and no `peer-list` is broadcast. Its roster is also the one of that render.
- PeerNetwork.CallOfferNeedsKnownCaller: the caller is looked up in the node's
  current roster. As wired, `call-offer` searches the `peers` of the render
  where `profile` last changed, so a caller that joined later is not found.
- Transport. BroadcastChannel and WebSocket delivery become the outbox. Data
  channels re-entering the dispatcher, and `createPeerConnection`'s ICE and
  data-channel handlers, are not modelled.
- WebRTC negotiation. `setRemoteDescription`, `createAnswer`,
  `setLocalDescription` and `addIceCandidate` are foreign browser APIs. The
  outcome of negotiating an offer is an input: the answer produced, or `None`
  when one of those promises rejects (a malformed SDP, say). Then the session
  stays and no answer is sent.
- Callbacks. `onMessage`, `onTyping` and `onCallOffer` always log a notice,
  whether or not the application passed one.
- Nondeterministic values. `crypto.randomUUID()` and `new Date()` are
  parameters (`id`, `now`).
- PeerNetwork.SendMessage: the thrown `No profile` error becomes the
  `NoProfile` outcome.
- UnreadMessages.LoadUnreadCounts: one read of the store (or one failed read)
  serves every peer. The source reads once per peer, so a failure that hits
  only some peers is not modelled.
- UnreadMessages: JavaScript orders integer-like object keys first, so the
  counts object may enumerate in a different order than the model. The total
  does not depend on that order.
- PeerClientMapping.RemoveIdempotent: idempotence is proved only when at most
  one ip maps to the peer. Without that condition it is false, as
  `PeerClientMapping.RemoveNotIdempotent` shows.
- `debugGetAllMappings` and all logging (`console.log`, `Log.d`) are
  diagnostics.
- Exceptions in the Java helpers are not modelled. `getNetworkInterfaces`
  throwing, and the `catch` that turns any failure into `null`, are left out.
  A `null` interface enumeration is modelled as an empty list.
- ConnectivityManager. The null manager, the API level check, a missing
  active network and missing link properties all become `None` for the link
  address list.
- DottedQuad.Format: renders each octet with ASCII digits. `String.format`
  without a locale uses the default locale's digits, which may be non-ASCII
  (Arabic or Persian, say); such locales are not covered.
- DottedQuad.JoinChars: states that the text is ASCII digits and dots, so it
  carries the same ASCII-digit assumption as `DottedQuad.Format`.
- DottedQuad.WifiIpString: the no-colon result relies on the ASCII-digit
  rendering of `DottedQuad.Format`.
- DottedQuad.WifiIpRoundTrip: the round trip is proved for the ASCII-digit
  rendering only; under a locale with other digits the parser would reject
  the text.
- LanDiscovery.WifiIp: its answer parses back under the ASCII-digit
  assumption of `DottedQuad.Format`.
- NativeLanDiscovery.WifiIp: its answer parses back under the ASCII-digit
  assumption of `DottedQuad.Format`.
- `String.toLowerCase()` is modelled for ASCII letters only. The Java call
  also folds non-ASCII letters and depends on the default locale.
- The NSD advertising and discovery methods of `LanDiscoveryPlugin` are not
  part of this model. They only forward to the OS service-discovery API.
