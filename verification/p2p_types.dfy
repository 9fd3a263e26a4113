/** The records exchanged and stored by the chat core: peers, chat messages,
    the local profile and the signaling envelope. Dates are milliseconds since
    the epoch (`Date.getTime()`). */
module P2PTypes {
  import opened Common

  /** Delivery status of a chat message. */
  datatype Status = Sending | Sent | Delivered | Seen

  datatype MessageKind = Text | Image | File

  datatype Message = Message(
    id: string,
    senderId: string,
    receiverId: string,
    content: string,
    timestamp: int,
    status: Status,
    kind: MessageKind)

  /** One remote participant as held in the roster and the peers store. */
  datatype Peer = Peer(
    id: string,
    deviceId: Option<string>,
    deviceName: Option<string>,
    macAddress: Option<string>,
    username: string,
    ip: string,
    isOnline: bool,
    lastSeen: int,
    avatarUrl: Option<string>)

  datatype LocalProfile = LocalProfile(id: string, username: string, avatarUrl: Option<string>)

  /** The envelope's `type` together with its payload, one variant per type. */
  datatype Signal =
    | Join(username: string, ip: Option<string>, avatarUrl: Option<string>)
    | Leave
    | PeerList(list: seq<Peer>)
    | ChatMessage(message: Message)
    | Typing(isTyping: bool)
    | DeliveredReceipt(messageId: string)
    | SeenReceipt(messageId: string)
    | CallOffer(callerName: string)
    | CallAnswer
    | CallEnd
    | Offer(offerSdp: string)
    | Answer(answerSdp: string)
    | IceCandidate(candidate: string)

  /** A signaling message `{type, from, to?, payload}`. */
  datatype Envelope = Envelope(from: string, to: Option<string>, signal: Signal)
}
