/**
  The callbacks the listener raises on its observer (the conductor), written
  as values. A listener handler returns the callbacks it raised, in order.
 */
module Observer {

  /** The hang-up payload. */
  const ByeMessage := "BYE"

  /** The fixed peer id the server role attributes every accepted request to. */
  const ServerPeerId := 7

  datatype Event =
    | PeerConnected(id: int, name: string)
    | PeerDisconnected(id: int)
    | MessageFromPeer(id: int, message: string)
    | SignedIn
    | Disconnected
    | MessageSent(err: int)

  /** The listener's OnMessageFromPeer: a payload that is exactly "BYE" is a
      hang-up of its sender; anything else is delivered as a message. */
  function Relay(id: int, message: string): (e: Event)
    ensures e.PeerDisconnected? <==> message == ByeMessage
    ensures e.MessageFromPeer? <==> message != ByeMessage
    ensures e.PeerDisconnected? || e.MessageFromPeer?
    ensures e.id == id
    ensures e.MessageFromPeer? ==> e.message == message
  {
    if |message| == |ByeMessage| && message == ByeMessage then PeerDisconnected(id)
    else MessageFromPeer(id, message)
  }
}
