/**
  The conductor's part of the signalling: the queue of payloads waiting to
  be sent to the peer, sent one at a time whenever the listener is not busy,
  and the binding of the conductor to the one peer it talks to. The media
  and session-description work the conductor hands to the WebRTC library is
  reduced to whether a peer connection could be created.
 */
module Conductor {
  import opened Text
  import opened Observer
  import Signaling
  import opened Listener

  // ---------------------------------------------------------------------
  // The queue, as values
  // ---------------------------------------------------------------------

  /** What one SendMessage does to the queue: with payloads waiting and the
      listener not busy, the head leaves and the rest stays in order;
      otherwise nothing happens. */
  function Dispatch(pending: seq<string>, busy: bool): (r: (Option<string>, seq<string>))
    ensures pending == [] || busy ==> r == (None, pending)
    ensures pending != [] && !busy ==> r.0 == Some(pending[0]) && [pending[0]] + r.1 == pending
  {
    if pending != [] && !busy then (Some(pending[0]), pending[1..]) else (None, pending)
  }

  /** The calls the queue sees: QueueMessage with a payload, and
      SendMessage with whether the listener was busy at the time. */
  datatype Call = Queue(message: string) | Send(busy: bool)

  /** The payloads the calls queue, in order: each comes from a
      QueueMessage call. */
  function Queued(calls: seq<Call>): (r: seq<string>)
    ensures forall m :: m in r ==> Queue(m) in calls
  {
    if calls == [] then []
    else (match calls[0] case Queue(m) => [m] case Send(_) => []) + Queued(calls[1..])
  }

  /** How many of the calls are SendMessage with the listener idle. */
  function IdleSends(calls: seq<Call>): (r: nat)
    ensures r <= |calls|
    ensures r == 0 <==> Send(false) !in calls
  {
    if calls == [] then 0
    else (if calls[0] == Send(false) then 1 else 0) + IdleSends(calls[1..])
  }

  /** What one SendMessage hands to the listener: nothing, or the one head. */
  function Sent(p: Option<string>): (r: seq<string>)
    ensures |r| <= 1 && (r == [] <==> p.None?)
  {
    match p case None => [] case Some(m) => [m]
  }

  /** The payloads sent, and the queue left, after `calls` from `pending`. */
  function Replay(pending: seq<string>, calls: seq<Call>): (r: (seq<string>, seq<string>))
    ensures |r.0| + |r.1| == |pending| + |Queued(calls)|
    decreases |calls|
  {
    if calls == [] then ([], pending)
    else
      match calls[0]
      case Queue(m) => Replay(pending + [m], calls[1..])
      case Send(busy) =>
        var d := Dispatch(pending, busy);
        var rest := Replay(d.1, calls[1..]);
        (Sent(d.0) + rest.0, rest.1)
  }

  /** The queue is first in, first out, and loses nothing: the payloads sent
      followed by those still waiting are those that were waiting followed
      by those queued, in order. */
  lemma {:induction false} ReplayFifo(pending: seq<string>, calls: seq<Call>)
    ensures Replay(pending, calls).0 + Replay(pending, calls).1 == pending + Queued(calls)
    decreases |calls|
  {
    if calls != [] {
      match calls[0]
      case Queue(m) =>
        ReplayFifo(pending + [m], calls[1..]);
        assert (pending + [m]) + Queued(calls[1..]) == pending + Queued(calls);
      case Send(busy) =>
        var d := Dispatch(pending, busy);
        ReplayFifo(d.1, calls[1..]);
        var rest := Replay(d.1, calls[1..]);
        assert Sent(d.0) + d.1 == pending;
        calc {
          (Sent(d.0) + rest.0) + rest.1;
          Sent(d.0) + (rest.0 + rest.1);
          Sent(d.0) + (d.1 + Queued(calls[1..]));
          (Sent(d.0) + d.1) + Queued(calls[1..]);
        }
        assert Queued(calls) == Queued(calls[1..]);
    }
  }

  /** At most one payload leaves per SendMessage, and none while the
      listener is busy. */
  lemma {:induction false} ReplayPaced(pending: seq<string>, calls: seq<Call>)
    ensures |Replay(pending, calls).0| <= IdleSends(calls)
    decreases |calls|
  {
    if calls != [] {
      match calls[0]
      case Queue(m) => ReplayPaced(pending + [m], calls[1..]);
      case Send(busy) => ReplayPaced(Dispatch(pending, busy).1, calls[1..]);
    }
  }

  // ---------------------------------------------------------------------
  // The binding to a peer, as values
  // ---------------------------------------------------------------------

  /** The peer the conductor talks to (-1 for none) and whether a peer
      connection exists. */
  datatype Binding = Binding(peerId: int, hasPeerConnection: bool)

  /** The prelude of OnMessageFromPeer: without a peer connection the sender
      is adopted, and a connection is created (`created`), or on failure the
      binding is reset; with one, a sender other than the bound peer is
      ignored. The second component says whether the message goes on to be
      handled. */
  function Bind(b: Binding, sender: int, created: bool): (r: (Binding, bool))
    ensures !b.hasPeerConnection ==>
              r == (if created then (Binding(sender, true), true) else (Binding(-1, false), false))
    ensures b.hasPeerConnection ==> r.0 == b && (r.1 <==> sender == b.peerId)
  {
    if !b.hasPeerConnection then
      if created then (Binding(sender, true), true) else (Binding(-1, false), false)
    else (b, sender == b.peerId)
  }

  /** The senders of a run of messages, and whether a peer connection could
      be created at each. */
  function Converse(b: Binding, senders: seq<int>, created: seq<bool>): (r: (Binding, seq<int>))
    requires |created| == |senders|
    ensures |r.1| <= |senders| && forall x :: x in r.1 ==> x in senders
    decreases |senders|
  {
    if senders == [] then (b, [])
    else
      var step := Bind(b, senders[0], created[0]);
      var rest := Converse(step.0, senders[1..], created[1..]);
      (rest.0, (if step.1 then [senders[0]] else []) + rest.1)
  }

  /** The senders in `senders` that are `id`, in order. */
  function From(senders: seq<int>, id: int): (r: seq<int>)
    ensures forall x :: x in r ==> x == id
    ensures r == [] <==> id !in senders
  {
    if senders == [] then []
    else (if senders[0] == id then [id] else []) + From(senders[1..], id)
  }

  /** Once bound, the conductor stays with its peer: exactly the messages
      from that peer go on to be handled, and the binding never changes. */
  lemma {:induction false} ConverseStaysBound(b: Binding, senders: seq<int>, created: seq<bool>)
    requires |created| == |senders| && b.hasPeerConnection
    ensures Converse(b, senders, created) == (b, From(senders, b.peerId))
    decreases |senders|
  {
    if senders != [] {
      ConverseStaysBound(b, senders[1..], created[1..]);
    }
  }

  // ---------------------------------------------------------------------
  // The conductor
  // ---------------------------------------------------------------------

  /** The payload queued when the bound peer hangs up. */
  const PeerDisconnectedMessage := "peer disconnected"

  class Conductor {
    var peerId: int
    var pending: seq<string>
    var hasPeerConnection: bool
    const client: PeerConnectionListener

    function Bound(): Binding
      reads this
    {
      Binding(peerId, hasPeerConnection)
    }

    constructor (client: PeerConnectionListener)
      ensures Bound() == Binding(-1, false) && pending == [] && this.client == client
    {
      peerId := -1;
      pending := [];
      hasPeerConnection := false;
      this.client := client;
    }

    /** QueueMessage: the payload joins the tail of the queue. */
    method QueueMessage(message: string)
      modifies this
      ensures pending == old(pending) + [message] && Bound() == old(Bound())
    {
      pending := pending + [message];
    }

    /** SendMessage: with payloads waiting and the listener not busy, the
        head leaves the queue and goes to the bound peer; `written` is what
        the listener writes for it. The listener's SendToPeer always reports
        success, so the branch that would disconnect from the server on a
        failed send is never taken. */
    method SendMessage() returns (sent: Option<string>, written: Option<string>)
      modifies this
      ensures (sent, pending) == Dispatch(old(pending), client.IsSendingMessage())
      ensures sent.Some? ==> written == Signaling.SendToPeer(peerId, sent.value).0
      ensures sent.None? ==> written == None
      ensures Bound() == old(Bound())
    {
      sent, written := None, None;
      if pending != [] && !client.IsSendingMessage() {
        var message := pending[0];
        pending := pending[1..];
        var ok;
        written, ok := client.SendToPeer(peerId, message);
        if !ok && peerId != -1 {
          assert false;
        }
        sent := Some(message);
      }
    }

    /** DisconnectFromServer: sign out, if signed in. `connected` is the
        outcome of the connect the sign-out may make. */
    method DisconnectFromServer(connected: bool)
      modifies client
      ensures old(client.IsConnected()) ==> client.Model() == Signaling.SignOut(old(client.Model()), connected).0
      ensures !old(client.IsConnected()) ==> client.Model() == old(client.Model())
    {
      if client.IsConnected() {
        var ignored := client.SignOut(connected);
      }
    }

    /** DeletePeerConnection: the peer connection is dropped and the
        conductor bound to no peer. */
    method DeletePeerConnection()
      modifies this
      ensures Bound() == Binding(-1, false) && pending == old(pending)
    {
      hasPeerConnection := false;
      peerId := -1;
    }

    /** Close: sign out, then drop the peer connection. */
    method Close(connected: bool)
      modifies this, client
      ensures client.Model() == Signaling.SignOut(old(client.Model()), connected).0
      ensures Bound() == Binding(-1, false) && pending == old(pending)
    {
      var ignored := client.SignOut(connected);
      DeletePeerConnection();
    }

    /** OnDisconnected: the server session ended; drop the peer connection. */
    method OnDisconnected()
      modifies this
      ensures Bound() == Binding(-1, false) && pending == old(pending)
    {
      DeletePeerConnection();
    }

    /** OnPeerDisconnected: only the bound peer's hang-up matters; it queues
        a notice and unbinds. */
    method OnPeerDisconnected(id: int)
      modifies this
      ensures id == old(peerId) ==>
                pending == old(pending) + [PeerDisconnectedMessage] && Bound() == Binding(-1, false)
      ensures id != old(peerId) ==> pending == old(pending) && Bound() == old(Bound())
    {
      if id == peerId {
        QueueMessage(PeerDisconnectedMessage);
        DeletePeerConnection();
      }
    }

    /** InitializePeerConnection, with whether the library created the
        peer connection as `created`; a failure drops what was made. */
    method InitializePeerConnection(created: bool) returns (ok: bool)
      modifies this
      ensures ok == created && pending == old(pending)
      ensures created ==> Bound() == Binding(old(peerId), true)
      ensures !created ==> Bound() == Binding(-1, false)
    {
      if !created {
        DeletePeerConnection();
        return false;
      }
      hasPeerConnection := true;
      return true;
    }

    /** The prelude of OnMessageFromPeer: whether the message from `sender`
        goes on to be handled. When no peer connection can be created the
        conductor also signs out (`connected` as for SignOut). */
    method OnMessageFromPeer(sender: int, created: bool, connected: bool) returns (accepted: bool)
      modifies this, client
      ensures (Bound(), accepted) == Bind(old(Bound()), sender, created) && pending == old(pending)
      ensures !old(hasPeerConnection) && !created ==>
                client.Model() == Signaling.SignOut(old(client.Model()), connected).0
      ensures old(hasPeerConnection) || created ==> client.Model() == old(client.Model())
    {
      if !hasPeerConnection {
        peerId := sender;
        var ok := InitializePeerConnection(created);
        if !ok {
          var ignored := client.SignOut(connected);
          return false;
        }
      } else if sender != peerId {
        return false;
      }
      return true;
    }

    /** ConnectToPeer: only without a peer connection; the peer is bound
        once a connection is created. */
    method ConnectToPeer(id: int, created: bool)
      modifies this
      ensures old(hasPeerConnection) ==> Bound() == old(Bound())
      ensures !old(hasPeerConnection) ==> Bound() == if created then Binding(id, true) else Binding(-1, false)
      ensures pending == old(pending)
    {
      if hasPeerConnection {
        return;
      }
      var ok := InitializePeerConnection(created);
      if ok {
        peerId := id;
      }
    }

    /** DisconnectFromCurrentPeer: hang up on the bound peer, if there is a
        peer connection, and unbind; `written` is what the listener writes. */
    method DisconnectFromCurrentPeer() returns (written: Option<string>)
      modifies this
      ensures old(hasPeerConnection) ==>
                written == Signaling.SendToPeer(old(peerId), ByeMessage).0 && Bound() == Binding(-1, false)
      ensures !old(hasPeerConnection) ==> written == None && Bound() == old(Bound())
      ensures pending == old(pending)
    {
      written := None;
      if hasPeerConnection {
        var ok;
        written, ok := client.SendHangUp(peerId);
        DeletePeerConnection();
      }
    }

    /** The conductor as the listener's observer: each callback goes to its
        handler. OnPeerConnected, OnSignedIn and OnMessageSent do nothing;
        a message's handling past the binding prelude is not modelled.
        `created` and `connected` are as for OnMessageFromPeer. */
    method Deliver(e: Event, created: bool, connected: bool)
      modifies this, client
      ensures e.PeerDisconnected? && e.id == old(peerId) ==>
                pending == old(pending) + [PeerDisconnectedMessage] && Bound() == Binding(-1, false)
      ensures e.Disconnected? ==> pending == old(pending) && Bound() == Binding(-1, false)
      ensures e.MessageFromPeer? ==> Bound() == Bind(old(Bound()), e.id, created).0 && pending == old(pending)
      ensures e.PeerConnected? || e.SignedIn? || e.MessageSent? || (e.PeerDisconnected? && e.id != old(peerId)) ==>
                pending == old(pending) && Bound() == old(Bound())
      ensures !e.MessageFromPeer? ==> client.Model() == old(client.Model())
      ensures e.MessageFromPeer? && !old(hasPeerConnection) && !created ==>
                client.Model() == Signaling.SignOut(old(client.Model()), connected).0
      ensures e.MessageFromPeer? && (old(hasPeerConnection) || created) ==> client.Model() == old(client.Model())
    {
      match e {
        case PeerDisconnected(id) => OnPeerDisconnected(id);
        case Disconnected => OnDisconnected();
        case MessageFromPeer(id, _) =>
          var accepted := OnMessageFromPeer(id, created, connected);
        case _ =>
      }
    }
  }
}
