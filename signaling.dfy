/**
  The listener's session: its sign-in state, its own id, the roster of
  other peers, the request queued for the next control connection and the
  three receive buffers. Sockets are reduced to whether they are closed.
  Each handler of the listener is a function from the session before to
  the session after, together with the callbacks it raises on the
  observer, in order.
 */
module Signaling {
  import opened Text
  import opened Observer
  import opened Framing
  import opened Roster

  datatype State = NotConnected | SigningIn | Connected | SigningOutWaiting | SigningOut

  /** The moves any handler can make: stay, give up towards signing out or
      not connected, or complete a sign-in. */
  predicate Moves(from: State, to: State) {
    to == from || to in {SigningOutWaiting, SigningOut, NotConnected} || (from == SigningIn && to == Connected)
  }

  /** ECONNREFUSED on Linux. */
  const ConnectionRefused := 111

  /** The control socket, the hanging-get socket, and the socket the server
      role accepted. */
  datatype Socket = Control | HangingGet | Accepted

  datatype Session = Session(
    state: State,
    myId: int,
    peers: map<int, string>,
    onconnectData: string,   // the request sent once the control socket connects
    controlData: string,     // bytes received on the control socket
    notificationData: string, // bytes received on the hanging-get socket
    requestData: string,     // bytes received on the accepted socket
    controlOpen: bool,       // the control socket is not closed
    hangingOpen: bool,       // the hanging-get socket is not closed
    retryScheduled: bool)    // a reconnection retry has been posted

  datatype Outcome = Outcome(session: Session, events: seq<Event>)

  /** The listener as constructed: not connected, no id. */
  function Initial(): (s: Session)
    ensures s.state == NotConnected && s.myId == -1 && s.peers == map[]
    ensures !s.controlOpen && !s.hangingOpen && !s.retryScheduled
  {
    Session(NotConnected, -1, map[], "", "", "", "", false, false, false)
  }

  /** is_connected(): the listener holds an id from the server. */
  predicate IsConnected(s: Session) {
    s.myId != -1
  }

  /** IsSendingMessage: connected, with the control socket still open. */
  function IsSendingMessage(s: Session): (b: bool)
    ensures b <==> s.state == Connected && s.controlOpen
  {
    s.state == Connected && s.controlOpen
  }

  /** Close: both client sockets closed, the queued request and the roster
      dropped, the id forgotten, not connected. The receive buffers are
      kept. */
  function Close(s: Session): (r: Session)
    ensures r.state == NotConnected && r.myId == -1 && r.peers == map[] && r.onconnectData == ""
    ensures !r.controlOpen && !r.hangingOpen
    ensures r.controlData == s.controlData && r.notificationData == s.notificationData
    ensures r.requestData == s.requestData && r.retryScheduled == s.retryScheduled
  {
    s.(state := NotConnected, myId := -1, peers := map[], onconnectData := "",
       controlOpen := false, hangingOpen := false)
  }

  /** ConnectControlSocket, with the outcome of the connect attempt as
      `connected`: on failure everything is closed and false returned. */
  function ConnectControlSocket(s: Session, connected: bool): (r: (Session, bool))
    requires !s.controlOpen
    ensures r.1 == connected
    ensures connected ==> r.0 == s.(controlOpen := true)
    ensures !connected ==> r.0 == Close(s)
  {
    if connected then (s.(controlOpen := true), true) else (Close(s), false)
  }

  /** SignOut, with the outcome of a connect attempt it may make as
      `connected`. */
  function SignOut(s: Session, connected: bool): (r: (Session, bool))
    // Nothing to do when not connected or already signing out.
    ensures s.state in {NotConnected, SigningOut} ==> r == (s, true)
    // With the control socket busy, wait for it.
    ensures s.state !in {NotConnected, SigningOut} && s.controlOpen ==>
              r == (s.(hangingOpen := false, state := SigningOutWaiting), true)
    // With the control socket free and no id, just give up the session.
    ensures s.state !in {NotConnected, SigningOut} && !s.controlOpen && s.myId == -1 ==>
              r == (s.(hangingOpen := false, state := SigningOut), true)
    // Otherwise queue the sign-out request and connect to send it.
    ensures s.state !in {NotConnected, SigningOut} && !s.controlOpen && s.myId != -1 ==>
              r.1 == connected &&
              r.0 == if connected then
                       s.(hangingOpen := false, state := SigningOut,
                          onconnectData := SignOutRequest(s.myId), controlOpen := true)
                     else Close(s)
    ensures Moves(s.state, r.0.state) && (s.state == NotConnected ==> r.0.state == NotConnected)
  {
    if s.state == NotConnected || s.state == SigningOut then (s, true)
    else
      var s1 := s.(hangingOpen := false);
      if !s1.controlOpen then
        var s2 := s1.(state := SigningOut);
        if s2.myId != -1 then ConnectControlSocket(s2.(onconnectData := SignOutRequest(s2.myId)), connected)
        else (s2, true)
      else (s1.(state := SigningOutWaiting), true)
  }

  /** OnClose for `socket` with error `err`. */
  function OnClose(s: Session, socket: Socket, err: int): (o: Outcome)
    // A refused control connection only schedules a retry.
    ensures err == ConnectionRefused && socket == Control ==>
              o == Outcome(s.(controlOpen := false, retryScheduled := true), [])
    // Any other refused connection ends the session.
    ensures err == ConnectionRefused && socket != Control ==> o == Outcome(Close(s), [Disconnected])
    // A hanging get that drops while connected is reopened at once.
    ensures err != ConnectionRefused && socket == HangingGet ==>
              o == Outcome(s.(hangingOpen := s.state == Connected), [])
    // Any other socket reports the message as sent.
    ensures err != ConnectionRefused && socket != HangingGet ==>
              o.events == [MessageSent(err)] && o.session.peers == s.peers && o.session.state == s.state
    ensures Moves(s.state, o.session.state) && (s.state == NotConnected ==> o.session.state == NotConnected)
  {
    var s1 := match socket
      case Control => s.(controlOpen := false)
      case HangingGet => s.(hangingOpen := false)
      case Accepted => s;
    if err != ConnectionRefused then
      if socket == HangingGet then
        if s1.state == Connected then Outcome(s1.(hangingOpen := true), [])
        else Outcome(s1, [])
      else Outcome(s1, [MessageSent(err)])
    else if socket == Control then Outcome(s1.(retryScheduled := true), [])
    else Outcome(Close(s1), [Disconnected])
  }

  // ---------------------------------------------------------------------
  // ReadIntoBuffer
  // ---------------------------------------------------------------------

  /** The receive buffer of each socket. */
  function Buffer(s: Session, socket: Socket): string {
    match socket
    case Control => s.controlData
    case HangingGet => s.notificationData
    case Accepted => s.requestData
  }

  function WithBuffer(s: Session, socket: Socket, data: string): (r: Session)
    ensures Buffer(r, socket) == data
  {
    match socket
    case Control => s.(controlData := data)
    case HangingGet => s.(notificationData := data)
    case Accepted => s.(requestData := data)
  }

  datatype Framed = Framed(session: Session, verdict: Verdict, events: seq<Event>)

  /** ReadIntoBuffer on `socket`, whose reads return `chunks`: the bytes are
      appended to the socket's buffer and the framer's verdict taken on the
      whole buffer; a complete unit asking for Connection: close closes the
      socket and runs OnClose with error 0. */
  function ReadIntoBuffer(s: Session, socket: Socket, chunks: seq<string>): (f: Framed)
    ensures Buffer(f.session, socket) == Buffer(s, socket) + Received(chunks)
    ensures f.verdict == Frame(Buffer(s, socket) + Received(chunks))
    ensures !(f.verdict.Complete? && f.verdict.close) ==>
              f.session == WithBuffer(s, socket, Buffer(s, socket) + Received(chunks)) && f.events == []
    // Reading never changes the sign-in state, the id or the roster.
    ensures f.session.state == s.state && f.session.myId == s.myId && f.session.peers == s.peers
    ensures socket == HangingGet ==> f.events == []
  {
    Settle(WithBuffer(s, socket, Buffer(s, socket) + Received(chunks)), socket)
  }

  /** The framer's verdict on a socket's buffer, and the close it may ask for. */
  function Settle(s: Session, socket: Socket): (f: Framed)
    ensures f.verdict == Frame(Buffer(s, socket))
    ensures !(f.verdict.Complete? && f.verdict.close) ==> f.session == s && f.events == []
    ensures f.session.state == s.state && f.session.myId == s.myId && f.session.peers == s.peers
    ensures Buffer(f.session, socket) == Buffer(s, socket)
    ensures socket == HangingGet ==> f.events == []
  {
    var v := Frame(Buffer(s, socket));
    if v.Complete? && v.close then
      var o := OnClose(s, socket, 0);
      Framed(o.session, v, o.events)
    else Framed(s, v, [])
  }

  /** Setting a buffer twice keeps the second. */
  lemma {:induction false} WithBufferTwice(s: Session, socket: Socket, x: string, y: string)
    ensures WithBuffer(WithBuffer(s, socket, x), socket, y) == WithBuffer(s, socket, y)
  {
  }

  // ---------------------------------------------------------------------
  // The handlers
  // ---------------------------------------------------------------------

  /** The part of OnRead that acts on a decoded control response. */
  function OnControlResponse(s: Session, data: string, contentLength: int, connected: bool): (o: Outcome)
    // A status other than 200 ends the session.
    ensures DecodeResponse(data).Rejected? ==> o == Outcome(Close(s), [Disconnected])
    // The first good response signs in: the id is taken, the roster seeded.
    ensures DecodeResponse(data).Ok? && s.myId == -1 ==>
              && o.session.myId == DecodeResponse(data).peerId
              && o.session.state == s.state && o.session.hangingOpen == s.hangingOpen
              && o.events != [] && o.events[|o.events| - 1] == SignedIn
              && (DecodeResponse(data).peerId !in s.peers ==> DecodeResponse(data).peerId !in o.session.peers)
    // The roster is seeded from the body's lines unless the body is empty.
    ensures DecodeResponse(data).Ok? && s.myId == -1 && contentLength % SizeModulus != 0 ==>
              var r := DecodeResponse(data);
              o.session.peers == Seed(Lines(data[r.eoh + 4..]), r.peerId, Seeding(s.peers, [])).peers
    ensures DecodeResponse(data).Ok? && s.myId == -1 && contentLength % SizeModulus == 0 ==>
              o.session.peers == s.peers
    // The callbacks are the seeding's OnPeerConnected events, then OnSignedIn.
    ensures DecodeResponse(data).Ok? && s.myId == -1 ==>
              var r := DecodeResponse(data);
              o.events == (if contentLength % SizeModulus != 0
                           then Seed(Lines(data[r.eoh + 4..]), r.peerId, Seeding(s.peers, [])).events
                           else []) + [SignedIn]
    // A good response while signing out completes the sign-out.
    ensures DecodeResponse(data).Ok? && s.myId != -1 && s.state == SigningOut ==>
              o == Outcome(Close(s), [Disconnected])
    // Once the control socket is idle, a sign-out that had to wait goes ahead.
    ensures DecodeResponse(data).Ok? && s.myId != -1 && s.state == SigningOutWaiting ==>
              o == Outcome(SignOut(s, connected).0, [])
    // In any other state a good response changes nothing.
    ensures DecodeResponse(data).Ok? && s.myId != -1 && s.state != SigningOut && s.state != SigningOutWaiting ==>
              o == Outcome(s, [])
  {
    match DecodeResponse(data)
    case Rejected(_) => Outcome(Close(s), [Disconnected])
    case Unterminated => Outcome(s, [])
    case Ok(peerId, eoh) =>
      if s.myId == -1 then
        var start := Seeding(s.peers, []);
        var seeded := if contentLength % SizeModulus != 0 then Seed(Lines(data[eoh + 4..]), peerId, start) else start;
        assert seeded.events == if contentLength % SizeModulus != 0 then Seed(Lines(data[eoh + 4..]), peerId, start).events else [];
        Outcome(s.(myId := peerId, peers := seeded.peers), seeded.events + [SignedIn])
      else if s.state == SigningOut then Outcome(Close(s), [Disconnected])
      else if s.state == SigningOutWaiting then Outcome(SignOut(s, connected).0, [])
      else Outcome(s, [])
  }

  /** A control response moves the session as any handler may, and never
      into SIGNING_IN. */
  lemma {:induction false} ControlResponseMoves(s: Session, data: string, contentLength: int, connected: bool)
    ensures var o := OnControlResponse(s, data, contentLength, connected);
            && Moves(s.state, o.session.state)
            && (s.state == NotConnected ==> o.session.state == NotConnected)
            && (o.session.state != SigningIn || s.state == SigningIn)
  {
    match DecodeResponse(data)
    case Rejected(_) =>
    case Unterminated =>
    case Ok(peerId, eoh) =>
      if s.myId == -1 {
        var start := Seeding(s.peers, []);
        var seeded := if contentLength % SizeModulus != 0 then Seed(Lines(data[eoh + 4..]), peerId, start) else start;
        assert OnControlResponse(s, data, contentLength, connected).session.state == s.state;
      }
  }

  /** OnRead: a control response. The first one after sign-in assigns the
      id and seeds the roster; one that arrives while signing out completes
      the sign-out. `connected` is the outcome of a connect attempt the
      sign-out may make. */
  function OnRead(s: Session, chunks: seq<string>, connected: bool): (o: Outcome)
    ensures !Frame(s.controlData + Received(chunks)).Complete? ==>
              o == Outcome(s.(controlData := s.controlData + Received(chunks)), [])
    ensures Frame(s.controlData + Received(chunks)).Complete? ==> o.session.controlData == ""
    ensures Moves(s.state, o.session.state) && (s.state == NotConnected ==> o.session.state == NotConnected)
  {
    var f := ReadIntoBuffer(s, Control, chunks);
    if !f.verdict.Complete? then Outcome(f.session, f.events)
    else
      ControlResponseMoves(f.session, f.session.controlData, f.verdict.contentLength, connected);
      var p := OnControlResponse(f.session, f.session.controlData, f.verdict.contentLength, connected);
      var s2 := p.session.(controlData := "");
      var s3 := if s2.state == SigningIn then s2.(state := Connected, hangingOpen := true) else s2;
      Outcome(s3, f.events + p.events)
  }

  /** OnHangingGetRead: a notification about the roster, or a message
      relayed from another peer; the hanging get is reopened whenever it is
      closed while connected. */
  function OnHangingGetRead(s: Session, chunks: seq<string>): (o: Outcome)
    ensures o.session.state == Connected ==> o.session.hangingOpen
    ensures Moves(s.state, o.session.state) && (s.state == NotConnected ==> o.session.state == NotConnected)
  {
    var f := ReadIntoBuffer(s, HangingGet, chunks);
    var o :=
      if !f.verdict.Complete? then Outcome(f.session, f.events)
      else
        var p := OnNotification(f.session, f.session.notificationData);
        Outcome(p.session.(notificationData := ""), f.events + p.events);
    if !o.session.hangingOpen && o.session.state == Connected then Outcome(o.session.(hangingOpen := true), o.events)
    else o
  }

  /** The source relays a message in the middle of OnHangingGetRead, and the
      conductor may answer it with SignOut before the handler clears the
      notification buffer and decides whether to reconnect the hanging get.
      The model signs out after the handler instead. Both orders end in the
      same session: signing out closes the hanging get and never ends in CONNECTED,
      so the reconnect the source skips is undone by the later SignOut. */
  lemma {:induction false} SignOutDeferred(q: Session, connected: bool)
    ensures var source := SignOut(q, connected);
            var cleared := source.0.(notificationData := "");
            var c := q.(notificationData := "");
            var reopened := if !c.hangingOpen && c.state == Connected then c.(hangingOpen := true) else c;
            && cleared.state != Connected
            && SignOut(reopened, connected) == (cleared, source.1)
  {
    var c := q.(notificationData := "");
    var reopened := if !c.hangingOpen && c.state == Connected then c.(hangingOpen := true) else c;
    if q.state != NotConnected && q.state != SigningOut && !q.controlOpen && q.myId != -1 && !connected {
      assert Close(reopened) == Close(q).(notificationData := "");
    }
  }

  /** The part of OnHangingGetRead that acts on a decoded notification. */
  function OnNotification(s: Session, data: string): (o: Outcome)
    // A status other than 200 ends the session.
    ensures DecodeResponse(data).Rejected? ==> o == Outcome(Close(s), [Disconnected])
    // Otherwise nothing but the roster changes.
    ensures !DecodeResponse(data).Rejected? ==> o.session == s.(peers := o.session.peers)
    // From another peer it is a relayed message, and the roster is kept.
    ensures DecodeResponse(data).Ok? && DecodeResponse(data).peerId != s.myId ==>
              var r := DecodeResponse(data);
              o.session == s && o.events == [Relay(r.peerId, data[r.eoh + 4..])]
  {
    match DecodeResponse(data)
    case Rejected(_) => Outcome(Close(s), [Disconnected])
    case Unterminated => Outcome(s, [])
    case Ok(peerId, eoh) =>
      var n := Notify(s.myId, peerId, data[eoh + 4..], s.peers);
      Outcome(s.(peers := n.peers), n.events)
  }

  /** OnServerRead: a complete request is handed to GetRequest; an
      incomplete one that mentions "/BYE" anywhere is taken as the hang-up
      of the server-role peer. */
  function OnServerRead(s: Session, chunks: seq<string>): (o: Outcome)
    ensures o.session.state == s.state && o.session.myId == s.myId && o.session.peers == s.peers
  {
    var f := ReadIntoBuffer(s, Accepted, chunks);
    if f.verdict.Complete? then
      var request := match DecodeRequest(f.session.requestData) case None => [] case Some(e) => [e];
      Outcome(f.session.(requestData := ""), f.events + request)
    else if Find(f.session.requestData, "/BYE", 0).Some? then
      Outcome(f.session.(requestData := ""), [PeerDisconnected(ServerPeerId)])
    else Outcome(f.session, [])
  }

  /** SendToPeer: only the server-role peer can be answered; the answer is
      the reply carrying the message. The call reports success either way. */
  function SendToPeer(peerId: int, message: string): (r: (Option<string>, bool))
    ensures r.1
    ensures r.0.Some? <==> peerId == ServerPeerId
    ensures r.0.Some? ==> r.0.value == Reply(message)
  {
    if peerId == ServerPeerId then (Some(Reply(message)), true) else (None, true)
  }

  // ---------------------------------------------------------------------
  // The session as a state machine
  // ---------------------------------------------------------------------

  /** What can happen to the listener: a read on one of its sockets, a
      socket closing, or a call of SignOut or Close. */
  datatype Input =
    | ControlRead(chunks: seq<string>, connected: bool)
    | NotificationRead(chunks: seq<string>)
    | RequestRead(chunks: seq<string>)
    | SocketClosed(socket: Socket, err: int)
    | SignOutCalled(connected: bool)
    | CloseCalled

  function Step(s: Session, i: Input): (o: Outcome)
    ensures Moves(s.state, o.session.state)
    ensures s.state == NotConnected ==> o.session.state == NotConnected
    // The accepted socket's close signal goes to OnServerClose, which only logs.
    ensures i.SocketClosed? && i.socket == Accepted ==> o == Outcome(s, [])
  {
    match i
    case ControlRead(chunks, connected) => OnRead(s, chunks, connected)
    case NotificationRead(chunks) => OnHangingGetRead(s, chunks)
    case RequestRead(chunks) => OnServerRead(s, chunks)
    case SocketClosed(socket, err) =>
      // Only the control and hanging-get sockets are wired to OnClose.
      if socket == Accepted then Outcome(s, []) else OnClose(s, socket, err)
    case SignOutCalled(connected) => Outcome(SignOut(s, connected).0, [])
    case CloseCalled => Outcome(Close(s), [])
  }

  /** The session after a sequence of inputs. */
  function Run(s: Session, inputs: seq<Input>): Session
    decreases |inputs|
  {
    if inputs == [] then s else Run(Step(s, inputs[0]).session, inputs[1..])
  }

  /** No handler enters SIGNING_IN, and CONNECTED is entered only from it:
      a session that is in neither never gets there. */
  lemma {:induction false} RunNeverSignsIn(s: Session, inputs: seq<Input>)
    requires s.state != SigningIn && s.state != Connected
    ensures Run(s, inputs).state != SigningIn && Run(s, inputs).state != Connected
    decreases |inputs|
  {
    if inputs != [] {
      RunNeverSignsIn(Step(s, inputs[0]).session, inputs[1..]);
    }
  }

  /** A listener that is not connected stays so whatever happens, and so
      never reports that it is sending a message. */
  lemma {:induction false} RunFromNotConnected(s: Session, inputs: seq<Input>)
    requires s.state == NotConnected
    ensures Run(s, inputs).state == NotConnected
    ensures !IsSendingMessage(Run(s, inputs))
    decreases |inputs|
  {
    if inputs != [] {
      RunFromNotConnected(Step(s, inputs[0]).session, inputs[1..]);
    }
  }

  // ---------------------------------------------------------------------
  // Properties of the handlers
  // ---------------------------------------------------------------------

  /** Closing twice leaves the session as closing once does. */
  lemma {:induction false} CloseIdempotent(s: Session)
    ensures Close(Close(s)) == Close(s)
  {
  }

  /** The framer's buffer is kept while no unit is complete, so reading the
      bytes in two events ends where reading them in one does. */
  lemma {:induction false} ReadIntoBufferSplit(s: Session, socket: Socket, first: seq<string>, second: seq<string>)
    requires forall k :: 0 <= k < |first| ==> first[k] != []
    requires !Frame(Buffer(s, socket) + Received(first)).Complete?
    ensures ReadIntoBuffer(ReadIntoBuffer(s, socket, first).session, socket, second) ==
            ReadIntoBuffer(s, socket, first + second)
  {
    var a := Buffer(s, socket);
    var x := a + Received(first);
    BufferGrows(a, first, second);
    WithBufferTwice(s, socket, x, x + Received(second));
  }

  /** Appending two reads one after the other appends both at once. */
  lemma {:induction false} BufferGrows(a: string, first: seq<string>, second: seq<string>)
    requires forall k :: 0 <= k < |first| ==> first[k] != []
    ensures (a + Received(first)) + Received(second) == a + Received(first + second)
  {
    ReceivedAppend(first, second);
    Assoc(a, Received(first), Received(second));
  }

  lemma {:induction false} Assoc(a: string, b: string, c: string)
    ensures (a + b) + c == a + (b + c)
  {
  }

  /** A control response split over two reads is handled as if it had
      arrived in one: the first read only buffers. */
  lemma {:induction false} OnReadSplit(s: Session, first: seq<string>, second: seq<string>, connected: bool)
    requires forall k :: 0 <= k < |first| ==> first[k] != []
    requires !Frame(s.controlData + Received(first)).Complete?
    ensures OnRead(s, first, connected).events == []
    ensures OnRead(OnRead(s, first, connected).session, second, connected) == OnRead(s, first + second, connected)
  {
    ReadIntoBufferSplit(s, Control, first, second);
    assert OnRead(s, first, connected).session == ReadIntoBuffer(s, Control, first).session;
  }

  /** A response with a status other than 200 ends the session: the
      listener closes and reports the disconnection last. */
  lemma {:induction false} OnReadRejected(s: Session, chunks: seq<string>, connected: bool)
    requires Frame(s.controlData + Received(chunks)).Complete?
    requires DecodeResponse(s.controlData + Received(chunks)).Rejected?
    ensures var o := OnRead(s, chunks, connected);
            && o.session.state == NotConnected && o.session.myId == -1 && o.session.peers == map[]
            && o.events != [] && o.events[|o.events| - 1] == Disconnected
  {
    var f := ReadIntoBuffer(s, Control, chunks);
    assert f.session.controlData == s.controlData + Received(chunks);
  }

  /** ... and so does a notification with such a status. */
  lemma {:induction false} OnHangingGetReadRejected(s: Session, chunks: seq<string>)
    requires Frame(s.notificationData + Received(chunks)).Complete?
    requires DecodeResponse(s.notificationData + Received(chunks)).Rejected?
    ensures var o := OnHangingGetRead(s, chunks);
            && o.session.state == NotConnected && o.session.myId == -1 && o.session.peers == map[]
            && o.events != [] && o.events[|o.events| - 1] == Disconnected
  {
    var f := ReadIntoBuffer(s, HangingGet, chunks);
    assert f.session.notificationData == s.notificationData + Received(chunks);
  }

  /** Sign-in: the first successful control response gives the listener the
      id in its Pragma header, seeds the roster from the body's lines (the
      listener's own id never among them) and reports the sign-in last. */
  lemma {:induction false} OnReadSignsIn(s: Session, chunks: seq<string>, connected: bool, peerId: int, eoh: nat)
    requires s.myId == -1 && peerId !in s.peers
    requires Frame(s.controlData + Received(chunks)).Complete?
    requires DecodeResponse(s.controlData + Received(chunks)) == Ok(peerId, eoh)
    ensures var o := OnRead(s, chunks, connected);
            && o.session.myId == peerId && peerId !in o.session.peers
            && o.events != [] && o.events[|o.events| - 1] == SignedIn
            && (s.state == SigningIn ==> o.session.state == Connected && o.session.hangingOpen)
  {
    var data := s.controlData + Received(chunks);
    var f := ReadIntoBuffer(s, Control, chunks);
    assert f.session.myId == -1 && f.session.peers == s.peers && f.session.state == s.state;
    var p := OnControlResponse(f.session, data, f.verdict.contentLength, connected);
    assert p.session.myId == peerId && peerId !in p.session.peers && p.session.state == s.state;
    var s2 := p.session.(controlData := "");
    var s3 := if s2.state == SigningIn then s2.(state := Connected, hangingOpen := true) else s2;
    assert OnRead(s, chunks, connected) == Outcome(s3, f.events + p.events);
    assert (f.events + p.events)[|f.events + p.events| - 1] == p.events[|p.events| - 1];
  }

  /** The roster a sign-in leaves is the one the seeding of the body's lines
      gives, or the old one when the body is empty. */
  lemma {:induction false} OnReadSeedsRoster(s: Session, chunks: seq<string>, connected: bool, peerId: int, eoh: nat)
    requires s.myId == -1
    requires Frame(s.controlData + Received(chunks)).Complete?
    requires DecodeResponse(s.controlData + Received(chunks)) == Ok(peerId, eoh)
    ensures var data := s.controlData + Received(chunks);
            var peers := OnRead(s, chunks, connected).session.peers;
            && (Frame(data).contentLength % SizeModulus != 0 ==>
                  peers == Seed(Lines(data[eoh + 4..]), peerId, Seeding(s.peers, [])).peers)
            && (Frame(data).contentLength % SizeModulus == 0 ==> peers == s.peers)
  {
    var data := s.controlData + Received(chunks);
    var f := ReadIntoBuffer(s, Control, chunks);
    assert f.session.myId == -1 && f.session.peers == s.peers && f.session.controlData == data;
    var p := OnControlResponse(f.session, data, f.verdict.contentLength, connected);
    var s2 := p.session.(controlData := "");
    var s3 := if s2.state == SigningIn then s2.(state := Connected, hangingOpen := true) else s2;
    assert OnRead(s, chunks, connected) == Outcome(s3, f.events + p.events);
  }

  /** Sign-out completes on the next successful control response: the
      listener closes and reports the disconnection last. */
  lemma {:induction false} OnReadSignsOut(s: Session, chunks: seq<string>, connected: bool)
    requires s.state == SigningOut && s.myId != -1
    requires Frame(s.controlData + Received(chunks)).Complete?
    requires DecodeResponse(s.controlData + Received(chunks)).Ok?
    ensures var o := OnRead(s, chunks, connected);
            && o.session.state == NotConnected && o.session.myId == -1 && o.session.peers == map[]
            && o.events != [] && o.events[|o.events| - 1] == Disconnected
  {
    var data := s.controlData + Received(chunks);
    var f := ReadIntoBuffer(s, Control, chunks);
    assert f.session.controlData == data && f.session.state == SigningOut && f.session.myId == s.myId;
    var p := OnControlResponse(f.session, data, f.verdict.contentLength, connected);
    assert p == Outcome(Close(f.session), [Disconnected]);
    assert OnRead(s, chunks, connected) == Outcome(p.session.(controlData := ""), f.events + p.events);
    assert (f.events + p.events)[|f.events + p.events| - 1] == Disconnected;
  }

  /** A notification from another peer whose body is exactly "BYE" is that
      peer's hang-up, and is never delivered as a message. */
  lemma {:induction false} HangingGetBye(s: Session, chunks: seq<string>, peerId: int, eoh: nat)
    requires Frame(s.notificationData + Received(chunks)).Complete?
    requires DecodeResponse(s.notificationData + Received(chunks)) == Ok(peerId, eoh)
    requires peerId != s.myId && (s.notificationData + Received(chunks))[eoh + 4..] == ByeMessage
    ensures OnHangingGetRead(s, chunks).events == [PeerDisconnected(peerId)]
    ensures OnHangingGetRead(s, chunks).session.peers == s.peers
  {
    var data := s.notificationData + Received(chunks);
    var f := ReadIntoBuffer(s, HangingGet, chunks);
    assert f.events == [] && f.session.notificationData == data;
    var p := OnNotification(f.session, data);
    assert p.session == f.session && p.events == [Relay(peerId, ByeMessage)];
    assert Relay(peerId, ByeMessage) == PeerDisconnected(peerId);
    assert f.events + p.events == p.events;
  }

  /** A notification about the peer itself updates the roster, and raises
      the callbacks, exactly as `Notify` says. */
  lemma {:induction false} HangingGetNotifies(s: Session, chunks: seq<string>, eoh: nat)
    requires Frame(s.notificationData + Received(chunks)).Complete?
    requires DecodeResponse(s.notificationData + Received(chunks)) == Ok(s.myId, eoh)
    ensures eoh + 4 <= |s.notificationData + Received(chunks)|
    ensures var n := Notify(s.myId, s.myId, (s.notificationData + Received(chunks))[eoh + 4..], s.peers);
            OnHangingGetRead(s, chunks).session.peers == n.peers && OnHangingGetRead(s, chunks).events == n.events
  {
    var data := s.notificationData + Received(chunks);
    ResponseBody(data, s.myId, eoh);
    var f := ReadIntoBuffer(s, HangingGet, chunks);
    assert f.events == [] && f.session.notificationData == data && f.session.myId == s.myId;
    var n := Notify(s.myId, s.myId, data[eoh + 4..], s.peers);
    NotificationOk(f.session, data, s.myId, eoh, n);
    var o := Outcome(OnNotification(f.session, data).session.(notificationData := ""), f.events + n.events);
    assert f.events + n.events == n.events;
    assert OnHangingGetRead(s, chunks).session.peers == o.session.peers;
  }

  /** OnNotification on a good notification. */
  lemma {:induction false} NotificationOk(s: Session, data: string, peerId: int, eoh: nat, n: Seeding)
    requires DecodeResponse(data) == Ok(peerId, eoh) && eoh + 4 <= |data|
    requires n == Notify(s.myId, peerId, data[eoh + 4..], s.peers)
    ensures OnNotification(s, data) == Outcome(s.(peers := n.peers), n.events)
  {
  }

  /** A complete request is handed to the decoder and its buffer emptied:
      the callbacks are those of the close it may ask for, then the event of
      a recognised request. */
  lemma {:induction false} OnServerReadComplete(s: Session, chunks: seq<string>)
    requires Frame(s.requestData + Received(chunks)).Complete?
    ensures var data := s.requestData + Received(chunks);
            var o := OnServerRead(s, chunks);
            && o.session.requestData == ""
            && o.events == (if Frame(data).close then [MessageSent(0)] else [])
                           + (match DecodeRequest(data) case None => [] case Some(e) => [e])
  {
    var data := s.requestData + Received(chunks);
    var f := ReadIntoBuffer(s, Accepted, chunks);
    assert f.session.requestData == data;
    var s1 := WithBuffer(s, Accepted, data);
    assert f == Settle(s1, Accepted);
    if Frame(data).close {
      assert OnClose(s1, Accepted, 0).events == [MessageSent(0)];
    }
  }

  /** An incomplete request stays buffered, unless it mentions "/BYE". */
  lemma {:induction false} OnServerReadIncomplete(s: Session, chunks: seq<string>)
    requires !Frame(s.requestData + Received(chunks)).Complete?
    ensures var data := s.requestData + Received(chunks);
            Find(data, "/BYE", 0).Some? ==>
              OnServerRead(s, chunks) == Outcome(s.(requestData := ""), [PeerDisconnected(ServerPeerId)])
    ensures var data := s.requestData + Received(chunks);
            Find(data, "/BYE", 0).None? ==> OnServerRead(s, chunks) == Outcome(s.(requestData := data), [])
  {
    var f := ReadIntoBuffer(s, Accepted, chunks);
    assert f.session == s.(requestData := s.requestData + Received(chunks)) && f.events == [];
  }

  /** The server role takes any buffered request text that mentions "/BYE",
      complete or not, as the hang-up of its peer and drops the buffer. */
  lemma {:induction false} ServerByeAnywhere(s: Session, chunks: seq<string>, before: string, after: string)
    requires s.requestData + Received(chunks) == before + "/BYE" + after
    requires !Frame(before + "/BYE" + after).Complete?
    ensures OnServerRead(s, chunks) ==
            Outcome(s.(requestData := ""), [PeerDisconnected(ServerPeerId)])
  {
    var data := before + "/BYE" + after;
    assert data == before + ("/BYE" + after);
    OccursShift(before, "/BYE" + after, "/BYE", 0);
    assert ("/BYE" + after)[0..4] == "/BYE";
    FindFrom(data, "/BYE", 0);
    FindAtLeast(data, "/BYE", 0, 0);
    assert Find(data, "/BYE", 0).Some?;
  }

  /** The reply the server role sends is framed and decoded back, by the
      listener's own framer, into a complete unit with status 200 whose body
      is the message. */
  lemma {:induction false} SendToPeerRoundTrip(message: string)
    requires |message| <= 0x7fff_ffff
    ensures var answer := SendToPeer(ServerPeerId, message).0.value;
            var eoh := |answer| - |message| - 4;
            && Frame(answer) == Complete(eoh, |message|, false)
            && DecodeResponse(answer) == Ok(-1, eoh)
            && answer[eoh + 4..] == message
  {
    ReplyRoundTrip(message);
    var eoh := |HeaderBlock(ReplyLines(|message|))| - 4;
    ReplyText(message);
  }
}
