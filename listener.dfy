/**
  The listener as the object it is: its fields are the session and its
  handlers update them in place. Every method is proved to leave the object
  in the state, and to raise the callbacks, that the handler of the same
  name in Signaling prescribes, so all that is proved there holds of the
  object too. The two loops of the listener (reading until the socket has
  nothing more, seeding the roster line by line) are loops here as well.
 */
module Listener {
  import opened Text
  import opened Observer
  import opened Framing
  import opened Roster
  import opened Signaling

  class PeerConnectionListener {
    var state: State
    var myId: int
    var peers: map<int, string>
    var onconnectData: string
    var controlData: string
    var notificationData: string
    var requestData: string
    var controlOpen: bool
    var hangingOpen: bool
    var retryScheduled: bool

    /** The session the fields hold. */
    function Model(): Session
      reads this
    {
      Session(state, myId, peers, onconnectData, controlData, notificationData,
              requestData, controlOpen, hangingOpen, retryScheduled)
    }

    constructor ()
      ensures Model() == Initial()
    {
      state := NotConnected;
      myId := -1;
      peers := map[];
      onconnectData := "";
      controlData := "";
      notificationData := "";
      requestData := "";
      controlOpen := false;
      hangingOpen := false;
      retryScheduled := false;
    }

    /** is_connected(). */
    function IsConnected(): (b: bool)
      reads this
      ensures b <==> Signaling.IsConnected(Model())
    {
      myId != -1
    }

    /** IsSendingMessage(). */
    function IsSendingMessage(): (b: bool)
      reads this
      ensures b == Signaling.IsSendingMessage(Model())
    {
      state == Connected && controlOpen
    }

    method Close()
      modifies this
      ensures Model() == Signaling.Close(old(Model()))
    {
      controlOpen := false;
      hangingOpen := false;
      onconnectData := "";
      peers := map[];
      myId := -1;
      state := NotConnected;
    }

    /** ConnectControlSocket; `connected` is the outcome of the connect. */
    method ConnectControlSocket(connected: bool) returns (ok: bool)
      requires !controlOpen
      modifies this
      ensures (Model(), ok) == Signaling.ConnectControlSocket(old(Model()), connected)
    {
      if !connected {
        Close();
        return false;
      }
      controlOpen := true;
      return true;
    }

    /** SignOut; `connected` is the outcome of a connect it may make. */
    method SignOut(connected: bool) returns (ok: bool)
      modifies this
      ensures (Model(), ok) == Signaling.SignOut(old(Model()), connected)
    {
      if state == NotConnected || state == SigningOut {
        return true;
      }
      hangingOpen := false;
      if !controlOpen {
        state := SigningOut;
        if myId != -1 {
          onconnectData := SignOutRequest(myId);
          ok := ConnectControlSocket(connected);
          return;
        }
        return true;
      }
      state := SigningOutWaiting;
      return true;
    }

    method OnClose(socket: Socket, err: int) returns (events: seq<Event>)
      modifies this
      ensures Outcome(Model(), events) == Signaling.OnClose(old(Model()), socket, err)
    {
      match socket {
        case Control => controlOpen := false;
        case HangingGet => hangingOpen := false;
        case Accepted =>
      }
      events := [];
      if err != ConnectionRefused {
        if socket == HangingGet {
          if state == Connected {
            hangingOpen := true;
          }
        } else {
          events := [MessageSent(err)];
        }
      } else if socket == Control {
        retryScheduled := true;
      } else {
        Close();
        events := [Disconnected];
      }
    }

    method SetBuffer(socket: Socket, data: string)
      modifies this
      ensures Model() == WithBuffer(old(Model()), socket, data)
    {
      match socket
      case Control => controlData := data;
      case HangingGet => notificationData := data;
      case Accepted => requestData := data;
    }

    /** ReadIntoBuffer: reads are appended to the socket's buffer until one
        returns nothing; then the buffer is framed, and a complete unit that
        asks for Connection: close closes the socket as OnClose with error 0. */
    method ReadIntoBuffer(socket: Socket, chunks: seq<string>) returns (verdict: Verdict, events: seq<Event>)
      modifies this
      ensures Framed(Model(), verdict, events) == Signaling.ReadIntoBuffer(old(Model()), socket, chunks)
    {
      var data := Buffer(Model(), socket);
      ghost var target := data + Received(chunks);
      var k := 0;
      while k < |chunks| && chunks[k] != []
        invariant k <= |chunks|
        invariant data + Received(chunks[k..]) == target
        modifies {}
      {
        ReceivedAt(chunks, k);
        Assoc(data, chunks[k], Received(chunks[k + 1..]));
        data := data + chunks[k];
        k := k + 1;
      }
      ReceivedStops(chunks, k);
      assert data == Buffer(old(Model()), socket) + Received(chunks);
      SetBuffer(socket, data);
      assert Model() == WithBuffer(old(Model()), socket, Buffer(old(Model()), socket) + Received(chunks));
      verdict, events := Settle(socket);
      assert Framed(Model(), verdict, events) == Signaling.Settle(WithBuffer(old(Model()), socket, Buffer(old(Model()), socket) + Received(chunks)), socket);
    }

    /** The framing of a socket's buffer, and the close it may ask for. */
    method Settle(socket: Socket) returns (verdict: Verdict, events: seq<Event>)
      modifies this
      ensures Framed(Model(), verdict, events) == Signaling.Settle(old(Model()), socket)
    {
      verdict := Frame(Buffer(Model(), socket));
      events := [];
      if verdict.Complete? && verdict.close {
        events := OnClose(socket, 0);
      }
    }

    /** OnRead: a complete control response is acted on and the buffer
        cleared; a sign-in in progress then completes and the hanging get
        is opened. */
    method OnRead(chunks: seq<string>, connected: bool) returns (events: seq<Event>)
      modifies this
      ensures Outcome(Model(), events) == Signaling.OnRead(old(Model()), chunks, connected)
    {
      var verdict;
      verdict, events := ReadIntoBuffer(Control, chunks);
      if verdict.Complete? {
        var raised := OnControlResponse(verdict.contentLength, connected);
        events := events + raised;
        controlData := "";
        if state == SigningIn {
          state := Connected;
          hangingOpen := true;
        }
      }
    }

    /** ParseServerResponse on the control buffer and what OnRead does with
        its answer. */
    method OnControlResponse(contentLength: int, connected: bool) returns (events: seq<Event>)
      modifies this
      ensures Outcome(Model(), events) ==
              Signaling.OnControlResponse(old(Model()), old(Model()).controlData, contentLength, connected)
    {
      var r := DecodeResponse(controlData);
      events := [];
      match r
      case Rejected(_) =>
        Close();
        events := [Disconnected];
      case Unterminated =>
      case Ok(peerId, eoh) =>
        events := OnGoodControlResponse(peerId, eoh, contentLength, connected);
    }

    /** A control response with status 200: sign in, finish signing out, or
        go ahead with a sign-out that waited for the control socket. */
    method OnGoodControlResponse(peerId: int, eoh: nat, contentLength: int, connected: bool) returns (events: seq<Event>)
      requires DecodeResponse(controlData) == Ok(peerId, eoh)
      modifies this
      ensures Outcome(Model(), events) ==
              Signaling.OnControlResponse(old(Model()), old(Model()).controlData, contentLength, connected)
    {
      events := [];
      if myId == -1 {
        myId := peerId;
        if contentLength % SizeModulus != 0 {
          ResponseBody(controlData, peerId, eoh);
          events := SeedRoster(eoh + 4);
        }
        events := events + [SignedIn];
      } else if state == SigningOut {
        Close();
        events := [Disconnected];
      } else if state == SigningOutWaiting {
        var ignored := SignOut(connected);
      }
    }

    /** The sign-in loop: from `from` on, each line the control buffer ends
        with a newline is parsed, and an entry about another peer inserted
        and announced; a last line without a newline is not looked at. */
    method SeedRoster(from: nat) returns (events: seq<Event>)
      requires from <= |controlData|
      modifies this
      ensures Model() == old(Model()).(peers := peers)
      ensures Seeding(peers, events) == Seed(Lines(controlData[from..]), myId, Seeding(old(peers), []))
    {
      var roster;
      roster, events := SeedLines(controlData, from, myId, peers);
      peers := roster;
    }

    /** OnHangingGetRead: a complete notification is acted on and the buffer
        cleared; the hanging get is reopened whenever it is closed while
        connected. */
    method OnHangingGetRead(chunks: seq<string>) returns (events: seq<Event>)
      modifies this
      ensures Outcome(Model(), events) == Signaling.OnHangingGetRead(old(Model()), chunks)
    {
      var verdict;
      verdict, events := ReadIntoBuffer(HangingGet, chunks);
      if verdict.Complete? {
        var raised := OnNotification();
        events := events + raised;
        notificationData := "";
      }
      if !hangingOpen && state == Connected {
        hangingOpen := true;
      }
    }

    /** ParseServerResponse on the hanging-get buffer and what
        OnHangingGetRead does with its answer: a notification about the
        roster when the Pragma id is the listener's own, a relayed message
        otherwise. */
    method OnNotification() returns (events: seq<Event>)
      modifies this
      ensures Outcome(Model(), events) == Signaling.OnNotification(old(Model()), old(Model()).notificationData)
    {
      var r := DecodeResponse(notificationData);
      events := [];
      match r
      case Rejected(_) =>
        Close();
        events := [Disconnected];
      case Unterminated =>
      case Ok(peerId, eoh) =>
        ResponseBody(notificationData, peerId, eoh);
        NotificationOk(Model(), notificationData, peerId, eoh,
                       Notify(myId, peerId, notificationData[eoh + 4..], peers));
        events := OnNotificationBody(peerId, notificationData[eoh + 4..]);
    }

    /** The body of a good notification: about the roster when the Pragma
        id is the listener's own, a message from another peer otherwise. */
    method OnNotificationBody(peerId: int, body: string) returns (events: seq<Event>)
      modifies this
      ensures Model() == old(Model()).(peers := Notify(old(myId), peerId, body, old(peers)).peers)
      ensures events == Notify(old(myId), peerId, body, old(peers)).events
    {
      events := [];
      if myId == peerId {
        match ParseEntry(body) {
          case None =>
          case Some(entry) =>
            if entry.connected {
              peers := peers[entry.id := entry.name];
              events := [PeerConnected(entry.id, entry.name)];
            } else {
              peers := peers - {entry.id};
              events := [PeerDisconnected(entry.id)];
            }
        }
      } else {
        events := [Relay(peerId, body)];
      }
    }

    /** OnServerRead on the accepted socket: a complete request goes to
        GetRequest; an incomplete one mentioning "/BYE" is a hang-up. */
    method OnServerRead(chunks: seq<string>) returns (events: seq<Event>)
      modifies this
      ensures Outcome(Model(), events) == Signaling.OnServerRead(old(Model()), chunks)
    {
      var verdict;
      verdict, events := ReadIntoBuffer(Accepted, chunks);
      if verdict.Complete? {
        match DecodeRequest(requestData) {
          case None =>
          case Some(e) => events := events + [e];
        }
        requestData := "";
      } else if Find(requestData, "/BYE", 0).Some? {
        events := [PeerDisconnected(ServerPeerId)];
        requestData := "";
      }
    }

    /** SendToPeer: the text written to the accepted socket, if any, and
        the result, which is always true. */
    method SendToPeer(peerId: int, message: string) returns (written: Option<string>, ok: bool)
      ensures (written, ok) == Signaling.SendToPeer(peerId, message)
    {
      written := None;
      if peerId == ServerPeerId {
        written := Some(Reply(message));
      }
      ok := true;
    }

    /** SendHangUp: SendToPeer with the hang-up payload. */
    method SendHangUp(peerId: int) returns (written: Option<string>, ok: bool)
      ensures (written, ok) == Signaling.SendToPeer(peerId, ByeMessage)
    {
      written, ok := SendToPeer(peerId, ByeMessage);
    }
  }

  /** The sign-in loop proper, on the control buffer `data`: `pos` walks
      from line to line while it is inside the buffer, and stops early when
      no newline is left. */
  method SeedLines(data: string, from: nat, myId: int, peers: map<int, string>)
      returns (roster: map<int, string>, events: seq<Event>)
    requires from <= |data|
    ensures Seeding(roster, events) == Seed(Lines(data[from..]), myId, Seeding(peers, []))
  {
    roster, events := peers, [];
    ghost var goal := Seed(Lines(data[from..]), myId, Seeding(peers, []));
    var pos := from;
    while pos < |data|
      invariant from <= pos <= |data|
      invariant Seed(Lines(data[pos..]), myId, Seeding(roster, events)) == goal
      decreases |data| - pos
    {
      var found, eol := NextLine(data, pos);
      if !found {
        break;
      }
      SeedStep(data, pos, eol, myId, Seeding(roster, events));
      roster, events := AdmitLine(data[pos..eol], myId, roster, events);
      pos := eol + 1;
    }
    if pos == |data| {
      LinesNone(data, pos);
    }
  }

  /** find('\n', pos): where the line from `pos` ends, if it does. */
  method NextLine(data: string, pos: nat) returns (found: bool, eol: nat)
    requires pos <= |data|
    ensures found ==> Find(data, "\n", pos) == Some(eol)
    ensures !found ==> Lines(data[pos..]) == []
  {
    var r := Find(data, "\n", pos);
    found, eol := r.Some?, if r.Some? then r.value else 0;
    if !found {
      LinesNone(data, pos);
    }
  }

  /** One pass of the sign-in loop: an entry that parses and is not about
      the peer itself is inserted and announced. */
  method AdmitLine(line: string, myId: int, roster: map<int, string>, events: seq<Event>)
      returns (roster': map<int, string>, events': seq<Event>)
    ensures Seeding(roster', events') == Admit(Seeding(roster, events), line, myId)
  {
    roster', events' := roster, events;
    match ParseEntry(line) {
      case None =>
      case Some(entry) =>
        if entry.id != myId {
          roster' := roster[entry.id := entry.name];
          events' := events + [PeerConnected(entry.id, entry.name)];
        }
    }
  }

  // ---------------------------------------------------------------------
  // Steps of the two loops
  // ---------------------------------------------------------------------

  lemma {:induction false} ReceivedAt(chunks: seq<string>, k: nat)
    requires k < |chunks| && chunks[k] != []
    ensures Received(chunks[k..]) == chunks[k] + Received(chunks[k + 1..])
  {
    assert chunks[k..][1..] == chunks[k + 1..];
  }

  lemma {:induction false} ReceivedStops(chunks: seq<string>, k: nat)
    requires k <= |chunks| && (k == |chunks| || chunks[k] == [])
    ensures Received(chunks[k..]) == []
  {
  }

  /** The line from `pos` to the next newline comes first among the lines
      from `pos` on. */
  lemma {:induction false} LinesAt(data: string, pos: nat, eol: nat)
    requires pos <= |data| && Find(data, "\n", pos) == Some(eol)
    ensures pos <= eol < |data|
    ensures Lines(data[pos..]) == [data[pos..eol]] + Lines(data[eol + 1..])
  {
    FindInSuffix(data, "\n", pos, eol);
    LinesStep(data[pos..], eol - pos);
    assert data[pos..][..eol - pos] == data[pos..eol];
    assert data[pos..][eol - pos + 1..] == data[eol + 1..];
  }

  /** No newline from `pos` on: no more lines. */
  lemma {:induction false} LinesNone(data: string, pos: nat)
    requires pos <= |data| && (pos == |data| || Find(data, "\n", pos) == None)
    ensures Lines(data[pos..]) == []
  {
    if pos == |data| {
      assert Find(data[pos..], "\n", 0) == None;
    } else {
      FindNoneInSuffix(data, "\n", pos);
    }
  }

  /** The sign-in loop over the lines from `pos` on admits the line up to
      the next newline, then goes on after it. */
  lemma {:induction false} SeedStep(data: string, pos: nat, eol: nat, myId: int, acc: Seeding)
    requires pos <= |data| && Find(data, "\n", pos) == Some(eol)
    ensures pos <= eol < |data|
    ensures Seed(Lines(data[pos..]), myId, acc) ==
            Seed(Lines(data[eol + 1..]), myId, Admit(acc, data[pos..eol], myId))
  {
    LinesAt(data, pos, eol);
    SeedCons(data[pos..eol], Lines(data[eol + 1..]), myId, acc);
  }

  lemma {:induction false} SeedCons(line: string, rest: seq<string>, myId: int, acc: Seeding)
    ensures Seed([line] + rest, myId, acc) == Seed(rest, myId, Admit(acc, line, myId))
  {
    assert ([line] + rest)[1..] == rest;
  }
}
