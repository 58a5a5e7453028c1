# rtc_gw signalling transport, modelled in Dafny

rtc_gw is a WebRTC gateway. Its `PeerConnectionListener` talks to a
signalling server over plain HTTP/1.x. It also plays the server role for
one peer whose id is fixed at 7. Its `Conductor` sits on top of the
listener. This project models three parts of that code:

- **The byte-stream framer and header codec.** This covers
  `ReadIntoBuffer`, both `GetHeaderValue` overloads, `GetResponseStatus`,
  `ParseServerResponse`, `ParseEntry` and `GetRequest`. It includes the
  reply that `SendToPeer` writes and the sign-out request.
  - The framer accumulates bytes until a header block ended by CRLF CRLF
    is present, carrying a `Content-Length` header, and the body is
    complete. This follows sections 3 and 3.3.2 of RFC 7230, with the
    simplifications of the original code.
- **The listener's session state machine and its roster of peers.** This
  covers `SignOut`, `Close`, `ConnectControlSocket`, `IsSendingMessage`,
  `OnRead`, `OnHangingGetRead`, `OnServerRead`, `OnClose`,
  `OnMessageFromPeer` and `SendToPeer`.
- **The conductor's outbound queue and its binding to one peer.** This
  covers `QueueMessage`, `SendMessage`, `DisconnectFromServer`,
  `DeletePeerConnection`, `OnPeerDisconnected`, the binding prelude of
  `OnMessageFromPeer`, `ConnectToPeer` and `DisconnectFromCurrentPeer`.

The modules:

- `Text` holds the C and C++ string primitives the code relies on:
  - `std::string::find`, with `npos` as `None`;
  - `substr`;
  - `atoi`: skip white space, an optional sign, then the leading decimal
    digits;
  - `%i` rendering;
  - the truncation at the first NUL that a `c_str()` round trip performs.
- `Observer` holds the callbacks the listener raises, as values, and the
  listener's `OnMessageFromPeer` as the function `Relay`.
- `Framing` holds the framer, the header lookups, the response and request
  decoders, and the reply and sign-out request writers. Its lemmas
  describe header blocks and prove the reply round trip.
- `Roster` holds `ParseEntry`, the line splitting of the sign-in body, the
  seeding of the roster, and the update a notification makes.
- `Signaling` holds the whole listener state as a value (`Session`). It
  has one function per handler, returning the new session and the
  callbacks raised, in order. It also holds the state machine (`Step`,
  `Run`) and the lemmas about it.
- `Listener` holds the class `PeerConnectionListener`. It keeps the
  listener's fields and implements each handler imperatively:
  - the receive loop and the roster loop are `while` loops;
  - each method is proved equal to its `Signaling` function.
- `Conductor` holds the queue and the binding as values (`Dispatch`,
  `Replay`, `Bind`, `Converse`) with their lemmas. Its class `Conductor`
  has the fields `peer_id_`, `pending_messages_` and "has a peer
  connection", and the methods that update them.

Sockets are reduced to "closed / not closed" flags. A read is the
sequence of chunks `Recv` returns; the first empty chunk ends the read.
The outcome of a connect, and whether `InitializePeerConnection`
succeeds, are parameters.

The callbacks a listener handler raises are returned as a sequence and
delivered afterwards through `Conductor.Conductor.Deliver`. Only one
callback reaches back into the listener: the conductor's
`OnMessageFromPeer`, which calls `SignOut` when it cannot create a peer
connection. In `OnHangingGetRead` the code makes that call before the
handler clears `notification_data_` and decides whether to reconnect the
hanging get. The model signs out after the handler instead. So the
deferred order first reopens a hanging get that the code never
reconnects, and then closes it again. The final state is the same:
`SignOut` closes the hanging get and never ends in CONNECTED, so the code
skips the reconnect, and `SignOut` leaves `notification_data_` alone
(`Signaling.SignOutDeferred`). The other relaying handler, `GetRequest`
in `OnServerRead`, touches only `request_data_` after the call, and
`SignOut` does not.

## Model

| member | source | states |
|---|---|---|
| Text.Find | peer_connection_listener.cc:269 | `find(pat, from)` is the first index at or after `from` where `pat` occurs; `None` (npos) means no occurrence at or after `from` |
| Text.Substr | peer_connection_listener.cc:287 | `substr(pos, n)` is a prefix of the suffix at `pos`, of length `n` or running to the end of the string |
| Text.AtoiDecimal | peer_connection_listener.cc:271 | `atoi` reads back what `%i` wrote, for every integer, when no digit follows |
| Text.Atoi | peer_connection_listener.cc:271 | `atoi` gives a negative number only when the first character after the leading white space is '-' |
| Text.DecimalPlain | peer_connection_listener.cc:91 | a `%i` rendering holds no CR, LF, comma, NUL, space or '/', so it cannot break a header or a roster line |
| Text.UntilNul | peer_connection_listener.cc:483 | the string rebuilt from `c_str()` is the longest NUL-free prefix |
| Text.UntilNulAppend | peer_connection_listener.cc:483 | a NUL-free prefix survives the `c_str()` round trip |
| Observer.Relay | peer_connection_listener.cc:254-262 | a payload of exactly "BYE" becomes `OnPeerDisconnected` of its sender and never `OnMessageFromPeer`; anything else is delivered unchanged as a message from that sender |
| Framing.HeaderNumberFirst | peer_connection_listener.cc:264-275 | the number overload uses only the first occurrence of the pattern; it yields `atoi` of what follows that occurrence iff it starts before `eoh` |
| Framing.HeaderNumberAbsent | peer_connection_listener.cc:264-291 | with no occurrence starting before `eoh`, both overloads report the header absent |
| Framing.HeaderTextToLineEnd | peer_connection_listener.cc:277-291 | the string overload's value runs from the end of the pattern to the next CRLF |
| Framing.HeaderTextFound | peer_connection_listener.cc:277-291 | when the pattern is first found before `eoh` and a CRLF follows it, the string overload's value is the text between them |
| Framing.HeaderNumber | peer_connection_listener.cc:264-275 | a value is reported only when the pattern occurs first at a position before `eoh`; with no occurrence before `eoh` the header is absent |
| Framing.HeaderText | peer_connection_listener.cc:277-291 | a value is reported only when the pattern occurs first at a position before `eoh`; with no occurrence before `eoh` the header is absent |
| Framing.IntCast | peer_connection_listener.cc:94 | the `(int)` cast of a length: a 32-bit value, equal to the length below 2^31, and congruent to it modulo 2^32 |
| Framing.ConnectionClose | peer_connection_listener.cc:312-316 | the unit asks for a close iff its first `Connection:` header, before the end of the headers, reads exactly "close" |
| Framing.Frame | peer_connection_listener.cc:304-329 | the verdict: the header end is the first CRLF CRLF; a complete unit is at least (eoh+4+Content-Length) mod 2^64 long; a partial one is shorter |
| Framing.FrameComplete | peer_connection_listener.cc:304-311 | `ReadIntoBuffer` reports a complete unit iff the first `Content-Length` header starts before the first CRLF CRLF and the buffer reaches eoh+4 plus its value; the value is `atoi` of the header |
| Framing.FrameWithoutHeaderEnd | peer_connection_listener.cc:305-306 | without CRLF CRLF nothing is framed |
| Framing.FrameWithoutLength | peer_connection_listener.cc:304-328 | without a `Content-Length` header before the header end, the unit never completes |
| Framing.TotalSizeExact | peer_connection_listener.cc:309 | the `size_t` sum is exact whenever it is below 2^64 |
| Framing.ReceivedAppend | peer_connection_listener.cc:297-302 | bytes received in two reads append as they would in one |
| Framing.ReceivedNothing | peer_connection_listener.cc:297-302 | the loop appends nothing iff the first `Recv` returns no bytes |
| Framing.ReceivedUntilEmpty | peer_connection_listener.cc:297-302 | a read of zero bytes ends the loop: no chunk after it is appended |
| Framing.StatusOfLine | peer_connection_listener.cc:448-454 | `GetResponseStatus` of "<protocol> <code><rest>" is `code` |
| Framing.StatusWithoutSpace | peer_connection_listener.cc:449-451 | a response without a space has status -1 |
| Framing.ResponseStatus | peer_connection_listener.cc:448-454 | a status other than -1 is read only from a response that holds a space |
| Framing.DecodeResponse | peer_connection_listener.cc:479-503 | a rejection carries the status of the NUL-truncated text, which is not 200; a good response has status 200, its header end is the first CRLF CRLF, and its body starts inside the data; a status other than 200 is always rejected, and status 200 with a CRLF CRLF is always accepted |
| Framing.DecodeResponsePragma | peer_connection_listener.cc:496-500 | an accepted response whose first `\r\nPragma: ` is at `j` carries `atoi` of what follows it as peer id when `j` is before the header end, and -1 otherwise |
| Framing.DecodeResponseNoPragma | peer_connection_listener.cc:496-500 | an accepted response with no `\r\nPragma: ` before the header end carries peer id -1 |
| Framing.DecodeRequest | peer_connection_listener.cc:456-477 | a recognised request relays to peer 7 and has a header end; a request is recognised only when "OFFER" follows its first '/' |
| Framing.OfferRecognised | peer_connection_listener.cc:456-477 | a request whose first '/' starts "/OFFER" relays its body, after the header block, to peer 7 |
| Framing.DecodeRequestAt | peer_connection_listener.cc:458-475 | "OFFER" after the first '/' and a header end at `eoh`: the relayed body is everything after eoh+4 |
| Framing.EndOfHeaders | peer_connection_listener.cc:305 | in a block of non-empty, CR-free header lines followed by any body, the first CRLF CRLF is the block's blank line |
| Framing.FindHeaderLine | peer_connection_listener.cc:269 | searching a header block for CRLF+q finds the end of the first line before the first later line that starts with q, and nothing inside the block when no later line does |
| Framing.AbsentHeader | peer_connection_listener.cc:264-291 | a header that no line of the block starts with is reported absent by both overloads |
| Framing.ReplyContentLength | peer_connection_listener.cc:87-94 | the reply's `Content-Length` header reads back the `(int)` cast of the message length |
| Framing.Reply | peer_connection_listener.cc:84-103 | the reply ends with the message, after the headers |
| Framing.ReplyStatus | peer_connection_listener.cc:88 | the reply's status reads 200, also after the `c_str()` truncation |
| Framing.ReplyRoundTrip | peer_connection_listener.cc:84-103 | framing the reply gives a complete unit with no close request; decoding it gives status 200 and peer id -1 (no Pragma); the body is the message |
| Framing.SignOutRequestFramed | peer_connection_listener.cc:126-127 | the sign-out request is exactly one header block |
| Framing.SignOutRequest | peer_connection_listener.cc:126-127 | the request starts "GET /sign_out?peer_id=" and ends with CRLF CRLF |
| Framing.SignOutRequestCarriesId | peer_connection_listener.cc:126-127 | the id after "GET /sign_out?peer_id=" reads back as `my_id_` |
| Roster.ParseEntry | peer_connection_listener.cc:426-446 | an accepted entry's name is non-empty, comma-free and is the text before the first comma |
| Roster.ParseEntryNoComma | peer_connection_listener.cc:436-445 | a line without a comma is rejected |
| Roster.ParseEntryNoName | peer_connection_listener.cc:436-445 | a line starting with a comma (empty name) is rejected |
| Roster.ParseEntryTwoFields | peer_connection_listener.cc:435-445 | "name,field": id is `atoi(field)`, not connected |
| Roster.ParseEntryThreeFields | peer_connection_listener.cc:435-445 | "name,field,flag": id is `atoi` after the first comma; connected iff `atoi(flag)` is non-zero |
| Roster.ParseEntryText | peer_connection_listener.cc:426-446 | every entry the server writes (non-empty, comma-free name) parses back to itself |
| Roster.LinesHaveNoNewline | peer_connection_listener.cc:347-361 | the body lines the roster loop visits hold no '\n' |
| Roster.LinesEmpty | peer_connection_listener.cc:347-361 | the roster loop visits no line iff the body holds no '\n' |
| Roster.LinesCover | peer_connection_listener.cc:347-361 | the lines, each with its '\n', are a prefix of the body; what is left (an unterminated last line) holds no '\n' and is ignored |
| Roster.LinesOfTerminated | peer_connection_listener.cc:347-361 | splitting '\n'-terminated lines and an unterminated tail gives back exactly those lines |
| Roster.Seed | peer_connection_listener.cc:347-361 | the own id never enters a roster that lacked it; seeding only adds ids and only appends callbacks |
| Roster.SeedAnnounces | peer_connection_listener.cc:355-358 | every callback raised while seeding is `OnPeerConnected` of a peer other than the own id that ends up in the roster |
| Roster.SeedAdmits | peer_connection_listener.cc:355-357 | every line that parses with an id other than the own id puts that id in the roster |
| Roster.SeedLastWins | peer_connection_listener.cc:357 | the name an id ends with is the one on the last line that admits it |
| Roster.SeedUntouched | peer_connection_listener.cc:355-357 | an id no line admits keeps its presence and its name |
| Roster.SeedOnlyAdmitted | peer_connection_listener.cc:355-357 | an id enters the roster only through a line that admits it |
| Roster.Notify | peer_connection_listener.cc:395-414 | a notification about the own id inserts the parsed entry (if connected) or erases it, and raises the matching callback; every other id keeps its name; an unparsable entry changes nothing; a notification from another id only relays the body |
| Signaling.Initial | peer_connection_listener.cc:39-44 | the listener starts not connected, with id -1, an empty roster and both sockets closed |
| Signaling.IsSendingMessage | peer_connection_listener.cc:109-112 | busy iff connected with the control socket not closed |
| Signaling.Close | peer_connection_listener.cc:141-152 | not connected, id -1, roster and queued request empty, both sockets closed; the receive buffers are untouched |
| Signaling.CloseIdempotent | peer_connection_listener.cc:141-152 | closing twice is closing once |
| Signaling.ConnectControlSocket | peer_connection_listener.cc:154-162 | a refused connect closes the listener and returns false; otherwise the control socket opens |
| Signaling.SignOut | peer_connection_listener.cc:114-139 | no change in NOT_CONNECTED or SIGNING_OUT; otherwise the hanging get closes, then SIGNING_OUT_WAITING with the control socket open; SIGNING_OUT with it closed, queuing the sign-out request and connecting when the id is known |
| Signaling.OnClose | peer_connection_listener.cc:505-533 | a refused control connection schedules a retry; a refused hanging get closes the listener and raises `OnDisconnected`; any other error reopens the hanging get when connected, or reports `OnMessageSent(err)` for other sockets |
| Signaling.ReadIntoBuffer | peer_connection_listener.cc:293-330 | the buffer grows by the bytes read; the verdict is `Frame` of the grown buffer; only a complete unit asking for a close changes more than the buffer; state, id and roster are untouched |
| Signaling.ReadIntoBufferSplit | peer_connection_listener.cc:293-330 | while no unit is complete, two reads have the same effect as one read of all their bytes |
| Signaling.Settle | peer_connection_listener.cc:304-320 | the verdict is `Frame` of the buffer; the buffer, state, id and roster stay; only a complete unit asking for a close changes the session or raises a callback; on the hanging get it raises none |
| Signaling.OnControlResponse | peer_connection_listener.cc:334-370 | a rejected status closes and raises `OnDisconnected`; the first good response adopts the Pragma id, seeds the roster from the body when Content-Length is non-zero (never with the own id) and ends with `OnSignedIn`; in SIGNING_OUT a good response closes and raises `OnDisconnected`; in SIGNING_OUT_WAITING it goes ahead with `SignOut` and raises nothing; in any other state a good response to a listener with an id changes nothing; at sign-in the callbacks are exactly the seeding's `OnPeerConnected` events (none when Content-Length is zero) followed by `OnSignedIn` |
| Signaling.ControlResponseMoves | peer_connection_listener.cc:334-370 | a control response never enters SIGNING_IN and never leaves NOT_CONNECTED |
| Signaling.OnRead | peer_connection_listener.cc:332-381 | without a complete unit only the buffer grows; with one the buffer is cleared afterwards |
| Signaling.OnReadSplit | peer_connection_listener.cc:332-381 | an incomplete read raises nothing, and reads split anywhere before completion act as one |
| Signaling.OnReadRejected | peer_connection_listener.cc:483-489 | a non-200 control response leaves the listener not connected, with id -1 and an empty roster, and raises `OnDisconnected` last |
| Signaling.OnReadSignsIn | peer_connection_listener.cc:339-379 | the first good response adopts the Pragma id, never lists it as a peer, raises `OnSignedIn`, and from SIGNING_IN moves to CONNECTED with the hanging get opened |
| Signaling.OnReadSeedsRoster | peer_connection_listener.cc:346-361 | the roster after sign-in is the body's lines seeded into the old roster when Content-Length is non-zero, and unchanged when it is zero |
| Signaling.OnReadSignsOut | peer_connection_listener.cc:365-367 | in SIGNING_OUT a good response leaves the listener not connected with an empty roster and raises `OnDisconnected` |
| Signaling.OnNotification | peer_connection_listener.cc:386-414 | a rejected notification closes the listener; otherwise only the roster may change; a notification from another id relays its body and changes nothing |
| Signaling.OnHangingGetRead | peer_connection_listener.cc:383-424 | after a hanging-get read the hanging get is open whenever the listener is connected |
| Signaling.OnHangingGetReadRejected | peer_connection_listener.cc:483-489 | a non-200 notification leaves the listener not connected, with id -1 and an empty roster, and raises `OnDisconnected` last |
| Signaling.SignOutDeferred | peer_connection_listener.cc:412-423 | a `SignOut` in the middle of the hanging-get handler, as the code makes it, and one after the handler, as the model makes it, end in the same session and result; after it the listener is not CONNECTED, so the code skips the reconnect |
| Signaling.HangingGetBye | peer_connection_listener.cc:391-414 | a "BYE" body from another id raises only `OnPeerDisconnected` of that id and leaves the roster alone |
| Signaling.HangingGetNotifies | peer_connection_listener.cc:395-410 | a complete notification from the own id changes the roster and raises callbacks exactly as `Roster.Notify` of its body |
| Signaling.NotificationOk | peer_connection_listener.cc:391-414 | an accepted notification changes only the roster, as `Roster.Notify` of the body after eoh+4 says |
| Signaling.OnServerRead | peer_connection_listener.cc:206-236 | the server role never changes the state, the id or the roster |
| Signaling.OnServerReadComplete | peer_connection_listener.cc:219-224 | a complete request clears the request buffer and raises what `DecodeRequest` finds, after an `OnMessageSent(0)` when the unit asks for a close |
| Signaling.OnServerReadIncomplete | peer_connection_listener.cc:225-233 | an incomplete request raises `OnPeerDisconnected(7)` and clears the buffer iff the buffered bytes hold "/BYE"; otherwise it only keeps the bytes |
| Signaling.ServerByeAnywhere | peer_connection_listener.cc:225-232 | with no complete unit, "/BYE" anywhere in the request bytes raises `OnPeerDisconnected(7)` and clears the buffer |
| Signaling.SendToPeer | peer_connection_listener.cc:84-103 | always reports success; writes a reply only for peer 7, and that reply is `Reply(message)`, whose Content-Length is the `(int)` cast of the length |
| Signaling.SendToPeerRoundTrip | peer_connection_listener.cc:84-103 | the bytes written for peer 7 frame as one complete unit whose body is the message |
| Signaling.Step | peer_connection_listener.cc:114-533 | every handler makes only the moves `Moves` allows and never leaves NOT_CONNECTED; a close signal on the accepted socket, which goes to the logging-only `OnServerClose` (peer_connection_listener.cc:176 and 198-200), changes nothing and raises nothing |
| Signaling.RunNeverSignsIn | peer_connection_listener.cc:114-533 | no sequence of inputs enters SIGNING_IN or CONNECTED from any other state |
| Signaling.RunFromNotConnected | peer_connection_listener.cc:109-112 | from NOT_CONNECTED the listener stays there and is never busy sending |
| Listener.PeerConnectionListener.constructor | peer_connection_listener.cc:39-44 | the fields hold the initial session |
| Listener.PeerConnectionListener.IsConnected | peer_connection_listener.cc:70-72 | connected iff an id is held |
| Listener.PeerConnectionListener.IsSendingMessage | peer_connection_listener.cc:109-112 | as `Signaling.IsSendingMessage` of the fields |
| Listener.PeerConnectionListener.Close | peer_connection_listener.cc:141-152 | the fields become `Signaling.Close` of the old fields |
| Listener.PeerConnectionListener.ConnectControlSocket | peer_connection_listener.cc:154-162 | fields and result as `Signaling.ConnectControlSocket` |
| Listener.PeerConnectionListener.SignOut | peer_connection_listener.cc:114-139 | fields and result as `Signaling.SignOut` |
| Listener.PeerConnectionListener.OnClose | peer_connection_listener.cc:505-533 | fields and callbacks as `Signaling.OnClose` |
| Listener.PeerConnectionListener.ReadIntoBuffer | peer_connection_listener.cc:293-330 | the receive loop appends every chunk up to the first empty one; fields, verdict and callbacks as `Signaling.ReadIntoBuffer` |
| Listener.PeerConnectionListener.OnRead | peer_connection_listener.cc:332-381 | fields and callbacks as `Signaling.OnRead` |
| Listener.PeerConnectionListener.OnControlResponse | peer_connection_listener.cc:336-370 | fields and callbacks as `Signaling.OnControlResponse` on the control buffer |
| Listener.PeerConnectionListener.OnGoodControlResponse | peer_connection_listener.cc:339-370 | fields and callbacks as `Signaling.OnControlResponse` for a response with status 200 |
| Listener.PeerConnectionListener.SeedRoster | peer_connection_listener.cc:346-361 | only the roster changes, to `Roster.Seed` of the body's lines |
| Listener.SeedLines | peer_connection_listener.cc:347-361 | the roster loop over body lines computes `Roster.Seed` of the lines from `pos` |
| Listener.PeerConnectionListener.OnHangingGetRead | peer_connection_listener.cc:383-424 | fields and callbacks as `Signaling.OnHangingGetRead` |
| Listener.PeerConnectionListener.OnNotification | peer_connection_listener.cc:388-414 | fields and callbacks as `Signaling.OnNotification` on the notification buffer |
| Listener.PeerConnectionListener.OnNotificationBody | peer_connection_listener.cc:395-414 | the insert, erase or relay changes only the roster, as `Roster.Notify` |
| Listener.PeerConnectionListener.OnServerRead | peer_connection_listener.cc:206-236 | fields and callbacks as `Signaling.OnServerRead` |
| Listener.PeerConnectionListener.SendToPeer | peer_connection_listener.cc:84-103 | bytes written and result as `Signaling.SendToPeer` |
| Listener.PeerConnectionListener.SendHangUp | peer_connection_listener.cc:105-107 | `SendToPeer` with "BYE" |
| Conductor.Dispatch | conductor.cc:430-441 | with an empty queue or a busy listener nothing happens; otherwise the head, and only the head, leaves and the rest stays in order |
| Conductor.Sent | conductor.cc:431-435 | one `SendMessage` hands the listener nothing or exactly one payload, and nothing exactly when no head was dispatched |
| Conductor.ReplayFifo | conductor.cc:424-441 | over any sequence of queue and send calls, what was sent followed by what is still queued is what was queued, in order |
| Conductor.Queued | conductor.cc:424-428 | every payload replayed into the queue comes from a queue call |
| Conductor.Replay | conductor.cc:424-441 | a run of `QueueMessage` and `SendMessage` calls: as many payloads are sent or still queued as were waiting plus those queued |
| Conductor.IdleSends | conductor.cc:430-431 | the `SendMessage` calls that find the listener idle: at most the number of calls, and none iff no call found it idle |
| Conductor.ReplayPaced | conductor.cc:430-431 | no more payloads are sent than there were send calls with the listener idle |
| Conductor.Bind | conductor.cc:233-249 | with no peer connection the sender is adopted, or the id reset to -1 when creation fails; with one, the binding stays and only its own peer's messages go on |
| Conductor.Converse | conductor.cc:228-249 | a run of `OnMessageFromPeer` calls: the messages that go on are among the senders, at most one per call |
| Conductor.From | conductor.cc:244-249 | the senders that are one given peer: all are that peer, and there are none iff it never sent |
| Conductor.ConverseStaysBound | conductor.cc:244-249 | once bound, every later message leaves the binding alone, and exactly the bound peer's messages go on |
| Conductor.Conductor.constructor | conductor.cc:59-61 | `peer_id_` is -1, no peer connection, an empty queue |
| Conductor.Conductor.QueueMessage | conductor.cc:424-428 | exactly one payload joins the tail; nothing else changes |
| Conductor.Conductor.SendMessage | conductor.cc:430-442 | the queue moves as `Dispatch` with the listener's busy flag; the head goes to `peer_id_` as the listener writes it; the binding is untouched |
| Conductor.Conductor.DisconnectFromServer | conductor.cc:329-332 | the listener signs out only when it holds an id |
| Conductor.Conductor.DeletePeerConnection | conductor.cc:140-145 | `peer_id_` is -1 and no peer connection; the queue is untouched |
| Conductor.Conductor.Close | conductor.cc:71-74 | the listener signs out and the peer connection is dropped |
| Conductor.Conductor.OnDisconnected | conductor.cc:208-212 | the peer connection is dropped |
| Conductor.Conductor.OnPeerDisconnected | conductor.cc:218-226 | the bound peer hanging up queues "peer disconnected" and resets `peer_id_`; any other id changes nothing |
| Conductor.Conductor.InitializePeerConnection | conductor.cc:76-107 | success creates the peer connection; failure drops it and resets `peer_id_` |
| Conductor.Conductor.OnMessageFromPeer | conductor.cc:228-249 | binding and verdict as `Bind`; a failed creation signs the listener out, otherwise the listener is untouched |
| Conductor.Conductor.ConnectToPeer | conductor.cc:334-349 | nothing happens with a peer connection; otherwise the id is adopted on success, or reset on failure |
| Conductor.Conductor.DisconnectFromCurrentPeer | conductor.cc:372-378 | with a peer connection, "BYE" goes to the bound peer and the connection is dropped; otherwise nothing happens |
| Conductor.Conductor.Deliver | conductor.cc:204-249 | each listener callback reaches its handler; `OnSignedIn`, `OnPeerConnected` and `OnMessageSent` change nothing; only a message that finds no peer connection and cannot create one changes the listener, which signs out |

## Left out

- Socket I/O is reduced to flags and inputs. `Recv` is a sequence of chunks; `Send`, `Connect`, `Bind`, `Listen` and signal wiring are not modelled. The result of a control-socket connect is a parameter, and a hanging-get connect is taken to leave the socket open.
- OnServerRead: the `Accept` on a socket in state 1 is not modelled, and accept is taken to succeed. When it fails, the code calls a method through the null socket it got back (peer_connection_listener.cc:210-214).
- `OnConnect` and `OnHangingGetConnect`, which only send the queued request and the hanging-get request, are not modelled.
- The address resolver and the retry timer are not modelled. `PostDelayed` is a `retryScheduled` flag, and `OnMessage` does nothing.
- `InitializePeerConnection`, `CreatePeerConnection`, `AddStreams`, `CreateOffer` and the JSON and SDP handling after the binding prelude of the conductor's `OnMessageFromPeer` call into the WebRTC library. Whether a peer connection can be created is a parameter.
- Roster.ParseEntry: `atoi` overflow is not modelled; ids are unbounded integers.
- Framing.DecodeResponse: the `size_t` -1 cast of the missing Pragma id is modelled only as "id -1".
- Listener.PeerConnectionListener.ConnectControlSocket requires the control socket to be closed. That is the code's debug check, and its one caller, `SignOut`, guarantees it. All other debug checks are treated as absent, as in a release build.
- Conductor.Conductor.SendMessage: the branch that calls `DisconnectFromServer` after a failed send is unreachable, because the listener's `SendToPeer` always returns true. The model marks it as dead code rather than modelling a failure.
- Signaling.ServerByeAnywhere: `ReadIntoBufferSplit` covers every socket, the accepted one included. But the server role's "/BYE" check runs on each incomplete buffer. So whether it fires before a unit completes depends on how the bytes were split into reads, and the model proves no split property for `OnServerRead`.
- Framing.ReplyRoundTrip requires a message shorter than 2^31 bytes. Above that, the `(int)` cast (`IntCast`, with `int` taken to be 32 bits wide) makes Content-Length disagree with the body. `snprintf`'s 1024-byte limit is never reached by these headers.
- No handler assigns SIGNING_IN, so the sign-in path is reachable only from a session that starts there (see `RunNeverSignsIn`).
- Callbacks are returned and delivered after the handler, not from inside it (see the introduction).
- Logging has no effect and is left out.
- audio_device_module.h, main.cc, flagdefs.h, conductor_server.cc and conductor_server.h are not part of this model.
