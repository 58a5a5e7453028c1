/**
  The byte-stream framer and the header codec of the signalling transport: a
  minimal subset of HTTP/1.1 message framing (a header block ended by an empty
  line, section 3 of RFC 7230; a body whose length is given by Content-Length,
  section 3.3.2 of RFC 7230), with header lookup done as a plain substring
  search bounded by the end of the headers.
 */
module Framing {
  import opened Text
  import opened Observer

  const CrLf := "\r\n"
  const HeaderEnd := "\r\n\r\n"
  const ContentLengthHeader := "\r\nContent-Length: "
  const ConnectionHeader := "\r\nConnection: "
  const PragmaHeader := "\r\nPragma: "

  /** size_t arithmetic wraps modulo 2^64. */
  const SizeModulus: nat := 0x1_0000_0000_0000_0000

  /** The (int) conversion of a size_t where int has 32 bits: the value
      modulo 2^32, read as two's complement. */
  function IntCast(n: nat): (r: int)
    ensures -0x8000_0000 <= r < 0x8000_0000
    ensures n < 0x8000_0000 ==> r == n
    ensures (n - r) % 0x1_0000_0000 == 0
  {
    var m := n % 0x1_0000_0000;
    if m < 0x8000_0000 then m else m - 0x1_0000_0000
  }

  function Min(a: nat, b: nat): nat {
    if a <= b then a else b
  }

  // ---------------------------------------------------------------------
  // Header lookup (the two GetHeaderValue overloads)
  // ---------------------------------------------------------------------

  /** GetHeaderValue into a size_t: the first occurrence of `pattern`, if it
      starts before `eoh`, followed by the number atoi reads there. */
  function HeaderNumber(data: string, eoh: nat, pattern: string): (r: Option<int>)
    ensures r.Some? ==> exists j: nat :: j < eoh && FirstAt(data, pattern, j)
    ensures (forall j :: 0 <= j < eoh ==> !Occurs(data, pattern, j)) ==> r.None?
  {
    match Find(data, pattern, 0)
    case None => None
    case Some(found) =>
      if found < eoh then
        assert FirstAt(data, pattern, found);
        Some(Atoi(data[found + |pattern|..]))
      else None
  }

  /** GetHeaderValue into a string: the text after the first occurrence of
      `pattern` (if it starts before `eoh`) up to the next CRLF, or up to `eoh`
      when no CRLF follows. */
  function HeaderText(data: string, eoh: nat, pattern: string): (r: Option<string>)
    ensures r.Some? ==> exists j: nat :: j < eoh && FirstAt(data, pattern, j)
    ensures (forall j :: 0 <= j < eoh ==> !Occurs(data, pattern, j)) ==> r.None?
  {
    match Find(data, pattern, 0)
    case None => None
    case Some(found) =>
      if found >= eoh then None
      else
        assert FirstAt(data, pattern, found);
        var begin := found + |pattern|;
        var end := match Find(data, CrLf, begin) case Some(e) => e case None => eoh;
        Some(if begin <= end then data[begin..Min(end, |data|)] else data[begin..])
  }

  /** Only the first occurrence of the pattern counts, and only before the end of the headers. */
  lemma {:induction false} HeaderNumberFirst(data: string, eoh: nat, pattern: string, j: nat)
    requires FirstAt(data, pattern, j)
    ensures j + |pattern| <= |data|
    ensures HeaderNumber(data, eoh, pattern) ==
            if j < eoh then Some(Atoi(data[j + |pattern|..])) else None
  {
    FindIs(data, pattern, 0, j);
  }

  /** A header that does not start before the end of the headers is absent. */
  lemma {:induction false} HeaderNumberAbsent(data: string, eoh: nat, pattern: string)
    requires forall j :: 0 <= j < eoh ==> !Occurs(data, pattern, j)
    ensures HeaderNumber(data, eoh, pattern) == None
    ensures HeaderText(data, eoh, pattern) == None
  {
    FindAtLeast(data, pattern, 0, eoh);
  }

  /** The string overload stops at the first CRLF after the pattern. */
  lemma {:induction false} HeaderTextToLineEnd(data: string, eoh: nat, pattern: string, j: nat, e: nat)
    requires FirstAt(data, pattern, j) && j < eoh
    requires j + |pattern| <= e && Occurs(data, CrLf, e)
    requires forall k :: j + |pattern| <= k < e ==> !Occurs(data, CrLf, k)
    ensures HeaderText(data, eoh, pattern) == Some(data[j + |pattern|..e])
  {
    FindIs(data, pattern, 0, j);
    FindIs(data, CrLf, j + |pattern|, e);
    HeaderTextFound(data, eoh, pattern, j, e);
  }

  lemma {:induction false} HeaderTextFound(data: string, eoh: nat, pattern: string, j: nat, e: nat)
    requires Find(data, pattern, 0) == Some(j) && j < eoh
    requires Find(data, CrLf, j + |pattern|) == Some(e) && j + |pattern| <= e <= |data|
    ensures HeaderText(data, eoh, pattern) == Some(data[j + |pattern|..e])
  {
    assert Min(e, |data|) == e;
  }

  /** A Connection header that starts before the blank line ends before it:
      the pattern holds no CR after its first character. */
  lemma {:induction false} PatternBeforeHeaderEnd(data: string, i: nat, j: nat)
    requires Occurs(data, HeaderEnd, i) && Occurs(data, ConnectionHeader, j) && j < i
    ensures j + |ConnectionHeader| <= i
  {
    assert data[i] == '\r' by {
      assert data[i..i + 4][0] == data[i];
    }
    assert forall m :: 1 <= m < |ConnectionHeader| ==> ConnectionHeader[m] != '\r';
    forall k | j < k < j + |ConnectionHeader|
      ensures data[k] != '\r'
    {
      assert data[k] == data[j..j + |ConnectionHeader|][k - j];
    }
  }

  /** The line that starts at `begin` reads exactly "close" iff "close\r\n" is there. */
  lemma {:induction false} CloseLine(data: string, begin: nat, e: nat)
    requires Find(data, CrLf, begin) == Some(e)
    ensures data[begin..e] == "close" <==> Occurs(data, "close\r\n", begin)
  {
    if Occurs(data, "close\r\n", begin) {
      var w := data[begin..begin + 7];
      forall k | begin <= k < begin + 5
        ensures !Occurs(data, CrLf, k)
      {
        assert data[k] == w[k - begin];
        assert w[k - begin] != '\r';
        if k + 2 <= |data| {
          assert data[k..k + 2][0] == data[k];
        }
      }
      assert data[begin + 5..begin + 7] == w[5..7];
      FindIs(data, CrLf, begin, begin + 5);
      assert data[begin..begin + 5] == w[..5];
    }
    if data[begin..e] == "close" {
      assert e == begin + 5;
      assert data[e..e + 2] == CrLf;
      assert data[begin..begin + 7] == data[begin..e] + data[e..e + 2];
    }
  }

  /** The framer closes the socket exactly when the first Connection header
      before the end of the headers reads "close" and nothing more on its line. */
  lemma {:induction false} ConnectionClose(data: string, i: nat, j: nat)
    requires FirstAt(data, HeaderEnd, i) && FirstAt(data, ConnectionHeader, j) && j < i
    ensures HeaderText(data, i, ConnectionHeader) == Some("close") <==>
            Occurs(data, "close\r\n", j + |ConnectionHeader|)
  {
    var begin := j + |ConnectionHeader|;
    PatternBeforeHeaderEnd(data, i, j);
    assert Occurs(data, CrLf, i) by {
      assert data[i..i + 2] == data[i..i + 4][..2];
    }
    var e := Find(data, CrLf, begin);
    assert e.Some? && e.value <= i;
    HeaderTextToLineEnd(data, i, ConnectionHeader, j, e.value);
    CloseLine(data, begin, e.value);
  }

  // ---------------------------------------------------------------------
  // The framer (ReadIntoBuffer)
  // ---------------------------------------------------------------------

  /** The bytes one readable event appends: the results of successive Recv
      calls, up to the first that returns nothing. */
  function Received(chunks: seq<string>): string {
    if chunks == [] || chunks[0] == [] then [] else chunks[0] + Received(chunks[1..])
  }

  /** The loop appends nothing iff the first read returns no bytes. */
  lemma {:induction false} ReceivedNothing(chunks: seq<string>)
    ensures Received(chunks) == [] <==> chunks == [] || chunks[0] == []
  {
  }

  /** A read of zero bytes ends the loop: no later chunk is appended. */
  lemma {:induction false} ReceivedUntilEmpty(chunks: seq<string>, k: nat)
    requires k < |chunks| && chunks[k] == []
    ensures Received(chunks) == Received(chunks[..k])
  {
    if k > 0 && chunks[0] != [] {
      ReceivedUntilEmpty(chunks[1..], k - 1);
      assert chunks[..k][1..] == chunks[1..][..k - 1];
    }
  }

  /** Bytes read in two events append as they would in one. */
  lemma {:induction false} ReceivedAppend(first: seq<string>, second: seq<string>)
    requires forall k :: 0 <= k < |first| ==> first[k] != []
    ensures Received(first + second) == Received(first) + Received(second)
  {
    if first == [] {
      assert first + second == second;
    } else {
      assert (first + second)[1..] == first[1..] + second;
      ReceivedAppend(first[1..], second);
    }
  }

  datatype Verdict =
    | NoHeaderEnd                                        // no blank line yet
    | NoLength(eoh: nat)                                 // headers done, no Content-Length before them: stalls
    | Partial(eoh: nat, contentLength: int)              // body not yet complete
    | Complete(eoh: nat, contentLength: int, close: bool) // one unit present; `close`: Connection: close

  /** The size ReadIntoBuffer waits for, computed in size_t. */
  function TotalSize(eoh: nat, contentLength: int): nat {
    (eoh + 4 + contentLength) % SizeModulus
  }

  /** ReadIntoBuffer's decision on the accumulated bytes. */
  function Frame(data: string): (v: Verdict)
    ensures !v.NoHeaderEnd? ==> FirstAt(data, HeaderEnd, v.eoh) && v.eoh + 4 <= |data|
    ensures v.Complete? ==> |data| >= TotalSize(v.eoh, v.contentLength)
    ensures v.Partial? ==> |data| < TotalSize(v.eoh, v.contentLength)
  {
    match Find(data, HeaderEnd, 0)
    case None => NoHeaderEnd
    case Some(i) =>
      match HeaderNumber(data, i, ContentLengthHeader)
      case None => NoLength(i)
      case Some(length) =>
        if |data| >= TotalSize(i, length) then
          Complete(i, length, HeaderText(data, i, ConnectionHeader) == Some("close"))
        else Partial(i, length)
  }

  /** A unit is complete iff the first blank line is at some i, the first
      Content-Length header starts before i, and the buffer holds at least
      i + 4 + Content-Length bytes (in size_t arithmetic). */
  lemma {:induction false} FrameComplete(data: string, i: nat, j: nat)
    requires FirstAt(data, HeaderEnd, i) && FirstAt(data, ContentLengthHeader, j)
    ensures j + |ContentLengthHeader| <= |data|
    ensures Frame(data).Complete? <==>
            j < i && |data| >= TotalSize(i, Atoi(data[j + |ContentLengthHeader|..]))
    ensures Frame(data).Complete? ==> Frame(data).contentLength == Atoi(data[j + |ContentLengthHeader|..])
  {
    FindIs(data, HeaderEnd, 0, i);
    HeaderNumberFirst(data, i, ContentLengthHeader, j);
  }

  /** Without a blank line nothing is framed. */
  lemma {:induction false} FrameWithoutHeaderEnd(data: string)
    requires forall k :: 0 <= k ==> !Occurs(data, HeaderEnd, k)
    ensures Frame(data) == NoHeaderEnd
  {
  }

  /** Without a Content-Length header in the headers the unit never completes. */
  lemma {:induction false} FrameWithoutLength(data: string, i: nat)
    requires FirstAt(data, HeaderEnd, i)
    requires forall k :: 0 <= k < i ==> !Occurs(data, ContentLengthHeader, k)
    ensures Frame(data) == NoLength(i)
  {
    FindIs(data, HeaderEnd, 0, i);
    HeaderNumberAbsent(data, i, ContentLengthHeader);
  }

  /** For every length a real buffer can have, the size_t sum does not wrap. */
  lemma {:induction false} TotalSizeExact(eoh: nat, contentLength: nat)
    requires eoh + 4 + contentLength < SizeModulus
    ensures TotalSize(eoh, contentLength) == eoh + 4 + contentLength
  {
  }

  // ---------------------------------------------------------------------
  // Decoders
  // ---------------------------------------------------------------------

  /** GetResponseStatus: the number after the first space, or -1 without one. */
  function ResponseStatus(response: string): (status: int)
    ensures status != -1 ==> ' ' in response
  {
    match Find(response, " ", 0)
    case None => -1
    case Some(pos) =>
      assert response[pos..pos + 1][0] == response[pos];
      Atoi(response[pos + 1..])
  }

  /** A status line "<protocol> <code><rest>" yields <code>. */
  lemma {:induction false} StatusOfLine(protocol: string, code: int, rest: string)
    requires ' ' !in protocol && StopsDigits(rest)
    ensures ResponseStatus(protocol + " " + Decimal(code) + rest) == code
  {
    var line := protocol + " " + Decimal(code) + rest;
    assert line == protocol + " " + (Decimal(code) + rest);
    FirstSpace(protocol, Decimal(code) + rest);
    assert line[|protocol| + 1..] == Decimal(code) + rest;
    AtoiDecimal(code, rest);
  }

  /** The first space of "<protocol> <tail>" is the one after a space-free protocol. */
  lemma {:induction false} FirstSpace(protocol: string, tail: string)
    requires ' ' !in protocol
    ensures Find(protocol + " " + tail, " ", 0) == Some(|protocol|)
  {
    var line := protocol + " " + tail;
    forall k | 0 <= k < |protocol|
      ensures !Occurs(line, " ", k)
    {
      assert line[k] == protocol[k];
      assert protocol[k] in protocol;
      assert line[k..k + 1][0] == line[k];
    }
    assert line[|protocol|..|protocol| + 1] == " ";
    FindIs(line, " ", 0, |protocol|);
  }

  /** A response without a space has no status. */
  lemma {:induction false} StatusWithoutSpace(response: string)
    requires ' ' !in response
    ensures ResponseStatus(response) == -1
  {
    forall j | 0 <= j < |response|
      ensures !Occurs(response, " ", j)
    {
      assert response[j] in response;
      if j + 1 <= |response| {
        assert response[j..j + 1][0] == response[j];
      }
    }
  }

  datatype Response =
    | Rejected(status: int)     // status other than 200
    | Unterminated              // no blank line (not reachable from a complete unit)
    | Ok(peerId: int, eoh: nat) // peerId: the Pragma header, or -1 without one

  /** ParseServerResponse without its side effects: the status is read from
      the text before the first NUL (the source rebuilds the string from
      c_str()); the peer id from the first Pragma header before the blank line. */
  function DecodeResponse(data: string): (r: Response)
    ensures r.Rejected? ==> r.status != 200 && r.status == ResponseStatus(UntilNul(data))
    ensures r.Ok? ==> ResponseStatus(UntilNul(data)) == 200 && FirstAt(data, HeaderEnd, r.eoh)
    ensures r.Ok? ==> r.eoh + 4 <= |data|
    // Status 200 and a blank line are all a response needs to be accepted.
    ensures ResponseStatus(UntilNul(data)) != 200 ==> r.Rejected?
    ensures ResponseStatus(UntilNul(data)) == 200 && Find(data, HeaderEnd, 0).Some? ==> r.Ok?
  {
    var status := ResponseStatus(UntilNul(data));
    if status != 200 then Rejected(status)
    else
      match Find(data, HeaderEnd, 0)
      case None => Unterminated
      case Some(eoh) =>
        var peerId := match HeaderNumber(data, eoh, PragmaHeader) case Some(id) => id case None => -1;
        Ok(peerId, eoh)
  }

  /** The peer id of a good response is what atoi reads after the first
      Pragma header, when that header starts before the blank line... */
  lemma {:induction false} DecodeResponsePragma(data: string, peerId: int, eoh: nat, j: nat)
    requires DecodeResponse(data) == Ok(peerId, eoh) && FirstAt(data, PragmaHeader, j)
    ensures j + |PragmaHeader| <= |data|
    ensures peerId == if j < eoh then Atoi(data[j + |PragmaHeader|..]) else -1
  {
    HeaderNumberFirst(data, eoh, PragmaHeader, j);
  }

  /** ... and -1 when no Pragma header starts before it. */
  lemma {:induction false} DecodeResponseNoPragma(data: string, peerId: int, eoh: nat)
    requires DecodeResponse(data) == Ok(peerId, eoh)
    requires forall j :: 0 <= j < eoh ==> !Occurs(data, PragmaHeader, j)
    ensures peerId == -1
  {
    HeaderNumberAbsent(data, eoh, PragmaHeader);
  }

  /** The body of a good response starts within the data. */
  lemma {:induction false} ResponseBody(data: string, peerId: int, eoh: nat)
    requires DecodeResponse(data) == Ok(peerId, eoh)
    ensures eoh + 4 <= |data|
  {
  }

  /** GetRequest: a request whose first '/' is followed by "OFFER" and that
      has a blank line is a message from the server-role peer carrying the
      body; a body of exactly "BYE" is that peer's hang-up. */
  function DecodeRequest(request: string): (r: Option<Event>)
    ensures r.Some? ==> (r.value.PeerDisconnected? || r.value.MessageFromPeer?) && r.value.id == ServerPeerId
    ensures r.Some? ==> Find(request, HeaderEnd, 0).Some?
    // Anything but "OFFER" right after the first '/' is rejected.
    ensures r.Some? ==> exists pos :: Find(request, "/", 0) == Some(pos) && Substr(request, pos + 1, 5) == "OFFER"
  {
    match Find(request, "/", 0)
    case None => None
    case Some(pos) =>
      if Substr(request, pos + 1, 5) != "OFFER" then None
      else
        match Find(request, HeaderEnd, 0)
        case None => None
        case Some(eoh) => Some(Relay(ServerPeerId, request[eoh + 4..]))
  }

  // ---------------------------------------------------------------------
  // Header blocks
  // ---------------------------------------------------------------------

  /** Header lines as the sender writes them: non-empty, without CR. */
  predicate HeaderLines(lines: seq<string>) {
    forall k :: 0 <= k < |lines| ==> lines[k] != [] && '\r' !in lines[k]
  }

  function JoinLines(lines: seq<string>): string {
    if lines == [] then "" else lines[0] + CrLf + JoinLines(lines[1..])
  }

  /** Each line followed by CRLF, then the empty line. */
  function HeaderBlock(lines: seq<string>): string {
    JoinLines(lines) + CrLf
  }

  /** Index of the CRLF that ends line `m`. */
  function LineEnd(lines: seq<string>, m: nat): nat
    requires m < |lines|
  {
    if m == 0 then |lines[0]| else |lines[0]| + 2 + LineEnd(lines[1..], m - 1)
  }

  /** The first line that starts with `q`. */
  function FirstLineWith(lines: seq<string>, q: string): (r: Option<nat>)
    ensures r.Some? ==> r.value < |lines| && q <= lines[r.value]
    ensures r.Some? ==> forall k :: 0 <= k < r.value ==> !(q <= lines[k])
    ensures r.None? ==> forall k :: 0 <= k < |lines| ==> !(q <= lines[k])
  {
    if lines == [] then None
    else if q <= lines[0] then Some(0)
    else
      match FirstLineWith(lines[1..], q)
      case None => None
      case Some(m) => Some(m + 1)
  }

  /** Past a first line that does not start with q, the search moves on by one line. */
  lemma {:induction false} FirstLineWithStep(lines: seq<string>, q: string)
    requires lines != [] && !(q <= lines[0])
    ensures FirstLineWith(lines[1..], q).None? ==> FirstLineWith(lines, q).None?
    ensures FirstLineWith(lines[1..], q).Some? ==>
            FirstLineWith(lines, q) == Some(FirstLineWith(lines[1..], q).value + 1)
  {
  }

  /** A header block followed by a body splits into its first line and the rest. */
  lemma {:induction false} HeaderBlockSplit(lines: seq<string>, body: string)
    requires lines != []
    ensures HeaderBlock(lines) + body == (lines[0] + CrLf) + (HeaderBlock(lines[1..]) + body)
    ensures |HeaderBlock(lines)| == |lines[0]| + 2 + |HeaderBlock(lines[1..])|
  {
    assert JoinLines(lines) == lines[0] + CrLf + JoinLines(lines[1..]);
  }

  /** Searching a CRLF-led pattern across one CR-free line and its CRLF: no
      match starts inside the line or on its LF, and a match on its CR is a
      match of the rest of the pattern at the start of what follows. */
  lemma {:induction false} LineSkip(l: string, t: string, pat: string)
    requires '\r' !in l && |pat| >= 2 && pat[..2] == CrLf
    ensures forall j :: 0 <= j < |l| + 2 && j != |l| ==> !Occurs((l + CrLf) + t, pat, j)
    ensures Occurs((l + CrLf) + t, pat, |l|) <==> Occurs(t, pat[2..], 0)
  {
    var h := (l + CrLf) + t;
    assert pat[0] == '\r';
    forall j | 0 <= j < |l| + 2 && j != |l|
      ensures !Occurs(h, pat, j)
    {
      if j < |l| {
        assert l[j] in l;
        assert h[j] == l[j];
      } else {
        assert h[j] == '\n';
      }
      if j + |pat| <= |h| {
        assert h[j..j + |pat|][0] == h[j];
      }
    }
    assert pat == CrLf + pat[2..];
    if |l| + |pat| <= |h| {
      assert h[|l|..|l| + |pat|] == CrLf + t[0..|pat| - 2];
    }
  }

  /** The end of the headers is the empty line after the last header line:
      no earlier CRLF CRLF exists. */
  lemma {:induction false} EndOfHeaders(lines: seq<string>, body: string)
    requires lines != [] && HeaderLines(lines)
    ensures Find(HeaderBlock(lines) + body, HeaderEnd, 0) == Some(|HeaderBlock(lines)| - 4)
  {
    var l, rest := lines[0], lines[1..];
    var t := HeaderBlock(rest) + body;
    assert '\r' !in l;
    FindOnBlock(lines, body, HeaderEnd);
    if rest == [] {
      assert t == CrLf + body;
      HeaderEndAtLine(l, t);
    } else {
      assert HeaderLines(rest);
      BlockStart(rest, body);
      EndOfHeaders(rest, body);
      HeaderEndAfterLine(l, t, |HeaderBlock(rest)| - 4);
    }
  }

  /** A search of a header block is a search of its first line, its CRLF
      and the rest. */
  lemma {:induction false} FindOnBlock(lines: seq<string>, body: string, pat: string)
    requires lines != []
    ensures Find(HeaderBlock(lines) + body, pat, 0) == Find((lines[0] + CrLf) + (HeaderBlock(lines[1..]) + body), pat, 0)
    ensures |HeaderBlock(lines)| == |lines[0]| + 2 + |HeaderBlock(lines[1..])|
  {
    HeaderBlockSplit(lines, body);
  }

  /** A header block starts with its first line's first character. */
  lemma {:induction false} BlockStart(lines: seq<string>, body: string)
    requires lines != [] && lines[0] != []
    ensures HeaderBlock(lines) + body != [] && (HeaderBlock(lines) + body)[0] == lines[0][0]
  {
    HeaderBlockSplit(lines, body);
  }

  /** A line followed by a non-empty line: the headers end where they end
      in what follows the line. */
  lemma {:induction false} HeaderEndAfterLine(l: string, t: string, i: nat)
    requires '\r' !in l && t != [] && t[0] != '\r'
    requires Find(t, HeaderEnd, 0) == Some(i)
    ensures Find((l + CrLf) + t, HeaderEnd, 0) == Some(|l| + 2 + i)
  {
    HeaderEndSkipsLine(l, t);
    FindShiftFound(l + CrLf, t, HeaderEnd, 0, i);
  }

  /** A line followed by an empty line: the headers end at the line's CR. */
  lemma {:induction false} HeaderEndAtLine(l: string, t: string)
    requires '\r' !in l && |t| >= 2 && t[0..2] == CrLf
    ensures Find((l + CrLf) + t, HeaderEnd, 0) == Some(|l|)
  {
    LineSkip(l, t, HeaderEnd);
    assert t[0..2] == HeaderEnd[2..];
    FindIs((l + CrLf) + t, HeaderEnd, 0, |l|);
  }

  /** A line followed by a non-empty line: the search goes on past it. */
  lemma {:induction false} HeaderEndSkipsLine(l: string, t: string)
    requires '\r' !in l && t != [] && t[0] != '\r'
    ensures Find((l + CrLf) + t, HeaderEnd, 0) == Find((l + CrLf) + t, HeaderEnd, |l| + 2)
  {
    LineSkip(l, t, HeaderEnd);
    assert !Occurs(t, HeaderEnd[2..], 0) by {
      if 2 <= |t| {
        assert t[0..2][0] == t[0];
      }
    }
    FindSkip((l + CrLf) + t, HeaderEnd, 0, |l| + 2);
  }

  /** A CR-free q starts `next + CRLF + ...` iff it starts `next`. */
  lemma {:induction false} PrefixOfLine(q: string, next: string, u: string)
    requires '\r' !in q && '\r' !in next
    ensures Occurs((next + CrLf) + u, q, 0) <==> q <= next
  {
    var t := (next + CrLf) + u;
    if |q| <= |next| {
      assert t[0..|q|] == next[..|q|];
    } else if |q| <= |t| {
      assert t[|next|] == '\r';
      assert q[|next|] in q;
      assert t[0..|q|][|next|] == '\r';
    }
  }

  /** A header line whose text follows the first line is found at that line's CR. */
  lemma {:induction false} HeaderLineHere(l: string, t: string, q: string)
    requires '\r' !in l && Occurs(t, q, 0)
    ensures Find((l + CrLf) + t, CrLf + q, 0) == Some(|l|)
  {
    var pat := CrLf + q;
    assert pat[..2] == CrLf && pat[2..] == q;
    LineSkip(l, t, pat);
    FindIs((l + CrLf) + t, pat, 0, |l|);
  }

  /** A search for a header that does not start the next line skips the first line. */
  lemma {:induction false} HeaderLineSkip(l: string, t: string, q: string)
    requires '\r' !in l && !Occurs(t, q, 0)
    ensures Find((l + CrLf) + t, CrLf + q, 0) == Find((l + CrLf) + t, CrLf + q, |l + CrLf|)
  {
    var pat := CrLf + q;
    assert pat[..2] == CrLf && pat[2..] == q;
    LineSkip(l, t, pat);
    FindSkip((l + CrLf) + t, pat, 0, |l| + 2);
  }

  /** Otherwise the search continues after the first line, shifted by its length. */
  lemma {:induction false} HeaderLineLater(l: string, t: string, q: string, i: nat)
    requires '\r' !in l && !Occurs(t, q, 0)
    requires Find(t, CrLf + q, 0) == Some(i)
    ensures Find((l + CrLf) + t, CrLf + q, 0) == Some(|l| + 2 + i)
  {
    HeaderLineSkip(l, t, q);
    FindPastPrefix(l + CrLf, t, CrLf + q, i);
  }

  /** ... and finds nothing before the first line's length plus what the rest rules out. */
  lemma {:induction false} HeaderLineAbsent(l: string, t: string, q: string, bound: nat)
    requires '\r' !in l && !Occurs(t, q, 0)
    requires forall j :: 0 <= j < bound ==> !Occurs(t, CrLf + q, j)
    ensures forall j :: 0 <= j < |l| + 2 + bound ==> !Occurs((l + CrLf) + t, CrLf + q, j)
  {
    var pat := CrLf + q;
    var a := l + CrLf;
    assert pat[..2] == CrLf && pat[2..] == q;
    LineSkip(l, t, pat);
    forall j | |a| <= j < |a| + bound
      ensures !Occurs(a + t, pat, j)
    {
      OccursShift(a, t, pat, j - |a|);
    }
  }

  /** After the last line only the empty line follows: no header there. */
  lemma {:induction false} HeaderLineNone(l: string, body: string, q: string)
    requires '\r' !in l && q != [] && '\r' !in q
    ensures forall j :: 0 <= j < |l| + 2 ==> !Occurs((l + CrLf) + (CrLf + body), CrLf + q, j)
  {
    var t := CrLf + body;
    assert q[0] in q;
    assert !Occurs(t, q, 0) by {
      if |q| <= |t| {
        assert t[0..|q|][0] == t[0];
      }
    }
    HeaderLineAbsent(l, t, q, 0);
  }

  /** A header block starts with `q` iff its first line does. */
  lemma {:induction false} NextLineStarts(lines: seq<string>, body: string, q: string)
    requires lines != [] && '\r' !in lines[0] && '\r' !in q
    ensures Occurs(HeaderBlock(lines) + body, q, 0) <==> q <= lines[0]
  {
    HeaderBlockSplit(lines, body);
    PrefixOfLine(q, lines[0], HeaderBlock(lines[1..]) + body);
  }

  /** Where the search for the header "\r\n" + q lands in a header block: at
      the end of the line before the first line (after the first) that starts
      with q; when there is none, nowhere before the empty line. */
  lemma {:induction false} FindHeaderLine(lines: seq<string>, body: string, q: string)
    requires lines != [] && HeaderLines(lines)
    requires q != [] && '\r' !in q
    ensures var m := FirstLineWith(lines[1..], q);
            m.Some? ==> m.value + 1 < |lines| &&
                        Find(HeaderBlock(lines) + body, CrLf + q, 0) == Some(LineEnd(lines, m.value))
    ensures FirstLineWith(lines[1..], q).None? ==>
            forall j :: 0 <= j < |HeaderBlock(lines)| - 2 ==> !Occurs(HeaderBlock(lines) + body, CrLf + q, j)
    decreases |lines|, 1
  {
    if |lines| == 1 {
      HeaderLineLast(lines, body, q);
    } else if q <= lines[1] {
      HeaderLineSecond(lines, body, q);
    } else {
      HeaderLinePastSecond(lines, body, q);
    }
  }

  /** The second line does not start with `q`: the search goes on in the
      block that starts there. */
  lemma {:induction false} HeaderLinePastSecond(lines: seq<string>, body: string, q: string)
    requires |lines| >= 2 && HeaderLines(lines) && q != [] && '\r' !in q && !(q <= lines[1])
    ensures var m := FirstLineWith(lines[1..], q);
            m.Some? ==> m.value + 1 < |lines| &&
                        Find(HeaderBlock(lines) + body, CrLf + q, 0) == Some(LineEnd(lines, m.value))
    ensures FirstLineWith(lines[1..], q).None? ==>
            forall j :: 0 <= j < |HeaderBlock(lines)| - 2 ==> !Occurs(HeaderBlock(lines) + body, CrLf + q, j)
    decreases |lines|, 0
  {
    FindHeaderLine(lines[1..], body, q);
    assert lines[1..][1..] == lines[2..];
    match FirstLineWith(lines[2..], q)
    case Some(m) => HeaderLineAfterSecond(lines, body, q, m);
    case None => HeaderLineNowhere(lines, body, q);
  }

  /** One line only: no header but the first. */
  lemma {:induction false} HeaderLineLast(lines: seq<string>, body: string, q: string)
    requires |lines| == 1 && HeaderLines(lines) && q != [] && '\r' !in q
    ensures FirstLineWith(lines[1..], q) == None
    ensures forall j :: 0 <= j < |HeaderBlock(lines)| - 2 ==> !Occurs(HeaderBlock(lines) + body, CrLf + q, j)
  {
    var l := lines[0];
    assert '\r' !in l;
    HeaderBlockSplit(lines, body);
    assert HeaderBlock(lines[1..]) + body == CrLf + body;
    HeaderLineNone(l, body, q);
  }

  /** The second line starts with `q`: the search stops at the end of the first. */
  lemma {:induction false} HeaderLineSecond(lines: seq<string>, body: string, q: string)
    requires |lines| >= 2 && HeaderLines(lines) && q != [] && '\r' !in q && q <= lines[1]
    ensures FirstLineWith(lines[1..], q) == Some(0)
    ensures Find(HeaderBlock(lines) + body, CrLf + q, 0) == Some(LineEnd(lines, 0))
  {
    var l, rest := lines[0], lines[1..];
    assert '\r' !in l && '\r' !in rest[0];
    HeaderBlockSplit(lines, body);
    NextLineStarts(rest, body, q);
    HeaderLineHere(l, HeaderBlock(rest) + body, q);
  }

  /** The second line does not start with `q` but a later one does. */
  lemma {:induction false} HeaderLineAfterSecond(lines: seq<string>, body: string, q: string, m: nat)
    requires |lines| >= 2 && HeaderLines(lines) && q != [] && '\r' !in q && !(q <= lines[1])
    requires FirstLineWith(lines[2..], q) == Some(m) && m + 1 < |lines[1..]|
    requires Find(HeaderBlock(lines[1..]) + body, CrLf + q, 0) == Some(LineEnd(lines[1..], m))
    ensures FirstLineWith(lines[1..], q) == Some(m + 1) && m + 2 < |lines|
    ensures Find(HeaderBlock(lines) + body, CrLf + q, 0) == Some(LineEnd(lines, m + 1))
  {
    var l, rest := lines[0], lines[1..];
    assert '\r' !in l && '\r' !in rest[0];
    assert rest[1..] == lines[2..];
    FirstLineWithStep(rest, q);
    HeaderBlockSplit(lines, body);
    NextLineStarts(rest, body, q);
    HeaderLineLater(l, HeaderBlock(rest) + body, q, LineEnd(rest, m));
    assert LineEnd(lines, m + 1) == |l| + 2 + LineEnd(rest, m);
  }

  /** No line after the first starts with `q`. */
  lemma {:induction false} HeaderLineNowhere(lines: seq<string>, body: string, q: string)
    requires |lines| >= 2 && HeaderLines(lines) && q != [] && '\r' !in q && !(q <= lines[1])
    requires FirstLineWith(lines[2..], q) == None
    requires forall j :: 0 <= j < |HeaderBlock(lines[1..])| - 2 ==> !Occurs(HeaderBlock(lines[1..]) + body, CrLf + q, j)
    ensures FirstLineWith(lines[1..], q) == None
    ensures forall j :: 0 <= j < |HeaderBlock(lines)| - 2 ==> !Occurs(HeaderBlock(lines) + body, CrLf + q, j)
  {
    var l, rest := lines[0], lines[1..];
    assert '\r' !in l && '\r' !in rest[0];
    assert rest[1..] == lines[2..];
    FirstLineWithStep(rest, q);
    HeaderBlockSplit(lines, body);
    NextLineStarts(rest, body, q);
    HeaderLineAbsent(l, HeaderBlock(rest) + body, q, |HeaderBlock(rest)| - 2);
  }


  // ---------------------------------------------------------------------
  // What the listener writes
  // ---------------------------------------------------------------------

  /** The header lines of SendToPeer's reply to the server-role peer. */
  function ReplyLines(length: int): seq<string> {
    ["HTTP/1.1 200 OK",
     "Server: RTC_GW/0.1",
     "Cache-Control: no-cache",
     "Content-Length: " + Decimal(length),
     "Content-Type: text/plain"]
  }

  /** SendToPeer's reply: headers with Content-Length set to the message
      length (an int in the source), then the message. */
  function Reply(message: string): (r: string)
    ensures |message| <= |r| && r[|r| - |message|..] == message
  {
    HeaderBlock(ReplyLines(IntCast(|message|))) + message
  }

  /** SignOut's request: "GET /sign_out?peer_id=<id> HTTP/1.0" and an empty line. */
  function SignOutRequest(id: int): (r: string)
    ensures |r| >= 26 && r[..22] == "GET /sign_out?peer_id=" && r[|r| - 4..] == HeaderEnd
  {
    OneLineBlock(SignOutLine(id));
    HeaderBlock([SignOutLine(id)])
  }

  lemma {:induction false} ReplyLinesWellFormed(length: int)
    ensures HeaderLines(ReplyLines(length))
  {
    var lines := ReplyLines(length);
    forall k | 0 <= k < |lines|
      ensures lines[k] != [] && '\r' !in lines[k]
    {
      if k == 3 {
        DecimalPlain(length);
        assert '\r' !in "Content-Length: ";
      } else {
        ReplyLinesPlain(length, k);
      }
    }
  }

  /** The fixed reply lines hold neither CR nor NUL. */
  predicate Plain(line: string) {
    '\r' !in line && '\0' !in line
  }

  lemma {:induction false} StatusLinePlain()
    ensures Plain("HTTP/1.1 200 OK")
  {
  }

  lemma {:induction false} ServerLinePlain()
    ensures Plain("Server: RTC_GW/0.1")
  {
  }

  lemma {:induction false} CacheLinePlain()
    ensures Plain("Cache-Control: no-cache")
  {
  }

  lemma {:induction false} TypeLinePlain()
    ensures Plain("Content-Type: text/plain")
  {
  }

  /** The fixed lines of ReplyLines are plain. */
  lemma {:induction false} ReplyLinesPlain(length: int, k: nat)
    requires k < |ReplyLines(length)| && k != 3
    ensures Plain(ReplyLines(length)[k])
  {
    if k == 0 {
      StatusLinePlain();
    } else if k == 1 {
      ServerLinePlain();
    } else if k == 2 {
      CacheLinePlain();
    } else {
      TypeLinePlain();
    }
  }

  lemma {:induction false} Regroup(a: string, b: string, c: string, d: string)
    ensures a + (b + (c + d)) == ((a + b) + c) + d
  {
  }

  lemma {:induction false} DropPrefix(p: string, r: string)
    ensures (p + r)[|p|..] == r
  {
  }

  /** Header lines free of NUL make a header block free of NUL. */
  lemma {:induction false} NoNulInBlock(lines: seq<string>)
    requires forall i :: 0 <= i < |lines| ==> '\0' !in lines[i]
    ensures '\0' !in HeaderBlock(lines)
  {
    if lines != [] {
      HeaderBlockSplit(lines, "");
      NoNulInBlock(lines[1..]);
      assert HeaderBlock(lines) + "" == HeaderBlock(lines);
      assert HeaderBlock(lines[1..]) + "" == HeaderBlock(lines[1..]);
      assert '\0' !in lines[0] + CrLf;
    }
  }

  /** Two strings that differ at index k are not prefixes of one another. */
  lemma {:induction false} NotPrefix(q: string, s: string, k: nat)
    requires k < |q| && k < |s| && q[k] != s[k]
    ensures !(q <= s)
  {
    if |q| <= |s| {
      assert s[..|q|][k] == s[k];
    }
  }

  /** The reply's header lines after the status line, one by one. */
  lemma {:induction false} ReplyTail(length: int)
    ensures var tail := ReplyLines(length)[1..];
            && |tail| == 4
            && tail[0] == "Server: RTC_GW/0.1"
            && tail[1] == "Cache-Control: no-cache"
            && tail[2] == "Content-Length: " + Decimal(length)
            && tail[3] == "Content-Type: text/plain"
  {
  }

  /** The Content-Length header is the reply's third line after the status line. */
  lemma {:induction false} ReplyContentLengthLine(length: int)
    ensures FirstLineWith(ReplyLines(length)[1..], "Content-Length: ") == Some(2)
  {
    var q := "Content-Length: ";
    var tail := ReplyLines(length)[1..];
    ReplyTail(length);
    NotPrefix(q, tail[0], 0);
    NotPrefix(q, tail[1], 1);
    assert q <= tail[2];
    assert FirstLineWith(tail[2..], q) == Some(0);
    assert tail[1..][1..] == tail[2..];
    assert FirstLineWith(tail[1..], q) == Some(1);
  }

  /** No line of a sequence starts with q when each differs from q somewhere in q's range. */
  lemma {:induction false} NoLineWith(lines: seq<string>, q: string)
    requires forall k :: 0 <= k < |lines| ==> exists m :: 0 <= m < |q| && m < |lines[k]| && q[m] != lines[k][m]
    ensures FirstLineWith(lines, q) == None
  {
    forall k | 0 <= k < |lines|
      ensures !(q <= lines[k])
    {
      var m :| 0 <= m < |q| && m < |lines[k]| && q[m] != lines[k][m];
      NotPrefix(q, lines[k], m);
    }
  }

  /** The reply carries no Connection header. */
  lemma {:induction false} ReplyConnectionLine(length: int)
    ensures FirstLineWith(ReplyLines(length)[1..], "Connection: ") == None
  {
    var q := "Connection: ";
    var tail := ReplyLines(length)[1..];
    ReplyTail(length);
    assert q[0] != tail[0][0];
    assert q[1] != tail[1][1];
    assert q[3] != tail[2][3];
    assert q[3] != tail[3][3];
    NoLineWith(tail, q);
  }

  /** The reply carries no Pragma header. */
  lemma {:induction false} ReplyPragmaLine(length: int)
    ensures FirstLineWith(ReplyLines(length)[1..], "Pragma: ") == None
  {
    var q := "Pragma: ";
    var tail := ReplyLines(length)[1..];
    ReplyTail(length);
    assert q[0] != tail[0][0] && q[0] != tail[1][0] && q[0] != tail[2][0] && q[0] != tail[3][0];
    NoLineWith(tail, q);
  }

  /** The reply, split line by line: the Content-Length digits start at 78,
      followed by a CR. */
  lemma {:induction false} ReplyText(message: string)
    ensures var lines := ReplyLines(IntCast(|message|));
            && |Reply(message)| >= 78
            && Reply(message)[78..] == Decimal(IntCast(|message|)) + (CrLf + (HeaderBlock(lines[4..]) + message))
            && |HeaderBlock(lines)| == 108 + |Decimal(IntCast(|message|))|
            && HeaderBlock(lines) + message == "HTTP/1.1 200 OK\r\n" + (HeaderBlock(lines[1..]) + message)
  {
    var lines := ReplyLines(IntCast(|message|));
    var p, d := "Content-Length: ", Decimal(IntCast(|message|));
    assert lines == [lines[0], lines[1], lines[2], p + d, lines[4]];
    assert lines[4..] == [lines[4]];
    FiveLineBlock(lines[0], lines[1], lines[2], p, d, lines[4], message);
    var x := CrLf + (HeaderBlock([lines[4]]) + message);
    DropFour(lines[0] + CrLf, lines[1] + CrLf, lines[2] + CrLf, p, d + x);
    HeaderBlockSplit(lines, message);
    assert lines[0] + CrLf == "HTTP/1.1 200 OK\r\n";
  }

  /** The layout of a five-line header block whose fourth line is `p + d`. */
  lemma {:induction false} FiveLineBlock(l0: string, l1: string, l2: string, p: string, d: string, l4: string, m: string)
    ensures var b := HeaderBlock([l0, l1, l2, p + d, l4]);
            && b + m == (l0 + CrLf) + ((l1 + CrLf) + ((l2 + CrLf) + (p + (d + (CrLf + (HeaderBlock([l4]) + m))))))
            && |b| == |l0| + |l1| + |l2| + |p| + |d| + |l4| + 12
  {
    var lines := [l0, l1, l2, p + d, l4];
    HeaderBlockSplit(lines, m);
    HeaderBlockSplit(lines[1..], m);
    HeaderBlockSplit(lines[2..], m);
    HeaderBlockSplit(lines[3..], m);
    HeaderBlockSplit(lines[4..], m);
    assert lines[1..][1..] == lines[2..] && lines[2..][1..] == lines[3..] && lines[3..][1..] == lines[4..];
    assert lines[4..] == [l4] && lines[4..][1..] == [];
    Assoc3(p, d, CrLf, HeaderBlock([l4]) + m);
  }

  lemma {:induction false} Assoc3(a: string, b: string, c: string, r: string)
    ensures ((a + b) + c) + r == a + (b + (c + r))
  {
  }

  lemma {:induction false} DropFour(a: string, b: string, c: string, p: string, r: string)
    ensures (a + (b + (c + (p + r))))[|a| + |b| + |c| + |p|..] == r
  {
    Regroup(a, b, c, p + r);
    Assoc3(a + b, c, p, r);
    DropPrefix(((a + b) + c) + p, r);
  }

  /** A header that no line of a header block starts with is absent from it. */
  lemma {:induction false} AbsentHeader(lines: seq<string>, body: string, q: string)
    requires lines != [] && HeaderLines(lines) && q != [] && '\r' !in q
    requires FirstLineWith(lines[1..], q) == None
    ensures HeaderNumber(HeaderBlock(lines) + body, |HeaderBlock(lines)| - 4, CrLf + q) == None
    ensures HeaderText(HeaderBlock(lines) + body, |HeaderBlock(lines)| - 4, CrLf + q) == None
  {
    FindHeaderLine(lines, body, q);
    HeaderNumberAbsent(HeaderBlock(lines) + body, |HeaderBlock(lines)| - 4, CrLf + q);
  }

  /** The reply's Content-Length header reads back the message length, as
      the (int) cast leaves it. */
  lemma {:induction false} ReplyContentLength(message: string)
    ensures var eoh := |HeaderBlock(ReplyLines(IntCast(|message|)))| - 4;
            HeaderNumber(Reply(message), eoh, ContentLengthHeader) == Some(IntCast(|message|))
  {
    var n := IntCast(|message|);
    var lines := ReplyLines(n);
    var data := Reply(message);
    ReplyLinesWellFormed(n);
    ReplyText(message);
    ReplyContentLengthLine(n);
    FindHeaderLine(lines, message, "Content-Length: ");
    assert LineEnd(lines, 2) == 60 by {
      assert LineEnd(lines[2..], 0) == 23;
      assert LineEnd(lines[1..], 1) == 18 + 2 + LineEnd(lines[2..], 0);
    }
    HeaderPatterns();
    AtoiDecimal(n, CrLf + (HeaderBlock(lines[4..]) + message));
  }

  lemma {:induction false} ReplyNulFree(length: int)
    ensures '\0' !in HeaderBlock(ReplyLines(length))
  {
    var lines := ReplyLines(length);
    forall k | 0 <= k < |lines|
      ensures '\0' !in lines[k]
    {
      if k == 3 {
        DecimalPlain(length);
        assert '\0' !in "Content-Length: ";
      } else {
        ReplyLinesPlain(length, k);
      }
    }
    NoNulInBlock(lines);
  }

  /** The header patterns the framer and the decoder search for. */
  lemma {:induction false} HeaderPatterns()
    ensures CrLf + "Content-Length: " == ContentLengthHeader
    ensures CrLf + "Connection: " == ConnectionHeader
    ensures CrLf + "Pragma: " == PragmaHeader
  {
  }

  lemma {:induction false} StatusLineSplit(y: string)
    ensures "HTTP/1.1 200 OK\r\n" + y == "HTTP/1.1" + " " + Decimal(200) + (" OK\r\n" + y)
  {
    assert Digits(2) == "2" && Digits(20) == "20" && Digits(200) == "200";
    assert "HTTP/1.1 200 OK\r\n" == "HTTP/1.1" + " " + "200" + " OK\r\n";
    Regroup("HTTP/1.1", " ", "200", " OK\r\n" + y);
    Regroup("HTTP/1.1", " ", "200", " OK\r\n");
    assert ("HTTP/1.1" + " " + "200" + " OK\r\n") + y == ("HTTP/1.1" + " " + "200") + (" OK\r\n" + y);
  }

  /** The reply's status line reads 200, also after the c_str() truncation. */
  lemma {:induction false} ReplyStatus(message: string)
    ensures ResponseStatus(UntilNul(Reply(message))) == 200
  {
    var n := IntCast(|message|);
    var lines := ReplyLines(n);
    var block := HeaderBlock(lines);
    ReplyLinesWellFormed(n);
    ReplyText(message);
    ReplyNulFree(n);
    UntilNulAppend(block, message);
    var y := HeaderBlock(lines[1..]) + UntilNul(message);
    HeaderBlockSplit(lines, UntilNul(message));
    assert lines[0] + CrLf == "HTTP/1.1 200 OK\r\n";
    StatusLineSplit(y);
    var rest := " OK\r\n" + y;
    StatusOfLine("HTTP/1.1", 200, rest);
  }

  /** Round trip of the server role's reply: fed to the framer, the reply is
      one complete unit with Content-Length equal to the message length and
      no Connection: close; decoded, it has status 200 and no peer id; and the
      body after the blank line is the message. */
  lemma {:induction false} ReplyRoundTrip(message: string)
    requires |message| <= 0x7fff_ffff
    ensures var eoh := |HeaderBlock(ReplyLines(|message|))| - 4;
            && Frame(Reply(message)) == Complete(eoh, |message|, false)
            && DecodeResponse(Reply(message)) == Ok(-1, eoh)
            && Reply(message)[eoh + 4..] == message
  {
    var n := |message|;
    assert IntCast(n) == n;
    var lines := ReplyLines(n);
    var block := HeaderBlock(lines);
    var data := Reply(message);
    var eoh := |block| - 4;
    ReplyLinesWellFormed(n);
    ReplyText(message);
    EndOfHeaders(lines, message);
    ReplyContentLength(message);
    HeaderPatterns();
    assert |Decimal(n)| <= n + 1;
    TotalSizeExact(eoh, n);
    ReplyConnectionLine(n);
    AbsentHeader(lines, message, "Connection: ");
    ReplyStatus(message);
    ReplyPragmaLine(n);
    AbsentHeader(lines, message, "Pragma: ");
  }

  /** The sign-out request line. */
  function SignOutLine(id: int): string {
    "GET /sign_out?peer_id=" + Decimal(id) + " HTTP/1.0"
  }

  /** The sign-out request is one complete header block... */
  lemma {:induction false} SignOutRequestFramed(id: int)
    ensures Find(SignOutRequest(id), HeaderEnd, 0) == Some(|SignOutRequest(id)| - 4)
  {
    var line := SignOutLine(id);
    DecimalPlain(id);
    NoCrIn3("GET /sign_out?peer_id=", Decimal(id), " HTTP/1.0");
    OneLineBlock(line);
    HeaderEndAtLine(line, CrLf);
  }

  lemma {:induction false} NoCrIn3(a: string, b: string, c: string)
    requires '\r' !in a && '\r' !in b && '\r' !in c
    ensures '\r' !in a + b + c
  {
  }

  /** ... that carries the id right after "GET /sign_out?peer_id=". */
  lemma {:induction false} SignOutRequestCarriesId(id: int)
    ensures Atoi(SignOutRequest(id)[22..]) == id
  {
    var p, d, v := "GET /sign_out?peer_id=", Decimal(id), " HTTP/1.0";
    var rest := (v + CrLf) + CrLf;
    OneLineBlock(SignOutLine(id));
    Regroup5(p, d, v, CrLf);
    DropPrefix(p, d + rest);
    assert rest[0] == ' ';
    AtoiDecimal(id, rest);
  }

  /** A header block of one line. */
  lemma {:induction false} OneLineBlock(line: string)
    ensures HeaderBlock([line]) == (line + CrLf) + CrLf
  {
    assert [line][1..] == [];
    assert JoinLines([]) == "";
    assert JoinLines([line]) == line + CrLf + JoinLines([]);
  }

  lemma {:induction false} Regroup5(p: string, d: string, v: string, e: string)
    ensures ((p + d + v) + e) + e == p + (d + ((v + e) + e))
  {
  }

  /** A request whose request line reads "<verb> /OFFER<rest>" (the verb free
      of '/') is recognised, and its body is handed on as a message from the
      server-role peer (or as its hang-up when the body is "BYE"). */
  lemma {:induction false} OfferRecognised(verb: string, target: string, headers: seq<string>, body: string)
    requires '/' !in verb && '\r' !in verb && '\r' !in target && HeaderLines(headers)
    ensures var request := HeaderBlock([verb + " /OFFER" + target] + headers) + body;
            DecodeRequest(request) == Some(Relay(ServerPeerId, body))
  {
    var line := verb + " /OFFER" + target;
    var lines := [line] + headers;
    var request := HeaderBlock(lines) + body;
    assert '\r' !in line;
    assert HeaderLines(lines);
    HeaderBlockSplit(lines, body);
    assert request == line + ((CrLf + HeaderBlock(headers)) + body);
    OfferLine(verb, target, (CrLf + HeaderBlock(headers)) + body);
    EndOfHeaders(lines, body);
    assert request[|HeaderBlock(lines)|..] == body;
    DecodeRequestAt(request, |verb| + 1, |HeaderBlock(lines)| - 4);
  }

  /** The first '/' of "<verb> /OFFER<rest>" is the one before "OFFER". */
  lemma {:induction false} OfferLine(verb: string, target: string, rest: string)
    requires '/' !in verb
    ensures var request := verb + " /OFFER" + target + rest;
            && Find(request, "/", 0) == Some(|verb| + 1)
            && |verb| + 7 <= |request| && request[|verb| + 2..|verb| + 7] == "OFFER"
  {
    var request := verb + " /OFFER" + target + rest;
    forall k | 0 <= k < |verb| + 1
      ensures !Occurs(request, "/", k)
    {
      if k < |verb| {
        assert request[k] == verb[k] && verb[k] in verb;
      } else {
        assert request[k] == ' ';
      }
      OccursChar(request, '/', k);
    }
    assert request[|verb| + 1] == '/';
    OccursChar(request, '/', |verb| + 1);
    FindIs(request, "/", 0, |verb| + 1);
    forall j | 0 <= j < 5
      ensures request[|verb| + 2..|verb| + 7][j] == "OFFER"[j]
    {
      assert request[|verb| + 2 + j] == " /OFFER"[2 + j];
    }
    assert request[|verb| + 2..|verb| + 7] == "OFFER";
  }

  /** GetRequest on a request whose first '/' is at `pos`, followed by
      "OFFER", and whose headers end at `eoh`. */
  lemma {:induction false} DecodeRequestAt(request: string, pos: nat, eoh: nat)
    requires Find(request, "/", 0) == Some(pos) && pos + 6 <= |request| && request[pos + 1..pos + 6] == "OFFER"
    requires Find(request, HeaderEnd, 0) == Some(eoh)
    ensures eoh + 4 <= |request|
    ensures DecodeRequest(request) == Some(Relay(ServerPeerId, request[eoh + 4..]))
  {
    assert Substr(request, pos + 1, 5) == "OFFER";
  }
}
