/**
  The roster the server sends: one entry per line, each `name,id,connected`.
  The sign-in response carries every peer already signed in, one per
  '\n'-terminated line; a hanging-get notification carries one entry.
 */
module Roster {
  import opened Text
  import opened Observer

  datatype Entry = Entry(name: string, id: int, connected: bool)

  /** ParseEntry: the name is the text before the first comma, the id is
      what atoi reads after it, and the peer counts as connected when a
      second comma is followed by a number atoi reads as nonzero. An entry
      is accepted iff its name is non-empty. The lemmas below state the
      outcome for each shape an entry can have. */
  function ParseEntry(entry: string): (r: Option<Entry>)
    ensures r.Some? ==> r.value.name != [] && ',' !in r.value.name
    ensures r.Some? ==> |r.value.name| < |entry| && entry[..|r.value.name| + 1] == r.value.name + ","
  {
    match Find(entry, ",", 0)
    case None => None
    case Some(sep) =>
      FindCharFound(entry, ',', 0, sep);
      var name := entry[..sep];
      var connected := (
        match Find(entry, ",", sep + 1)
        case None => false
        case Some(next) =>
          FindCharFound(entry, ',', sep + 1, next);
          Atoi(entry[next + 1..]) != 0);
      if name == [] then None
      else
        assert entry[..sep + 1] == name + ",";
        Some(Entry(name, Atoi(entry[sep + 1..]), connected))
  }

  /** A line without a comma is rejected. */
  lemma {:induction false} ParseEntryNoComma(entry: string)
    requires ',' !in entry
    ensures ParseEntry(entry) == None
  {
    FindCharNoneFrom(entry, ',');
  }

  /** A line whose name is empty is rejected. */
  lemma {:induction false} ParseEntryNoName(rest: string)
    ensures ParseEntry("," + rest) == None
  {
    FindCharIs("," + rest, ',', 0);
  }

  /** `name,field` with no second comma: the id is what atoi reads in
      `field`, and the peer is not connected. */
  lemma {:induction false} ParseEntryTwoFields(name: string, field: string)
    requires name != [] && ',' !in name && ',' !in field
    ensures ParseEntry(name + "," + field) == Some(Entry(name, Atoi(field), false))
  {
    var entry := name + "," + field;
    FirstComma(name, field);
    assert entry[|name| + 1..] == field;
    FindSecondNone(entry, |name| + 1);
  }

  /** `name,field,flag` (the field free of commas): the id is what atoi
      reads from the field on, and the peer is connected iff atoi reads
      `flag` as nonzero. */
  lemma {:induction false} ParseEntryThreeFields(name: string, field: string, flag: string)
    requires name != [] && ',' !in name && ',' !in field
    ensures ParseEntry(name + "," + field + "," + flag) ==
            Some(Entry(name, Atoi(field + "," + flag), Atoi(flag) != 0))
  {
    var entry := name + "," + field + "," + flag;
    ThreeFieldsCommas(name, field, flag);
    ParseEntryAt(entry, |name|, |name| + 1 + |field|);
  }

  /** An entry whose first two commas are at `sep` and `next`. */
  lemma {:induction false} ParseEntryAt(entry: string, sep: nat, next: nat)
    requires 0 < sep && Find(entry, ",", 0) == Some(sep) && Find(entry, ",", sep + 1) == Some(next)
    ensures sep < |entry| && next < |entry|
    ensures ParseEntry(entry) == Some(Entry(entry[..sep], Atoi(entry[sep + 1..]), Atoi(entry[next + 1..]) != 0))
  {
    FindCharBounds(entry, ',', 0, sep);
    FindCharBounds(entry, ',', sep + 1, next);
  }

  /** Where the two commas of `name,field,flag` are. */
  lemma {:induction false} ThreeFieldsCommas(name: string, field: string, flag: string)
    requires ',' !in name && ',' !in field
    ensures var entry := name + "," + field + "," + flag;
            && Find(entry, ",", 0) == Some(|name|)
            && Find(entry, ",", |name| + 1) == Some(|name| + 1 + |field|)
            && entry[..|name|] == name
            && entry[|name| + 1..] == field + "," + flag
            && entry[|name| + 1 + |field| + 1..] == flag
  {
    var entry := name + "," + field + "," + flag;
    var k := |name| + 1 + |field|;
    Regroup3(name, field, flag);
    FirstComma(name, field + "," + flag);
    assert entry[|name| + 1..] == field + "," + flag;
    assert entry[k] == ',' && entry[k + 1..] == flag;
    forall j | |name| + 1 <= j < k
      ensures entry[j] != ','
    {
      assert entry[j] == field[j - |name| - 1] && field[j - |name| - 1] in field;
    }
    FindCharFrom(entry, ',', |name| + 1, k);
  }

  lemma {:induction false} Regroup3(name: string, field: string, flag: string)
    ensures name + "," + field + "," + flag == (name + ",") + (field + "," + flag)
  {
  }

  /** The first comma of `name,rest` is the one after the name. */
  lemma {:induction false} FirstComma(name: string, rest: string)
    requires ',' !in name
    ensures Find(name + "," + rest, ",", 0) == Some(|name|)
    ensures (name + "," + rest)[..|name|] == name
  {
    var entry := name + "," + rest;
    forall j | 0 <= j < |name|
      ensures entry[j] != ','
    {
      assert entry[j] == name[j] && name[j] in name;
    }
    FindCharIs(entry, ',', |name|);
  }

  /** No comma at or after `from`: the search from there finds none. */
  lemma {:induction false} FindSecondNone(s: string, from: nat)
    requires from <= |s| && ',' !in s[from..]
    ensures Find(s, ",", from) == None
  {
    match Find(s, ",", from)
    case None =>
    case Some(i) =>
      FindCharFound(s, ',', from, i);
      assert false;
  }

  /** A search from `from` finds the first position at or after it that holds `c`. */
  lemma {:induction false} FindCharFrom(s: string, c: char, from: nat, i: nat)
    requires from <= i < |s| && s[i] == c
    requires forall j :: from <= j < i ==> s[j] != c
    ensures Find(s, [c], from) == Some(i)
  {
    OccursChar(s, c, i);
    forall j | from <= j < i
      ensures !Occurs(s, [c], j)
    {
      OccursChar(s, c, j);
    }
    FindIs(s, [c], from, i);
  }

  /** How the server writes one entry. */
  function EntryText(e: Entry): string {
    e.name + "," + Decimal(e.id) + "," + (if e.connected then "1" else "0")
  }

  /** Parsing reads back every entry whose name is non-empty and comma-free. */
  lemma {:induction false} ParseEntryText(e: Entry)
    requires e.name != [] && ',' !in e.name
    ensures ParseEntry(EntryText(e)) == Some(e)
  {
    var d := Decimal(e.id);
    var flag := if e.connected then "1" else "0";
    DecimalPlain(e.id);
    ParseEntryThreeFields(e.name, d, flag);
    IdField(e.id, flag);
    FlagValue(e.connected);
  }

  /** The id field reads back, whatever flag follows it. */
  lemma {:induction false} IdField(id: int, flag: string)
    ensures Atoi(Decimal(id) + "," + flag) == id
  {
    assert Decimal(id) + "," + flag == Decimal(id) + ("," + flag);
    AtoiDecimal(id, "," + flag);
  }

  /** The flag the server writes reads back. */
  lemma {:induction false} FlagValue(connected: bool)
    ensures Atoi(if connected then "1" else "0") != 0 <==> connected
  {
    var flag := if connected then "1" else "0";
    assert flag == Digits(if connected then 1 else 0) + "";
    AtoiDigits(if connected then 1 else 0, "");
  }

  // ---------------------------------------------------------------------
  // The lines of a sign-in response body
  // ---------------------------------------------------------------------

  /** The '\n'-terminated lines of `s`, terminators dropped; a trailing
      unterminated line is not a line. */
  function Lines(s: string): (r: seq<string>)
    decreases |s|
  {
    match Find(s, "\n", 0)
    case None => []
    case Some(e) =>
      FindCharBounds(s, '\n', 0, e);
      [s[..e]] + Lines(s[e + 1..])
  }

  /** The loop visits no line at all iff the body holds no '\n'. */
  lemma {:induction false} LinesEmpty(s: string)
    ensures Lines(s) == [] <==> '\n' !in s
  {
    match Find(s, "\n", 0)
    case None =>
      FindCharNone(s, '\n', 0);
    case Some(e) =>
      FindCharBounds(s, '\n', 0, e);
  }

  /** No line holds a '\n'. */
  lemma {:induction false} LinesHaveNoNewline(s: string)
    ensures forall k :: 0 <= k < |Lines(s)| ==> '\n' !in Lines(s)[k]
    decreases |s|
  {
    match Find(s, "\n", 0)
    case None =>
    case Some(e) =>
      FindCharFound(s, '\n', 0, e);
      LinesHaveNoNewline(s[e + 1..]);
      assert Lines(s) == [s[..e]] + Lines(s[e + 1..]);
  }

  /** Lines written back, each followed by its '\n'. */
  function Terminated(lines: seq<string>): string {
    if lines == [] then "" else lines[0] + "\n" + Terminated(lines[1..])
  }

  /** The lines of `s`, terminated again, are all of `s` but a trailing
      piece with no '\n' in it. */
  lemma {:induction false} LinesCover(s: string)
    ensures Terminated(Lines(s)) <= s
    ensures '\n' !in s[|Terminated(Lines(s))|..]
    decreases |s|
  {
    match Find(s, "\n", 0)
    case None =>
      FindCharNone(s, '\n', 0);
    case Some(e) =>
      var rest := s[e + 1..];
      var head := s[..e] + "\n";
      LinesStep(s, e);
      LinesCover(rest);
      TerminatedStep(s[..e], Lines(rest));
      PrefixAppend(head, Terminated(Lines(rest)), rest);
  }

  /** One step of the split: the first line, then the lines of what follows it. */
  lemma {:induction false} LinesStep(s: string, e: nat)
    requires Find(s, "\n", 0) == Some(e)
    ensures e < |s| && s == (s[..e] + "\n") + s[e + 1..]
    ensures Lines(s) == [s[..e]] + Lines(s[e + 1..])
  {
    FindCharFound(s, '\n', 0, e);
  }

  lemma {:induction false} TerminatedStep(line: string, lines: seq<string>)
    ensures Terminated([line] + lines) == (line + "\n") + Terminated(lines)
  {
    assert ([line] + lines)[1..] == lines;
  }

  lemma {:induction false} PrefixAppend(a: string, t: string, b: string)
    requires t <= b
    ensures a + t <= a + b && (a + b)[|a + t|..] == b[|t|..]
  {
    assert (a + t) == (a + b)[..|a + t|];
  }

  /** Conversely, terminated lines followed by a piece without '\n' split
      back into exactly those lines: every terminated line is taken and the
      unterminated tail is ignored. */
  lemma {:induction false} LinesOfTerminated(lines: seq<string>, tail: string)
    requires forall k :: 0 <= k < |lines| ==> '\n' !in lines[k]
    requires '\n' !in tail
    ensures Lines(Terminated(lines) + tail) == lines
  {
    var s := Terminated(lines) + tail;
    if lines == [] {
      assert s == tail;
      FindCharNoneFrom(s, '\n');
    } else {
      var l := lines[0];
      assert s == l + ("\n" + (Terminated(lines[1..]) + tail));
      assert s[|l|] == '\n';
      forall j | 0 <= j < |l|
        ensures s[j] != '\n'
      {
        assert s[j] == l[j] && l[j] in l;
      }
      FindCharIs(s, '\n', |l|);
      assert s[..|l|] == l;
      assert s[|l| + 1..] == Terminated(lines[1..]) + tail;
      LinesOfTerminated(lines[1..], tail);
    }
  }

  /** A search for a character absent from the string finds nothing. */
  lemma {:induction false} FindCharNoneFrom(s: string, c: char)
    requires c !in s
    ensures Find(s, [c], 0) == None
  {
    match Find(s, [c], 0)
    case None =>
    case Some(i) =>
      FindCharFound(s, c, 0, i);
      assert false;
  }

  /** A search for a character finds its first position. */
  lemma {:induction false} FindCharIs(s: string, c: char, i: nat)
    requires i < |s| && s[i] == c
    requires forall j :: 0 <= j < i ==> s[j] != c
    ensures Find(s, [c], 0) == Some(i)
  {
    OccursChar(s, c, i);
    forall j | 0 <= j < i
      ensures !Occurs(s, [c], j)
    {
      OccursChar(s, c, j);
    }
    FindIs(s, [c], 0, i);
  }

  // ---------------------------------------------------------------------
  // Seeding the roster at sign-in
  // ---------------------------------------------------------------------

  /** The roster being built and the callbacks raised so far. */
  datatype Seeding = Seeding(peers: map<int, string>, events: seq<Event>)

  /** `line` is a roster entry, for `id`, that sign-in takes in: it parses
      and is not about the peer itself. */
  predicate Admits(line: string, myId: int, id: int) {
    ParseEntry(line).Some? && ParseEntry(line).value.id == id && id != myId
  }

  /** One body line: a parsed entry about another peer is inserted (a later
      entry for the same id overwrites an earlier one) and announced. */
  function Admit(acc: Seeding, line: string, myId: int): Seeding {
    match ParseEntry(line)
    case None => acc
    case Some(e) =>
      if e.id != myId then Seeding(acc.peers[e.id := e.name], acc.events + [PeerConnected(e.id, e.name)])
      else acc
  }

  /** The sign-in loop over the body lines, first to last. The peer's own id
      is never inserted, no peer already known is dropped, and the callbacks
      raised so far stay in front. */
  function Seed(lines: seq<string>, myId: int, acc: Seeding): (r: Seeding)
    ensures myId !in acc.peers ==> myId !in r.peers
    ensures acc.peers.Keys <= r.peers.Keys
    ensures |acc.events| <= |r.events| && r.events[..|acc.events|] == acc.events
    decreases |lines|
  {
    if lines == [] then acc else Seed(lines[1..], myId, Admit(acc, lines[0], myId))
  }

  /** Each callback `events[k]` from `from` on announces a peer other than
      `myId` that is in `peers`. */
  predicate Announces(events: seq<Event>, from: nat, myId: int, peers: map<int, string>) {
    forall k :: from <= k < |events| ==>
      events[k].PeerConnected? && events[k].id != myId && events[k].id in peers
  }

  /** Every callback sign-in raises announces a peer that ends up in the
      roster, and never the peer itself. */
  lemma {:induction false} SeedAnnounces(lines: seq<string>, myId: int, acc: Seeding)
    ensures Announces(Seed(lines, myId, acc).events, |acc.events|, myId, Seed(lines, myId, acc).peers)
    decreases |lines|
  {
    if lines != [] {
      var next := Admit(acc, lines[0], myId);
      var r := Seed(lines, myId, acc);
      assert r == Seed(lines[1..], myId, next);
      SeedAnnounces(lines[1..], myId, next);
      assert Announces(next.events, |acc.events|, myId, next.peers);
      assert r.events[..|next.events|] == next.events;
      forall k | |acc.events| <= k < |r.events|
        ensures r.events[k].PeerConnected? && r.events[k].id != myId && r.events[k].id in r.peers
      {
        if k < |next.events| {
          assert r.events[k] == next.events[k];
        }
      }
    }
  }

  /** Every line that admits a peer puts it in the roster. */
  lemma {:induction false} SeedAdmits(lines: seq<string>, myId: int, acc: Seeding, k: nat, e: Entry)
    requires k < |lines| && ParseEntry(lines[k]) == Some(e) && e.id != myId
    ensures e.id in Seed(lines, myId, acc).peers
    decreases |lines|
  {
    var next := Admit(acc, lines[0], myId);
    assert Seed(lines, myId, acc) == Seed(lines[1..], myId, next);
    if k > 0 {
      assert lines[1..][k - 1] == lines[k];
      SeedAdmits(lines[1..], myId, next, k - 1, e);
    } else {
      AdmitInserts(acc, lines[0], myId, e);
    }
  }

  /** A line that admits a peer inserts it under its name. */
  lemma {:induction false} AdmitInserts(acc: Seeding, line: string, myId: int, e: Entry)
    requires ParseEntry(line) == Some(e) && e.id != myId
    ensures e.id in Admit(acc, line, myId).peers
    ensures Admit(acc, line, myId).peers[e.id] == e.name
  {
  }

  /** An id no line admits keeps its place, and its name, in the roster. */
  lemma {:induction false} SeedUntouched(lines: seq<string>, myId: int, acc: Seeding, id: int)
    requires forall k :: 0 <= k < |lines| ==> !Admits(lines[k], myId, id)
    ensures id in Seed(lines, myId, acc).peers <==> id in acc.peers
    ensures id in acc.peers ==> Seed(lines, myId, acc).peers[id] == acc.peers[id]
    decreases |lines|
  {
    if lines != [] {
      assert !Admits(lines[0], myId, id);
      var next := Admit(acc, lines[0], myId);
      assert (id in next.peers <==> id in acc.peers) && (id in acc.peers ==> next.peers[id] == acc.peers[id]);
      forall k | 0 <= k < |lines| - 1
        ensures !Admits(lines[1..][k], myId, id)
      {
        assert lines[1..][k] == lines[k + 1];
      }
      SeedUntouched(lines[1..], myId, next, id);
    }
  }

  /** The name a peer ends up with is the one on the last line admitting it. */
  lemma {:induction false} SeedLastWins(lines: seq<string>, myId: int, acc: Seeding, k: nat, e: Entry)
    requires k < |lines| && ParseEntry(lines[k]) == Some(e) && e.id != myId
    requires forall j :: k < j < |lines| ==> !Admits(lines[j], myId, e.id)
    ensures e.id in Seed(lines, myId, acc).peers
    ensures Seed(lines, myId, acc).peers[e.id] == e.name
    decreases |lines|
  {
    SeedAdmits(lines, myId, acc, k, e);
    var next := Admit(acc, lines[0], myId);
    assert Seed(lines, myId, acc) == Seed(lines[1..], myId, next);
    if k == 0 {
      AdmitInserts(acc, lines[0], myId, e);
      forall j | 0 <= j < |lines| - 1
        ensures !Admits(lines[1..][j], myId, e.id)
      {
        assert lines[1..][j] == lines[j + 1];
      }
      SeedUntouched(lines[1..], myId, next, e.id);
    } else {
      assert lines[1..][k - 1] == lines[k];
      forall j | k - 1 < j < |lines| - 1
        ensures !Admits(lines[1..][j], myId, e.id)
      {
        assert lines[1..][j] == lines[j + 1];
      }
      SeedLastWins(lines[1..], myId, next, k - 1, e);
    }
  }

  /** A peer enters the roster only through a line that admits it. */
  lemma {:induction false} SeedOnlyAdmitted(lines: seq<string>, myId: int, acc: Seeding, id: int)
    requires id in Seed(lines, myId, acc).peers && id !in acc.peers
    ensures exists k :: 0 <= k < |lines| && Admits(lines[k], myId, id)
  {
    if forall k :: 0 <= k < |lines| ==> !Admits(lines[k], myId, id) {
      SeedUntouched(lines, myId, acc, id);
    }
  }

  // ---------------------------------------------------------------------
  // Hanging-get notifications
  // ---------------------------------------------------------------------

  /** A notification whose Pragma id is `peerId`, for a listener whose own
      id is `myId`. Addressed to the listener itself, it is a roster update:
      the entry's peer is inserted under its name when connected and erased
      otherwise, and no other peer changes. From anyone else it is a message
      relayed from that peer, a "BYE" body being its hang-up. */
  function Notify(myId: int, peerId: int, body: string, peers: map<int, string>): (r: Seeding)
    ensures myId != peerId ==> r.peers == peers && r.events == [Relay(peerId, body)]
    ensures myId == peerId && ParseEntry(body).None? ==> r.peers == peers && r.events == []
    ensures myId == peerId && ParseEntry(body).Some? ==>
              var e := ParseEntry(body).value;
              && (e.id in r.peers <==> e.connected)
              && (e.connected ==> r.peers[e.id] == e.name)
              && (forall id :: id != e.id ==> (id in r.peers <==> id in peers))
              && (forall id :: id != e.id && id in peers ==> r.peers[id] == peers[id])
              && r.events == [if e.connected then PeerConnected(e.id, e.name) else PeerDisconnected(e.id)]
  {
    if myId == peerId then
      match ParseEntry(body)
      case None => Seeding(peers, [])
      case Some(e) =>
        if e.connected then Seeding(peers[e.id := e.name], [PeerConnected(e.id, e.name)])
        else Seeding(peers - {e.id}, [PeerDisconnected(e.id)])
    else Seeding(peers, [Relay(peerId, body)])
  }
}
