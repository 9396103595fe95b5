/** The two frames of a sync reply: `name:ip:port:[f1,f2,...]` and `name:ip:port`. */
module Wire {
  import opened Arithmetic
  import opened CStrings
  import opened Options

  const NODENAME_LEN: nat := 32
  const INET_ADDRSTRLEN: nat := 16
  const PEERSTR_LEN: nat := NODENAME_LEN + INET_ADDRSTRLEN + 8

  datatype NetworkNode = NetworkNode(name: CString, ipaddr: CString, port: Port)

  datatype NodeFile = NodeFile(name: CString, node: NetworkNode)

  /** What one node message announces. */
  datatype Announcement = Announcement(node: NetworkNode, files: seq<CString>)

  // ---- printing ----

  function PrintPeer(node: NetworkNode): CString {
    node.name + ":" + node.ipaddr + ":" + Decimal(node.port)
  }

  function FileListing(files: seq<CString>): (s: CString)
    ensures s != [] && (files == [] <==> |s| == 1)
  {
    JoinIsCString(files, ',');
    if files == [] then "]" else "[" + Join(files, ',') + "]"
  }

  function PrintMessage(node: NetworkNode, files: seq<CString>): CString {
    PrintPeer(node) + ":" + FileListing(files)
  }

  lemma JoinIsCString(ws: seq<CString>, d: char)
    requires d != NUL
    ensures NUL !in Join(ws, d)
  {
  }

  // ---- parsing ----

  function Fields(s: CString): seq<CString> {
    TokensAreClean(s, ':');
    Tokens(s, ':')
  }

  /** None where the source would go on to dereference a missing token. */
  function ParsePeer(s: CString): Option<NetworkNode> {
    var f := Fields(s);
    if |f| < 3 then None else Some(NetworkNode(f[0], f[1], ToPort(f[2])))
  }

  function Names(s: CString): seq<CString> {
    TokensAreClean(s, ',');
    Tokens(s, ',')
  }

  function ParseListing(t: CString): seq<CString> {
    if |t| > 2 then Names(t[1..|t| - 1]) else []
  }

  function ParseMessage(s: CString): Option<Announcement> {
    var f := Fields(s);
    if |f| < 4 then None
    else Some(Announcement(NetworkNode(f[0], f[1], ToPort(f[2])), ParseListing(f[3])))
  }

  /** What the frames look like. */
  lemma PeerInPrint()
    ensures PrintPeer(NetworkNode("bob", "10.0.0.7", 80)) == "bob:10.0.0.7:80"
  {
    DecimalInPrint(8, 8);
    DecimalInPrint(8, 0);
    assert Decimal(80) == "80";
  }

  lemma ListingInPrint()
    ensures FileListing(["a.txt", "b"]) == "[a.txt,b]" && FileListing(["c"]) == "[c]" && FileListing([]) == "]"
  {
    JoinTwo("a.txt", "b", ',');
  }

  lemma MessageInPrint()
    ensures PrintMessage(NetworkNode("bob", "10.0.0.7", 80), ["a.txt", "b"]) == "bob:10.0.0.7:80:[a.txt,b]"
  {
    PeerInPrint();
    ListingInPrint();
  }

  lemma JoinTwo(a: string, b: string, d: char)
    ensures Join([a, b], d) == a + [d] + b
  {
    assert [a, b][1..] == [b];
  }

  // ---- round trips ----

  predicate CleanNode(node: NetworkNode) {
    Clean(node.name, ':') && Clean(node.ipaddr, ':')
  }

  predicate CleanFiles(files: seq<CString>) {
    AllClean(files, ':') && AllClean(files, ',')
  }

  lemma DecimalHasNoColon(n: nat)
    ensures Clean(Decimal(n), ':')
  {
    NumeralDigits(n, 10, 0);
    if ':' in Decimal(n) { DecimalDigits(n, ':'); }
  }

  lemma ThreeFields(a: string, b: string, c: string)
    requires Clean(a, ':') && Clean(b, ':') && Clean(c, ':')
    ensures Tokens(a + ":" + (b + ":" + c), ':') == [a, b, c]
  {
    LastToken(c, ':');
    TokenThenDelimiter(b, ':', c);
    TokenThenDelimiter(a, ':', b + ":" + c);
  }

  lemma PeerFields(node: NetworkNode)
    requires CleanNode(node)
    ensures Fields(PrintPeer(node)) == [node.name, node.ipaddr, Decimal(node.port)]
  {
    DecimalHasNoColon(node.port);
    ThreeFields(node.name, node.ipaddr, Decimal(node.port));
    assert PrintPeer(node) == node.name + ":" + (node.ipaddr + ":" + Decimal(node.port));
  }

  /** Whatever text a peer sends, a record read from it is clean. */
  lemma ParsedPeerIsClean(s: CString)
    ensures ParsePeer(s).Some? ==> CleanNode(ParsePeer(s).value)
  {
    TokensAreClean(s, ':');
  }

  /** Whatever text a node sends, the announcement read from it is clean. */
  lemma ParsedMessageIsClean(s: CString)
    requires ParseMessage(s).Some?
    ensures CleanNode(ParseMessage(s).value.node) && CleanFiles(ParseMessage(s).value.files)
  {
    TokensAreClean(s, ':');
    var t := Fields(s)[3];
    assert Clean(t, ':');
    if |t| > 2 {
      var inner := t[1..|t| - 1];
      TokensAreClean(inner, ',');
      forall w | w in ParseListing(t)
        ensures Clean(w, ':')
      {
        assert ':' in w ==> ':' in inner;
      }
    }
  }

  /** A peer record survives the wire exactly when its name and address are non-empty and
      colon-free; the port always does. */
  lemma PeerRoundTrip(node: NetworkNode)
    ensures ParsePeer(PrintPeer(node)) == Some(node) <==> CleanNode(node)
  {
    ParsedPeerIsClean(PrintPeer(node));
    if CleanNode(node) {
      PeerFields(node);
      PortRoundTrip(node.port);
    }
  }

  lemma ListingIsClean(files: seq<CString>)
    requires CleanFiles(files)
    ensures Clean(FileListing(files), ':')
  {
    if ':' in Join(files, ',') { JoinChars(files, ',', ':'); }
  }

  lemma ListingRoundTrip(files: seq<CString>)
    requires AllClean(files, ',')
    ensures ParseListing(FileListing(files)) == files
  {
    if files != [] {
      assert Clean(files[0], ',');
      var t := FileListing(files);
      assert t[1..|t| - 1] == Join(files, ',');
      TokensOfJoin(files, ',');
    }
  }

  /** The whole node message survives exactly when its fields are non-empty and free of the
      delimiters around them. The empty listing, printed as a lone bracket, is no exception. */
  lemma MessageRoundTrip(node: NetworkNode, files: seq<CString>)
    ensures ParseMessage(PrintMessage(node, files)) == Some(Announcement(node, files))
       <==> CleanNode(node) && CleanFiles(files)
  {
    var s := PrintMessage(node, files);
    if ParseMessage(s).Some? { ParsedMessageIsClean(s); }
    if CleanNode(node) && CleanFiles(files) { CleanMessageSurvives(node, files); }
  }

  lemma CleanMessageSurvives(node: NetworkNode, files: seq<CString>)
    requires CleanNode(node) && CleanFiles(files)
    ensures ParseMessage(PrintMessage(node, files)) == Some(Announcement(node, files))
  {
    MessageFields(node, files);
    PortRoundTrip(node.port);
    ListingRoundTrip(files);
  }

  lemma MessageFields(node: NetworkNode, files: seq<CString>)
    requires CleanNode(node) && CleanFiles(files)
    ensures Fields(PrintMessage(node, files)) == [node.name, node.ipaddr, Decimal(node.port), FileListing(files)]
  {
    var p, t := Decimal(node.port), FileListing(files);
    DecimalHasNoColon(node.port);
    ListingIsClean(files);
    ThreeFields(node.ipaddr, p, t);
    TokenThenDelimiter(node.name, ':', node.ipaddr + ":" + (p + ":" + t));
    FourFields(node.name, node.ipaddr, p, t);
  }

  lemma FourFields(a: string, b: string, c: string, d: string)
    ensures a + ":" + b + ":" + c + ":" + d == a + ":" + (b + ":" + (c + ":" + d))
  {
  }

  /** A node whose name was never set announces its address as its name, and its message runs
      out of fields, so the receiver is left without a file list to read. */
  lemma UnsetNameLosesTheListing(node: NetworkNode, files: seq<CString>)
    requires node.name == [] && Clean(node.ipaddr, ':') && CleanFiles(files)
    ensures ParseMessage(PrintMessage(node, files)) == None
  {
    var p, t := Decimal(node.port), FileListing(files);
    DecimalHasNoColon(node.port);
    ListingIsClean(files);
    ThreeFields(node.ipaddr, p, t);
    var tail := node.ipaddr + ":" + (p + ":" + t);
    FourFields([], node.ipaddr, p, t);
    assert PrintMessage(node, files) == [':'] + tail;
    assert ([':'] + tail)[1..] == tail;
  }

  /** The file names `parse_node` reads when the terminator is written one byte late, so that
      one byte of whatever the stack buffer held before ends up in the list. */
  function ListingAsWritten(t: CString, stale: char): seq<string> {
    if |t| > 2 then Tokens(CStr(t[1..|t| - 1] + [stale]), ',') else []
  }

  lemma {:induction false} TrailingDelimiter(s: string, d: char)
    ensures Tokens(s + [d], d) == Tokens(s, d)
    decreases |s|
  {
    var t := s + [d];
    if s == [] {
      assert t[1..] == [];
    } else if s[0] == d {
      assert t[1..] == s[1..] + [d];
      TrailingDelimiter(s[1..], d);
    } else {
      var n := Span(s, d);
      assert t[..n] == s[..n] && t[n..] == s[n..] + [d];
      SpanIs(t, d, n);
      TrailingDelimiter(s[n..], d);
    }
  }

  /** With the late terminator the names survive exactly when the stale byte happens to be a
      terminator or one more delimiter. */
  lemma LateTerminator(files: seq<CString>, stale: char)
    requires AllClean(files, ',')
    ensures ListingAsWritten(FileListing(files), stale) == files <==> files == [] || stale == NUL || stale == ','
  {
    if files != [] {
      assert Clean(files[0], ',');
      var t, body := FileListing(files), Join(files, ',');
      JoinIsCString(files, ',');
      assert t[1..|t| - 1] == body;
      TokensOfJoin(files, ',');
      if stale == NUL {
        CStrTerminated(body, []);
        assert body + [NUL] + [] == body + [NUL];
      } else {
        CStrOfClean(body + [stale]);
        if stale == ',' { TrailingDelimiter(body, ','); } else { StaleByteSticks(files, stale); }
      }
    }
  }

  lemma {:induction false} StaleByteSticks(files: seq<string>, stale: char)
    requires files != [] && AllClean(files, ',') && stale != ','
    ensures Tokens(Join(files, ',') + [stale], ',') != files
  {
    var body := Join(files, ',');
    if |files| == 1 {
      assert body == files[0] && Clean(files[0], ',');
      assert ',' !in body + [stale];
      LastToken(body + [stale], ',');
      assert |body + [stale]| != |body|;
    } else {
      var rest := Join(files[1..], ',') + [stale];
      assert body + [stale] == files[0] + [','] + rest;
      TokenThenDelimiter(files[0], ',', rest);
      StaleByteSticks(files[1..], stale);
      assert files == [files[0]] + files[1..];
    }
  }

  /** The record fits the fixed fields the source keeps it in. */
  predicate FitsRecord(node: NetworkNode) {
    |node.name| < NODENAME_LEN && |node.ipaddr| < INET_ADDRSTRLEN
  }

  /** Names of up to 31 and addresses of up to 15 characters fit; the peer buffer has 56. */
  lemma RecordsThatFit(node: NetworkNode)
    ensures FitsRecord(node) <==> |node.name| <= 31 && |node.ipaddr| <= 15
    ensures PEERSTR_LEN == 56
  {
  }

  /** The printed record and its terminator always fit the peer buffer, with two bytes to spare. */
  lemma PeerFits(node: NetworkNode)
    requires FitsRecord(node)
    ensures |PrintPeer(node)| + 1 <= PEERSTR_LEN - 2
  {
    assert Pow(10, 5) == 100000;
    DecimalLength(node.port, 5, 100000);
  }

  // ---- the printing code, with its running offsets ----

  function Terminated(files: seq<CString>): CString {
    if files == [] then [] else files[0] + "," + Terminated(files[1..])
  }

  lemma {:induction false} TerminatedAppend(files: seq<CString>, f: CString)
    ensures Terminated(files + [f]) == Terminated(files) + (f + ",")
  {
    var all := files + [f];
    if files == [] {
      assert all[1..] == [];
    } else {
      assert all[0] == files[0] && all[1..] == files[1..] + [f];
      TerminatedAppend(files[1..], f);
      var rest := Terminated(files[1..]);
      assert files[0] + "," + (rest + (f + ",")) == files[0] + "," + rest + (f + ",");
    }
  }

  lemma {:induction false} TerminatedIsJoin(files: seq<CString>)
    requires files != []
    ensures Terminated(files) == Join(files, ',') + ","
  {
    if |files| == 1 {
      assert Terminated(files[1..]) == [];
    } else {
      TerminatedIsJoin(files[1..]);
    }
  }

  /** Builds the listing in place; the count returned is one more than the text's length. */
  method FormFileStr(str: array<char>, entries: seq<CString>) returns (offset: nat)
    requires str.Length >= 3 + |Terminated(entries)|
    modifies str
    ensures CStr(str[..]) == FileListing(entries) && NUL in str[..]
    ensures offset == |FileListing(entries)| + 1
  {
    offset := Sprintf(str, 0, "[]");
    offset := offset - 1;
    assert str[..1] == str[..2][..1] == "[" + Terminated([]);
    assert entries[..0] == [] && entries[0..] == entries;
    for i := 0 to |entries|
      invariant Opened(str[..], offset, entries, i)
    {
      offset := AppendName(str, offset, entries, i);
    }
    assert entries[..|entries|] == entries;
    offset := CloseListing(str, offset, entries);
  }

  /** The bracket and the first `i` names are written, and the rest has its room. */
  ghost predicate Opened(str: string, offset: nat, entries: seq<CString>, i: nat)
    requires i <= |entries|
  {
    && offset + |Terminated(entries[i..])| + 2 <= |str|
    && str[..offset] == "[" + Terminated(entries[..i])
  }

  method AppendName(str: array<char>, offset: nat, entries: seq<CString>, i: nat) returns (next: nat)
    requires i < |entries| && Opened(str[..], offset, entries, i)
    modifies str
    ensures Opened(str[..], next, entries, i + 1)
  {
    TerminatedStep(entries, i);
    var n := Sprintf(str, offset, entries[i] + ",");
    next := offset + n;
    assert str[..next] == "[" + Terminated(entries[..i]) + (entries[i] + ",");
  }

  /** Writes the closing bracket over the last character written so far. */
  method CloseListing(str: array<char>, offset: nat, entries: seq<CString>) returns (end: nat)
    requires offset == 1 + |Terminated(entries)| < str.Length && str[..offset] == "[" + Terminated(entries)
    modifies str
    ensures CStr(str[..]) == FileListing(entries) && NUL in str[..]
    ensures end == |FileListing(entries)| + 1
  {
    ListingFromTerminated(entries);
    ghost var written := str[..offset];
    var n := Sprintf(str, offset - 1, "]");
    assert str[..offset] == written[..offset - 1] + "]";
    CStrDepends(str[..], FileListing(entries));
    end := offset + n;
  }

  lemma TerminatedStep(entries: seq<CString>, i: nat)
    requires i < |entries|
    ensures Terminated(entries[..i + 1]) == Terminated(entries[..i]) + (entries[i] + ",")
    ensures |Terminated(entries[i..])| == |entries[i]| + 1 + |Terminated(entries[i + 1..])|
  {
    assert entries[..i + 1] == entries[..i] + [entries[i]];
    TerminatedAppend(entries[..i], entries[i]);
    assert entries[i..][1..] == entries[i + 1..];
  }

  /** Overwriting the last written character with the closing bracket completes the listing. */
  lemma ListingFromTerminated(entries: seq<CString>)
    ensures ("[" + Terminated(entries))[..|Terminated(entries)|] + "]" == FileListing(entries)
  {
    if entries != [] { TerminatedIsJoin(entries); }
  }

  method FormNodeMsg(msg: array<char>, node: NetworkNode)
    requires |PrintPeer(node)| < msg.Length
    modifies msg
    ensures CStr(msg[..]) == PrintPeer(node)
  {
    var n := Sprintf(msg, 0, node.name + ":" + node.ipaddr + ":" + Decimal(node.port));
    CStrDepends(msg[..], PrintPeer(node));
  }

  /** The node message of a sync reply. The count passed to `send` runs one byte past the
      terminator, so the frame always carries the whole C string. */
  method FormSyncMessage(sendbuf: array<char>, filename: array<char>, node: NetworkNode, entries: seq<CString>)
    returns (sent: nat)
    requires sendbuf != filename
    requires sendbuf.Length >= |PrintMessage(node, entries)| + 2
    requires filename.Length >= 3 + |Terminated(entries)|
    modifies sendbuf, filename
    ensures sent == |PrintMessage(node, entries)| + 2 <= sendbuf.Length
    ensures CStr(sendbuf[..sent]) == CStr(sendbuf[..]) == PrintMessage(node, entries)
  {
    var printfOffset := Sprintf(sendbuf, 0, node.name + ":" + node.ipaddr + ":" + Decimal(node.port) + ":");
    CStrDepends(sendbuf[..], PrintPeer(node) + ":");
    var fileStrSize := FormFileStr(filename, entries);
    Strcat(sendbuf, CStr(filename[..]));
    sent := printfOffset + fileStrSize + 1;
    FrameCarries(sendbuf[..], sent, PrintMessage(node, entries));
  }

  lemma FrameCarries(b: string, sent: nat, msg: CString)
    requires CStr(b) == msg && |msg| < sent <= |b|
    ensures CStr(b[..sent]) == msg
  {
    assert b[..sent][..|msg|] == msg;
    CStrDepends(b[..sent], msg);
  }

  // ---- the parsing code, one strtok call per field ----

  /** Takes name, address and port off a frame; what follows them is still to be split. */
  method ReadNode(strtok: Tokenizer, data: array<char>) returns (node: NetworkNode)
    requires NUL in data[..] && ParsePeer(CStr(data[..])).Some?
    modifies strtok, data
    ensures strtok.Valid() && strtok.buf == data
    ensures ParsePeer(old(CStr(data[..]))) == Some(node)
    ensures Tokens(strtok.Rest(), ':') == Fields(old(CStr(data[..])))[3..]
  {
    ghost var f := Fields(CStr(data[..]));
    var name, ipaddr, port, found;
    name, found := strtok.FirstField(data, ':');
    assert Tokens(strtok.Rest(), ':') == f[1..];
    ipaddr, found := strtok.NextField(':');
    assert Tokens(strtok.Rest(), ':') == f[2..];
    port, found := strtok.NextField(':');
    node := NetworkNode(name, ipaddr, ToPort(port));
  }

  /** Takes all four fields of a node message off a frame. */
  method ReadFields(strtok: Tokenizer, data: array<char>) returns (node: NetworkNode, listing: CString)
    requires NUL in data[..] && ParseMessage(CStr(data[..])).Some?
    modifies strtok, data
    ensures ParseMessage(old(CStr(data[..]))) == Some(Announcement(node, ParseListing(listing)))
  {
    ghost var s := CStr(data[..]);
    var found;
    node := ReadNode(strtok, data);
    assert Fields(s)[3..][0] == Fields(s)[3];
    listing, found := strtok.NextField(':');
  }
}
