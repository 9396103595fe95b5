/** A running node: its two pools, and the code that reads sync replies into them. */
module Peer {
  import opened CStrings
  import opened LinkedLists
  import opened Options
  import opened Pools
  import opened Sequences
  import opened Wire
  import SyncerPass

  const NODE_SYNC: int := 1

  /** What the socket calls of one sync come to: whether the signal could be sent and answered,
      the answer, the node message, whether the peer count arrived, and the peer frames. */
  datatype Reply = Reply(sendOk: bool, recvOk: bool, signal: int, frame: string,
                         countOk: bool, count: int, peers: seq<string>)
  {
    predicate Dead() {
      !sendOk || !recvOk || signal < 0
    }

    function PeersRead(): nat {
      if countOk && count > 0 then count else 0
    }

    /** The frames are C strings with all the fields the code dereferences. */
    ghost predicate Readable() {
      !Dead() ==>
        && NUL in frame && ParseMessage(CStr(frame)).Some?
        && PeersRead() <= |peers|
        && forall j :: 0 <= j < PeersRead() ==> NUL in peers[j] && ParsePeer(CStr(peers[j])).Some?
    }

    ghost function Message(): Announcement
      requires Readable() && !Dead()
    {
      ParseMessage(CStr(frame)).value
    }

    ghost function Peers(): seq<NetworkNode>
      requires Readable() && !Dead()
    {
      seq(PeersRead(), j requires 0 <= j < PeersRead() => ParsePeer(CStr(peers[j])).value)
    }

    ghost function Outcome(): Outcome<NetworkNode>
      requires Readable()
    {
      if Dead() then Failed else Answered(Message().node, Peers())
    }
  }

  /** What a reply means, by the results of the socket calls: whenever the signal cannot be sent or
      answered, or the answer is negative, as it stays when nothing arrives, the sync has failed;
      in every other case the announcer is read, and of the peers as many as the count says. */
  lemma WhatAReplyMeans(reply: Reply, peers: seq<NetworkNode>)
    requires reply.Readable()
    requires |peers| == (if reply.countOk && reply.count > 0 then reply.count else 0)
    requires reply.sendOk && reply.recvOk && reply.signal >= 0 ==>
      |peers| <= |reply.peers| && forall j :: 0 <= j < |peers| ==> ParsePeer(CStr(reply.peers[j])) == Some(peers[j])
    ensures !reply.sendOk || !reply.recvOk || reply.signal < 0 ==> reply.Dead() && reply.Outcome() == Failed
    ensures reply.sendOk && reply.recvOk && reply.signal >= 0 ==>
      && !reply.Dead() && ParseMessage(CStr(reply.frame)) == Some(reply.Message())
      && reply.Outcome() == Answered(reply.Message().node, peers)
  {
    if !reply.Dead() { assert reply.Peers() == peers; }
  }

  ghost function Outcomes(replies: seq<Reply>): (r: seq<Outcome<NetworkNode>>)
    requires forall i :: 0 <= i < |replies| ==> replies[i].Readable()
    ensures |r| == |replies| && forall i :: 0 <= i < |replies| ==> r[i] == replies[i].Outcome()
  {
    seq(|replies|, i requires 0 <= i < |replies| => replies[i].Outcome())
  }

  ghost function Messages(replies: seq<Reply>): (r: seq<Option<Announcement>>)
    requires forall i :: 0 <= i < |replies| ==> replies[i].Readable()
    ensures |r| == |replies|
    ensures forall i :: 0 <= i < |replies| ==> (r[i] == None <==> replies[i].Dead())
    ensures forall i :: 0 <= i < |replies| && !replies[i].Dead() ==> r[i] == Some(replies[i].Message())
  {
    seq(|replies|, i requires 0 <= i < |replies| => if replies[i].Dead() then None else Some(replies[i].Message()))
  }

  ghost predicate Yields(reply: Reply, outcome: Outcome<NetworkNode>, msg: Option<Announcement>) {
    && reply.Readable() && outcome == reply.Outcome()
    && msg == if reply.Dead() then None else Some(reply.Message())
  }

  /** The file pool after the first `k` syncs. */
  function FilesAfter(pool: seq<NodeFile>, msgs: seq<Option<Announcement>>, k: nat): seq<NodeFile>
    requires k <= |msgs|
  {
    if k == 0 then pool
    else
      match msgs[k - 1]
      case None => FilesAfter(pool, msgs, k - 1)
      case Some(msg) => Learn(FilesAfter(pool, msgs, k - 1), FilesOf(msg))
  }

  lemma FilesStep(pool: seq<NodeFile>, msgs: seq<Option<Announcement>>, k: nat)
    requires k < |msgs|
    ensures FilesAfter(pool, msgs, k + 1) ==
            var before := FilesAfter(pool, msgs, k);
            if msgs[k].Some? then Learn(before, FilesOf(msgs[k].value)) else before
  {
  }

  /** The messages that arrived in the first `k` syncs. */
  function Arrived(msgs: seq<Option<Announcement>>, k: nat): seq<Announcement>
    requires k <= |msgs|
  {
    if k == 0 then []
    else
      match msgs[k - 1]
      case None => Arrived(msgs, k - 1)
      case Some(msg) => Arrived(msgs, k - 1) + [msg]
  }

  lemma {:induction false} FilesAfterIsARun(pool: seq<NodeFile>, msgs: seq<Option<Announcement>>, k: nat)
    requires k <= |msgs|
    ensures FilesAfter(pool, msgs, k) == LearnFiles(pool, Arrived(msgs, k), |Arrived(msgs, k)|)
  {
    if k > 0 {
      FilesAfterIsARun(pool, msgs, k - 1);
      var before := Arrived(msgs, k - 1);
      if msgs[k - 1].Some? { LearnFilesPrefix(pool, before, before + [msgs[k - 1].value], |before|); }
    }
  }

  lemma {:induction false} LearnFilesPrefix(pool: seq<NodeFile>, a: seq<Announcement>, b: seq<Announcement>, k: nat)
    requires k <= |a| && a <= b
    ensures LearnFiles(pool, a, k) == LearnFiles(pool, b, k)
  {
    if k > 0 { LearnFilesPrefix(pool, a, b, k - 1); }
  }

  /** Inserts a record at the head unless the pool holds an equal one. */
  method LearnInto<T(==)>(pool: LinkedList<T>, x: T)
    requires pool.Valid()
    modifies pool.repr
    ensures pool.Valid() && pool.contents == LearnOne(old(pool.contents), x)
    ensures forall o :: o in pool.repr ==> o in old(pool.repr) || fresh(o)
  {
    FirstIndexFinds(pool.contents, x);
    var ix := pool.FindVal(x);
    if ix < 0 {
      var _ := pool.InsertVal(0, x);
    }
  }

  /** The listing without its brackets, terminated right behind its last byte. */
  method CopyListing(filelist: array<char>, tok: CString)
    requires |tok| > 2 && filelist.Length == |tok| - 1
    modifies filelist
    ensures NUL in filelist[..] && CStr(filelist[..]) == tok[1..|tok| - 1]
  {
    forall i | 0 <= i < |tok| - 2 {
      filelist[i] := tok[i + 1];
    }
    filelist[|tok| - 2] := NUL;
    assert filelist[..][..|tok| - 2] == tok[1..|tok| - 1];
    CStrDepends(filelist[..], tok[1..|tok| - 1]);
    assert filelist[..][|tok| - 2] == NUL;
  }

  /** Goes through a listing with `strtok`, learning one file per name; `first` is its first
      token, if there is one, and `names` are all of them. */
  method LearnNames(pool: LinkedList<NodeFile>, strtok: Tokenizer, node: NetworkNode, first: CString, more: bool,
                    ghost names: seq<CString>)
    requires pool.Valid() && strtok.Valid() && strtok.buf != null && strtok !in pool.repr && strtok.buf !in pool.repr
    requires more == (names != []) && (more ==> first == names[0] && Tokens(strtok.Rest(), ',') == names[1..])
    modifies pool.repr, strtok, strtok.buf
    ensures pool.Valid() && strtok !in pool.repr
    ensures pool.contents == Learn(old(pool.contents), FilesOf(Announcement(node, names)))
    ensures forall o :: o in pool.repr ==> o in old(pool.repr) || fresh(o)
  {
    ghost var i, files, known := 0, FilesOf(Announcement(node, names)), pool.contents;
    var name, found := first, more;
    while found
      invariant pool.Valid() && strtok.Valid() && strtok.buf == old(strtok.buf)
      invariant strtok !in pool.repr && strtok.buf !in pool.repr
      invariant 0 <= i <= |names| && found == (i < |names|)
      invariant found ==> name == names[i] && Tokens(strtok.Rest(), ',') == names[i + 1..]
      invariant pool.contents == known == LearnFirst(old(pool.contents), files, i)
      invariant forall o :: o in pool.repr ==> o in old(pool.repr) || fresh(o)
      decreases |names| - i
    {
      name, found := LearnAndAdvance(pool, strtok, NodeFile(name, node), names[i + 1..]);
      NextName(names, i);
      known := LearnOne(known, files[i]);
      i := i + 1;
    }
  }

  lemma NextName(names: seq<string>, i: nat)
    requires i < |names|
    ensures (names[i + 1..] != []) == (i + 1 < |names|)
    ensures i + 1 < |names| ==> names[i + 1..][0] == names[i + 1] && names[i + 1..][1..] == names[i + 2..]
  {
  }

  method LearnAndAdvance(pool: LinkedList<NodeFile>, strtok: Tokenizer, file: NodeFile, ghost left: seq<string>)
    returns (name: CString, found: bool)
    requires strtok.Valid() && Tokens(strtok.Rest(), ',') == left
    requires pool.Valid() && strtok.buf != null && strtok !in pool.repr && strtok.buf !in pool.repr
    modifies pool.repr, strtok, strtok.buf
    ensures pool.Valid() && strtok.Valid() && strtok.buf == old(strtok.buf)
    ensures strtok !in pool.repr && strtok.buf !in pool.repr
    ensures pool.contents == LearnOne(old(pool.contents), file)
    ensures found == (left != [])
    ensures found ==> name == left[0] && Tokens(strtok.Rest(), ',') == left[1..]
    ensures forall o :: o in pool.repr ==> o in old(pool.repr) || fresh(o)
  {
    LearnInto(pool, file);
    name, found := strtok.NextField(',');
  }

  /** Reads the bracketed listing of a node message; the inner `strtok` runs on a copy. */
  method ReadListing(pool: LinkedList<NodeFile>, strtok: Tokenizer, node: NetworkNode, tok: CString)
    requires pool.Valid() && strtok !in pool.repr
    modifies pool.repr, strtok
    ensures pool.Valid() && strtok !in pool.repr
    ensures pool.contents == Learn(old(pool.contents), FilesOf(Announcement(node, ParseListing(tok))))
    ensures forall o :: o in pool.repr ==> o in old(pool.repr) || fresh(o)
  {
    if |tok| > 2 {
      var filelist := new char[|tok| - 1];
      CopyListing(filelist, tok);
      var name, found := strtok.FirstField(filelist, ',');
      LearnNames(pool, strtok, node, name, found, ParseListing(tok));
    }
  }

  // ---- what a reply carries ----

  ghost predicate CarriesMessage(frame: string, self: NetworkNode, entries: seq<CString>) {
    NUL in frame && CStr(frame) == PrintMessage(self, entries)
  }

  ghost predicate CarriesPeer(frame: string, peer: NetworkNode) {
    NUL in frame && CStr(frame) == PrintPeer(peer)
  }

  lemma TerminatedFrame(frame: string, text: CString)
    requires CStr(frame) == text && |text| < |frame|
    ensures NUL in frame
  {
  }

  /** The reply a node sends, relaying `pool`. When the peer count never arrives, nothing is. */
  ghost predicate Carries(reply: Reply, self: NetworkNode, entries: seq<CString>, pool: seq<NetworkNode>) {
    && !reply.Dead() && CarriesMessage(reply.frame, self, entries)
    && (reply.countOk ==> reply.count == |pool| == |reply.peers|)
    && (!reply.countOk ==> pool == [])
    && forall j :: 0 <= j < |pool| ==> CarriesPeer(reply.peers[j], pool[j])
  }

  ghost predicate CleanPool(pool: seq<NetworkNode>) {
    forall j :: 0 <= j < |pool| ==> CleanNode(pool[j])
  }

  /** Through the wire and back: a clean node's reply is read as exactly its record, its files
      and its pool, in order. */
  lemma ReplyRoundTrip(reply: Reply, self: NetworkNode, entries: seq<CString>, pool: seq<NetworkNode>)
    requires Carries(reply, self, entries, pool)
    requires CleanNode(self) && CleanFiles(entries) && CleanPool(pool)
    ensures reply.Readable()
    ensures reply.Message() == Announcement(self, entries)
    ensures reply.Outcome() == Answered(self, pool)
  {
    MessageRoundTrip(self, entries);
    assert reply.PeersRead() == |pool|;
    forall j | 0 <= j < |pool|
      ensures ParsePeer(CStr(reply.peers[j])) == Some(pool[j])
    {
      PeerRoundTrip(pool[j]);
    }
    assert reply.Peers() == pool;
  }

  ghost predicate HoldsPeer(frame: string, peer: NetworkNode) {
    NUL in frame && ParsePeer(CStr(frame)) == Some(peer)
  }

  /** Reads a relayed peer, and adds it unless an equal record is known. */
  method ReadPeer(pool: LinkedList<NetworkNode>, strtok: Tokenizer, peerdata: array<char>)
    requires pool.Valid() && strtok !in pool.repr && peerdata !in pool.repr
    requires NUL in peerdata[..] && ParsePeer(CStr(peerdata[..])).Some?
    modifies pool.repr, strtok, peerdata
    ensures pool.Valid() && pool.contents == LearnOne(old(pool.contents), ParsePeer(old(CStr(peerdata[..]))).value)
    ensures forall o :: o in pool.repr ==> o in old(pool.repr) || fresh(o)
  {
    var node := ReadNode(strtok, peerdata);
    LearnInto(pool, node);
  }

  method ReadFrame(pool: LinkedList<NetworkNode>, strtok: Tokenizer, frame: string, ghost peer: NetworkNode)
    requires pool.Valid() && strtok !in pool.repr && HoldsPeer(frame, peer)
    modifies pool.repr, strtok
    ensures pool.Valid() && strtok !in pool.repr
    ensures pool.contents == LearnOne(old(pool.contents), peer)
    ensures forall o :: o in pool.repr ==> o in old(pool.repr) || fresh(o)
  {
    var peerbuf := new char[|frame|](j requires 0 <= j < |frame| => frame[j]);
    assert peerbuf[..] == frame;
    ReadPeer(pool, strtok, peerbuf);
  }

  /** The pool before each of the first `k` records is learned, and after them. */
  ghost function Stages<T>(pool: seq<T>, xs: seq<T>, k: nat): (r: seq<seq<T>>)
    requires k <= |xs|
    ensures |r| == k + 1 && r[0] == pool && r[k] == LearnFirst(pool, xs, k)
    ensures forall i :: 0 <= i < k ==> Learns(r, xs, i)
  {
    if k == 0 then [pool]
    else
      var before := Stages(pool, xs, k - 1);
      var r := before + [LearnOne(before[k - 1], xs[k - 1])];
      assert forall i :: 0 <= i < k - 1 ==> Learns(before, xs, i) ==> Learns(r, xs, i);
      r
  }

  /** Stage `i + 1` has learned record `i`. */
  ghost predicate Learns<T>(stages: seq<seq<T>>, xs: seq<T>, i: nat)
    requires i < |xs| && i + 1 < |stages|
  {
    stages[i + 1] == LearnOne(stages[i], xs[i])
  }

  /** Reads the relayed peers of a reply, as many as it counts. */
  method ReadPeers(pool: LinkedList<NetworkNode>, strtok: Tokenizer, count: int, frames: seq<string>,
                   ghost peers: seq<NetworkNode>)
    requires pool.Valid() && strtok !in pool.repr && |peers| == (if count > 0 then count else 0) <= |frames|
    requires forall j :: 0 <= j < |peers| ==> HoldsPeer(frames[j], peers[j])
    modifies pool.repr, strtok
    ensures pool.Valid() && strtok !in pool.repr && pool.contents == Learn(old(pool.contents), peers)
    ensures forall o :: o in pool.repr ==> o in old(pool.repr) || fresh(o)
  {
    ghost var stages := Stages(pool.contents, peers, |peers|);
    var i := 0;
    while i < count
      invariant 0 <= i <= |peers| && pool.Valid() && strtok !in pool.repr
      invariant pool.contents == stages[i]
      invariant forall o :: o in pool.repr ==> o in old(pool.repr) || fresh(o)
    {
      ReadFrame(pool, strtok, frames[i], peers[i]);
      assert Learns(stages, peers, i);
      i := i + 1;
    }
  }

  class PeerNode {
    const nodePool: LinkedList<NetworkNode>
    const filePool: LinkedList<NodeFile>
    const strtok: Tokenizer

    ghost predicate Valid()
      reads this, nodePool, nodePool.repr, filePool, filePool.repr
    {
      && nodePool.Valid() && filePool.Valid()
      && nodePool.repr !! filePool.repr && strtok !in nodePool.repr && strtok !in filePool.repr
    }

    /** The buffer is not part of either pool. */
    ghost predicate Separate(buffer: array<char>)
      reads nodePool, filePool
    {
      buffer !in nodePool.repr && buffer !in filePool.repr
    }

    constructor ()
      ensures Valid() && nodePool.contents == [] && filePool.contents == []
      ensures fresh(nodePool.repr) && fresh(filePool.repr) && fresh(strtok)
    {
      nodePool := new LinkedList();
      filePool := new LinkedList();
      strtok := new Tokenizer();
    }

    /** Reads a node message: the announcing node always goes to the head of the pool, its
        files only when they are new. The inner `strtok` runs on a copy of the listing. */
    method ReadMessage(nodedata: array<char>)
      requires Valid()
      requires Separate(nodedata) && NUL in nodedata[..] && ParseMessage(CStr(nodedata[..])).Some?
      modifies nodePool.repr, filePool.repr, strtok, nodedata
      ensures Valid()
      ensures var msg := ParseMessage(old(CStr(nodedata[..]))).value;
        && nodePool.contents == [msg.node] + old(nodePool.contents)
        && filePool.contents == Learn(old(filePool.contents), FilesOf(msg))
      ensures forall o :: o in nodePool.repr ==> o in old(nodePool.repr) || fresh(o)
      ensures forall o :: o in filePool.repr ==> o in old(filePool.repr) || fresh(o)
    {
      var node, listing := ReadFields(strtok, nodedata);
      LearnAnnouncement(node, listing);
    }

    method ReadMessageFrame(frame: string, ghost msg: Announcement)
      requires Valid() && NUL in frame && ParseMessage(CStr(frame)) == Some(msg)
      modifies nodePool.repr, filePool.repr, strtok
      ensures Valid()
      ensures nodePool.contents == [msg.node] + old(nodePool.contents)
      ensures filePool.contents == Learn(old(filePool.contents), FilesOf(msg))
      ensures forall o :: o in nodePool.repr ==> o in old(nodePool.repr) || fresh(o)
      ensures forall o :: o in filePool.repr ==> o in old(filePool.repr) || fresh(o)
    {
      var buffer := new char[|frame|](i requires 0 <= i < |frame| => frame[i]);
      assert buffer[..] == frame;
      ReadMessage(buffer);
    }

    method LearnAnnouncement(node: NetworkNode, listing: CString)
      requires Valid()
      modifies nodePool.repr, filePool.repr, strtok
      ensures Valid()
      ensures nodePool.contents == [node] + old(nodePool.contents)
      ensures filePool.contents == Learn(old(filePool.contents), FilesOf(Announcement(node, ParseListing(listing))))
      ensures forall o :: o in nodePool.repr ==> o in old(nodePool.repr) || fresh(o)
      ensures forall o :: o in filePool.repr ==> o in old(filePool.repr) || fresh(o)
    {
      var _ := nodePool.InsertVal(0, node);
      ReadListing(filePool, strtok, node, listing);
    }

    /** Removal as the Linux node does it: each position is fetched from the head again. */
    method RemoveInactiveByScan(node: NetworkNode)
      requires Valid()
      modifies nodePool.repr
      ensures Valid() && nodePool.contents == RemoveFirst(old(nodePool.contents), node)
      ensures nodePool.repr == old(nodePool.repr)
    {
      for i := 0 to nodePool.size
        invariant Valid() && unchanged(old(nodePool.repr)) && nodePool.repr == old(nodePool.repr)
        invariant forall j :: 0 <= j < i ==> nodePool.contents[j] != node
      {
        var known := nodePool.GetVal(i);
        if node == known.value {
          DeleteFirst(i, node);
          return;
        }
      }
      RemoveMissing(nodePool.contents, node);
    }

    method DeleteFirst(i: nat, ghost node: NetworkNode)
      requires Valid() && i < |nodePool.contents| && nodePool.contents[i] == node
      requires forall j :: 0 <= j < i ==> nodePool.contents[j] != node
      modifies nodePool.repr
      ensures Valid() && nodePool.contents == RemoveFirst(old(nodePool.contents), node)
      ensures nodePool.repr == old(nodePool.repr)
    {
      RemoveFirstIsRemoveAt(nodePool.contents, node);
      FirstIndexIs(nodePool.contents, i);
      var _ := nodePool.DeleteVal(i);
    }

    static lemma {:induction false} RemoveMissing(s: seq<NetworkNode>, v: NetworkNode)
      requires forall j :: 0 <= j < |s| ==> s[j] != v
      ensures RemoveFirst(s, v) == s
    {
      if s != [] { RemoveMissing(s[1..], v); }
    }

    /** Removal as the Windows node does it: one traversal, then a delete by position. */
    method RemoveInactiveByFind(node: NetworkNode)
      requires Valid()
      modifies nodePool.repr
      ensures Valid() && nodePool.contents == RemoveFirst(old(nodePool.contents), node)
      ensures nodePool.repr == old(nodePool.repr)
    {
      FirstIndexFinds(nodePool.contents, node);
      var ix := nodePool.FindVal(node);
      if ix >= 0 {
        DeleteFirst(ix, node);
      } else {
        RemoveMissing(nodePool.contents, node);
      }
    }

    /** Asks `node` to sync and reads its reply into the pools. */
    method SendSync(node: NetworkNode, reply: Reply)
      requires Valid() && reply.Readable()
      modifies nodePool.repr, filePool.repr, strtok
      ensures Valid()
      ensures nodePool.contents == SyncWith(old(nodePool.contents), node, reply.Outcome())
      ensures filePool.contents ==
              if reply.Dead() then old(filePool.contents)
              else Learn(old(filePool.contents), FilesOf(reply.Message()))
      ensures forall o :: o in nodePool.repr ==> o in old(nodePool.repr) || fresh(o)
      ensures forall o :: o in filePool.repr ==> o in old(filePool.repr) || fresh(o)
    {
      if !reply.sendOk {
        RemoveInactiveByScan(node);
        return;
      }
      if !reply.recvOk || reply.signal < 0 {
        RemoveInactiveByScan(node);
        return;
      }
      ReadReply(reply);
    }

    method ReadReply(reply: Reply)
      requires Valid() && reply.Readable() && !reply.Dead()
      modifies nodePool.repr, filePool.repr, strtok
      ensures Valid()
      ensures nodePool.contents == Learn([reply.Message().node] + old(nodePool.contents), reply.Peers())
      ensures filePool.contents ==
              Learn(old(filePool.contents), FilesOf(reply.Message()))
      ensures forall o :: o in nodePool.repr ==> o in old(nodePool.repr) || fresh(o)
      ensures forall o :: o in filePool.repr ==> o in old(filePool.repr) || fresh(o)
    {
      ReadMessageFrame(reply.frame, reply.Message());
      if !reply.countOk {
        return;
      }
      ReadPeers(nodePool, strtok, reply.count, reply.peers, reply.Peers());
    }

    /** One pass of the syncer, given what each sync it attempts comes to; `asked` are the nodes
        it asks. It stops early only when the replies run out, which stands for the node being
        shut down. */
    method SyncPass(replies: seq<Reply>) returns (visits: nat, asked: seq<NetworkNode>)
      requires Valid() && forall i :: 0 <= i < |replies| ==> replies[i].Readable()
      modifies nodePool.repr, filePool.repr, strtok
      ensures Valid() && visits <= |replies|
      ensures (nodePool.contents, visits) == SyncerPass.Pass(old(nodePool.contents), Outcomes(replies), |replies|)
      ensures asked == SyncerPass.Visits(old(nodePool.contents), Outcomes(replies), |replies|)
      ensures filePool.contents == FilesAfter(old(filePool.contents), Messages(replies), visits)
      ensures visits < |replies| ==> visits >= nodePool.size
    {
      visits, asked := SyncLoop(replies, Outcomes(replies), Messages(replies));
      SyncerPass.StoppedIsFinal(old(nodePool.contents), Outcomes(replies), visits, nodePool.contents);
    }

    method SyncLoop(replies: seq<Reply>, ghost outcomes: seq<Outcome<NetworkNode>>,
                    ghost msgs: seq<Option<Announcement>>)
      returns (i: nat, asked: seq<NetworkNode>)
      requires Valid() && |replies| == |outcomes| == |msgs|
      requires forall j :: 0 <= j < |replies| ==> Yields(replies[j], outcomes[j], msgs[j])
      modifies nodePool.repr, filePool.repr, strtok
      ensures Valid() && i <= |replies| && (i < |replies| ==> i >= nodePool.size)
      ensures (nodePool.contents, i) == SyncerPass.Pass(old(nodePool.contents), outcomes, i)
      ensures asked == SyncerPass.Visits(old(nodePool.contents), outcomes, i)
      ensures filePool.contents == FilesAfter(old(filePool.contents), msgs, i)
    {
      ghost var start, p := nodePool.contents, nodePool.contents;
      ghost var files, f := filePool.contents, filePool.contents;
      i, asked := 0, [];
      while i < nodePool.size && i < |replies|
        invariant Valid() && 0 <= i <= |replies|
        invariant p == nodePool.contents && (p, i) == SyncerPass.Pass(start, outcomes, i)
        invariant asked == SyncerPass.Visits(start, outcomes, i)
        invariant f == filePool.contents && f == FilesAfter(files, msgs, i)
        invariant forall o :: o in nodePool.repr ==> o in old(nodePool.repr) || fresh(o)
        invariant forall o :: o in filePool.repr ==> o in old(filePool.repr) || fresh(o)
        decreases |replies| - i
      {
        SyncerPass.EntryVisited(start, outcomes, i, p);
        FilesStep(files, msgs, i);
        var node := SyncEntry(i, replies[i], outcomes[i], msgs[i]);
        asked := asked + [node];
        p := SyncWith(p, p[i], outcomes[i]);
        f := if msgs[i].Some? then Learn(f, FilesOf(msgs[i].value)) else f;
        i := i + 1;
      }
    }

    method SyncEntry(i: nat, reply: Reply, ghost outcome: Outcome<NetworkNode>, ghost msg: Option<Announcement>)
      returns (node: NetworkNode)
      requires Valid() && i < |nodePool.contents| && Yields(reply, outcome, msg)
      modifies nodePool.repr, filePool.repr, strtok
      ensures Valid() && node == old(nodePool.contents)[i]
      ensures nodePool.contents == SyncWith(old(nodePool.contents), old(nodePool.contents)[i], outcome)
      ensures filePool.contents ==
              if msg.Some? then Learn(old(filePool.contents), FilesOf(msg.value)) else old(filePool.contents)
      ensures forall o :: o in nodePool.repr ==> o in old(nodePool.repr) || fresh(o)
      ensures forall o :: o in filePool.repr ==> o in old(filePool.repr) || fresh(o)
    {
      var entry := nodePool.GetVal(i);
      node := entry.value;
      SendSync(node, reply);
    }

    /** Answers a sync: the node message, the pool size, and one frame per pool entry. Every
        peer frame is a fresh snapshot of the same buffer. */
    method SyncHandler(self: NetworkNode, entries: seq<CString>)
      returns (frame: string, count: nat, frames: seq<string>)
      requires Valid() && forall n :: n in nodePool.contents ==> FitsRecord(n)
      ensures CarriesMessage(frame, self, entries)
      ensures count == |frames| == |nodePool.contents|
      ensures forall j :: 0 <= j < count ==> CarriesPeer(frames[j], nodePool.contents[j]) && |frames[j]| == PEERSTR_LEN
    {
      var sendbuf := new char[|PrintMessage(self, entries)| + 2];
      var filename := new char[3 + |Terminated(entries)|];
      var sent := FormSyncMessage(sendbuf, filename, self, entries);
      frame := sendbuf[..sent];
      TerminatedFrame(frame, PrintMessage(self, entries));
      count := nodePool.size;
      frames := PeerFrames(count);
    }

    method PeerFrames(count: nat) returns (frames: seq<string>)
      requires Valid() && count == nodePool.size && forall n :: n in nodePool.contents ==> FitsRecord(n)
      ensures |frames| == count
      ensures forall j :: 0 <= j < count ==> CarriesPeer(frames[j], nodePool.contents[j]) && |frames[j]| == PEERSTR_LEN
    {
      frames := [];
      var nodeaddr := new char[PEERSTR_LEN];
      for j := 0 to count
        invariant |frames| == j
        invariant forall i :: 0 <= i < j ==> CarriesPeer(frames[i], nodePool.contents[i]) && |frames[i]| == PEERSTR_LEN
      {
        var known := nodePool.GetVal(j);
        var frame := PeerFrame(nodeaddr, known.value);
        frames := frames + [frame];
      }
    }

    static method PeerFrame(nodeaddr: array<char>, node: NetworkNode) returns (frame: string)
      requires FitsRecord(node) && nodeaddr.Length == PEERSTR_LEN
      modifies nodeaddr
      ensures CarriesPeer(frame, node) && |frame| == PEERSTR_LEN
    {
      PeerFits(node);
      FormNodeMsg(nodeaddr, node);
      frame := nodeaddr[..];
      TerminatedFrame(frame, PrintPeer(node));
    }

    /** Whom a file is downloaded from: the first pool entry of that name. */
    method FindHolder(name: CString) returns (r: Option<NodeFile>)
      requires Valid()
      ensures r == Holder(filePool.contents, name)
    {
      for i := 0 to filePool.size
        invariant forall j :: 0 <= j < i ==> filePool.contents[j].name != name
      {
        var file := filePool.GetVal(i);
        if file.value.name == name {
          HolderIsFirst(filePool.contents, name, i);
          return file;
        }
      }
      HolderMissing(filePool.contents, name);
      return None;
    }
  }
}
