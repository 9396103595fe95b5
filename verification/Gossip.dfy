/** Gossip between whole nodes, each sync going through the wire, and the sets it refines. */
module Gossip {
  import opened CStrings
  import opened GossipClosure
  import opened Options
  import opened Peer
  import opened Pools
  import opened Sequences
  import opened Wire

  function AddrOf(node: NetworkNode): Addr {
    Addr(node.ipaddr, node.port)
  }

  function Addrs(pool: seq<NetworkNode>): set<Addr> {
    set n | n in pool :: AddrOf(n)
  }

  /** A node is known by its address and port, whatever name a record gives it. */
  lemma SameAddress(a: NetworkNode, b: NetworkNode)
    ensures AddrOf(a) == AddrOf(b) <==> a.ipaddr == b.ipaddr && a.port == b.port
  {
  }

  /** What a node announces: its own record and its file listing. */
  datatype Identity = Identity(self: NetworkNode, files: seq<CString>)

  /** The running nodes by address, and the pool each has built so far. */
  datatype Network = Network(nodes: map<Addr, Identity>, pools: map<Addr, seq<NetworkNode>>)

  /** One sync: `asker` visits position `ix` of its pool, and `reply` is what comes back. The
      reply relays some of the peer's pool, all of it unless the peer's pool was changing, or
      nothing when it breaks off before the peers; or it is dead. */
  datatype Round = Round(asker: Addr, ix: nat, relayed: seq<NetworkNode>, reply: Reply)

  /** Every record can be printed and read back, and names a running node. */
  ghost predicate WellFormed(net: Network) {
    && net.nodes.Keys == net.pools.Keys
    && (forall a :: a in net.nodes ==>
          AddrOf(net.nodes[a].self) == a && CleanNode(net.nodes[a].self) && CleanFiles(net.nodes[a].files))
    && (forall a :: a in net.pools ==> CleanPool(net.pools[a]) && Addrs(net.pools[a]) <= net.pools.Keys)
  }

  /** The round is answered. */
  ghost predicate CanSync(net: Network, r: Round) {
    && r.asker in net.pools && r.ix < |net.pools[r.asker]|
    && var u := AddrOf(net.pools[r.asker][r.ix]);
    && u in net.pools && u in net.nodes
    && (forall n :: n in r.relayed ==> n in net.pools[u])
    && Carries(r.reply, net.nodes[u].self, net.nodes[u].files, r.relayed)
  }

  /** The round fails, for whatever reason. */
  predicate CanFail(net: Network, r: Round) {
    r.asker in net.pools && r.ix < |net.pools[r.asker]| && r.reply.Dead()
  }

  ghost predicate TakesPlace(net: Network, r: Round) {
    CanSync(net, r) || CanFail(net, r)
  }

  /** The asker's pool after the reply has been read, or the peer removed. A round that cannot
      take place changes nothing. */
  ghost function Advance(net: Network, r: Round): Network {
    if TakesPlace(net, r) && r.reply.Readable() then
      var pool := net.pools[r.asker];
      net.(pools := net.pools[r.asker := SyncWith(pool, pool[r.ix], r.reply.Outcome())])
    else net
  }

  ghost function NetworkAfter(net: Network, rounds: seq<Round>, n: nat): Network
    requires n <= |rounds|
  {
    if n == 0 then net else Advance(NetworkAfter(net, rounds, n - 1), rounds[n - 1])
  }

  // ---- refinement ----

  ghost function Known(net: Network): Knows {
    map a | a in net.pools :: Addrs(net.pools[a])
  }

  lemma KnownKeys(net: Network)
    ensures Known(net).Keys == net.pools.Keys
  {
  }

  ghost function AsContact(net: Network, r: Round): Contact
    requires TakesPlace(net, r)
  {
    var pool := net.pools[r.asker];
    var u := AddrOf(pool[r.ix]);
    if r.reply.Dead() then Failure(r.asker, u, u !in Addrs(RemoveFirst(pool, pool[r.ix])))
    else Sync(r.asker, u, Addrs(r.relayed))
  }

  /** What an answered round does to the asker's pool. */
  lemma RoundAnswers(net: Network, r: Round)
    requires WellFormed(net) && CanSync(net, r)
    ensures var u := AddrOf(net.pools[r.asker][r.ix]);
      && r.reply.Readable()
      && Advance(net, r)
         == net.(pools := net.pools[r.asker := Learn([net.nodes[u].self] + net.pools[r.asker], r.relayed)])
  {
    var u := AddrOf(net.pools[r.asker][r.ix]);
    RelayedIsClean(net.pools[u], r.relayed);
    ReplyRoundTrip(r.reply, net.nodes[u].self, net.nodes[u].files, r.relayed);
  }

  lemma RelayedIsClean(pool: seq<NetworkNode>, relayed: seq<NetworkNode>)
    requires CleanPool(pool) && forall n :: n in relayed ==> n in pool
    ensures CleanPool(relayed)
  {
    forall j | 0 <= j < |relayed|
      ensures CleanNode(relayed[j])
    {
      assert relayed[j] in pool;
    }
  }

  lemma AnswerAddrs(self: NetworkNode, pool: seq<NetworkNode>, relayed: seq<NetworkNode>)
    ensures Addrs(Learn([self] + pool, relayed)) == Addrs(pool) + {AddrOf(self)} + Addrs(relayed)
    ensures CleanNode(self) && CleanPool(pool) && CleanPool(relayed) ==> CleanPool(Learn([self] + pool, relayed))
  {
    var start := [self] + pool;
    var after := Learn(start, relayed);
    LearnElements(start, relayed, |relayed|);
    assert relayed[..|relayed|] == relayed;
    forall j | 0 <= j < |after|
      ensures after[j] == self || after[j] in pool || after[j] in relayed
    {
      assert after[j] in after;
    }
  }

  lemma PoolReplaced(net: Network, a: Addr, pool: seq<NetworkNode>)
    requires WellFormed(net) && a in net.pools && CleanPool(pool) && Addrs(pool) <= net.pools.Keys
    ensures var after := net.(pools := net.pools[a := pool]);
      WellFormed(after) && Known(after) == Known(net)[a := Addrs(pool)]
  {
  }

  lemma RoundIsEnabled(net: Network, r: Round)
    requires WellFormed(net) && CanSync(net, r)
    ensures Enabled(Known(net), AsContact(net, r))
  {
  }

  lemma AnswerRefinesSync(net: Network, r: Round)
    requires WellFormed(net) && CanSync(net, r)
    ensures WellFormed(Advance(net, r)) && Advance(net, r).nodes == net.nodes
    ensures Known(Advance(net, r)) == Step(Known(net), AsContact(net, r))
  {
    var pool := net.pools[r.asker];
    var u := AddrOf(pool[r.ix]);
    RoundAnswers(net, r);
    RelayedIsClean(net.pools[u], r.relayed);
    AnswerAddrs(net.nodes[u].self, pool, r.relayed);
    RoundIsEnabled(net, r);
    PoolReplaced(net, r.asker, Learn([net.nodes[u].self] + pool, r.relayed));
  }

  /** The node asked is the one at the round's position of the asker's pool, and what is relayed
      is in that node's pool. */
  lemma AnswerAsksPosition(net: Network, r: Round)
    requires WellFormed(net) && CanSync(net, r)
    ensures r.asker in net.pools && r.ix < |net.pools[r.asker]|
    ensures var (pool, u) := (net.pools[r.asker], AddrOf(net.pools[r.asker][r.ix]));
      && u in net.pools && u in net.nodes && (forall n :: n in r.relayed ==> n in net.pools[u])
      && Advance(net, r).pools == net.pools[r.asker := Learn([net.nodes[u].self] + pool, r.relayed)]
  {
    RoundAnswers(net, r);
  }

  /** The asker comes to know that node and all that is relayed, and nobody else anything. */
  lemma AnswerTeaches(net: Network, r: Round)
    requires WellFormed(net) && CanSync(net, r)
    ensures var (pool, k) := (net.pools[r.asker], Known(net));
      Known(Advance(net, r)) == k[r.asker := Addrs(pool) + ({AddrOf(pool[r.ix])} + Addrs(r.relayed))]
  {
    var pool, u := net.pools[r.asker], AddrOf(net.pools[r.asker][r.ix]);
    RoundAnswers(net, r);
    RelayedIsClean(net.pools[u], r.relayed);
    AnswerAddrs(net.nodes[u].self, pool, r.relayed);
    assert Addrs(pool) + {u} + Addrs(r.relayed) == Addrs(pool) + ({u} + Addrs(r.relayed));
    PoolReplaced(net, r.asker, Learn([net.nodes[u].self] + pool, r.relayed));
  }

  /** When the round fails, one copy of the record at its position is taken out. */
  lemma FailureRemovesPosition(net: Network, r: Round)
    requires CanFail(net, r)
    ensures var pool := net.pools[r.asker];
      && multiset(pool) == multiset(Advance(net, r).pools[r.asker]) + multiset{pool[r.ix]}
      && Advance(net, r).pools == net.pools[r.asker := Advance(net, r).pools[r.asker]]
  {
    var pool := net.pools[r.asker];
    RoundRemoves(net, r);
    RemoveFirstTakesOneCopy(pool, pool[r.ix]);
  }

  /** Removing a record loses its address, unless another record has it, and no other. */
  lemma RemovalAddrs(pool: seq<NetworkNode>, ix: nat)
    requires ix < |pool|
    ensures var (rest, u) := (RemoveFirst(pool, pool[ix]), AddrOf(pool[ix]));
      && Addrs(rest) == Addrs(pool) - (if u in Addrs(rest) then {} else {u})
      && (CleanPool(pool) ==> CleanPool(rest))
  {
    var n := pool[ix];
    var rest := RemoveFirst(pool, n);
    RemoveFirstElements(pool, n);
    assert forall x :: x in rest ==> AddrOf(x) in Addrs(rest);
    forall j | 0 <= j < |rest| && CleanPool(pool)
      ensures CleanNode(rest[j])
    {
      assert rest[j] in pool;
    }
  }

  lemma RoundRemoves(net: Network, r: Round)
    requires CanFail(net, r)
    ensures var pool := net.pools[r.asker];
      Advance(net, r) == net.(pools := net.pools[r.asker := RemoveFirst(pool, pool[r.ix])])
  {
  }

  lemma FailureStep(k: Knows, v: Addr, u: Addr, left: set<Addr>)
    requires v in k && left == k[v] - (if u in left then {} else {u})
    ensures Step(k, Failure(v, u, u !in left)) == k[v := left]
  {
    if u in left { assert left == k[v] && k[v := k[v]] == k; }
  }

  lemma FailureRefinesForgetting(net: Network, r: Round)
    requires WellFormed(net) && CanFail(net, r)
    ensures WellFormed(Advance(net, r)) && Advance(net, r).nodes == net.nodes
    ensures Known(Advance(net, r)) == Step(Known(net), AsContact(net, r))
  {
    var pool := net.pools[r.asker];
    var rest := RemoveFirst(pool, pool[r.ix]);
    RoundRemoves(net, r);
    RemovalAddrs(pool, r.ix);
    PoolReplaced(net, r.asker, rest);
    FailureStep(Known(net), r.asker, AddrOf(pool[r.ix]), Addrs(rest));
  }

  /** Each round of gossip between nodes is one contact on sets, and keeps the network
      well-formed, also when it fails. */
  lemma RoundRefinesContact(net: Network, r: Round)
    requires WellFormed(net) && TakesPlace(net, r)
    ensures WellFormed(Advance(net, r)) && Advance(net, r).nodes == net.nodes
    ensures Known(Advance(net, r)) == Step(Known(net), AsContact(net, r))
  {
    if r.reply.Dead() { FailureRefinesForgetting(net, r); } else { AnswerRefinesSync(net, r); }
  }

  /** The contacts a run of rounds amounts to; rounds that cannot take place are dropped. */
  ghost function Syncs(net: Network, rounds: seq<Round>, n: nat): seq<Contact>
    requires n <= |rounds|
  {
    if n == 0 then []
    else
      var before := NetworkAfter(net, rounds, n - 1);
      Syncs(net, rounds, n - 1) + if TakesPlace(before, rounds[n - 1]) then [AsContact(before, rounds[n - 1])] else []
  }

  lemma {:induction false} RunPrefix(g: Knows, a: seq<Contact>, b: seq<Contact>, n: nat)
    requires n <= |a| && a <= b
    ensures Run(g, a, n) == Run(g, b, n)
  {
    if n > 0 { RunPrefix(g, a, b, n - 1); }
  }

  lemma OneMoreSync(g: Knows, syncs: seq<Contact>, s: Contact)
    ensures Run(g, syncs + [s], |syncs| + 1) == Step(Run(g, syncs, |syncs|), s)
  {
    RunPrefix(g, syncs, syncs + [s], |syncs|);
  }

  ghost predicate Refines(net: Network, g: Knows, syncs: seq<Contact>) {
    WellFormed(net) && Known(net) == Run(g, syncs, |syncs|)
  }

  lemma RoundRefines(net: Network, g: Knows, syncs: seq<Contact>, r: Round)
    requires Refines(net, g, syncs)
    ensures Refines(Advance(net, r), g, if TakesPlace(net, r) then syncs + [AsContact(net, r)] else syncs)
  {
    if TakesPlace(net, r) {
      RoundRefinesContact(net, r);
      OneMoreSync(g, syncs, AsContact(net, r));
    }
  }

  lemma {:induction false} RunRefines(net: Network, rounds: seq<Round>, n: nat)
    requires WellFormed(net) && n <= |rounds|
    ensures Refines(NetworkAfter(net, rounds, n), Known(net), Syncs(net, rounds, n))
  {
    if n > 0 {
      RunRefines(net, rounds, n - 1);
      RoundRefines(NetworkAfter(net, rounds, n - 1), Known(net), Syncs(net, rounds, n - 1), rounds[n - 1]);
      assert Syncs(net, rounds, n - 1) + [] == Syncs(net, rounds, n - 1);
    }
  }

  lemma KnownIsClosed(net: Network)
    requires WellFormed(net)
    ensures Closed(Known(net))
  {
  }

  lemma {:induction false} NoneFailsNoFailure(net: Network, rounds: seq<Round>, n: nat)
    requires n <= |rounds| && forall i :: 0 <= i < n ==> !rounds[i].reply.Dead()
    ensures NoFailure(Syncs(net, rounds, n), |Syncs(net, rounds, n)|)
  {
    if n > 0 { NoneFailsNoFailure(net, rounds, n - 1); }
  }

  lemma ReachedIsSound(net: Network, rounds: seq<Round>)
    requires WellFormed(net)
    ensures var now := NetworkAfter(net, rounds, |rounds|);
      && WellFormed(now) && Safe(Known(net), Known(now))
      && ((forall i :: 0 <= i < |rounds| ==> !rounds[i].reply.Dead()) ==> Sound(Known(net), Known(now)))
  {
    KnownIsClosed(net);
    RunRefines(net, rounds, |rounds|);
    RunIsSound(Known(net), Syncs(net, rounds, |rounds|), |Syncs(net, rounds, |rounds|)|);
    if forall i :: 0 <= i < |rounds| ==> !rounds[i].reply.Dead() { NoneFailsNoFailure(net, rounds, |rounds|); }
  }

  // ---- nodes can play what sets can do ----

  /** The reply of a node at rest, with nothing failing on the way. */
  function FullReply(id: Identity, pool: seq<NetworkNode>): Reply {
    Reply(true, true, NODE_SYNC, PrintMessage(id.self, id.files) + [NUL], true, |pool|,
          seq(|pool|, j requires 0 <= j < |pool| => PrintPeer(pool[j]) + [NUL]))
  }

  lemma FullReplyCarries(id: Identity, pool: seq<NetworkNode>)
    ensures Carries(FullReply(id, pool), id.self, id.files, pool)
  {
    TerminatedText(PrintMessage(id.self, id.files));
    forall j | 0 <= j < |pool|
      ensures CarriesPeer(PrintPeer(pool[j]) + [NUL], pool[j])
    {
      TerminatedText(PrintPeer(pool[j]));
    }
  }

  lemma TerminatedText(text: CString)
    ensures NUL in text + [NUL] && CStr(text + [NUL]) == text
  {
    assert text + [NUL] + [] == text + [NUL];
    CStrTerminated(text, []);
    assert (text + [NUL])[|text|] == NUL;
  }

  lemma PlayFullSync(net: Network, s: Contact) returns (r: Round)
    requires WellFormed(net) && IsFull(Known(net), s)
    ensures CanSync(net, r) && AsContact(net, r) == s
  {
    var pool := net.pools[s.asker];
    var n :| n in pool && AddrOf(n) == s.peer;
    var ix :| 0 <= ix < |pool| && pool[ix] == n;
    var id, relayed := net.nodes[s.peer], net.pools[s.peer];
    r := Round(s.asker, ix, relayed, FullReply(id, relayed));
    FullReplyCarries(id, relayed);
  }

  lemma PlayOne(now: Network, s: Contact) returns (r: Round, next: Network)
    requires WellFormed(now) && IsFull(Known(now), s)
    ensures next == Advance(now, r) && WellFormed(next) && Known(next) == Step(Known(now), s)
  {
    r := PlayFullSync(now, s);
    next := Advance(now, r);
    AnswerRefinesSync(now, r);
  }

  lemma {:induction false} PrependRound(net: Network, r: Round, rest: seq<Round>, n: nat)
    requires n <= |rest|
    ensures NetworkAfter(net, [r] + rest, n + 1) == NetworkAfter(Advance(net, r), rest, n)
  {
    if n == 0 {
      assert NetworkAfter(net, [r] + rest, 0) == net;
    } else {
      PrependRound(net, r, rest, n - 1);
      assert ([r] + rest)[n] == rest[n - 1];
    }
  }

  lemma {:induction false} PlayToClosure(g: Knows, now: Network) returns (more: seq<Round>, end: Network)
    requires WellFormed(now) && Sound(g, Known(now))
    ensures |more| <= |Missing(g, Known(now))|
    ensures end == NetworkAfter(now, more, |more|) && IsClosure(g, Known(end))
    decreases |Missing(g, Known(now))|
  {
    more, end := [], now;
    var sync := NextSync(g, Known(now));
    if sync.Some? {
      var r, next := PlayOne(now, sync.value);
      more, end := PlayToClosure(g, next);
      PrependRound(now, r, more, |more|);
      more := [r] + more;
    }
  }

  /** From every state a run can reach, also one with failures, some finite series of rounds
      brings every node to exactly what it could reach from there, in no more rounds than the
      square of the network's size. That is what it could reach at the start, if none failed. */
  lemma GossipCanComplete(net: Network, rounds: seq<Round>) returns (more: seq<Round>)
    requires WellFormed(net)
    ensures |more| <= |net.pools.Keys| * |net.pools.Keys|
    ensures var now := NetworkAfter(net, rounds, |rounds|);
      var end := Known(NetworkAfter(now, more, |more|));
      && IsClosure(Known(now), end)
      && ((forall i :: 0 <= i < |rounds| ==> !rounds[i].reply.Dead()) ==> IsClosure(Known(net), end))
  {
    var now := NetworkAfter(net, rounds, |rounds|);
    var k := Known(now);
    ReachedIsSound(net, rounds);
    KnownKeys(net);
    KnownIsClosed(now);
    StartIsSound(k);
    PairCount(k.Keys, k.Keys, Missing(k, k));
    var end;
    more, end := PlayToClosure(k, now);
    if forall i :: 0 <= i < |rounds| ==> !rounds[i].reply.Dead() { SameClosure(Known(net), k, Known(end)); }
  }

  // ---- where nodes stop ----

  /** No round that can still be answered teaches any node an address. */
  ghost predicate AtRest(net: Network) {
    forall r :: CanSync(net, r) ==> Known(Advance(net, r)) == Known(net)
  }

  lemma RestIsQuiescence(net: Network)
    requires WellFormed(net)
    ensures AtRest(net) <==> Quiescent(Known(net))
  {
    var k := Known(net);
    if AtRest(net) {
      forall v, u | v in k && u in k[v] && u in k
        ensures Step(k, Sync(v, u, k[u])) == k
      {
        var r := PlayFullSync(net, Sync(v, u, k[u]));
        AnswerRefinesSync(net, r);
      }
    }
    if Quiescent(k) {
      forall r | CanSync(net, r)
        ensures Known(Advance(net, r)) == k
      {
        AnswerRefinesSync(net, r);
        PartialSync(k, AsContact(net, r));
      }
    }
  }

  /** A reply that is cut short teaches no more than a full one. */
  lemma PartialSync(k: Knows, s: Contact)
    requires Quiescent(k) && Enabled(k, s)
    ensures Step(k, s) == k
  {
    var v, u := s.asker, s.peer;
    assert Step(k, Sync(v, u, k[u])) == k;
    assert k[v] + {u} + k[u] == k[v];
    assert k[v] + {u} + s.relayed == k[v];
  }

  /** In every run, whatever the order of the rounds and whichever of them fail, no node knows
      an address it could not reach in the starting graph, and syncing changes nothing more
      exactly when what is known is its own closure. If no round fails, nothing is forgotten,
      and that closure is the one of the starting graph. */
  lemma GossipReachesExactlyTheClosure(net: Network, rounds: seq<Round>)
    requires WellFormed(net)
    ensures var now := NetworkAfter(net, rounds, |rounds|);
      var (g, k) := (Known(net), Known(now));
      && (forall v, b :: v in k && b in k[v] ==> Reaches(g, v, b))
      && (AtRest(now) <==> IsClosure(k, k))
      && ((forall i :: 0 <= i < |rounds| ==> !rounds[i].reply.Dead()) ==>
            (forall v :: v in g ==> v in k && g[v] <= k[v]) && (AtRest(now) <==> IsClosure(g, k)))
  {
    ReachedIsSound(net, rounds);
    var now := NetworkAfter(net, rounds, |rounds|);
    RestIsQuiescence(now);
    KnownIsClosed(now);
    StartIsSound(Known(now));
    QuiescentIffClosure(Known(now), Known(now));
    if forall i :: 0 <= i < |rounds| ==> !rounds[i].reply.Dead() { QuiescentIffClosure(Known(net), Known(now)); }
  }

  ghost predicate Teaches(net: Network, r: Round) {
    CanSync(net, r) && Known(Advance(net, r)) != Known(net)
  }

  ghost function Teaching(net: Network, rounds: seq<Round>): (r: seq<bool>)
    ensures |r| == |rounds|
    ensures forall i {:trigger r[i]} :: 0 <= i < |rounds| ==> r[i] == Teaches(NetworkAfter(net, rounds, i), rounds[i])
  {
    seq(|rounds|, i requires 0 <= i < |rounds| => Teaches(NetworkAfter(net, rounds, i), rounds[i]))
  }

  function Dead(rounds: seq<Round>): (r: seq<bool>)
    ensures |r| == |rounds| && forall i {:trigger r[i]} :: 0 <= i < |rounds| ==> r[i] == rounds[i].reply.Dead()
  {
    seq(|rounds|, i requires 0 <= i < |rounds| => rounds[i].reply.Dead())
  }

  lemma {:induction false} RoundLedger(net: Network, rounds: seq<Round>, n: nat)
    requires WellFormed(net) && n <= |rounds|
    ensures var now := NetworkAfter(net, rounds, n);
      && WellFormed(now) && Safe(Known(net), Known(now))
      && Count(Teaching(net, rounds), n) + |Missing(Known(net), Known(now))|
         <= |Missing(Known(net), Known(net))| + Count(Dead(rounds), n)
  {
    if n == 0 {
      KnownIsClosed(net);
      StartIsSound(Known(net));
    } else {
      RoundLedger(net, rounds, n - 1);
      RoundCost(Known(net), NetworkAfter(net, rounds, n - 1), rounds[n - 1]);
    }
  }

  lemma RoundCost(g: Knows, now: Network, r: Round)
    requires WellFormed(now) && Safe(g, Known(now))
    ensures var next := Advance(now, r);
      && WellFormed(next) && Safe(g, Known(next))
      && |Missing(g, Known(next))| + (if Teaches(now, r) then 1 else 0)
         <= |Missing(g, Known(now))| + (if r.reply.Dead() then 1 else 0)
  {
    if TakesPlace(now, r) {
      RoundRefinesContact(now, r);
      StepCost(g, Known(now), AsContact(now, r));
    }
  }

  /** In any run at most n^2 rounds teach some node an address, and one more for each round
      that fails. */
  lemma ProductiveRoundBound(net: Network, rounds: seq<Round>)
    requires WellFormed(net)
    ensures Count(Teaching(net, rounds), |rounds|)
         <= |net.pools.Keys| * |net.pools.Keys| + Count(Dead(rounds), |rounds|)
  {
    var g := Known(net);
    RoundLedger(net, rounds, |rounds|);
    KnownKeys(net);
    PairCount(g.Keys, g.Keys, Missing(g, g));
  }

  /** A round teaches something exactly when its answer adds an address to the asker's pool. */
  lemma TeachesExactlyWhen(net: Network, r: Round)
    requires WellFormed(net)
    ensures Teaches(net, r) <==>
      CanSync(net, r) && exists b :: b in Addrs(r.relayed) + {AddrOf(net.pools[r.asker][r.ix])}
                                     && b !in Addrs(net.pools[r.asker])
  {
    if CanSync(net, r) {
      AnswerTeaches(net, r);
      var was, news := Addrs(net.pools[r.asker]), {AddrOf(net.pools[r.asker][r.ix])} + Addrs(r.relayed);
      var k := Known(net);
      if news <= was {
        assert was + news == was && k[r.asker := was] == k;
      } else {
        var b :| b in news && b !in was;
        assert b in k[r.asker := was + news][r.asker];
      }
    }
  }

  // ---- the start ----

  /** The record a node inserts for the address its user enters: the address is its name, too. */
  function BootstrapRecord(a: Addr): NetworkNode
    requires a.port < 0x1_0000 && NUL !in a.ipaddr
  {
    NetworkNode(a.ipaddr, a.ipaddr, a.port)
  }

  /** Every pool is empty, or holds the one address its user entered, which is that of a node. */
  ghost predicate Bootstrapped(net: Network) {
    && net.nodes.Keys == net.pools.Keys
    && (forall a :: a in net.nodes ==>
          AddrOf(net.nodes[a].self) == a && CleanNode(net.nodes[a].self) && CleanFiles(net.nodes[a].files))
    && (forall a :: a in net.pools ==> net.pools[a] == [] || StartsWithOne(net, net.pools[a]))
  }

  ghost predicate StartsWithOne(net: Network, pool: seq<NetworkNode>) {
    exists b :: b in net.nodes && b.port < 0x1_0000 && NUL !in b.ipaddr && pool == [BootstrapRecord(b)]
  }

  /** Whatever clean nodes there are, and whichever of their addresses each user entered, or none:
      that is how a network starts. */
  lemma AnyBootstrap(nodes: map<Addr, Identity>, entered: map<Addr, Option<Addr>>)
    requires entered.Keys == nodes.Keys && forall a :: a in nodes && entered[a].Some? ==> entered[a].value in nodes
    requires forall a :: a in nodes ==>
      AddrOf(nodes[a].self) == a && CleanNode(nodes[a].self) && CleanFiles(nodes[a].files)
    ensures Bootstrapped(Network(nodes, map a | a in entered :: FirstPool(entered[a])))
  {
    var net := Network(nodes, map a | a in entered :: FirstPool(entered[a]));
    forall a | a in net.pools && net.pools[a] != []
      ensures StartsWithOne(net, net.pools[a])
    {
      var b := entered[a].value;
      assert AddrOf(nodes[b].self) == b;
    }
  }

  /** The pool a node starts with. */
  function FirstPool(entered: Option<Addr>): (pool: seq<NetworkNode>)
    ensures entered.None? ==> pool == []
    ensures entered.Some? && entered.value.port < 65536 && NUL !in entered.value.ipaddr ==>
      pool == [NetworkNode(entered.value.ipaddr, entered.value.ipaddr, entered.value.port)]
  {
    match entered
    case None => []
    case Some(a) => if a.port < 0x1_0000 && NUL !in a.ipaddr then [BootstrapRecord(a)] else []
  }

  /** A network in which every node has entered at most one address is one that gossip works on. */
  lemma BootstrapIsWellFormed(net: Network)
    requires Bootstrapped(net)
    ensures WellFormed(net)
  {
    forall a | a in net.pools
      ensures CleanPool(net.pools[a]) && Addrs(net.pools[a]) <= net.pools.Keys
    {
      if net.pools[a] != [] {
        var b :| b in net.nodes && b.port < 0x1_0000 && NUL !in b.ipaddr && net.pools[a] == [BootstrapRecord(b)];
        assert AddrOf(net.nodes[b].self) == b && CleanNode(net.nodes[b].self);
      }
    }
  }
}
